/**
 Applying a patch to a new directory (src/directory_fs.zig): rebuild, stage, verify, publish.

 The run is a step system over one file system, in which the source and the output's parent are
 two locations that may lie anywhere.  Every program step may fail, a write may leave anything
 behind, and between any two steps other processes may change anything that this call did not
 make, the source included.
 */
module Publish {
  import opened Wire
  import opened Metadata
  import opened Primitives
  import opened Snapshots
  import opened FileSystem
  import PathFilter
  import Paths

  /** What the patch says about reading: which rules filter the source, what is left out. */
  datatype Options = Options(rules: seq<PathFilter.Rule>, omit: Omit)

  /**
   One call: where it works, what decoding and applying its patch do, how a tree on disk looks to
   the two snapshot readers (nothing when reading is refused), and the identity of a snapshot
   (nothing when it is not valid).  The source is read with the rules, the stage without them.
   */
  datatype Call = Call(
    source: Location, parent: Location, output: bytes, staging: bytes,
    options: Option<Options>,
    rebuild: Snapshot -> Option<Snapshot>,
    readSource: (Disk, Options) -> Option<Snapshot>,
    readStage: (Disk, Omit) -> Option<Snapshot>,
    identity: Snapshot -> Option<Digest>)
  {
    function Stage(): (at: Location) ensures at != [] && Above(at) == parent { parent + [staging] }

    function Out(): (at: Location) ensures at != [] && Above(at) == parent { parent + [output] }
  }

  datatype Phase =
    | Start | CheckOutput | ReadOptions | ReadSource | Rebuild | CreateStage | OpenStage
    | Write | ReadStage | Compare | Rename | Cleanup | Failed | Done

  /**
   `foreign` records what there was at the start and what other processes have made of it since;
   no program step consults it.
   */
  datatype State = State(
    disk: Disk,
    foreign: Disk,
    phase: Phase,
    options: Options,
    seen: Snapshot,
    rebuilt: Snapshot,
    staged: Snapshot,
    ownsStage: bool)

  const FRESH: Node := Folder([])

  predicate BasenameOk(name: bytes) {
    Paths.ValidPath(name) && Paths.SLASH !in name
  }

  ghost predicate Initial(s: State) {
    s.phase == Start && !s.ownsStage && s.disk == s.foreign && Closed(s.disk)
  }

  /** An error return: the stage is cleaned up only if this call created it. */
  function Fail(s: State): State {
    s.(phase := if s.ownsStage then Cleanup else Failed)
  }

  function Advance(s: State, phase: Phase): State { s.(phase := phase) }

  /* ---------- Program steps ---------- */

  ghost predicate StartStep(c: Call, s: State, t: State) {
    if NamesOk(c) then t == Advance(s, CheckOutput) else t == Fail(s)
  }

  ghost predicate OptionsStep(c: Call, s: State, t: State) {
    match c.options
    case None => t == Fail(s)
    case Some(options) => t == s.(phase := ReadSource, options := options)
  }

  ghost predicate ReadSourceStep(c: Call, s: State, t: State) {
    match c.readSource(Subtree(s.disk, c.source), s.options)
    case None => t == Fail(s)
    case Some(seen) => t == s.(phase := Rebuild, seen := seen)
  }

  ghost predicate RebuildStep(c: Call, s: State, t: State) {
    match c.rebuild(s.seen)
    case None => t == Fail(s)
    case Some(rebuilt) => t == s.(phase := CreateStage, rebuilt := rebuilt)
  }

  ghost predicate CreateStep(c: Call, s: State, t: State) {
    // Creating a directory never replaces an existing name.
    if c.Stage() in s.disk || c.parent !in s.disk || !s.disk[c.parent].Folder? then t == Fail(s)
    else t == s.(phase := OpenStage, disk := s.disk[c.Stage() := FRESH], ownsStage := true)
  }

  ghost predicate WriteStep(c: Call, s: State, t: State) {
    // Any amount of writing at and below the stage, finished or not.
    exists tree :: IsTree(tree) && (t == Written(c, s, tree) || t == Advance(Written(c, s, tree), ReadStage))
  }

  function Written(c: Call, s: State, tree: Disk): State {
    s.(disk := Graft(s.disk, c.Stage(), tree))
  }

  ghost predicate ReadStageStep(c: Call, s: State, t: State) {
    match c.readStage(Subtree(s.disk, c.Stage()), s.options.omit)
    case None => t == Fail(s)
    case Some(staged) => t == s.(phase := Compare, staged := staged)
  }

  ghost predicate CompareStep(c: Call, s: State, t: State) {
    if c.identity(s.rebuilt).None? || c.identity(s.staged) != c.identity(s.rebuilt) then t == Fail(s)
    else t == Advance(s, Rename)
  }

  function Renamed(c: Call, d: Disk): Disk {
    Graft(Without(d, c.Stage()), c.Out(), Subtree(d, c.Stage()))
  }

  ghost predicate RenameStep(c: Call, s: State, t: State) {
    // Renaming never replaces an existing name either.
    if c.Out() in s.disk || c.Stage() !in s.disk then t == Fail(s)
    else t == s.(phase := Done, disk := Renamed(c, s.disk), ownsStage := false)
  }

  ghost predicate CleanupStep(c: Call, s: State, t: State) {
    // Deletion may get anywhere before it fails; its error is ignored.
    || t == s.(phase := Failed, disk := Without(s.disk, c.Stage()))
    || exists tree :: IsTree(tree) && t == Advance(Written(c, s, tree), Failed)
  }

  ghost predicate Works(c: Call, s: State, t: State) {
    match s.phase
    case Start => StartStep(c, s, t)
    case CheckOutput => if c.Out() in s.disk then t == Fail(s) else t == Advance(s, ReadOptions)
    case ReadOptions => OptionsStep(c, s, t)
    case ReadSource => ReadSourceStep(c, s, t)
    case Rebuild => RebuildStep(c, s, t)
    case CreateStage => CreateStep(c, s, t)
    case OpenStage => t == Advance(s, Write)
    case Write => WriteStep(c, s, t)
    case ReadStage => ReadStageStep(c, s, t)
    case Compare => CompareStep(c, s, t)
    case Rename => RenameStep(c, s, t)
    case Cleanup => CleanupStep(c, s, t)
    case Failed => false
    case Done => false
  }

  /** Any step of the call may also fail for reasons of its own. */
  ghost predicate ProgramStep(c: Call, s: State, t: State) {
    || Works(c, s, t)
    || (!s.phase.Cleanup? && !s.phase.Failed? && !s.phase.Done? && t == Fail(s))
  }

  /* ---------- The environment ---------- */

  /** What this call has made and still holds. */
  predicate Ours(c: Call, s: State, k: Location) {
    (s.phase.Done? && Within(k, c.Out())) || (s.ownsStage && Within(k, c.Stage()))
  }

  ghost predicate Puts(c: Call, s: State, t: State, k: Location, node: Node) {
    && !Ours(c, s, k) && Closed(s.disk[k := node])
    && t == s.(disk := s.disk[k := node], foreign := s.foreign[k := node])
  }

  ghost predicate Drops(c: Call, s: State, t: State, k: Location) {
    && !Ours(c, s, k) && Closed(s.disk - {k})
    && t == s.(disk := s.disk - {k}, foreign := s.foreign - {k})
  }

  /** Other processes create, change and remove whatever is not ours, one node at a time. */
  ghost predicate EnvironmentStep(c: Call, s: State, t: State) {
    || (exists k, node :: Puts(c, s, t, k, node))
    || (exists k :: Drops(c, s, t, k))
  }

  ghost predicate Step(c: Call, s: State, t: State) {
    ProgramStep(c, s, t) || EnvironmentStep(c, s, t)
  }

  ghost predicate Run(c: Call, run: seq<State>) {
    && run != [] && Initial(run[0])
    && forall i :: 0 < i < |run| ==> Step(c, run[i - 1], run[i])
  }

  /* ---------- The invariant ---------- */

  predicate NamesOk(c: Call) { c.output != c.staging && BasenameOk(c.output) && BasenameOk(c.staging) }

  predicate Staged(phase: Phase) {
    || phase.OpenStage? || phase.Write? || phase.ReadStage? || phase.Compare? || phase.Rename? || phase.Cleanup?
  }

  /** Foreign nodes are as their owners left them, and everything else there is ours. */
  ghost predicate Shared(c: Call, s: State) {
    && (forall k :: k in s.foreign ==> k in s.disk && s.disk[k] == s.foreign[k] && !Ours(c, s, k))
    && (forall k :: k in s.disk && k !in s.foreign ==> Ours(c, s, k))
  }

  /** What is ours is where it should be. */
  ghost predicate Held(c: Call, s: State) {
    && Closed(s.disk)
    && (s.ownsStage ==> NamesOk(c) && (Staged(s.phase) || s.phase.Failed?))
    && (Staged(s.phase) ==> s.ownsStage && c.Stage() in s.disk && s.disk[c.Stage()].Folder?)
    && (s.phase.Done? ==> !s.ownsStage && c.Out() in s.disk)
  }

  predicate AfterReading(phase: Phase) {
    || phase.Rebuild? || phase.CreateStage? || phase.OpenStage? || phase.Write? || phase.ReadStage?
    || phase.Compare? || phase.Rename? || phase.Done?
  }

  /** What the call has established on the way. */
  ghost predicate Progressed(c: Call, s: State) {
    && (!s.phase.Start? && !s.phase.Failed? ==> NamesOk(c))
    && (s.phase.ReadSource? || AfterReading(s.phase) ==> c.options == Some(s.options))
    && (AfterReading(s.phase) && !s.phase.Rebuild? ==> c.rebuild(s.seen) == Some(s.rebuilt))
  }

  ghost predicate Matches(c: Call, s: State, at: Location) {
    && var read := c.readStage(Subtree(s.disk, at), s.options.omit);
    && read.Some? && c.identity(s.rebuilt).Some? && c.identity(read.value) == c.identity(s.rebuilt)
  }

  /** What has been verified is what is there. */
  ghost predicate Verified(c: Call, s: State) {
    && (s.phase.Compare? || s.phase.Rename? ==>
          c.readStage(Subtree(s.disk, c.Stage()), s.options.omit) == Some(s.staged))
    && (s.phase.Rename? ==> Matches(c, s, c.Stage()))
    && (s.phase.Done? ==> Matches(c, s, c.Out()))
  }

  ghost predicate Invariant(c: Call, s: State) {
    Shared(c, s) && Held(c, s) && Progressed(c, s) && Verified(c, s)
  }

  lemma InitialHolds(c: Call, s: State)
    requires Initial(s)
    ensures Invariant(c, s)
  {
    hide Closed;
  }

  /* ---------- What a step may do to the disk ---------- */

  /** Only locations that are ours, before or after, are affected. */
  ghost predicate OnlyOurs(c: Call, s: State, t: State) {
    forall k :: !Ours(c, s, k) && !Ours(c, t, k) ==>
      (k in s.disk <==> k in t.disk) && (k in s.disk ==> s.disk[k] == t.disk[k])
  }

  /** Nothing foreign becomes ours, and what stops being ours is gone. */
  ghost predicate Separate(c: Call, s: State, t: State) {
    && (forall k :: Ours(c, t, k) ==> k !in s.foreign)
    && (forall k :: Ours(c, s, k) && !Ours(c, t, k) ==> k !in t.disk)
  }

  lemma SharedAfter(c: Call, s: State, t: State)
    requires Shared(c, s) && t.foreign == s.foreign && OnlyOurs(c, s, t) && Separate(c, s, t)
    ensures Shared(c, t)
  {
    hide Ours;
  }

  lemma OursUnchanged(c: Call, s: State, t: State)
    requires Shared(c, s) && t.disk == s.disk && t.foreign == s.foreign
    requires t.ownsStage == s.ownsStage && t.phase.Done? == s.phase.Done?
    ensures Shared(c, t) && OnlyOurs(c, s, t)
  {
    hide Within;
  }

  /** A whole tree put in the stage, or nothing left of it. */
  ghost predicate Restaged(c: Call, d: Disk, e: Disk) {
    e == Without(d, c.Stage()) || exists tree :: IsTree(tree) && e == Graft(d, c.Stage(), tree)
  }

  lemma RestagedDisk(c: Call, d: Disk, e: Disk)
    requires Closed(d) && c.Stage() in d && Restaged(c, d, e)
    ensures Closed(e)
    ensures forall k :: !Within(k, c.Stage()) ==> (k in d <==> k in e) && (k in d ==> d[k] == e[k])
  {
    hide Graft, Closed, Within;
    if e == Without(d, c.Stage()) {
      WithoutClosed(d, c.Stage());
    } else {
      var tree :| IsTree(tree) && e == Graft(d, c.Stage(), tree);
      GraftMeans(d, c.Stage(), tree);
      StageAbove(c, d);
      GraftClosed(d, c.Stage(), tree);
    }
  }

  lemma StageAbove(c: Call, d: Disk)
    requires Closed(d) && c.Stage() in d
    ensures c.parent in d && d[c.parent].Folder?
  {
    assert Above(c.Stage()) == c.parent;
  }

  lemma RestagedShared(c: Call, s: State, t: State)
    requires Shared(c, s) && Closed(s.disk) && s.ownsStage && t.ownsStage && c.Stage() in s.disk
    requires t.foreign == s.foreign && Restaged(c, s.disk, t.disk) && !s.phase.Done? && !t.phase.Done?
    ensures Shared(c, t) && OnlyOurs(c, s, t) && Closed(t.disk)
  {
    hide Within, Closed, Restaged;
    RestagedDisk(c, s.disk, t.disk);
    assert forall k :: Ours(c, s, k) == Ours(c, t, k);
    SharedAfter(c, s, t);
  }

  lemma CreatedShared(c: Call, s: State, t: State)
    requires Shared(c, s) && Closed(s.disk) && !s.ownsStage && t.ownsStage && c.Stage() !in s.disk
    requires c.parent in s.disk && s.disk[c.parent].Folder? && !s.phase.Done? && !t.phase.Done?
    requires t.foreign == s.foreign && t.disk == s.disk[c.Stage() := FRESH]
    ensures Shared(c, t) && OnlyOurs(c, s, t) && Closed(t.disk)
  {
    NothingBelow(s.disk, c.Stage());
    assert Within(c.Stage(), c.Stage());
    assert Closed(t.disk) by {
      assert Above(c.Stage()) == c.parent;
    }
    hide Within, Closed;
    SharedAfter(c, s, t);
  }

  /** The two locations of a call with different names lie side by side. */
  lemma SideBySide(c: Call, k: Location)
    requires c.output != c.staging
    ensures !Within(k, c.Out()) || !Within(k, c.Stage())
  {
    assert c.Out()[|c.parent|] == c.output && c.Stage()[|c.parent|] == c.staging;
  }

  /** What renaming does: the stage's tree is at the output, and nothing else has moved. */
  ghost predicate Moved(c: Call, d: Disk, e: Disk) {
    && Subtree(e, c.Out()) == Subtree(d, c.Stage()) && c.Out() in e
    && (forall k :: Within(k, c.Stage()) ==> k !in e)
    && (forall k :: Within(k, c.Out()) ==> k !in d)
    && (forall k :: !Within(k, c.Stage()) && !Within(k, c.Out()) ==>
          (k in d <==> k in e) && (k in d ==> d[k] == e[k]))
  }

  lemma RenamedDisk(c: Call, d: Disk)
    requires Closed(d) && c.output != c.staging && c.Stage() in d && d[c.Stage()].Folder? && c.Out() !in d
    ensures Moved(c, d, Renamed(c, d)) && Closed(Renamed(c, d))
  {
    hide Graft, Subtree, Closed;
    var tree, rest := Subtree(d, c.Stage()), Without(d, c.Stage());
    SubtreeIsTree(d, c.Stage());
    assert c.Out()[|c.Out()|..] == [];
    NothingBelow(d, c.Out());
    forall k: Location ensures !Within(k, c.Out()) || !Within(k, c.Stage()) {
      SideBySide(c, k);
    }
    GraftMeans(rest, c.Out(), tree);
    SubtreeOfGraft(rest, c.Out(), tree);
    StageAbove(c, d);
    assert !Within(c.parent, c.Stage());
    WithoutClosed(d, c.Stage());
    GraftClosed(rest, c.Out(), tree);
  }

  lemma RenamedShared(c: Call, s: State, t: State)
    requires Shared(c, s) && s.ownsStage && !t.ownsStage && !s.phase.Done? && t.phase.Done?
    requires t.foreign == s.foreign && Moved(c, s.disk, t.disk)
    ensures Shared(c, t) && OnlyOurs(c, s, t)
  {
    hide Within, Subtree;
    SharedAfter(c, s, t);
  }

  /* ---------- Every step keeps the invariant ---------- */

  lemma PutShared(c: Call, s: State, t: State, k: Location, node: Node)
    requires Shared(c, s) && Puts(c, s, t, k, node)
    ensures Shared(c, t) && SameOurs(c, s, t)
  {
    hide Within, Closed;
  }

  lemma DropShared(c: Call, s: State, t: State, k: Location)
    requires Shared(c, s) && Drops(c, s, t, k)
    ensures Shared(c, t) && SameOurs(c, s, t)
  {
    hide Within, Closed;
  }

  ghost predicate SameOurs(c: Call, s: State, t: State) {
    forall k :: Ours(c, s, k) ==> (k in s.disk <==> k in t.disk) && (k in s.disk ==> s.disk[k] == t.disk[k])
  }

  lemma StageUntouched(c: Call, s: State, t: State)
    requires SameOurs(c, s, t) && s.ownsStage
    ensures Subtree(s.disk, c.Stage()) == Subtree(t.disk, c.Stage())
    ensures c.Stage() in s.disk ==> c.Stage() in t.disk && t.disk[c.Stage()] == s.disk[c.Stage()]
  {
    hide Subtree;
    assert Within(c.Stage(), c.Stage());
    assert SameBelow(s.disk, t.disk, c.Stage());
    SameSubtree(s.disk, t.disk, c.Stage());
  }

  lemma OutUntouched(c: Call, s: State, t: State)
    requires SameOurs(c, s, t) && s.phase.Done?
    ensures Subtree(s.disk, c.Out()) == Subtree(t.disk, c.Out())
    ensures c.Out() in s.disk ==> c.Out() in t.disk
  {
    hide Subtree;
    assert Within(c.Out(), c.Out());
    assert SameBelow(s.disk, t.disk, c.Out());
    SameSubtree(s.disk, t.disk, c.Out());
  }

  /** A change elsewhere leaves our own tree alone. */
  lemma ElsewhereKeeps(c: Call, s: State, t: State)
    requires Invariant(c, s) && t == s.(disk := t.disk, foreign := t.foreign)
    requires SameOurs(c, s, t) && Closed(t.disk) && Shared(c, t)
    ensures Invariant(c, t)
  {
    hide BasenameOk, Shared, Closed, Within, Subtree, SameOurs;
    if s.ownsStage {
      StageUntouched(c, s, t);
    }
    if s.phase.Done? {
      OutUntouched(c, s, t);
    }
  }

  lemma EnvironmentKeeps(c: Call, s: State, t: State)
    requires Invariant(c, s) && EnvironmentStep(c, s, t)
    ensures Invariant(c, t)
  {
    hide Held, Progressed, Verified, Shared, Ours, Closed, SameOurs;
    if k, node :| Puts(c, s, t, k, node) {
      PutShared(c, s, t, k, node);
    } else {
      var k :| Drops(c, s, t, k);
      DropShared(c, s, t, k);
    }
    ElsewhereKeeps(c, s, t);
  }

  lemma FailKeeps(c: Call, s: State)
    requires Invariant(c, s) && !s.phase.Cleanup? && !s.phase.Failed? && !s.phase.Done?
    ensures Invariant(c, Fail(s)) && OnlyOurs(c, s, Fail(s))
  {
    hide BasenameOk, Closed, Within, Shared, OnlyOurs;
    OursUnchanged(c, s, Fail(s));
  }

  /** The phases whose work does not touch the disk. */
  predicate LeavesDisk(phase: Phase) {
    !phase.CreateStage? && !phase.Write? && !phase.Rename? && !phase.Cleanup? && !phase.Failed? && !phase.Done?
  }

  lemma EarlyKeeps(c: Call, s: State, t: State)
    requires Invariant(c, s) && Works(c, s, t) && LeavesDisk(s.phase)
    ensures Invariant(c, t) && OnlyOurs(c, s, t)
  {
    hide Shared, OnlyOurs, Held, Progressed, Verified, Works;
    if t == Fail(s) {
      FailKeeps(c, s);
    } else {
      EarlyMoves(c, s, t);
      OursUnchanged(c, s, t);
      EarlyProgress(c, s, t);
      EarlyVerified(c, s, t);
    }
  }

  /** Such a step only advances and remembers. */
  lemma EarlyMoves(c: Call, s: State, t: State)
    requires Held(c, s) && Works(c, s, t) && LeavesDisk(s.phase) && t != Fail(s)
    ensures Held(c, t) && t.disk == s.disk && t.foreign == s.foreign
    ensures t.ownsStage == s.ownsStage && !s.phase.Done? && !t.phase.Done?
  {
    hide BasenameOk, Closed, Within, Subtree, WriteStep, CreateStep, RenameStep, CleanupStep;
  }

  lemma EarlyProgress(c: Call, s: State, t: State)
    requires Progressed(c, s) && Works(c, s, t) && LeavesDisk(s.phase) && t != Fail(s)
    ensures Progressed(c, t)
  {
    hide BasenameOk, Subtree, WriteStep, CreateStep, RenameStep, CleanupStep;
  }

  lemma EarlyVerified(c: Call, s: State, t: State)
    requires Verified(c, s) && Works(c, s, t) && LeavesDisk(s.phase) && t != Fail(s)
    ensures Verified(c, t)
  {
    hide NamesOk, Subtree, WriteStep, CreateStep, RenameStep, CleanupStep;
  }

  lemma CreateKeeps(c: Call, s: State, t: State)
    requires Invariant(c, s) && s.phase == CreateStage && CreateStep(c, s, t)
    ensures Invariant(c, t) && OnlyOurs(c, s, t)
  {
    hide BasenameOk, Closed, Within, Shared, OnlyOurs, Subtree;
    if t == Fail(s) {
      FailKeeps(c, s);
    } else {
      CreatedShared(c, s, t);
    }
  }

  lemma WriteKeeps(c: Call, s: State, t: State)
    requires Invariant(c, s) && s.phase == Write && WriteStep(c, s, t)
    ensures Invariant(c, t) && OnlyOurs(c, s, t)
  {
    hide BasenameOk, Closed, Within, Shared, OnlyOurs, Subtree, Graft;
    var tree :| IsTree(tree) && (t == Written(c, s, tree) || t == Advance(Written(c, s, tree), ReadStage));
    assert Restaged(c, s.disk, t.disk);
    RestagedShared(c, s, t);
    StageFilled(c, s.disk, tree);
  }

  lemma StageFilled(c: Call, d: Disk, tree: Disk)
    requires IsTree(tree)
    ensures c.Stage() in Graft(d, c.Stage(), tree) && Graft(d, c.Stage(), tree)[c.Stage()].Folder?
  {
    hide Graft;
    GraftMeans(d, c.Stage(), tree);
    assert c.Stage()[|c.Stage()|..] == [];
  }

  lemma CleanupKeeps(c: Call, s: State, t: State)
    requires Invariant(c, s) && s.phase == Cleanup && CleanupStep(c, s, t)
    ensures Invariant(c, t) && OnlyOurs(c, s, t)
  {
    hide BasenameOk, Closed, Within, Shared, OnlyOurs, Subtree, Graft, Without;
    assert Restaged(c, s.disk, t.disk);
    RestagedShared(c, s, t);
  }

  lemma RenameKeeps(c: Call, s: State, t: State)
    requires Invariant(c, s) && s.phase == Rename && RenameStep(c, s, t)
    ensures Invariant(c, t) && OnlyOurs(c, s, t)
  {
    hide BasenameOk, Closed, Within, Shared, OnlyOurs, Subtree, Renamed;
    if t == Fail(s) {
      FailKeeps(c, s);
    } else {
      RenamedDisk(c, s.disk);
      RenamedShared(c, s, t);
    }
  }

  lemma WorkKeeps(c: Call, s: State, t: State)
    requires Invariant(c, s) && Works(c, s, t)
    ensures Invariant(c, t) && OnlyOurs(c, s, t)
  {
    hide Invariant, BasenameOk, OnlyOurs;
    if s.phase == Rename {
      RenameKeeps(c, s, t);
    } else if s.phase == Cleanup {
      CleanupKeeps(c, s, t);
    } else if s.phase == CreateStage {
      CreateKeeps(c, s, t);
    } else if s.phase == Write {
      WriteKeeps(c, s, t);
    } else {
      EarlyKeeps(c, s, t);
    }
  }

  /** A program step keeps the invariant and affects nothing but what is ours. */
  lemma ProgramKeeps(c: Call, s: State, t: State)
    requires Invariant(c, s) && ProgramStep(c, s, t)
    ensures Invariant(c, t) && OnlyOurs(c, s, t) && t.foreign == s.foreign
  {
    hide Invariant, OnlyOurs;
    if Works(c, s, t) {
      WorkKeeps(c, s, t);
    } else {
      FailKeeps(c, s);
    }
  }

  lemma StepKeeps(c: Call, s: State, t: State)
    requires Invariant(c, s) && Step(c, s, t)
    ensures Invariant(c, t)
  {
    hide Invariant, ProgramStep;
    if ProgramStep(c, s, t) {
      ProgramKeeps(c, s, t);
    } else {
      EnvironmentKeeps(c, s, t);
    }
  }

  /* ---------- Every state of every run ---------- */

  lemma {:induction false} EveryState(c: Call, run: seq<State>, i: nat)
    requires Run(c, run) && i < |run|
    ensures Invariant(c, run[i])
  {
    hide Invariant, Step;
    if i == 0 {
      InitialHolds(c, run[0]);
    } else {
      EveryState(c, run, i - 1);
      StepKeeps(c, run[i - 1], run[i]);
    }
  }

  ghost predicate SeenSince(c: Call, s: State, t: State) {
    && t.options == s.options
    && (|| (s.phase == ReadSource && c.readSource(Subtree(s.disk, c.source), t.options) == Some(t.seen))
        || (AfterReading(s.phase) && t.seen == s.seen))
  }

  lemma EarlySees(c: Call, s: State, t: State)
    requires Works(c, s, t) && AfterReading(t.phase) && LeavesDisk(s.phase)
    ensures SeenSince(c, s, t)
  {
    hide Subtree, NamesOk, WriteStep, CreateStep, RenameStep, CleanupStep;
  }

  lemma StagingSees(c: Call, s: State, t: State)
    requires (s.phase.CreateStage? && CreateStep(c, s, t)) || (s.phase.Rename? && RenameStep(c, s, t))
    requires AfterReading(t.phase)
    ensures SeenSince(c, s, t)
  {
    hide Subtree, Renamed;
  }

  lemma WritingSees(c: Call, s: State, t: State)
    requires (s.phase.Write? && WriteStep(c, s, t)) || (s.phase.Cleanup? && CleanupStep(c, s, t))
    requires AfterReading(t.phase)
    ensures SeenSince(c, s, t)
  {
    hide Subtree, Graft, Without, IsTree;
  }

  lemma WorkSees(c: Call, s: State, t: State)
    requires Works(c, s, t) && AfterReading(t.phase)
    ensures SeenSince(c, s, t)
  {
    hide SeenSince, CreateStep, RenameStep, WriteStep, CleanupStep, ReadSourceStep, OptionsStep, RebuildStep,
      ReadStageStep, CompareStep, StartStep;
    if LeavesDisk(s.phase) {
      EarlySees(c, s, t);
    } else if s.phase.CreateStage? || s.phase.Rename? {
      StagingSees(c, s, t);
    } else {
      WritingSees(c, s, t);
    }
  }

  lemma SeenStays(c: Call, s: State, t: State)
    requires Step(c, s, t) && AfterReading(t.phase)
    ensures SeenSince(c, s, t)
  {
    hide Closed, Ours, Works, Subtree;
    if Works(c, s, t) {
      WorkSees(c, s, t);
    }
  }

  /** Where the snapshot that was rebuilt from came from: the source, as it stood when it was read. */
  lemma {:induction false} SeenWhen(c: Call, run: seq<State>, i: nat) returns (j: nat)
    requires Run(c, run) && i < |run| && AfterReading(run[i].phase)
    ensures j < i && run[j].phase == ReadSource && run[j].options == run[i].options
    ensures c.readSource(Subtree(run[j].disk, c.source), run[i].options) == Some(run[i].seen)
  {
    hide Step;
    var s := run[i - 1];
    SeenStays(c, s, run[i]);
    if s.phase == ReadSource {
      j := i - 1;
    } else {
      j := SeenWhen(c, run, i - 1);
    }
  }

  /* ---------- Safety ---------- */

  /** A program step leaves every foreign node exactly as it found it. */
  lemma ProgramLeavesOthers(c: Call, run: seq<State>, i: nat)
    requires Run(c, run) && i + 1 < |run| && ProgramStep(c, run[i], run[i + 1])
    ensures run[i + 1].foreign == run[i].foreign
    ensures forall k :: k in run[i].foreign ==>
              && k in run[i].disk && k in run[i + 1].disk
              && run[i + 1].disk[k] == run[i].disk[k] == run[i].foreign[k]
  {
    hide Ours, Held, Progressed, Verified, ProgramStep;
    EveryState(c, run, i);
    ProgramKeeps(c, run[i], run[i + 1]);
  }

  /**
   Staged publication is safe.  In every state of every run: whatever other processes have made
   is there as they left it, and nothing else is, except below our own stage or output.  If the
   output holds anything of ours, the call is done, and the tree there reads back with the
   identity of what was rebuilt from the source as it stood when it was read.
   */
  lemma Safety(c: Call, run: seq<State>, i: nat)
    requires Run(c, run) && i < |run|
    ensures var s := run[i];
            && (forall k :: k in s.foreign ==> k in s.disk && s.disk[k] == s.foreign[k] && !Ours(c, s, k))
            && (forall k :: k in s.disk && k !in s.foreign ==> Ours(c, s, k))
            && (c.Out() in s.disk && c.Out() !in s.foreign ==>
                  && s.phase == Done && c.options == Some(s.options) && Matches(c, s, c.Out())
                  && c.rebuild(s.seen) == Some(s.rebuilt) && ReadDuring(c, run, i))
  {
    hide Subtree, Closed, BasenameOk, Matches, Step;
    EveryState(c, run, i);
    var s := run[i];
    if c.Out() in s.disk && c.Out() !in s.foreign {
      assert s.phase == Done by {
        assert Within(c.Out(), c.Out());
        if s.ownsStage {
          SideBySide(c, c.Out());
        }
      }
      var j := SeenWhen(c, run, i);
    }
  }

  /** The snapshot rebuilt from was read from the source in some earlier state. */
  ghost predicate ReadDuring(c: Call, run: seq<State>, i: nat)
    requires i < |run|
  {
    exists j :: 0 <= j < i && c.readSource(Subtree(run[j].disk, c.source), run[i].options) == Some(run[i].seen)
  }

  /** A call that failed has published nothing; all that can be left is its own stage. */
  lemma FailureLeavesNoOutput(c: Call, run: seq<State>, i: nat)
    requires Run(c, run) && i < |run| && run[i].phase == Failed
    ensures forall k :: k in run[i].disk && k !in run[i].foreign ==> run[i].ownsStage && Within(k, c.Stage())
  {
    hide BasenameOk, Closed, Within, Step;
    EveryState(c, run, i);
  }

  /** A call that succeeded has left exactly one new tree, the output. */
  lemma SuccessLeavesOneTree(c: Call, run: seq<State>, i: nat)
    requires Run(c, run) && i < |run| && run[i].phase == Done
    ensures c.Out() in run[i].disk
    ensures forall k :: k in run[i].disk && k !in run[i].foreign ==> Within(k, c.Out())
    ensures forall k :: k in run[i].foreign ==> !Within(k, c.Out())
  {
    hide BasenameOk, Closed, Within, Step;
    EveryState(c, run, i);
  }

  /* ---------- Cleaning up ---------- */

  /** A call that ends in failure with its stage still its own has tried to remove it. */
  lemma {:induction false} FailsThroughCleanup(c: Call, run: seq<State>, i: nat) returns (j: nat)
    requires Run(c, run) && i < |run| && run[i].phase == Failed && run[i].ownsStage
    ensures j < i && run[j].phase == Cleanup
  {
    hide Step;
    var s := run[i - 1];
    EndsInCleanup(c, s, run[i]);
    if s.phase == Cleanup {
      j := i - 1;
    } else {
      j := FailsThroughCleanup(c, run, i - 1);
    }
  }

  lemma EndsInCleanup(c: Call, s: State, t: State)
    requires Step(c, s, t) && t.phase == Failed && t.ownsStage
    ensures s.ownsStage && (s.phase == Cleanup || s.phase == Failed)
  {
    hide Subtree, Closed, Graft, Without, NamesOk, IsTree, Ours, Renamed;
    if Works(c, s, t) {
      WorkEndsInCleanup(c, s, t);
    }
  }

  lemma WorkEndsInCleanup(c: Call, s: State, t: State)
    requires Works(c, s, t) && t.phase == Failed && t.ownsStage
    ensures s.ownsStage && s.phase == Cleanup
  {
    hide Subtree, Graft, Without, NamesOk, IsTree, Renamed;
  }

  /** From wherever the call holds a stage it can fail and leave the disk as other processes have it. */
  lemma CanCleanUp(c: Call, run: seq<State>) returns (more: seq<State>)
    requires Run(c, run) && Staged(run[|run| - 1].phase)
    ensures Run(c, run + more) && more != []
    ensures var last := more[|more| - 1]; last.phase == Failed && last.disk == last.foreign == run[|run| - 1].foreign
  {
    var s := run[|run| - 1];
    hide Run, Works, Invariant;
    var u := s.(phase := Cleanup);
    var t := u.(phase := Failed, disk := Without(u.disk, c.Stage()));
    CleanedDisk(c, run, t);
    if s.phase == Cleanup {
      assert u == s;
      assert Works(c, s, t) by { CleanupWorks(c, u, t); }
      Extend(c, run, t);
      more := [t];
    } else {
      ExtendFailing(c, run);
      assert Works(c, u, t) by { CleanupWorks(c, u, t); }
      var next := run + [u];
      Extend(c, next, t);
      assert next + [t] == run + [u, t];
      more := [u, t];
    }
  }

  lemma CleanupWorks(c: Call, u: State, t: State)
    requires u.phase == Cleanup && t == u.(phase := Failed, disk := Without(u.disk, c.Stage()))
    ensures Works(c, u, t)
  {
    assert CleanupStep(c, u, t);
  }

  lemma ExtendFailing(c: Call, run: seq<State>)
    requires Run(c, run) && Staged(run[|run| - 1].phase) && run[|run| - 1].phase != Cleanup
    ensures Run(c, run + [run[|run| - 1].(phase := Cleanup)])
  {
    hide Works, EnvironmentStep;
    var s := run[|run| - 1];
    EveryState(c, run, |run| - 1);
    var t := s.(phase := Cleanup);
    assert ProgramStep(c, s, t);
    var all := run + [t];
    forall i | 0 < i < |all| ensures Step(c, all[i - 1], all[i]) {
      if i < |run| {
        assert Step(c, run[i - 1], run[i]);
      }
    }
  }

  lemma CleanedDisk(c: Call, run: seq<State>, t: State)
    requires Run(c, run) && Staged(run[|run| - 1].phase)
    requires var s := run[|run| - 1]; t.foreign == s.foreign && t.disk == Without(s.disk, c.Stage())
    ensures t.disk == t.foreign
  {
    hide Closed, Progressed, Verified, Within, Step, Without;
    var s := run[|run| - 1];
    EveryState(c, run, |run| - 1);
    WithoutMeans(s.disk, c.Stage());
    assert forall k :: k in t.disk <==> k in t.foreign;
  }

  /** An output that is there when it is looked for ends the call before it touches anything. */
  lemma {:induction false} ExistingOutputRefused(c: Call, run: seq<State>, i: nat, j: nat)
    requires Run(c, run) && i < j < |run| && run[i].phase == CheckOutput && c.Out() in run[i].disk
    requires ProgramStep(c, run[i], run[i + 1])
    ensures run[j].phase == Failed && !run[j].ownsStage && run[j].disk == run[j].foreign
    decreases j
  {
    hide Closed, Within, Subtree, NamesOk;
    EveryState(c, run, j);
    if j == i + 1 {
      EveryState(c, run, i);
    } else {
      ExistingOutputRefused(c, run, i, j - 1);
      assert Step(c, run[j - 1], run[j]);
    }
    var s := run[j];
    assert forall k :: k in s.disk <==> k in s.foreign;
  }

  /* ---------- The source ---------- */

  /** The output is to be created in the source itself or somewhere below it. */
  predicate Inside(c: Call) { Within(c.parent, c.source) }

  /** What is ours lies below the source if and only if the parent does. */
  lemma OursInside(c: Call, s: State, k: Location)
    requires Ours(c, s, k)
    ensures Inside(c) ==> Within(k, c.source)
    ensures Within(k, c.source) ==> Inside(c) || Ours(c, s, c.source)
  {
    if s.phase.Done? && Within(k, c.Out()) {
      Comparable(c, c.Out(), k);
    } else {
      Comparable(c, c.Stage(), k);
    }
  }

  lemma Comparable(c: Call, at: Location, k: Location)
    requires at != [] && Above(at) == c.parent && Within(k, at)
    ensures Inside(c) ==> Within(k, c.source)
    ensures Within(k, c.source) ==> Inside(c) || Within(c.source, at)
  {
    assert at <= k;
    if Within(k, c.source) {
      if |c.source| < |at| {
        assert c.source == k[..|c.source|] == c.parent[..|c.source|];
      } else {
        assert at == k[..|at|] == c.source[..|at|];
      }
    }
  }

  /** Everything at or below the source is as other processes made it. */
  ghost predicate SourceIsTheirs(c: Call, s: State) {
    forall k :: Within(k, c.source) && k in s.disk ==> k in s.foreign && s.disk[k] == s.foreign[k]
  }

  /**
   In every state of every run in which the source is still there: all of it is as other processes
   made it, if and only if the output's parent is not the source or beneath it, or nothing of ours
   is there yet.
   */
  lemma SourceIntact(c: Call, run: seq<State>, i: nat)
    requires Run(c, run) && i < |run| && c.source in run[i].foreign
    ensures SourceIsTheirs(c, run[i]) <==> !Inside(c) || run[i].disk.Keys == run[i].foreign.Keys
  {
    hide Held, Progressed, Verified, Within, Ours, Step, Inside;
    EveryState(c, run, i);
    var s := run[i];
    forall k | k in s.disk && k !in s.foreign ensures Within(k, c.source) <==> Inside(c) {
      OursInside(c, s, k);
    }
    if Inside(c) && SourceIsTheirs(c, s) {
      assert forall k :: k in s.disk <==> k in s.foreign;
    }
  }

  /**
   No program step changes the source while it is there, if and only if the output's parent is not
   the source or beneath it: inside, every change to the disk is a change to the source.
   */
  lemma SourceKept(c: Call, run: seq<State>, i: nat)
    requires Run(c, run) && i + 1 < |run| && ProgramStep(c, run[i], run[i + 1]) && c.source in run[i].foreign
    ensures SameBelow(run[i].disk, run[i + 1].disk, c.source) <==> !Inside(c) || run[i].disk == run[i + 1].disk
  {
    hide Held, Progressed, Verified, Within, Ours, Step, Inside, ProgramStep;
    EveryState(c, run, i);
    var s, t := run[i], run[i + 1];
    ProgramKeeps(c, s, t);
    forall k | Ours(c, s, k) || Ours(c, t, k) ensures Within(k, c.source) <==> Inside(c) {
      if Ours(c, s, k) {
        OursInside(c, s, k);
      } else {
        OursInside(c, t, k);
      }
    }
    if Inside(c) && SameBelow(s.disk, t.disk, c.source) {
      assert forall k :: k in s.disk <==> k in t.disk;
    }
  }

  /* ---------- The call can succeed ---------- */

  lemma Extend(c: Call, run: seq<State>, t: State)
    requires Run(c, run) && Works(c, run[|run| - 1], t)
    ensures Run(c, run + [t])
  {
    hide Works, EnvironmentStep;
    var all := run + [t];
    forall i | 0 < i < |all| ensures Step(c, all[i - 1], all[i]) {
      if i < |run| {
        assert Step(c, run[i - 1], run[i]);
      } else {
        assert ProgramStep(c, all[i - 1], all[i]);
      }
    }
  }

  lemma SingleRun(c: Call, s: State)
    requires Initial(s)
    ensures Run(c, [s])
  {
  }

  /** Room for the output: its parent is a directory and neither name is taken. */
  predicate Room(c: Call, d: Disk) {
    c.parent in d && d[c.parent].Folder? && c.Out() !in d && c.Stage() !in d
  }

  lemma ReachStage(c: Call, s: State, options: Options, seen: Snapshot, rebuilt: Snapshot) returns (run: seq<State>)
    requires Initial(s) && NamesOk(c) && Room(c, s.disk) && c.options == Some(options)
    requires c.readSource(Subtree(s.disk, c.source), options) == Some(seen) && c.rebuild(seen) == Some(rebuilt)
    ensures run != [] && Run(c, run) && run[0] == s
    ensures run[|run| - 1] == s.(phase := Write, options := options, seen := seen, rebuilt := rebuilt,
                                 disk := s.disk[c.Stage() := FRESH], ownsStage := true)
  {
    hide Run, NamesOk, Subtree, Closed;
    run := [s];
    assert Run(c, run) by { SingleRun(c, s); }
    var t := Advance(s, CheckOutput);
    Extend(c, run, t);
    run, t := run + [t], Advance(t, ReadOptions);
    Extend(c, run, t);
    run, t := run + [t], t.(phase := ReadSource, options := options);
    Extend(c, run, t);
    run, t := run + [t], t.(phase := Rebuild, seen := seen);
    Extend(c, run, t);
    run, t := run + [t], t.(phase := CreateStage, rebuilt := rebuilt);
    Extend(c, run, t);
    run, t := run + [t], t.(phase := OpenStage, disk := s.disk[c.Stage() := FRESH], ownsStage := true);
    Extend(c, run, t);
    run, t := run + [t], Advance(t, Write);
    Extend(c, run, t);
    run := run + [t];
  }

  /** Staging and renaming amounts to putting the tree at the output. */
  lemma StagedThenRenamed(c: Call, d: Disk, tree: Disk)
    requires Closed(d) && NamesOk(c) && Room(c, d) && IsTree(tree)
    ensures var e := Graft(d[c.Stage() := FRESH], c.Stage(), tree);
            && Subtree(e, c.Stage()) == tree && c.Stage() in e && c.Out() !in e
            && Renamed(c, e) == Graft(d, c.Out(), tree)
  {
    hide Graft, Subtree, Without, BasenameOk;
    var created := d[c.Stage() := FRESH];
    var e := Graft(created, c.Stage(), tree);
    var rest := Without(e, c.Stage());
    GraftMeans(created, c.Stage(), tree);
    SubtreeOfGraft(created, c.Stage(), tree);
    StageFilled(c, created, tree);
    SideBySide(c, c.Out());
    assert Within(c.Out(), c.Out()) && Within(c.Stage(), c.Stage());
    NothingBelow(d, c.Stage());
    assert rest == d by { WithoutMeans(e, c.Stage()); }
  }

  /** Room, a patch that applies and a stage that reads back right: some run publishes it. */
  lemma Publishes(c: Call, s: State, options: Options, seen: Snapshot, rebuilt: Snapshot, tree: Disk, staged: Snapshot)
    returns (run: seq<State>)
    requires Initial(s) && NamesOk(c) && Room(c, s.disk) && c.options == Some(options)
    requires c.readSource(Subtree(s.disk, c.source), options) == Some(seen) && c.rebuild(seen) == Some(rebuilt)
    requires IsTree(tree) && c.readStage(tree, options.omit) == Some(staged)
    requires c.identity(rebuilt).Some? && c.identity(staged) == c.identity(rebuilt)
    ensures run != [] && Run(c, run) && run[0] == s && run[|run| - 1].phase == Done
    ensures run[|run| - 1].disk == Graft(s.disk, c.Out(), tree) && run[|run| - 1].foreign == s.foreign
  {
    hide Run, NamesOk, Subtree, Closed, Graft, Renamed, IsTree;
    run := ReachStage(c, s, options, seen, rebuilt);
    StagedThenRenamed(c, s.disk, tree);
    var t := run[|run| - 1];
    t := Advance(Written(c, t, tree), ReadStage);
    assert WriteStep(c, run[|run| - 1], t);
    Extend(c, run, t);
    run, t := run + [t], t.(phase := Compare, staged := staged);
    Extend(c, run, t);
    run, t := run + [t], Advance(t, Rename);
    Extend(c, run, t);
    run, t := run + [t], t.(phase := Done, disk := Renamed(c, t.disk), ownsStage := false);
    Extend(c, run, t);
    run := run + [t];
  }
}
