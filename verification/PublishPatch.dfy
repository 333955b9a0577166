/**
 Staged publication of one DIFZTREE patch: the step system with the real decoder and interpreter,
 the source read through the rules of the patch, and the stage read without them.
 */
module PublishPatch {
  import opened Wire
  import opened Metadata
  import opened Primitives
  import opened Snapshots
  import opened FileSystem
  import opened TreePatch
  import opened TreeDecode
  import opened TreeEncode
  import opened TreeApply
  import opened TreeRoundTrip
  import opened Selection
  import opened HardlinkRebase
  import opened PathFilter
  import opened Publish
  import Paths
  import Structure
  import Utf8

  /* ---------- snapshotDir ---------- */

  /** What the rules leave of a walk. */
  ghost function Filtered(raw: seq<Entry>, rules: seq<Rule>): (r: Option<seq<Entry>>)
  {
    if rules == [] then Some(raw)
    else match CompileFilter(rules)
      case Err(_) => None
      case Ok(filter) => Some(Chosen(raw, filter))
  }

  /** `snapshotDir` after the walk: checked, filtered, rebased unless hardlinks are left out, checked again. */
  ghost function View(raw: Snapshot, options: Options): (r: Option<Snapshot>)
  {
    if !PassesChecks(raw.entries) then None
    else match Filtered(raw.entries, options.rules)
      case None => None
      case Some(left) =>
        var entries := if HardlinkFamily in options.omit then left else Rebased(left);
        if PassesChecks(entries) then Some(Snapshot(entries, raw.root)) else None
  }

  /** The walk itself, as far as it is known: it may be refused. */
  type Walk = (Disk, Omit) -> Option<Snapshot>

  ghost function Read(walk: Walk, tree: Disk, options: Options): (r: Option<Snapshot>)
  {
    match walk(tree, options.omit)
    case None => None
    case Some(raw) => View(raw, options)
  }

  predicate Unlinked(entries: seq<Entry>) {
    forall i :: 0 <= i < |entries| ==> entries[i].meta.hardlinkTo.None?
  }

  lemma UnlinkedFixed(entries: seq<Entry>)
    requires Unlinked(entries) && Structure.Fault(Records(entries)).None?
    ensures Rebased(entries) == entries
  {
    hide Structure.Fault;
    WellFormedPaths(entries);
    forall i | 0 <= i < |entries| ensures Rebased(entries)[i] == entries[i] {
      if entries[i].content.Regular? {
        var first := Leader(entries, i);
        FindPathUnique(entries, first);
        FindPathUnique(entries, i);
        var m := entries[i].meta;
        assert m.(hardlinkTo := m.hardlinkTo) == m;
      }
    }
  }

  /** Reading through rules gives the rebased selection, and it is canonical. */
  lemma ViewCanonical(raw: Snapshot, options: Options)
    requires Canonical(raw) && Filtered(raw.entries, options.rules).Some?
    requires HardlinkFamily in options.omit ==> Unlinked(raw.entries)
    ensures View(raw, options) == Some(Snapshot(Rebased(Filtered(raw.entries, options.rules).value), raw.root))
    ensures Canonical(View(raw, options).value)
  {
    hide Structure.Fault, RelationsFault, CompileFilter, Chosen, WellTyped, First, Unlinked;
    var left := Filtered(raw.entries, options.rules).value;
    var r := Snapshot(Rebased(left), raw.root);
    assert Canonical(r) by {
      if options.rules == [] {
        RebasedFixed(raw.entries);
      } else {
        RebasedCanonical(raw, CompileFilter(options.rules).value);
      }
    }
    if HardlinkFamily in options.omit {
      LeftUnlinked(raw.entries, options.rules);
      UnlinkedFixed(left);
    }
  }

  lemma LeftUnlinked(raw: seq<Entry>, rules: seq<Rule>)
    requires PassesChecks(raw) && Unlinked(raw) && Filtered(raw, rules).Some?
    ensures Unlinked(Filtered(raw, rules).value) && Structure.Fault(Records(Filtered(raw, rules).value)).None?
  {
    hide Structure.Fault, RelationsFault, CompileFilter, Chosen;
    if rules != [] {
      ChosenPart(raw, CompileFilter(rules).value);
      var left := Filtered(raw, rules).value;
      forall i | 0 <= i < |left| ensures left[i].meta.hardlinkTo.None? {
        assert left[i] in raw;
      }
    }
  }

  /** Without rules a reading is the walk, if it passes the checks. */
  lemma PlainView(raw: Snapshot, omit: Omit)
    ensures View(raw, Options([], omit)) == if PassesChecks(raw.entries) then Some(raw) else None
  {
    hide PassesChecks;
    if PassesChecks(raw.entries) {
      RebasedFixed(raw.entries);
    }
  }

  /* ---------- The call for one patch ---------- */

  function Identity(p: Primitives, s: Snapshot): (d: Option<Digest>) {
    if Fault(s).Some? then None else Some(TreeHash(p, s))
  }

  function OptionsOf(p: Primitives, patch: bytes, limits: Limits): (options: Option<Options>) {
    match Decode(p, patch, limits)
    case Err(_) => None
    case Ok(parsed) => Some(Options(parsed.rules, parsed.header.omit))
  }

  function Reconstruct(p: Primitives, source: Snapshot, patch: bytes, limits: ApplyLimits): (r: Option<Snapshot>) {
    match Apply(p, source, patch, limits)
    case Err(_) => None
    case Ok(rebuilt) => Some(rebuilt)
  }

  /** Where a call works. */
  datatype Place = Place(source: Location, parent: Location, output: bytes, staging: bytes)

  ghost function CallFor(p: Primitives, at: Place, patch: bytes, limits: ApplyLimits, walk: Walk): (c: Call)
  {
    Call(at.source, at.parent, at.output, at.staging, OptionsOf(p, patch, limits.patch),
         (seen: Snapshot) => Reconstruct(p, seen, patch, limits),
         (tree: Disk, options: Options) => Read(walk, tree, options),
         (tree: Disk, omit: Omit) => Read(walk, tree, Options([], omit)),
         (s: Snapshot) => Identity(p, s))
  }

  /**
   What is published reads back with the target identity written in the patch, and it was rebuilt
   from a reading of the source, through the rules of the patch, that had the source identity.
   */
  lemma PublishedIsPromised(p: Primitives, at: Place, patch: bytes, limits: ApplyLimits, walk: Walk,
                            run: seq<State>, i: nat)
    requires Run(CallFor(p, at, patch, limits, walk), run) && i < |run|
    requires var out := at.parent + [at.output]; out in run[i].disk && out !in run[i].foreign
    ensures Decode(p, patch, limits.patch).Ok?
    ensures var parsed := Decode(p, patch, limits.patch).value;
            var read := Read(walk, Subtree(run[i].disk, at.parent + [at.output]), Options([], parsed.header.omit));
            && read.Some? && Fault(read.value).None? && TreeHash(p, read.value) == parsed.header.targetHash
            && SourceReadAs(p, at.source, walk, Options(parsed.rules, parsed.header.omit),
                            parsed.header.sourceHash, run, i)
  {
    hide Run, Decode, Apply, TreeHash, Fault, View, Subtree, Project;
    var c := CallFor(p, at, patch, limits, walk);
    assert c.Out() == at.parent + [at.output];
    Safety(c, run, i);
    var s := run[i];
    var j :| 0 <= j < i && c.readSource(Subtree(run[j].disk, c.source), s.options) == Some(s.seen);
    ApplySound(p, s.seen, patch, limits);
    assert Read(walk, Subtree(run[j].disk, at.source), s.options) == Some(s.seen);
  }

  /** In some earlier state the source read, with these options, as a snapshot of this identity. */
  ghost predicate SourceReadAs(p: Primitives, source: Location, walk: Walk, options: Options, hash: Digest,
                               run: seq<State>, i: nat)
    requires i < |run|
  {
    exists j :: 0 <= j < i && var seen := Read(walk, Subtree(run[j].disk, source), options);
                              seen.Some? && TreeHash(p, Project(seen.value, options.omit)) == hash
  }

  /* ---------- A patch created from two trees ---------- */

  /** Nothing but the target is ever published: what is there reads back as the projected target. */
  lemma PublishedIsTarget(p: Primitives, source: Snapshot, target: Snapshot, rules: seq<Rule>, omit: Omit,
                          at: Place, limits: ApplyLimits, walk: Walk, run: seq<State>, i: nat)
    requires Canonical(source) && Canonical(target) && CoversDefaults(limits.patch)
    requires Create(p, source, target, rules, omit).Ok? && i < |run|
    requires Run(CallFor(p, at, Create(p, source, target, rules, omit).value, limits, walk), run)
    requires var out := at.parent + [at.output]; out in run[i].disk && out !in run[i].foreign
    requires var raw := walk(Subtree(run[i].disk, at.parent + [at.output]), omit);
             raw.Some? ==> && WellTyped(raw.value) && NoCollision(p, raw.value, Project(target, omit))
                           && TreesDistinguished(p, raw.value, Project(target, omit))
    ensures Read(walk, Subtree(run[i].disk, at.parent + [at.output]), Options([], omit)) == Some(Project(target, omit))
  {
    hide Create, Decode, TreeHash, WellTyped, Fault, NoCollision, TreesDistinguished, CoversDefaults, Run, Subtree,
      View, SourceReadAs, CallFor, Project;
    var patch := Create(p, source, target, rules, omit).value;
    var ops := DecodeOfCreate(p, source, target, rules, omit, limits.patch);
    PublishedIsPromised(p, at, patch, limits, walk, run, i);
    var raw := walk(Subtree(run[i].disk, at.parent + [at.output]), omit);
    PlainView(raw.value, omit);
    ProjectCanonical(target, omit);
    SameIdentity(p, raw.value, Project(target, omit));
  }

  /** Applying a created patch where the source still reads as it did can publish the target. */
  lemma CreatedPublishes(p: Primitives, target: Snapshot, options: Options, at: Place, limits: ApplyLimits, walk: Walk,
                         s: State, seen: Snapshot, tree: Disk) returns (run: seq<State>)
    requires CodecLaw(p) && CoversDefaults(limits.patch) && Canonical(seen) && Canonical(target)
    requires Create(p, seen, target, options.rules, options.omit).Ok?
    requires TotalContent(target.entries) <= limits.maxOutputBytes
    requires Read(walk, Subtree(s.disk, at.source), options) == Some(seen)
    requires IsTree(tree) && walk(tree, options.omit) == Some(Project(target, options.omit))
    requires var c := CallFor(p, at, Create(p, seen, target, options.rules, options.omit).value, limits, walk);
             Initial(s) && NamesOk(c) && Room(c, s.disk)
    ensures run != [] && run[0] == s && run[|run| - 1].phase == Done
    ensures Run(CallFor(p, at, Create(p, seen, target, options.rules, options.omit).value, limits, walk), run)
    ensures run[|run| - 1].disk == Graft(s.disk, at.parent + [at.output], tree)
    ensures run[|run| - 1].foreign == s.foreign
  {
    hide Create, Apply, Decode, TreeHash, CoversDefaults, Run, Subtree, View, Graft, IsTree, NamesOk, Room, Initial,
      TotalContent, CodecLaw, WellTyped, Fault;
    var patch := Create(p, seen, target, options.rules, options.omit).value;
    var c := CallFor(p, at, patch, limits, walk);
    var result := Project(target, options.omit);
    var ops := DecodeOfCreate(p, seen, target, options.rules, options.omit, limits.patch);
    ApplyUndoesCreate(p, seen, target, options.rules, options.omit, limits);
    ProjectCanonical(target, options.omit);
    PlainView(result, options.omit);
    PassesWhenCanonical(result);
    assert c.Out() == at.parent + [at.output];
    run := Publishes(c, s, options, seen, result, tree, result);
  }

  lemma PassesWhenCanonical(s: Snapshot)
    requires Canonical(s)
    ensures PassesChecks(s.entries)
  {
  }

  /* ---------- A source that is not kept ---------- */

  /** Lower-case names can be used for the output and the stage. */
  lemma PlainName(name: bytes)
    requires 0 < |name| <= Paths.MAX_PATH_BYTES && forall b :: b in name ==> 0x61 <= b <= 0x7a
    ensures BasenameOk(name)
  {
    hide Utf8.Valid, Paths.Split;
    Utf8.AsciiDecodes(name);
    Paths.SplitWhole(name);
    assert name[0] in name;
    assert |name| > 1 ==> name[1] in name;
  }

  /** A disk with the single directory `A`. */
  function OnlyA(): (d: Disk) { map[[] := FRESH, [Ascii("A")] := FRESH] }

  function EmptyTree(): (t: Disk) { map[[] := FRESH] }

  lemma RoomInA(c: Call)
    requires c.parent == [Ascii("A")] && c.output == Ascii("out") && c.staging == Ascii("stage")
    ensures Closed(OnlyA()) && IsTree(EmptyTree()) && NamesOk(c) && Room(c, OnlyA())
  {
    hide BasenameOk;
    assert c.output[0] == 0x6f && c.staging[0] == 0x73;
    PlainName(c.output);
    PlainName(c.staging);
    assert |c.Out()| == |c.Stage()| == 2;
    assert Above([Ascii("A")]) == [];
  }

  lemma SourceGrows(c: Call, d: Disk)
    requires c.source == c.parent && c.Out() !in d
    ensures var e := Graft(d, c.Out(), EmptyTree()); c.Out() in e && !SameBelow(d, e, c.source)
  {
    hide Graft;
    GraftMeans(d, c.Out(), EmptyTree());
    assert c.Out()[|c.Out()|..] == [] && Within(c.Out(), c.Out()) && Within(c.Out(), c.source);
  }

  /**
   Source `A` and output `A/out`: the parent of the output is the source, and a run that succeeds
   leaves the output inside the source tree.
   */
  lemma OutputInsideSource(digest: bytes -> Digest) returns (c: Call, run: seq<State>)
    ensures c.source == c.parent == [Ascii("A")] && c.output == Ascii("out")
    ensures run != [] && Run(c, run) && run[|run| - 1].phase == Done
    ensures c.source in run[0].disk && run[|run| - 1].foreign == run[0].disk
    ensures c.Out() !in run[0].disk && c.Out() in run[|run| - 1].disk
    ensures !SameBelow(run[0].disk, run[|run| - 1].disk, c.source)
  {
    hide Create, Apply, Decode, TreeHash, Fault, CodecLaw, Canonical, View, Run, Graft, Subtree;
    HypothesesMet(digest);
    var p := Primitives(digest, (source, target) => Some(target), (source, frame, n) => Some(frame));
    var empty, a := Snapshot([], EMPTY), [Ascii("A")];
    var walk: Walk := (tree, omit) => Some(empty);
    var options, limits := Options([], {}), ApplyLimits(DEFAULTS, 0);
    var at := Place(a, a, Ascii("out"), Ascii("stage"));
    var s := State(OnlyA(), OnlyA(), Start, options, empty, empty, empty, false);
    c := CallFor(p, at, Create(p, empty, empty, [], {}).value, limits, walk);
    assert c.source == a && c.parent == a && c.output == at.output && c.staging == at.staging;
    assert a in OnlyA() && TotalContent(empty.entries) == 0;
    assert walk(EmptyTree(), {}) == Some(empty) && walk(Subtree(OnlyA(), a), {}) == Some(empty);
    hide *;
    ProjectUnion(empty, {}, {});
    PlainView(empty, {});
    PassesWhenCanonical(empty);
    RoomInA(c);
    assert Read(walk, Subtree(OnlyA(), a), options) == Some(empty) by { ReadMeans(walk, Subtree(OnlyA(), a), options); }
    assert Initial(s) by { InitialMeans(s); }
    run := CreatedPublishes(p, empty, options, at, limits, walk, s, empty, EmptyTree());
    SourceGrows(c, OnlyA());
  }

  lemma ReadMeans(walk: Walk, tree: Disk, options: Options)
    ensures Read(walk, tree, options)
         == if walk(tree, options.omit).None? then None else View(walk(tree, options.omit).value, options)
  {
  }

  lemma InitialMeans(s: State)
    requires s.phase == Start && !s.ownsStage && s.disk == s.foreign && Closed(s.disk)
    ensures Initial(s)
  {
  }
}
