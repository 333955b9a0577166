/**
 Snapshots with their physical metadata relations (rust/src/directory_canonical.rs,
 rust/src/directory_record.rs) and the identity stream fed to the tree hash.
 */
module Snapshots {
  import opened Wire
  import opened ByteOrder
  import opened Paths
  import opened Holes
  import opened Listing
  import opened Metadata
  import opened Primitives
  import MetadataCanonical
  import MetadataCodec
  import MetadataNormalize
  import Structure

  type Mode = n: u16 | n < 0x200

  datatype Content =
    | Dir(mode: Mode)
    | Regular(mode: Mode, body: bytes)
    | Link(target: bytes)
  {
    function KindTag(): (t: byte) ensures 1 <= t <= 3
      { match this case Dir(_) => 1 case Regular(_, _) => 2 case Link(_) => 3 }

    /** Symlinks always expose mode 0777. */
    function ModeBits(): (m: Mode) { match this case Dir(m) => m case Regular(m, _) => m case Link(_) => 0x1ff }

    function Body(): (b: bytes) { match this case Dir(_) => [] case Regular(_, b) => b case Link(t) => t }
  }

  datatype Entry = Entry(path: bytes, content: Content, meta: Metadata)
  datatype Snapshot = Snapshot(entries: seq<Entry>, root: Metadata)

  function View(e: Entry): (r: Structure.Record)
  {
    Structure.Record(e.path, e.content.ModeBits(),
                     match e.content
                     case Dir(_) => Structure.Directory
                     case Regular(_, _) => Structure.File
                     case Link(_) => Structure.Symlink,
                     e.content.Body())
  }

  function Records(entries: seq<Entry>): (rs: seq<Structure.Record>)
    ensures |rs| == |entries|
    ensures forall i :: 0 <= i < |rs| ==> rs[i] == View(entries[i])
  {
    seq(|entries|, i requires 0 <= i < |entries| => View(entries[i]))
  }

  function EntryPaths(entries: seq<Entry>): (paths: seq<bytes>)
    ensures |paths| == |entries|
    ensures forall i :: 0 <= i < |entries| ==> paths[i] == entries[i].path
  {
    seq(|entries|, i requires 0 <= i < |entries| => entries[i].path)
  }

  /** `find_path` over a list of entries. */
  function FindPath(entries: seq<Entry>, path: bytes): (r: Option<nat>)
    ensures r.Some? ==> r.value < |entries| && entries[r.value].path == path
    ensures r.None? ==> forall i :: 0 <= i < |entries| ==> entries[i].path != path
  {
    var r := IndexOf(EntryPaths(entries), path);
    assert r.None? ==> forall i :: 0 <= i < |entries| ==> EntryPaths(entries)[i] != path;
    r
  }

  lemma FindPathUnique(entries: seq<Entry>, i: nat)
    requires Increasing(EntryPaths(entries)) && i < |entries|
    ensures FindPath(entries, entries[i].path) == Some(i)
  {
    IndexOfUnique(EntryPaths(entries), i);
  }

  /** There is a plain file at `path`, and it is entry `i`. */
  predicate FileAt(entries: seq<Entry>, path: bytes, i: int) {
    0 <= i < |entries| && entries[i].path == path && entries[i].content.Regular?
  }

  /* ---------- Relations ---------- */

  predicate ZeroRange(body: bytes, h: Hole) {
    h.End() <= |body| && forall x :: h.offset <= x < h.End() ==> body[x] == 0
  }

  predicate HoleFits(content: Content, h: Hole) {
    content.Regular? && ZeroRange(content.body, h)
  }

  /** Extents lie inside a file and describe only zero bytes. */
  predicate HolesFit(e: Entry) {
    forall i :: 0 <= i < |e.meta.holes| ==> HoleFits(e.content, e.meta.holes[i])
  }

  /** Equality of every field except the reference itself. */
  predicate SharedMetadataEqual(a: Metadata, b: Metadata) {
    && a.xattrs == b.xattrs && a.aces == b.aces && a.nativeAcl == b.nativeAcl && a.times == b.times
    && a.finderFlags == b.finderFlags && a.finderInfo == b.finderInfo && a.holes == b.holes
  }

  /** A hardlink names an earlier plain file that it agrees with in everything else. */
  predicate HardlinkHolds(entries: seq<Entry>, i: nat)
    requires i < |entries|
  {
    entries[i].meta.hardlinkTo.Some? ==>
      && entries[i].content.Regular?
      && var found := FindPath(entries[..i], entries[i].meta.hardlinkTo.value);
      && found.Some?
      && entries[found.value].content == entries[i].content
      && entries[found.value].meta.hardlinkTo.None?
      && SharedMetadataEqual(entries[i].meta, entries[found.value].meta)
  }

  /**
   A hardlink is accepted exactly when an earlier entry at the path it names is the same plain file
   and its record is the hardlink's own with the reference taken out.
   */
  lemma HardlinkMeans(entries: seq<Entry>, i: nat)
    requires i < |entries| && Increasing(EntryPaths(entries)) && entries[i].meta.hardlinkTo.Some?
    ensures HardlinkHolds(entries, i) <==>
            && entries[i].content.Regular?
            && exists j :: 0 <= j < i && entries[j].path == entries[i].meta.hardlinkTo.value
                           && entries[j].content == entries[i].content
                           && entries[j].meta == entries[i].meta.(hardlinkTo := None)
  {
    hide FindPath, Lt;
    var path := entries[i].meta.hardlinkTo.value;
    assert EntryPaths(entries[..i]) == EntryPaths(entries)[..i];
    forall j | 0 <= j < i && entries[j].path == path ensures FindPath(entries[..i], path) == Some(j) {
      FindPathUnique(entries[..i], j);
    }
    forall m: Metadata, n: Metadata
      ensures SharedMetadataEqual(m, n) && n.hardlinkTo.None? <==> n == m.(hardlinkTo := None)
    {
    }
  }

  function RelationFault(entries: seq<Entry>, i: nat): (fault: Option<DirError>)
    requires i < |entries|
  {
    if !HolesFit(entries[i]) then Some(InvalidSparseExtent)
    else if !HardlinkHolds(entries, i) then Some(InvalidHardlinkRelation)
    else None
  }

  function RelationsFault(entries: seq<Entry>, n: nat): (fault: Option<DirError>)
    requires n <= |entries|
  {
    if n == 0 then None
    else if RelationsFault(entries, n - 1).Some? then RelationsFault(entries, n - 1)
    else RelationFault(entries, n - 1)
  }

  function RootFault(root: Metadata): (fault: Option<DirError>)
  {
    if root.holes != [] then Some(InvalidSparseExtent)
    else if root.hardlinkTo.Some? then Some(InvalidHardlinkRelation)
    else None
  }

  /** The first error `CanonicalSnapshot::new` reports. */
  function Fault(s: Snapshot): (fault: Option<DirError>)
  {
    if Structure.Fault(Records(s.entries)).Some? then Structure.Fault(Records(s.entries))
    else if RelationsFault(s.entries, |s.entries|).Some? then RelationsFault(s.entries, |s.entries|)
    else RootFault(s.root)
  }

  /** What the Rust types already guarantee: canonical records and buffers that fit in memory. */
  predicate WellTyped(s: Snapshot) {
    && MetadataCanonical.Canonical(s.root)
    && forall i :: 0 <= i < |s.entries| ==>
         MetadataCanonical.Canonical(s.entries[i].meta) && |s.entries[i].content.Body()| < U64_LIMIT
  }

  predicate Canonical(s: Snapshot) {
    WellTyped(s) && Fault(s).None?
  }

  lemma {:induction false} RelationsFaultMeans(entries: seq<Entry>, n: nat)
    requires n <= |entries|
    ensures RelationsFault(entries, n).None? <==>
            forall i :: 0 <= i < n ==> HolesFit(entries[i]) && HardlinkHolds(entries, i)
    ensures RelationsFault(entries, n).Some? ==> RelationsFault(entries, |entries|) == RelationsFault(entries, n)
    decreases n
  {
    RelationsFaultPersists(entries, n);
    if n > 0 {
      RelationsFaultMeans(entries, n - 1);
    }
  }

  lemma {:induction false} RelationsFaultPersists(entries: seq<Entry>, n: nat)
    requires n <= |entries|
    ensures RelationsFault(entries, n).Some? ==> RelationsFault(entries, |entries|) == RelationsFault(entries, n)
    decreases |entries| - n
  {
    if n < |entries| {
      RelationsFaultPersists(entries, n + 1);
    }
  }

  /** Which snapshots are accepted, said without loops. */
  lemma FaultMeans(s: Snapshot)
    ensures Fault(s).None? <==>
            && Structure.WellFormed(Records(s.entries))
            && (forall i :: 0 <= i < |s.entries| ==> HolesFit(s.entries[i]) && HardlinkHolds(s.entries, i))
            && s.root.holes == [] && s.root.hardlinkTo.None?
  {
    Structure.FaultMeans(Records(s.entries));
    RelationsFaultMeans(s.entries, |s.entries|);
  }

  /** An extent lies in a file and the bytes it covers are zero. */
  predicate HoleSound(e: Entry, h: Hole) {
    && e.content.Regular? && h.offset + h.length <= |e.content.body|
    && AllZero(e.content.body[h.offset..h.offset + h.length])
  }

  predicate AllZero(b: bytes) { forall i :: 0 <= i < |b| ==> b[i] == 0 }

  /** The hardlink's file is an earlier entry. */
  predicate LinkSound(entries: seq<Entry>, i: nat)
    requires i < |entries| && entries[i].meta.hardlinkTo.Some?
  {
    && entries[i].content.Regular?
    && exists j :: 0 <= j < i && entries[j].path == entries[i].meta.hardlinkTo.value
                   && entries[j].content == entries[i].content
                   && entries[j].meta == entries[i].meta.(hardlinkTo := None)
  }

  predicate ParentsSound(entries: seq<Entry>, i: nat)
    requires i < |entries|
  {
    forall c :: 0 <= c < |entries[i].path| && entries[i].path[c] == 0x2f ==>
      exists j :: 0 <= j < i && entries[j].path == entries[i].path[..c] && entries[j].content.Dir?
  }

  predicate EntrySound(entries: seq<Entry>, i: nat)
    requires i < |entries|
  {
    var e := entries[i];
    && ValidPath(e.path) && (e.content.Link? ==> SymlinkFault(e.path, e.content.target).None?)
    && ParentsSound(entries, i)
    && (forall h :: h in e.meta.holes ==> HoleSound(e, h))
    && (e.meta.hardlinkTo.Some? ==> LinkSound(entries, i))
  }

  lemma HolesFitMeans(e: Entry)
    ensures HolesFit(e) <==> forall h :: h in e.meta.holes ==> HoleSound(e, h)
  {
    forall h: Hole ensures HoleFits(e.content, h) <==> HoleSound(e, h) {
      if e.content.Regular? && h.End() <= |e.content.body| {
        var slice := e.content.body[h.offset..h.offset + h.length];
        assert forall k :: 0 <= k < h.length ==> slice[k] == e.content.body[h.offset + k];
        assert forall x :: h.offset <= x < h.End() ==> e.content.body[x] == slice[x - h.offset];
      }
    }
    assert forall i :: 0 <= i < |e.meta.holes| ==> e.meta.holes[i] in e.meta.holes;
  }

  lemma ParentsMeans(entries: seq<Entry>, i: nat)
    requires i < |entries|
    ensures Structure.AncestorsPrecede(Records(entries), i) <==> ParentsSound(entries, i)
  {
    var rs := Records(entries);
    forall n: nat, path: bytes | n <= |entries|
      ensures Structure.HasDirectory(rs, n, path) <==>
              exists j :: 0 <= j < n && entries[j].path == path && entries[j].content.Dir?
    {
      assert forall j :: 0 <= j < n ==> rs[j] == View(entries[j]);
    }
    assert rs[i].path == entries[i].path;
  }

  /** Which snapshots are accepted, in terms of nothing but their entries and root. */
  lemma AcceptedMeans(s: Snapshot)
    ensures Fault(s).None? <==>
            && |s.entries| <= 1_000_000
            && (forall i, j :: 0 <= i < j < |s.entries| ==> Lt(s.entries[i].path, s.entries[j].path))
            && (forall i :: 0 <= i < |s.entries| ==> EntrySound(s.entries, i))
            && s.root.holes == [] && s.root.hardlinkTo == None
  {
    hide Lt, HolesFit, HardlinkHolds, EntrySound, Fault, Structure.WellFormed, Increasing;
    FaultMeans(s);
    ShapeMeans(s.entries);
    PathsIncrease(s.entries);
    forall i | 0 <= i < |s.entries| && Increasing(EntryPaths(s.entries))
      ensures EntrySound(s.entries, i) <==>
              ShapeSound(s.entries, i) && HolesFit(s.entries[i]) && HardlinkHolds(s.entries, i)
    {
      EntryMeans(s.entries, i);
    }
  }

  /** The part of an entry's checks that concerns the tree. */
  predicate ShapeSound(entries: seq<Entry>, i: nat)
    requires i < |entries|
  {
    var e := entries[i];
    && ValidPath(e.path) && (e.content.Link? ==> SymlinkFault(e.path, e.content.target).None?)
    && ParentsSound(entries, i)
  }

  lemma EntryMeans(entries: seq<Entry>, i: nat)
    requires i < |entries| && Increasing(EntryPaths(entries))
    ensures EntrySound(entries, i) <==> ShapeSound(entries, i) && HolesFit(entries[i]) && HardlinkHolds(entries, i)
  {
    hide ValidPath, SymlinkFault, ParentsSound, LinkSound, HoleSound, HolesFit, HardlinkHolds;
    HolesFitMeans(entries[i]);
    LinkMeans(entries, i);
  }

  lemma ShapeMeans(entries: seq<Entry>)
    ensures Structure.WellFormed(Records(entries)) <==>
            && |entries| <= 1_000_000 && Increasing(EntryPaths(entries))
            && forall i :: 0 <= i < |entries| ==> ShapeSound(entries, i)
  {
    hide Increasing, ValidPath, SymlinkFault, ParentsSound, Structure.AncestorsPrecede;
    var rs := Records(entries);
    assert Structure.PathsOf(rs)[..|rs|] == EntryPaths(entries);
    forall i | 0 <= i < |entries|
      ensures Structure.RecordOk(rs[i]) && Structure.AncestorsPrecede(rs, i) <==> ShapeSound(entries, i)
    {
      ParentsMeans(entries, i);
    }
  }

  lemma PathsIncrease(entries: seq<Entry>)
    ensures Increasing(EntryPaths(entries)) <==>
            forall i, j :: 0 <= i < j < |entries| ==> Lt(entries[i].path, entries[j].path)
  {
    hide Lt;
    var paths := EntryPaths(entries);
    if Increasing(paths) {
      forall i, j | 0 <= i < j < |entries| ensures Lt(entries[i].path, entries[j].path) {
        assert Lt(paths[i], paths[j]);
      }
    }
  }

  lemma LinkMeans(entries: seq<Entry>, i: nat)
    requires i < |entries| && Increasing(EntryPaths(entries))
    ensures HardlinkHolds(entries, i) <==> (entries[i].meta.hardlinkTo.Some? ==> LinkSound(entries, i))
  {
    if entries[i].meta.hardlinkTo.Some? {
      hide HardlinkHolds;
      HardlinkMeans(entries, i);
    }
  }

  /** A refusal names what is wrong: the tree first, then the first entry whose relations fail, then the root. */
  lemma RefusedMeans(s: Snapshot)
    requires Fault(s).Some?
    ensures Structure.Fault(Records(s.entries)).Some? ==> Fault(s) == Structure.Fault(Records(s.entries))
    ensures Structure.Fault(Records(s.entries)).None? ==>
              || (Fault(s) == Some(InvalidSparseExtent)
                  && (s.root.holes != [] || exists i :: 0 <= i < |s.entries| && !HolesFit(s.entries[i])))
              || (Fault(s) == Some(InvalidHardlinkRelation)
                  && (s.root.hardlinkTo.Some? || exists i :: 0 <= i < |s.entries| && !HardlinkHolds(s.entries, i)))
  {
    hide HolesFit, HardlinkHolds, Structure.Fault;
    RelationRefused(s.entries, |s.entries|);
  }

  lemma {:induction false} RelationRefused(entries: seq<Entry>, n: nat)
    requires n <= |entries|
    ensures RelationsFault(entries, n).Some? ==>
              || (RelationsFault(entries, n) == Some(InvalidSparseExtent)
                  && exists i :: 0 <= i < n && !HolesFit(entries[i]))
              || (RelationsFault(entries, n) == Some(InvalidHardlinkRelation)
                  && exists i :: 0 <= i < n && !HardlinkHolds(entries, i))
  {
    hide HolesFit, HardlinkHolds;
    if n > 0 {
      RelationRefused(entries, n - 1);
    }
  }

  lemma CanonicalShape(s: Snapshot)
    requires Canonical(s)
    ensures Structure.Fault(Records(s.entries)).None?
    ensures |s.entries| <= MAX_ENTRIES
    ensures forall i :: 0 <= i < |s.entries| ==> 0 < |s.entries[i].path| <= MAX_PATH_BYTES
    ensures forall i :: 0 <= i < |s.entries| ==>
              HardlinkHolds(s.entries, i) && MetadataCanonical.Canonical(s.entries[i].meta)
  {
    WellFormedPaths(s.entries);
    RelationsFaultMeans(s.entries, |s.entries|);
    forall i | 0 <= i < |s.entries| ensures 0 < |s.entries[i].path| <= MAX_PATH_BYTES {
      assert ValidPath(s.entries[i].path);
    }
  }

  lemma WellFormedPaths(entries: seq<Entry>)
    requires Structure.Fault(Records(entries)).None?
    ensures Increasing(EntryPaths(entries))
    ensures |entries| <= MAX_ENTRIES
    ensures forall i :: 0 <= i < |entries| ==> ValidPath(entries[i].path)
  {
    var rs := Records(entries);
    Structure.FaultMeans(rs);
    assert Structure.PathsOf(rs)[..|rs|] == EntryPaths(entries);
    forall i | 0 <= i < |entries| ensures ValidPath(entries[i].path) {
      assert Structure.RecordOk(rs[i]);
    }
  }

  method CheckHole(content: Content, h: Hole) returns (ok: bool)
    ensures ok == HoleFits(content, h)
  {
    if !content.Regular? {
      return false;
    }
    var length := |content.body|;
    if h.offset > length || h.length > length - h.offset {
      return false;
    }
    for x := h.offset to h.End()
      invariant forall y :: h.offset <= y < x ==> content.body[y] == 0
    {
      if content.body[x] != 0 {
        return false;
      }
    }
    ok := true;
  }

  method CheckHoles(e: Entry) returns (ok: bool)
    ensures ok == HolesFit(e)
  {
    for i := 0 to |e.meta.holes|
      invariant forall k :: 0 <= k < i ==> HoleFits(e.content, e.meta.holes[k])
    {
      ok := CheckHole(e.content, e.meta.holes[i]);
      if !ok {
        return;
      }
    }
    ok := true;
  }

  method CheckHardlink(entries: seq<Entry>, i: nat) returns (ok: bool)
    requires i < |entries| && Increasing(EntryPaths(entries[..i]))
    ensures ok == HardlinkHolds(entries, i)
  {
    var e := entries[i];
    if e.meta.hardlinkTo.None? {
      return true;
    }
    if !e.content.Regular? {
      return false;
    }
    var found := BinarySearch(EntryPaths(entries[..i]), e.meta.hardlinkTo.value);
    if found.None? {
      return false;
    }
    var target := entries[found.value];
    if !target.content.Regular? {
      return false;
    }
    ok := && target.meta.hardlinkTo.None?
          && target.content.mode == e.content.mode
          && target.content.body == e.content.body
          && SharedMetadataEqual(e.meta, target.meta);
  }

  method CheckRelations(entries: seq<Entry>) returns (fault: Option<DirError>)
    requires Increasing(EntryPaths(entries))
    ensures fault == RelationsFault(entries, |entries|)
  {
    for i := 0 to |entries|
      invariant RelationsFault(entries, i).None?
    {
      RelationsFaultPersists(entries, i + 1);
      var fits := CheckHoles(entries[i]);
      if !fits {
        return Some(InvalidSparseExtent);
      }
      assert EntryPaths(entries[..i]) == EntryPaths(entries)[..i];
      var holds := CheckHardlink(entries, i);
      if !holds {
        return Some(InvalidHardlinkRelation);
      }
    }
    fault := None;
  }

  /** `CanonicalSnapshot::new`: structure, then relations by binary search, then the root. */
  method New(s: Snapshot) returns (fault: Option<DirError>)
    ensures fault == Fault(s)
  {
    fault := Structure.Validate(Records(s.entries));
    if fault.Some? {
      return;
    }
    WellFormedPaths(s.entries);
    fault := CheckRelations(s.entries);
    if fault.Some? {
      return;
    }
    fault := RootFault(s.root);
  }

  /* ---------- Omission projection ---------- */

  function ProjectEntry(e: Entry, omit: Omit): (r: Entry) {
    e.(meta := Omitted(e.meta, omit))
  }

  function ProjectEntries(entries: seq<Entry>, omit: Omit): (r: seq<Entry>)
    ensures |r| == |entries|
    ensures forall i :: 0 <= i < |r| ==> r[i] == ProjectEntry(entries[i], omit)
  {
    seq(|entries|, i requires 0 <= i < |entries| => ProjectEntry(entries[i], omit))
  }

  function Project(s: Snapshot, omit: Omit): (r: Snapshot) {
    Snapshot(ProjectEntries(s.entries, omit), Omitted(s.root, omit))
  }

  lemma ProjectedHardlink(entries: seq<Entry>, omit: Omit, i: nat)
    requires i < |entries| && HardlinkHolds(entries, i)
    ensures HardlinkHolds(ProjectEntries(entries, omit), i)
  {
    var ps := ProjectEntries(entries, omit);
    assert EntryPaths(ps[..i]) == EntryPaths(entries[..i]);
  }

  lemma ProjectedEntry(e: Entry, omit: Omit)
    requires HolesFit(e) && MetadataCanonical.Canonical(e.meta)
    ensures HolesFit(ProjectEntry(e, omit)) && MetadataCanonical.Canonical(ProjectEntry(e, omit).meta)
  {
    MetadataNormalize.OmittedCanonical(e.meta, omit);
  }

  /** Projecting a canonical snapshot always succeeds. */
  lemma ProjectCanonical(s: Snapshot, omit: Omit)
    requires Canonical(s)
    ensures Canonical(Project(s, omit))
  {
    var t := Project(s, omit);
    assert Records(t.entries) == Records(s.entries);
    RelationsFaultMeans(s.entries, |s.entries|);
    RelationsFaultMeans(t.entries, |t.entries|);
    forall i | 0 <= i < |t.entries|
      ensures HolesFit(t.entries[i]) && HardlinkHolds(t.entries, i) && MetadataCanonical.Canonical(t.entries[i].meta)
    {
      assert HolesFit(s.entries[i]) && HardlinkHolds(s.entries, i);
      ProjectedHardlink(s.entries, omit, i);
      ProjectedEntry(s.entries[i], omit);
    }
    MetadataNormalize.OmittedCanonical(s.root, omit);
  }

  /** Projecting by `a` and then by `b` projects by the union; nothing omitted changes nothing. */
  lemma ProjectUnion(s: Snapshot, a: Omit, b: Omit)
    ensures Project(Project(s, a), b) == Project(s, a + b)
    ensures Project(s, {}) == s
  {
    forall i | 0 <= i < |s.entries|
      ensures ProjectEntry(ProjectEntry(s.entries[i], a), b) == ProjectEntry(s.entries[i], a + b)
      ensures ProjectEntry(s.entries[i], {}) == s.entries[i]
    {
      OmittedUnion(s.entries[i].meta, a, b);
      OmittedNothing(s.entries[i].meta);
    }
    OmittedUnion(s.root, a, b);
    OmittedNothing(s.root);
    assert ProjectEntries(ProjectEntries(s.entries, a), b) == ProjectEntries(s.entries, a + b);
    assert ProjectEntries(s.entries, {}) == s.entries;
  }

  datatype ProjectError = OmissionFailed(meta: MetaError) | NotCanonical(dir: DirError)

  method ProjectAll(entries: seq<Entry>, omit: Omit) returns (projected: seq<Entry>)
    requires forall i :: 0 <= i < |entries| ==> MetadataCanonical.Canonical(entries[i].meta)
    ensures projected == ProjectEntries(entries, omit)
  {
    projected := [];
    for i := 0 to |entries|
      invariant |projected| == i
      invariant forall k :: 0 <= k < i ==> projected[k] == ProjectEntry(entries[k], omit)
    {
      var e := entries[i];
      var meta := MetadataNormalize.BorrowingOmitting(e.meta, omit);
      projected := projected + [Entry(e.path, e.content, meta.value)];
    }
  }

  /** `project` as it runs, entry by entry and then through the constructor. */
  method ProjectSnapshot(s: Snapshot, omit: Omit) returns (r: Result<Snapshot, ProjectError>)
    requires Canonical(s)
    ensures r == Ok(Project(s, omit))
  {
    var projected := ProjectAll(s.entries, omit);
    var root := MetadataNormalize.BorrowingOmitting(s.root, omit);
    var t := Snapshot(projected, root.value);
    var fault := New(t);
    ProjectCanonical(s, omit);
    r := Outcome(t, fault);
  }

  function Outcome(t: Snapshot, fault: Option<DirError>): (r: Result<Snapshot, ProjectError>)
    ensures r.Ok? ==> r.value == t
  {
    if fault.Some? then Err(NotCanonical(fault.value)) else Ok(t)
  }

  /* ---------- Identity ---------- */

  const META_DOMAIN: bytes := Ascii("DIFZMETA") + [1]
  const TREE_DOMAIN: bytes := Ascii("DIFZTREE-ID") + [2]
  const ROOT_DOMAIN: bytes := Ascii("DIFZTREE-ROOT") + [1]

  function MetaHash(p: Primitives, m: Metadata): (d: Digest) {
    (p.blake3)(META_DOMAIN + MetadataCodec.Encode(m))
  }

  /** What the hasher sees of an entry: its metadata only through the digest. */
  datatype Identity = Identity(path: bytes, content: Content, digest: Digest)

  function PutIdentity(id: Identity, tail: bytes): (s: bytes)
  {
    PutWord(1, id.content.KindTag(),
    PutWord(2, id.content.ModeBits(),
    PutBlob(id.path,
    PutWord(8, |id.content.Body()|,
    id.content.Body() + (id.digest + tail)))))
  }

  function IdentityOf(p: Primitives, e: Entry): (id: Identity) {
    Identity(e.path, e.content, MetaHash(p, e.meta))
  }

  function Identities(p: Primitives, entries: seq<Entry>): (ids: seq<Identity>)
    ensures |ids| == |entries|
    ensures forall i :: 0 <= i < |ids| ==> ids[i] == IdentityOf(p, entries[i])
  {
    seq(|entries|, i requires 0 <= i < |entries| => IdentityOf(p, entries[i]))
  }

  function RootIdentity(p: Primitives, root: Metadata): (s: bytes) {
    if root.IsEmpty() then [] else ROOT_DOMAIN + MetaHash(p, root)
  }

  /** The bytes fed to the tree hasher. */
  function IdentityStream(p: Primitives, s: Snapshot): (b: bytes)
  {
    TREE_DOMAIN + PutCounted(Identities(p, s.entries), PutIdentity, RootIdentity(p, s.root))
  }

  function TreeHash(p: Primitives, s: Snapshot): (d: Digest) {
    (p.blake3)(IdentityStream(p, s))
  }

  function Chunk(id: Identity): (s: bytes) {
    Le(1, id.content.KindTag()) + Le(2, id.content.ModeBits()) + Le(4, |id.path|) + id.path
    + Le(8, |id.content.Body()|) + id.content.Body() + id.digest
  }

  lemma ChunkIsIdentity(id: Identity, tail: bytes)
    ensures PutIdentity(id, tail) == Chunk(id) + tail
  {
    var b := Le(8, |id.content.Body()|) + id.content.Body() + id.digest;
    assert PutWord(8, |id.content.Body()|, id.content.Body() + (id.digest + tail)) == b + tail;
    assert PutBlob(id.path, b + tail) == Le(4, |id.path|) + id.path + b + tail;
    assert PutWord(2, id.content.ModeBits(), PutBlob(id.path, b + tail))
        == Le(2, id.content.ModeBits()) + Le(4, |id.path|) + id.path + b + tail;
  }

  lemma FeedStep(fed: bytes, ids: seq<Identity>, i: nat, tail: bytes)
    requires i < |ids|
    ensures fed + PutAll(ids[i..], PutIdentity, tail) == (fed + Chunk(ids[i])) + PutAll(ids[i + 1..], PutIdentity, tail)
  {
    var rest := PutAll(ids[i + 1..], PutIdentity, tail);
    assert ids[i..][1..] == ids[i + 1..];
    ChunkIsIdentity(ids[i], rest);
    Concatenated(fed, Chunk(ids[i]), rest);
  }

  lemma Concatenated(a: bytes, b: bytes, c: bytes)
    ensures a + (b + c) == a + b + c
  {
  }

  method FeedAll(start: bytes, ids: seq<Identity>, ghost tail: bytes) returns (fed: bytes)
    ensures fed + tail == start + PutAll(ids, PutIdentity, tail)
  {
    fed := start;
    assert ids[0..] == ids;
    for i := 0 to |ids|
      invariant fed + PutAll(ids[i..], PutIdentity, tail) == start + PutAll(ids, PutIdentity, tail)
    {
      FeedStep(fed, ids, i, tail);
      fed := fed + Chunk(ids[i]);
    }
  }

  /** The hashing loop: one update per entry, then the root if it says anything. */
  method HashStream(p: Primitives, s: Snapshot) returns (fed: bytes)
    ensures fed == IdentityStream(p, s)
  {
    var ids, root := Identities(p, s.entries), RootIdentity(p, s.root);
    Concatenated(TREE_DOMAIN, Le(4, |ids|), PutAll(ids, PutIdentity, root));
    fed := FeedAll(TREE_DOMAIN + Le(4, |ids|), ids, root);
    fed := fed + root;
  }

  ghost predicate Occurs(s: Snapshot, m: Metadata) {
    m == s.root || exists i :: 0 <= i < |s.entries| && s.entries[i].meta == m
  }

  /** Among the records of two snapshots, equal digests mean equal records. */
  ghost predicate NoCollision(p: Primitives, a: Snapshot, b: Snapshot) {
    forall m, m' :: Occurs(a, m) && Occurs(b, m') && MetaHash(p, m) == MetaHash(p, m') ==> m == m'
  }

  lemma PutWordInjective(width: nat, v: nat, s: bytes, w: nat, t: bytes)
    requires v < Pow256(width) && w < Pow256(width)
    requires PutWord(width, v, s) == PutWord(width, w, t)
    ensures v == w && s == t
  {
    WordOfPut(width, v, s);
    WordOfPut(width, w, t);
  }

  lemma ConcatInjective(a: bytes, s: bytes, b: bytes, t: bytes)
    requires |a| == |b| && a + s == b + t
    ensures a == b && s == t
  {
    TakeOfPut(a, s);
    TakeOfPut(b, t);
  }

  predicate Fits(id: Identity) {
    |id.path| < U32_LIMIT && |id.content.Body()| < U64_LIMIT
  }

  lemma IdentityInjective(a: Identity, s: bytes, b: Identity, t: bytes)
    requires Fits(a) && Fits(b)
    requires PutIdentity(a, s) == PutIdentity(b, t)
    ensures a == b && s == t
  {
    WordSizes();
    var ca := PutWord(8, |a.content.Body()|, a.content.Body() + (a.digest + s));
    var cb := PutWord(8, |b.content.Body()|, b.content.Body() + (b.digest + t));
    var pa, pb := PutBlob(a.path, ca), PutBlob(b.path, cb);
    PutWordInjective(1, a.content.KindTag(), PutWord(2, a.content.ModeBits(), pa),
                     b.content.KindTag(), PutWord(2, b.content.ModeBits(), pb));
    PutWordInjective(2, a.content.ModeBits(), pa, b.content.ModeBits(), pb);
    BlobOfPut(a.path, ca);
    BlobOfPut(b.path, cb);
    PutWordInjective(8, |a.content.Body()|, a.content.Body() + (a.digest + s),
                     |b.content.Body()|, b.content.Body() + (b.digest + t));
    ConcatInjective(a.content.Body(), a.digest + s, b.content.Body(), b.digest + t);
    ConcatInjective(a.digest, s, b.digest, t);
  }

  lemma IdentitiesFit(p: Primitives, s: Snapshot, i: nat)
    requires Canonical(s) && i < |s.entries|
    ensures Fits(IdentityOf(p, s.entries[i]))
  {
    WellFormedPaths(s.entries);
    assert ValidPath(s.entries[i].path);
  }

  lemma EmptyIsEmpty(m: Metadata)
    ensures m.IsEmpty() <==> m == EMPTY
  {
  }

  lemma RootIdentityInjective(p: Primitives, a: Metadata, b: Metadata)
    requires RootIdentity(p, a) == RootIdentity(p, b)
    ensures a == b || MetaHash(p, a) == MetaHash(p, b)
  {
    EmptyIsEmpty(a);
    EmptyIsEmpty(b);
    if !a.IsEmpty() && !b.IsEmpty() {
      ConcatInjective(ROOT_DOMAIN, MetaHash(p, a), ROOT_DOMAIN, MetaHash(p, b));
    }
  }

  /** Two canonical snapshots that feed the hasher the same bytes are the same snapshot. */
  lemma IdentityUnambiguous(p: Primitives, a: Snapshot, b: Snapshot)
    requires Canonical(a) && Canonical(b) && NoCollision(p, a, b)
    requires IdentityStream(p, a) == IdentityStream(p, b)
    ensures a == b
  {
    WellFormedPaths(a.entries);
    WellFormedPaths(b.entries);
    WordSizes();
    var ra, rb := RootIdentity(p, a.root), RootIdentity(p, b.root);
    var ia, ib := Identities(p, a.entries), Identities(p, b.entries);
    ConcatInjective(TREE_DOMAIN, PutCounted(ia, PutIdentity, ra), TREE_DOMAIN, PutCounted(ib, PutIdentity, rb));
    PutWordInjective(4, |ia|, PutAll(ia, PutIdentity, ra), |ib|, PutAll(ib, PutIdentity, rb));
    forall i | 0 <= i < |ia| ensures Unambiguous(PutIdentity, ia[i], ib[i]) {
      IdentitiesFit(p, a, i);
      IdentitiesFit(p, b, i);
      forall s: bytes, t: bytes | PutIdentity(ia[i], s) == PutIdentity(ib[i], t) ensures ia[i] == ib[i] && s == t {
        IdentityInjective(ia[i], s, ib[i], t);
      }
    }
    PutAllInjective(ia, ib, PutIdentity, ra, rb);
    IdentitiesDetermine(p, a, b);
  }

  lemma IdentitiesDetermine(p: Primitives, a: Snapshot, b: Snapshot)
    requires NoCollision(p, a, b)
    requires Identities(p, a.entries) == Identities(p, b.entries)
    requires RootIdentity(p, a.root) == RootIdentity(p, b.root)
    ensures a == b
  {
    RootIdentityInjective(p, a.root, b.root);
    assert Occurs(a, a.root) && Occurs(b, b.root);
    assert |a.entries| == |Identities(p, a.entries)| == |b.entries|;
    forall i | 0 <= i < |a.entries| ensures a.entries[i] == b.entries[i] {
      assert Identities(p, a.entries)[i] == Identities(p, b.entries)[i];
      assert Occurs(a, a.entries[i].meta) && Occurs(b, b.entries[i].meta);
    }
    assert a.entries == b.entries;
  }
}
