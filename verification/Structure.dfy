/** Ordered hierarchy and entry shape (rust/src/directory_structure.rs, src/directory.zig). */
module Structure {
  import opened Wire
  import opened ByteOrder
  import opened Paths

  const MODE_LIMIT: nat := 0x200
  const SYMLINK_MODE: u16 := 0x1ff

  datatype Kind = Directory | File | Symlink
  datatype Record = Record(path: bytes, mode: u16, kind: Kind, data: bytes)

  function PathsOf(rs: seq<Record>): (paths: seq<bytes>)
    ensures |paths| == |rs|
    ensures forall i :: 0 <= i < |rs| ==> paths[i] == rs[i].path
  {
    seq(|rs|, i requires 0 <= i < |rs| => rs[i].path)
  }

  /** Position of the last separator. */
  function LastSlash(path: bytes): (r: Option<nat>)
    ensures r.Some? ==> r.value < |path| && path[r.value] == SLASH
    ensures r.Some? ==> forall i :: r.value < i < |path| ==> path[i] != SLASH
    ensures r.None? ==> SLASH !in path
  {
    if path == [] then None
    else if path[|path| - 1] == SLASH then Some(|path| - 1)
    else LastSlash(path[..|path| - 1])
  }

  /* ---------- Declarative form ---------- */

  predicate RecordOk(r: Record) {
    && ValidPath(r.path)
    && r.mode < MODE_LIMIT
    && (r.kind.Directory? ==> r.data == [])
    && (r.kind.Symlink? ==> r.mode == SYMLINK_MODE && SymlinkFault(r.path, r.data).None?)
  }

  predicate HasDirectory(rs: seq<Record>, n: nat, path: bytes)
    requires n <= |rs|
  {
    exists k :: 0 <= k < n && rs[k].path == path && rs[k].kind.Directory?
  }

  /** Every proper ancestor of entry `j` is an earlier directory. */
  predicate AncestorsPrecede(rs: seq<Record>, j: nat)
    requires j < |rs|
  {
    forall i :: 0 <= i < |rs[j].path| && rs[j].path[i] == SLASH ==> HasDirectory(rs, j, rs[j].path[..i])
  }

  predicate WellFormedUpTo(rs: seq<Record>, n: nat)
    requires n <= |rs|
  {
    && (forall j :: 0 <= j < n ==> RecordOk(rs[j]))
    && Increasing(PathsOf(rs)[..n])
    && (forall j :: 0 <= j < n ==> AncestorsPrecede(rs, j))
  }

  /** A tree: shapes are right, paths increase across all pairs, ancestors come first. */
  predicate WellFormed(rs: seq<Record>) {
    |rs| <= MAX_ENTRIES && WellFormedUpTo(rs, |rs|)
  }

  /* ---------- validate ---------- */

  function ShapeFault(r: Record): (fault: Option<DirError>)
  {
    if PathFault(r.path).Some? then PathFault(r.path)
    else if r.mode >= MODE_LIMIT then Some(InvalidMode)
    else match r.kind
      case Directory => if r.data != [] then Some(InvalidEntryData) else None
      case File => None
      case Symlink => if r.mode != SYMLINK_MODE then Some(InvalidMode) else SymlinkFault(r.path, r.data)
  }

  function OrderFault(previous: bytes, path: bytes): (fault: Option<DirError>)
  {
    if previous == path then Some(DuplicatePath)
    else if Lt(previous, path) then None
    else Some(PathsNotSorted)
  }

  function ParentFault(rs: seq<Record>, i: nat): (fault: Option<DirError>)
    requires i < |rs|
  {
    match LastSlash(rs[i].path)
    case None => None
    case Some(slash) =>
      match IndexOf(PathsOf(rs)[..i], rs[i].path[..slash])
      case None => Some(MissingParent)
      case Some(parent) => if rs[parent].kind.Directory? then None else Some(ParentNotDirectory)
  }

  function RecordFault(rs: seq<Record>, i: nat): (fault: Option<DirError>)
    requires i < |rs|
  {
    if ShapeFault(rs[i]).Some? then ShapeFault(rs[i])
    else if i > 0 && OrderFault(rs[i - 1].path, rs[i].path).Some? then OrderFault(rs[i - 1].path, rs[i].path)
    else ParentFault(rs, i)
  }

  function RecordsFault(rs: seq<Record>, n: nat): (fault: Option<DirError>)
    requires n <= |rs|
  {
    if n == 0 then None
    else if RecordsFault(rs, n - 1).Some? then RecordsFault(rs, n - 1)
    else RecordFault(rs, n - 1)
  }

  function Fault(rs: seq<Record>): (fault: Option<DirError>)
  {
    if |rs| > MAX_ENTRIES then Some(TooManyEntries) else RecordsFault(rs, |rs|)
  }

  /* ---------- validate decides well-formedness ---------- */

  /** A path with ancestors has a parent, and the parent's ancestors are the rest of them. */
  lemma AncestorsFromParent(rs: seq<Record>, j: nat, slash: nat, parent: nat)
    requires j < |rs| && LastSlash(rs[j].path) == Some(slash)
    requires parent < j && rs[parent].path == rs[j].path[..slash] && rs[parent].kind.Directory?
    requires AncestorsPrecede(rs, parent)
    ensures AncestorsPrecede(rs, j)
  {
    var path := rs[j].path;
    forall i | 0 <= i < |path| && path[i] == SLASH ensures HasDirectory(rs, j, path[..i]) {
      if i < slash {
        assert path[..slash][..i] == path[..i];
        assert HasDirectory(rs, parent, rs[parent].path[..i]);
        var k :| 0 <= k < parent && rs[k].path == path[..i] && rs[k].kind.Directory?;
      }
    }
  }

  lemma ParentFaultMeans(rs: seq<Record>, n: nat)
    requires n < |rs| && WellFormedUpTo(rs, n)
    ensures ParentFault(rs, n).None? <==> AncestorsPrecede(rs, n)
  {
    var path := rs[n].path;
    match LastSlash(path) {
      case None =>
        assert forall i :: 0 <= i < |path| ==> path[i] in path;
      case Some(slash) =>
        var found := IndexOf(PathsOf(rs)[..n], path[..slash]);
        if ParentFault(rs, n).None? {
          AncestorsFromParent(rs, n, slash, found.value);
        }
        if AncestorsPrecede(rs, n) {
          assert HasDirectory(rs, n, path[..slash]);
          var k :| 0 <= k < n && rs[k].path == path[..slash] && rs[k].kind.Directory?;
          IndexOfUnique(PathsOf(rs)[..n], k);
        }
    }
  }

  lemma OrderFaultMeans(rs: seq<Record>, n: nat)
    requires n < |rs| && Increasing(PathsOf(rs)[..n])
    ensures n > 0 ==> (OrderFault(rs[n - 1].path, rs[n].path).None? <==> Increasing(PathsOf(rs)[..n + 1]))
    ensures n == 0 ==> Increasing(PathsOf(rs)[..n + 1])
  {
    var paths := PathsOf(rs);
    assert paths[..n + 1] == paths[..n] + [paths[n]];
    if n > 0 {
      LtIrreflexive(paths[n]);
      if Lt(paths[n - 1], paths[n]) {
        IncreasingSnoc(paths[..n], paths[n]);
      } else {
        assert paths[..n + 1][n - 1] == paths[n - 1] && paths[..n + 1][n] == paths[n];
      }
    }
  }

  lemma ShapeFaultMeans(r: Record)
    ensures ShapeFault(r).None? <==> RecordOk(r)
  {
  }

  /** What entry `n` must satisfy once the entries before it are in order. */
  predicate ExtendsTree(rs: seq<Record>, n: nat)
    requires n < |rs|
  {
    RecordOk(rs[n]) && Increasing(PathsOf(rs)[..n + 1]) && AncestorsPrecede(rs, n)
  }

  lemma WellFormedSnoc(rs: seq<Record>, n: nat)
    requires n < |rs|
    ensures WellFormedUpTo(rs, n + 1) <==> WellFormedUpTo(rs, n) && ExtendsTree(rs, n)
  {
    var paths := PathsOf(rs);
    if Increasing(paths[..n + 1]) {
      forall i, j | 0 <= i < j < n ensures Lt(paths[..n][i], paths[..n][j]) {
        assert Lt(paths[..n + 1][i], paths[..n + 1][j]);
      }
    }
  }

  lemma RecordFaultMeans(rs: seq<Record>, n: nat)
    requires n < |rs| && WellFormedUpTo(rs, n)
    ensures RecordFault(rs, n).None? <==> ExtendsTree(rs, n)
  {
    ShapeFaultMeans(rs[n]);
    OrderFaultMeans(rs, n);
    ParentFaultMeans(rs, n);
  }

  lemma {:induction false} RecordsFaultMeans(rs: seq<Record>, n: nat)
    requires n <= |rs|
    ensures RecordsFault(rs, n).None? <==> WellFormedUpTo(rs, n)
  {
    hide RecordFault, ExtendsTree;
    if n > 0 {
      RecordsFaultMeans(rs, n - 1);
      WellFormedSnoc(rs, n - 1);
      if WellFormedUpTo(rs, n - 1) {
        RecordFaultMeans(rs, n - 1);
      }
    }
  }

  /** `validate` accepts exactly the well-formed trees. */
  lemma FaultMeans(rs: seq<Record>)
    ensures Fault(rs).None? <==> WellFormed(rs)
  {
    RecordsFaultMeans(rs, |rs|);
  }

  /** The parent of entry `i` is the path up to its last separator, at `slash`. */
  predicate ParentEnds(path: bytes, slash: nat) {
    slash < |path| && path[slash] == 0x2f && 0x2f !in path[slash + 1..]
  }

  /** Entry `i`, the first that is refused, has the defect that the error names. */
  ghost predicate Defect(rs: seq<Record>, i: nat, e: DirError)
    requires i < |rs|
  {
    var r := rs[i];
    match e
    case DuplicatePath => i > 0 && rs[i - 1].path == r.path
    case PathsNotSorted => i > 0 && Lt(r.path, rs[i - 1].path)
    case MissingParent => exists s: nat :: ParentEnds(r.path, s) && forall k :: 0 <= k < i ==> rs[k].path != r.path[..s]
    case ParentNotDirectory =>
      exists s: nat, k :: ParentEnds(r.path, s) && 0 <= k < i && rs[k].path == r.path[..s] && !rs[k].kind.Directory?
    case InvalidEntryData => (r.kind.Directory? && r.data != []) || (r.kind.Symlink? && r.data == [])
    case InvalidMode => r.mode >= 512 || (r.kind.Symlink? && r.mode != 511)
    case TooManyEntries => false
    case _ => PathFault(r.path) == Some(e) || (r.kind.Symlink? && SymlinkFault(r.path, r.data) == Some(e))
  }

  /** The error reported is that of the first entry that spoils the tree. */
  lemma {:induction false} FirstRefused(rs: seq<Record>, n: nat)
    requires n <= |rs| && RecordsFault(rs, n).Some?
    ensures exists i: nat :: i < n && WellFormedUpTo(rs, i) && !WellFormedUpTo(rs, i + 1)
                             && Defect(rs, i, RecordsFault(rs, n).value)
  {
    hide RecordFault, Defect, WellFormedUpTo;
    RecordsFaultMeans(rs, n - 1);
    RecordsFaultMeans(rs, n);
    if RecordsFault(rs, n - 1).Some? {
      FirstRefused(rs, n - 1);
    } else {
      RecordDefect(rs, n - 1);
    }
  }

  /** Neither grammar reports an error of the tree's own. */
  lemma TextErrors(r: Record)
    ensures forall e :: PathFault(r.path) == Some(e) || SymlinkFault(r.path, r.data) == Some(e) ==>
              e !in {DuplicatePath, PathsNotSorted, MissingParent, ParentNotDirectory, InvalidMode, TooManyEntries}
    ensures PathFault(r.path) != Some(InvalidEntryData)
    ensures SymlinkFault(r.path, r.data) == Some(InvalidEntryData) ==> r.data == []
  {
  }

  lemma RecordDefect(rs: seq<Record>, i: nat)
    requires i < |rs| && RecordFault(rs, i).Some?
    ensures Defect(rs, i, RecordFault(rs, i).value)
  {
    hide Lt, PathFault, SymlinkFault;
    TextErrors(rs[i]);
    if ShapeFault(rs[i]).None? && i > 0 {
      LtTotal(rs[i - 1].path, rs[i].path);
    }
    if ShapeFault(rs[i]).None? && (i == 0 || OrderFault(rs[i - 1].path, rs[i].path).None?) {
      var slash := LastSlash(rs[i].path).value;
      assert ParentEnds(rs[i].path, slash);
    }
  }

  /** Refusals: a list that is too long, or the first entry that is no part of a tree. */
  lemma RefusedMeans(rs: seq<Record>)
    requires Fault(rs).Some?
    ensures |rs| > 1_000_000 ==> Fault(rs) == Some(TooManyEntries)
    ensures |rs| <= 1_000_000 ==>
              exists i: nat :: i < |rs| && WellFormedUpTo(rs, i) && !WellFormedUpTo(rs, i + 1)
                               && Defect(rs, i, Fault(rs).value)
  {
    hide Defect, WellFormedUpTo;
    if |rs| <= 1_000_000 {
      FirstRefused(rs, |rs|);
    }
  }

  lemma {:induction false} RecordsFaultPersists(rs: seq<Record>, n: nat)
    requires n <= |rs|
    ensures RecordsFault(rs, n).Some? ==> RecordsFault(rs, |rs|) == RecordsFault(rs, n)
    decreases |rs| - n
  {
    hide RecordFault;
    if n < |rs| {
      RecordsFaultPersists(rs, n + 1);
    }
  }

  /** The checking loop: each parent is looked up by binary search in the growing prefix. */
  method Validate(rs: seq<Record>) returns (fault: Option<DirError>)
    ensures fault == Fault(rs)
  {
    if |rs| > MAX_ENTRIES {
      return Some(TooManyEntries);
    }
    var paths := PathsOf(rs);
    for i := 0 to |rs|
      invariant RecordsFault(rs, i).None?
    {
      RecordsFaultMeans(rs, i);
      RecordsFaultPersists(rs, i + 1);
      fault := ShapeFault(rs[i]);
      if fault.Some? {
        return;
      }
      if i > 0 {
        fault := OrderFault(rs[i - 1].path, rs[i].path);
        if fault.Some? {
          return;
        }
      }
      var slash := LastSlash(rs[i].path);
      if slash.Some? {
        var parent := BinarySearch(paths[..i], rs[i].path[..slash.value]);
        if parent.None? {
          return Some(MissingParent);
        }
        if !rs[parent.value].kind.Directory? {
          return Some(ParentNotDirectory);
        }
      }
    }
    fault := None;
  }

  /* ---------- File data is not part of the structure ---------- */

  /** Same paths, modes and kinds, and the same data except in files. */
  predicate SameStructure(rs: seq<Record>, ts: seq<Record>) {
    && |rs| == |ts|
    && forall i :: 0 <= i < |rs| ==>
         && rs[i].path == ts[i].path && rs[i].mode == ts[i].mode && rs[i].kind == ts[i].kind
         && (!rs[i].kind.File? ==> rs[i].data == ts[i].data)
  }

  lemma ShapeFaultSame(r: Record, t: Record)
    requires r.path == t.path && r.mode == t.mode && r.kind == t.kind && (!r.kind.File? ==> r.data == t.data)
    ensures ShapeFault(r) == ShapeFault(t)
  {
    hide PathFault, SymlinkFault;
  }

  lemma ParentFaultSame(rs: seq<Record>, ts: seq<Record>, i: nat)
    requires SameStructure(rs, ts) && i < |rs|
    ensures ParentFault(rs, i) == ParentFault(ts, i)
  {
    assert PathsOf(rs) == PathsOf(ts);
  }

  lemma {:induction false} RecordsFaultSame(rs: seq<Record>, ts: seq<Record>, n: nat)
    requires SameStructure(rs, ts) && n <= |rs|
    ensures RecordsFault(rs, n) == RecordsFault(ts, n)
  {
    hide ShapeFault, OrderFault, ParentFault;
    if n > 0 {
      RecordsFaultSame(rs, ts, n - 1);
      ShapeFaultSame(rs[n - 1], ts[n - 1]);
      ParentFaultSame(rs, ts, n - 1);
    }
  }

  lemma FaultSame(rs: seq<Record>, ts: seq<Record>)
    requires SameStructure(rs, ts)
    ensures Fault(rs) == Fault(ts)
  {
    RecordsFaultSame(rs, ts, |rs|);
  }
}
