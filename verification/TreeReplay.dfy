/**
 `apply` as it runs (rust/src/tree_patch_apply.rs): rebuilt entries are pushed one by one while
 the output budget goes down.  Every method refines the pure interpreter.
 */
module TreeReplay {
  import opened Wire
  import opened ByteOrder
  import opened Metadata
  import opened Primitives
  import opened Snapshots
  import opened TreePatch
  import opened TreeBody
  import opened TreeDecode
  import opened TreeApply
  import TreeReader
  import TreeWriter
  import Paths
  import Structure

  /** `account`: take `n` bytes from the budget. */
  method Account(remaining: u64, n: nat) returns (left: Result<u64, PatchError>)
    ensures left == if n <= remaining then Ok(remaining - n) else Err(LimitExceeded)
  {
    if n > remaining { return Err(LimitExceeded); }
    left := Ok(remaining - n);
  }

  method FindSource(source: seq<Entry>, path: bytes) returns (r: Result<bytes, PatchError>)
    requires Increasing(EntryPaths(source))
    ensures r == SourceFile(source, path)
  {
    var found := BinarySearch(EntryPaths(source), path);
    if found.None? { return Err(MissingSourceEntry); }
    if !source[found.value].content.Regular? { return Err(SourceKindMismatch); }
    r := Ok(source[found.value].content.body);
  }

  method FindLinked(done: seq<Entry>, path: bytes) returns (r: Result<bytes, PatchError>)
    requires Increasing(EntryPaths(done))
    ensures r == LinkedFile(done, path)
  {
    var found := BinarySearch(EntryPaths(done), path);
    if found.None? { return Err(SnapshotFault(Paths.InvalidHardlinkRelation)); }
    var target := done[found.value];
    if target.meta.hardlinkTo.Some? { return Err(SnapshotFault(Paths.InvalidHardlinkRelation)); }
    if !target.content.Regular? { return Err(SnapshotFault(Paths.InvalidHardlinkRelation)); }
    r := Ok(target.content.body);
  }

  /** The bytes of one file operation, before they are accounted for. */
  method FileBytes(p: Primitives, source: seq<Entry>, done: seq<Entry>, remaining: u64, op: Op)
    returns (r: Result<bytes, PatchError>)
    requires Increasing(EntryPaths(source)) && Increasing(EntryPaths(done))
    requires !op.operation.Directory? && !op.operation.Symlink? && op.mode < 0x200
    ensures match Expand(p, source, Progress(done, remaining), op)
            case Err(e) => r == Err(e)
            case Ok(content) => r.Ok? && content == Regular(op.mode, r.value)
  {
    hide SourceFile, LinkedFile, Delta;
    match op.operation
    case FileRaw => r := Ok(op.payload);
    case FileCopy => r := FindSource(source, op.path);
    case FileDelta =>
      var previous := FindSource(source, op.path);
      if previous.Err? { return previous; }
      r := Delta(p, previous.value, op.payload, remaining);
    case FileHardlink => r := FindLinked(done, op.payload);
  }

  method ApplyEntry(p: Primitives, source: seq<Entry>, done: seq<Entry>, remaining: u64, op: Op)
    returns (r: Result<Progress, PatchError>)
    requires Increasing(EntryPaths(source)) && Increasing(EntryPaths(done))
    ensures r == ApplyOp(p, source, Progress(done, remaining), op)
  {
    if op.mode >= 0x200 { return Err(SnapshotFault(Paths.InvalidMode)); }
    var content: Content;
    var left := remaining;
    if op.operation.Directory? {
      content := Dir(op.mode);
    } else if op.operation.Symlink? {
      var account := Account(remaining, |op.payload|);
      if account.Err? { return Err(account.error); }
      content, left := Link(op.payload), account.value;
    } else {
      var body := FileBytes(p, source, done, remaining, op);
      if body.Err? { return Err(body.error); }
      var account := Account(remaining, |body.value|);
      if account.Err? { return Err(account.error); }
      content, left := Regular(op.mode, body.value), account.value;
    }
    r := Ok(Progress(done + [Entry(op.path, content, op.meta)], left));
  }

  method ApplyEntries(p: Primitives, source: seq<Entry>, ops: seq<Op>, budget: u64)
    returns (r: Result<seq<Entry>, PatchError>)
    requires Increasing(EntryPaths(source)) && Increasing(Structure.PathsOf(TreeBody.Records(ops)))
    ensures match ApplyOps(p, source, ops, Progress([], budget))
            case Err(e) => r == Err(e)
            case Ok(st) => r == Ok(st.entries)
  {
    hide Expand;
    var entries: seq<Entry>, remaining := [], budget;
    for i := 0 to |ops|
      invariant EntryPaths(entries) == Structure.PathsOf(TreeBody.Records(ops))[..i]
      invariant ApplyOps(p, source, ops, Progress([], budget))
                == ApplyOps(p, source, ops[i..], Progress(entries, remaining))
    {
      assert ops[i..][1..] == ops[i + 1..];
      var next := ApplyEntry(p, source, entries, remaining, ops[i]);
      if next.Err? { return Err(next.error); }
      entries, remaining := next.value.entries, next.value.remaining;
    }
    r := Ok(entries);
  }

  lemma ParsedPathsIncrease(p: Primitives, patch: bytes, limits: Limits)
    requires Decode(p, patch, limits).Ok?
    ensures Increasing(Structure.PathsOf(TreeBody.Records(Decode(p, patch, limits).value.ops)))
  {
    hide DecodePrefix, CheckRules, Structure.WellFormedUpTo;
    var ops := Decode(p, patch, limits).value.ops;
    WellFormedOps(ops);
  }

  lemma WellFormedOps(ops: seq<Op>)
    requires Structure.Fault(TreeBody.Records(ops)).None?
    ensures Increasing(Structure.PathsOf(TreeBody.Records(ops)))
  {
    var rs := TreeBody.Records(ops);
    Structure.FaultMeans(rs);
    assert Structure.PathsOf(rs)[..|rs|] == Structure.PathsOf(rs);
  }

  /** `apply` refines the pure interpreter, error for error and entry for entry. */
  method ApplyPatch(p: Primitives, source: Snapshot, patch: bytes, limits: ApplyLimits)
    returns (r: Result<Snapshot, PatchError>)
    requires Canonical(source)
    ensures r == Apply(p, source, patch, limits)
  {
    hide Decode, TreeHash, Project, Fault, ApplyOps, Canonical;
    var parsed := TreeReader.DecodePatch(p, patch, limits.patch);
    if parsed.Err? { return Err(parsed.error); }
    var ParsedPatch(header, _, ops, root) := parsed.value;
    var masked := TreeWriter.Masked(source, header.omit);
    var sourceHash := TreeWriter.HashOf(p, masked);
    if sourceHash != header.sourceHash { return Err(SourceHashMismatch); }
    TreeWriter.SortedEntries(source);
    ParsedPathsIncrease(p, patch, limits.patch);
    var entries := ApplyEntries(p, source.entries, ops, limits.maxOutputBytes);
    if entries.Err? { return Err(entries.error); }
    var result := Snapshot(entries.value, root);
    var fault := New(result);
    if fault.Some? { return Err(SnapshotFault(fault.value)); }
    var targetHash := TreeWriter.HashOf(p, result);
    if targetHash != header.targetHash { return Err(TargetHashMismatch); }
    r := Ok(result);
  }
}
