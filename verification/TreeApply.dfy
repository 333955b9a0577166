/** `apply` (rust/src/tree_patch_apply.rs): an operation interpreter with an output budget. */
module TreeApply {
  import opened Wire
  import opened Metadata
  import opened Primitives
  import opened Snapshots
  import opened TreePatch
  import opened TreeBody
  import opened TreeDecode
  import ByteOrder
  import FilePatch
  import Listing
  import MetadataCanonical
  import Paths

  datatype ApplyLimits = ApplyLimits(patch: Limits, maxOutputBytes: u64)

  /** What has been rebuilt and how much output is still allowed. */
  datatype Progress = Progress(entries: seq<Entry>, remaining: u64)

  /**
   A file delta whose output would exceed the budget is refused before decompression, but only
   after the checks that decompression itself would make first.
   */
  function Delta(p: Primitives, source: bytes, patch: bytes, remaining: nat): (r: Result<bytes, PatchError>)
  {
    match FilePatch.DecodeHeader(patch)
    case Err(e) => Err(FileFault(e))
    case Ok(Parsed(h, _)) =>
      if h.targetLen > remaining then
        if h.sourceLen != |source| then Err(FileFault(FilePatch.SizeMismatch))
        else if h.sourceHash != (p.blake3)(source) then Err(FileFault(FilePatch.SourceHashMismatch))
        else if !FilePatch.WindowFits(|source|, h.targetLen) then Err(FileFault(FilePatch.WindowTooLarge))
        else Err(LimitExceeded)
      else match FilePatch.Apply(p, source, patch, 0)
        case Err(e) => Err(FileFault(e))
        case Ok(body) => Ok(body)
  }

  /** The body of the same-path source file. */
  function SourceFile(source: seq<Entry>, path: bytes): (r: Result<bytes, PatchError>)
  {
    match FindPath(source, path)
    case None => Err(MissingSourceEntry)
    case Some(i) => if source[i].content.Regular? then Ok(source[i].content.body) else Err(SourceKindMismatch)
  }

  /** The body of an earlier plain file of the result. */
  function LinkedFile(done: seq<Entry>, path: bytes): (r: Result<bytes, PatchError>)
  {
    match FindPath(done, path)
    case None => Err(SnapshotFault(Paths.InvalidHardlinkRelation))
    case Some(i) =>
      if done[i].meta.hardlinkTo.None? && done[i].content.Regular? then Ok(done[i].content.body)
      else Err(SnapshotFault(Paths.InvalidHardlinkRelation))
  }

  function Expand(p: Primitives, source: seq<Entry>, st: Progress, op: Op): (r: Result<Content, PatchError>)
  {
    if op.mode >= 0x200 then Err(SnapshotFault(Paths.InvalidMode))
    else match op.operation
      case Directory => Ok(Dir(op.mode))
      case Symlink => Ok(Link(op.payload))
      case FileRaw => Ok(Regular(op.mode, op.payload))
      case FileCopy =>
        var body :- SourceFile(source, op.path);
        Ok(Regular(op.mode, body))
      case FileDelta =>
        var previous :- SourceFile(source, op.path);
        var body :- Delta(p, previous, op.payload, st.remaining);
        Ok(Regular(op.mode, body))
      case FileHardlink =>
        var body :- LinkedFile(st.entries, op.payload);
        Ok(Regular(op.mode, body))
  }

  function ApplyOp(p: Primitives, source: seq<Entry>, st: Progress, op: Op): (r: Result<Progress, PatchError>)
    ensures r.Ok? ==> && |r.value.entries| == |st.entries| + 1
                      && r.value.remaining + |r.value.entries[|st.entries|].content.Body()| == st.remaining
  {
    var content :- Expand(p, source, st, op);
    if |content.Body()| > st.remaining then Err(LimitExceeded)
    else Ok(Progress(st.entries + [Entry(op.path, content, op.meta)], st.remaining - |content.Body()|))
  }

  function ApplyOps(p: Primitives, source: seq<Entry>, ops: seq<Op>, st: Progress): (r: Result<Progress, PatchError>)
    decreases |ops|
  {
    if ops == [] then Ok(st)
    else
      var st :- ApplyOp(p, source, st, ops[0]);
      ApplyOps(p, source, ops[1..], st)
  }

  /** The constructor and the identity check at the end. */
  function Seal(p: Primitives, s: Snapshot, header: Header): (r: Result<Snapshot, PatchError>)
    ensures r.Ok? ==> r.value == s && Fault(s).None? && TreeHash(p, s) == header.targetHash
  {
    match Fault(s)
    case Some(e) => Err(SnapshotFault(e))
    case None => if TreeHash(p, s) != header.targetHash then Err(TargetHashMismatch) else Ok(s)
  }

  function Apply(p: Primitives, source: Snapshot, patch: bytes, limits: ApplyLimits): (r: Result<Snapshot, PatchError>)
  {
    var ParsedPatch(header, _, ops, root) :- Decode(p, patch, limits.patch);
    if TreeHash(p, Project(source, header.omit)) != header.sourceHash then Err(SourceHashMismatch)
    else
      var st :- ApplyOps(p, source.entries, ops, Progress([], limits.maxOutputBytes));
      Seal(p, Snapshot(st.entries, root), header)
  }

  /* ---------- What every operation does ---------- */

  /** Directories, symlinks and whole files need nothing from elsewhere. */
  lemma PlainOperations(p: Primitives, source: seq<Entry>, st: Progress, op: Op)
    ensures op.mode >= 512 ==> Expand(p, source, st, op) == Err(SnapshotFault(Paths.InvalidMode))
    ensures op.mode < 512 && op.operation == Directory ==> Expand(p, source, st, op) == Ok(Dir(op.mode))
    ensures op.mode < 512 && op.operation == Symlink ==> Expand(p, source, st, op) == Ok(Link(op.payload))
    ensures op.mode < 512 && op.operation == FileRaw ==> Expand(p, source, st, op) == Ok(Regular(op.mode, op.payload))
  {
    hide Delta;
  }

  /** Copies and deltas take the plain file at the same path of the source, and nothing else will do. */
  lemma SourceOperations(p: Primitives, source: seq<Entry>, st: Progress, op: Op)
    requires ByteOrder.Increasing(EntryPaths(source)) && op.mode < 512
    requires op.operation == FileCopy || op.operation == FileDelta
    ensures (forall i :: 0 <= i < |source| ==> source[i].path != op.path) ==>
              Expand(p, source, st, op) == Err(MissingSourceEntry)
    ensures forall i :: 0 <= i < |source| && source[i].path == op.path && !source[i].content.Regular? ==>
              Expand(p, source, st, op) == Err(SourceKindMismatch)
    ensures forall i :: FileAt(source, op.path, i) && op.operation == FileCopy ==>
              Expand(p, source, st, op) == Ok(Regular(op.mode, source[i].content.body))
    ensures forall i :: FileAt(source, op.path, i) && op.operation == FileDelta ==>
              match Delta(p, source[i].content.body, op.payload, st.remaining)
              case Err(e) => Expand(p, source, st, op) == Err(e)
              case Ok(body) => Expand(p, source, st, op) == Ok(Regular(op.mode, body))
  {
    hide Delta, FindPath, ByteOrder.Lt;
    forall i | 0 <= i < |source| && source[i].path == op.path ensures FindPath(source, op.path) == Some(i) {
      FindPathUnique(source, i);
    }
  }

  /** A hardlink takes the bytes of an earlier plain file that is not a hardlink itself. */
  lemma LinkOperations(p: Primitives, source: seq<Entry>, st: Progress, op: Op)
    requires ByteOrder.Increasing(EntryPaths(st.entries)) && op.mode < 512 && op.operation == FileHardlink
    ensures forall i :: FileAt(st.entries, op.payload, i) && st.entries[i].meta.hardlinkTo.None? ==>
              Expand(p, source, st, op) == Ok(Regular(op.mode, st.entries[i].content.body))
    ensures (forall i :: FileAt(st.entries, op.payload, i) ==> st.entries[i].meta.hardlinkTo.Some?) ==>
              Expand(p, source, st, op) == Err(SnapshotFault(Paths.InvalidHardlinkRelation))
  {
    hide Delta, FindPath, ByteOrder.Lt;
    forall i | 0 <= i < |st.entries| && st.entries[i].path == op.payload
      ensures FindPath(st.entries, op.payload) == Some(i)
    {
      FindPathUnique(st.entries, i);
    }
    var found := FindPath(st.entries, op.payload);
    if found.Some? && st.entries[found.value].content.Regular? {
      assert FileAt(st.entries, op.payload, found.value);
    }
  }

  /** A source or a result with another identity than the patch promises is refused as such. */
  lemma WrongIdentityRefused(p: Primitives, source: Snapshot, patch: bytes, limits: ApplyLimits)
    requires Decode(p, patch, limits.patch).Ok?
    ensures var parsed := Decode(p, patch, limits.patch).value;
            TreeHash(p, Project(source, parsed.header.omit)) != parsed.header.sourceHash ==>
              Apply(p, source, patch, limits) == Err(SourceHashMismatch)
    ensures var parsed := Decode(p, patch, limits.patch).value;
            var rebuilt := ApplyOps(p, source.entries, parsed.ops, Progress([], limits.maxOutputBytes));
            && TreeHash(p, Project(source, parsed.header.omit)) == parsed.header.sourceHash && rebuilt.Ok?
            && Fault(Snapshot(rebuilt.value.entries, parsed.root)).None?
            && TreeHash(p, Snapshot(rebuilt.value.entries, parsed.root)) != parsed.header.targetHash ==>
              Apply(p, source, patch, limits) == Err(TargetHashMismatch)
  {
    hide Decode, TreeHash, Project, Fault, ApplyOps;
  }

  /* ---------- The interpreter as it runs ---------- */

  lemma {:induction false} ApplyOpsPrefix(p: Primitives, source: seq<Entry>, ops: seq<Op>, st: Progress)
    requires ApplyOps(p, source, ops, st).Ok?
    ensures var out := ApplyOps(p, source, ops, st).value;
            && |out.entries| == |st.entries| + |ops| && out.entries[..|st.entries|] == st.entries
            && forall i :: 0 <= i < |ops| ==>
                 var e := out.entries[|st.entries| + i];
                 e.path == ops[i].path && e.meta == ops[i].meta && |e.content.Body()| <= st.remaining
    decreases |ops|
  {
    hide Expand;
    if ops != [] {
      var next := ApplyOp(p, source, st, ops[0]).value;
      ApplyOpsPrefix(p, source, ops[1..], next);
      var out := ApplyOps(p, source, ops, st).value;
      assert next.entries[..|st.entries|] == st.entries;
      assert out.entries[..|next.entries|][..|st.entries|] == out.entries[..|st.entries|];
      assert out.entries[|st.entries|] == out.entries[..|next.entries|][|st.entries|];
      forall i | 0 <= i < |ops|
        ensures var e := out.entries[|st.entries| + i];
                e.path == ops[i].path && e.meta == ops[i].meta && |e.content.Body()| <= st.remaining
      {
        if i > 0 {
          assert ops[i] == ops[1..][i - 1];
        }
      }
    }
  }

  function ContentSum(entries: seq<Entry>): (n: nat) {
    if entries == [] then 0 else ContentSum(entries[..|entries| - 1]) + |entries[|entries| - 1].content.Body()|
  }

  /** The budget and what has been rebuilt always add up to the same. */
  lemma {:induction false} BudgetConserved(p: Primitives, source: seq<Entry>, ops: seq<Op>, st: Progress)
    requires ApplyOps(p, source, ops, st).Ok?
    ensures var out := ApplyOps(p, source, ops, st).value;
            out.remaining + ContentSum(out.entries) == st.remaining + ContentSum(st.entries)
    decreases |ops|
  {
    hide Expand;
    if ops != [] {
      var next := ApplyOp(p, source, st, ops[0]).value;
      assert next.entries[..|next.entries| - 1] == st.entries;
      BudgetConserved(p, source, ops[1..], next);
    }
  }

  /** Whatever patch it is given, apply never rebuilds more than the caller's limit. */
  lemma OutputBounded(p: Primitives, source: Snapshot, patch: bytes, limits: ApplyLimits)
    requires Apply(p, source, patch, limits).Ok?
    ensures ContentSum(Apply(p, source, patch, limits).value.entries) <= limits.maxOutputBytes
  {
    hide Decode, TreeHash, Project, Fault, ApplyOps, ContentSum;
    var parsed := Decode(p, patch, limits.patch).value;
    BudgetConserved(p, source.entries, parsed.ops, Progress([], limits.maxOutputBytes));
    assert ContentSum([]) == 0 by { NoContent(); }
  }

  lemma NoContent()
    ensures ContentSum([]) == 0
  {
  }

  /**
   Refusing an oversized delta early does not change which error is reported: the source and window
   errors of the file patch come first, and only where it would go on to decompress is it the limit.
   */
  lemma DeltaPrecedence(p: Primitives, source: bytes, patch: bytes, remaining: nat)
    ensures var full := FilePatch.Apply(p, source, patch, 0);
            var header := FilePatch.DecodeHeader(patch);
            Delta(p, source, patch, remaining) ==
            if header.Err? then Err(FileFault(header.error))
            else if header.value.value.targetLen <= remaining then
              (match full case Err(e) => Err(FileFault(e)) case Ok(body) => Ok(body))
            else if full == Err(FilePatch.SizeMismatch) || full == Err(FilePatch.SourceHashMismatch)
                    || full == Err(FilePatch.WindowTooLarge) then Err(FileFault(full.error))
            else Err(LimitExceeded)
  {
    hide FilePatch.DecodeHeader;
  }

  /** Whatever patch it is given, a successful apply returns a canonical snapshot with the promised identity. */
  lemma ApplySound(p: Primitives, source: Snapshot, patch: bytes, limits: ApplyLimits)
    requires Apply(p, source, patch, limits).Ok?
    ensures Canonical(Apply(p, source, patch, limits).value)
    ensures var parsed := Decode(p, patch, limits.patch).value;
            && TreeHash(p, Apply(p, source, patch, limits).value) == parsed.header.targetHash
            && TreeHash(p, Project(source, parsed.header.omit)) == parsed.header.sourceHash
  {
    var ParsedPatch(header, rules, ops, root) := Decode(p, patch, limits.patch).value;
    DecodedCanonical(p, patch, limits.patch);
    AppliedWellTyped(p, source.entries, ops, root, limits.maxOutputBytes);
  }

  lemma AppliedWellTyped(p: Primitives, source: seq<Entry>, ops: seq<Op>, root: Metadata, budget: u64)
    requires ApplyOps(p, source, ops, Progress([], budget)).Ok?
    requires MetadataCanonical.Canonical(root) && forall op :: op in ops ==> OpCanonical(op)
    ensures WellTyped(Snapshot(ApplyOps(p, source, ops, Progress([], budget)).value.entries, root))
  {
    ApplyOpsPrefix(p, source, ops, Progress([], budget));
    var entries := ApplyOps(p, source, ops, Progress([], budget)).value.entries;
    forall i | 0 <= i < |entries|
      ensures MetadataCanonical.Canonical(entries[i].meta) && |entries[i].content.Body()| < U64_LIMIT
    {
      assert OpCanonical(ops[i]);
      assert entries[0 + i].meta == ops[i].meta;
    }
  }

  lemma DecodedCanonical(p: Primitives, patch: bytes, limits: Limits)
    requires Decode(p, patch, limits).Ok?
    ensures var parsed := Decode(p, patch, limits).value;
            MetadataCanonical.Canonical(parsed.root) && forall op :: op in parsed.ops ==> OpCanonical(op)
  {
    TreeDecode.EncodeOfDecode(p, patch, limits);
    RootCanonical(p, patch, limits);
  }

  lemma RootCanonical(p: Primitives, patch: bytes, limits: Limits)
    requires Decode(p, patch, limits).Ok?
    ensures MetadataCanonical.Canonical(Decode(p, patch, limits).value.root)
  {
    hide DecodePrefix, MetadataStep, CheckRules, Listing.ParseAll;
    var Envelope(header, body) := DecodePrefix(p, patch, limits).value;
    var g := Grammar(limits, header.omit);
    var s1 := Listing.ParseAll(body, header.ruleCount, g.RuleStep).value.rest;
    var s2 := Listing.ParseAll(s1, header.entryCount, g.OpStep).value.rest;
    if header.rootMetadata {
      PutOfMetadata(s2, limits.maxPayloadBytes);
    }
  }
}
