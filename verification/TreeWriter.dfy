/**
 `create` as it runs (rust/src/tree_patch_encode.rs): both trees projected, chunks appended to a
 bounded buffer, and the header slot overwritten last.  Every method refines the pure encoder.
 */
module TreeWriter {
  import opened Wire
  import opened ByteOrder
  import opened Metadata
  import opened Primitives
  import opened Snapshots
  import opened TreePatch
  import opened TreeBody
  import opened TreeEncode
  import opened PathFilter
  import opened WriteBuffer
  import FilePatch
  import MetadataStream

  /** The buffer after a step whose outcome should have been `goal`. */
  ghost predicate Wrote(w: Writer, fault: Option<PatchError>, goal: Result<bytes, PatchError>)
    reads w
  {
    && w.Valid() && w.maximum == DEFAULTS.maxPatchBytes
    && match goal
       case Err(e) => fault == Some(e)
       case Ok(out) => fault == None && w.buffer == out
  }

  method Put(w: Writer, chunk: bytes) returns (fault: Option<PatchError>)
    requires w.Valid() && w.maximum == DEFAULTS.maxPatchBytes
    modifies w
    ensures Wrote(w, fault, PutBytes(old(w.buffer), chunk))
  {
    var ok := w.Put(chunk);
    fault := if ok then None else Some(LimitExceeded);
  }

  /** Splitting a chunk changes neither what is written nor whether it fits. */
  lemma PutInTwo(out: bytes, a: bytes, b: bytes)
    ensures PutBytes(out, a + b) == match PutBytes(out, a)
                                    case Err(e) => Err(e)
                                    case Ok(next) => PutBytes(next, b)
  {
    assert out + (a + b) == out + a + b;
  }

  lemma RuleChunks(r: Rule)
    ensures PutRule(r, []) == [ActionTag(r.action), 0, 0, 0] + (Le(4, |r.pattern|) + r.pattern)
  {
    assert Le(1, 0) == [0];
    assert Le(1, ActionTag(r.action)) == [ActionTag(r.action)];
    assert Le(2, 0) == [0] + Le(1, 0);
    assert r.pattern + [] == r.pattern;
  }

  method WriteRule(w: Writer, r: Rule) returns (fault: Option<PatchError>)
    requires w.Valid() && w.maximum == DEFAULTS.maxPatchBytes
    modifies w
    ensures Wrote(w, fault, PutBytes(old(w.buffer), PutRule(r, [])))
  {
    hide PutBytes, PutRule, Le;
    RuleChunks(r);
    PutInTwo(w.buffer, [ActionTag(r.action), 0, 0, 0], Le(4, |r.pattern|) + r.pattern);
    fault := Put(w, [ActionTag(r.action), 0, 0, 0]);
    if fault.Some? { return; }
    PutInTwo(w.buffer, Le(4, |r.pattern|), r.pattern);
    fault := Put(w, Le(4, |r.pattern|));
    if fault.Some? { return; }
    fault := Put(w, r.pattern);
  }

  method WriteRuleList(w: Writer, rules: seq<Rule>) returns (fault: Option<PatchError>)
    requires w.Valid() && w.maximum == DEFAULTS.maxPatchBytes
    modifies w
    ensures Wrote(w, fault, WriteRules(rules, old(w.buffer)))
  {
    hide PutBytes, PutRule;
    for i := 0 to |rules|
      invariant w.Valid()
      invariant WriteRules(rules, old(w.buffer)) == WriteRules(rules[i..], w.buffer)
    {
      assert rules[i..][1..] == rules[i + 1..];
      if rules[i].pattern == [] || |rules[i].pattern| > DEFAULTS.maxPatternBytes {
        return Some(LimitExceeded);
      }
      fault := WriteRule(w, rules[i]);
      if fault.Some? { return; }
    }
    fault := None;
  }

  /* ---------- Entries ---------- */

  /** Operation selection, with the source file found by binary search. */
  method ChooseOp(p: Primitives, source: seq<Entry>, e: Entry) returns (r: Result<Op, PatchError>)
    requires Increasing(EntryPaths(source))
    ensures r == Choose(p, source, e)
  {
    var operation, payload := Directory, [];
    match e.content {
      case Dir(_) =>
      case Link(target) =>
        if |target| > DEFAULTS.maxSymlinkBytes { return Err(LimitExceeded); }
        operation, payload := Symlink, target;
      case Regular(_, body) =>
        if e.meta.hardlinkTo.Some? {
          operation, payload := FileHardlink, e.meta.hardlinkTo.value;
        } else {
          var found := BinarySearch(EntryPaths(source), e.path);
          if found.None? || !source[found.value].content.Regular? {
            operation, payload := FileRaw, body;
          } else if source[found.value].content.body == body {
            operation := FileCopy;
          } else {
            var delta := FilePatch.EncodeFile(p, source[found.value].content.body, body);
            if delta.Err? { return Err(FileFault(delta.error)); }
            operation, payload := FileDelta, delta.value;
          }
        }
    }
    if |payload| > DEFAULTS.maxPayloadBytes { return Err(LimitExceeded); }
    r := Ok(Op(e.path, e.content.ModeBits(), operation, payload, e.meta));
  }

  lemma HeadChunks(op: Op)
    ensures PutHead(Head(op.operation, op.mode, |op.path|, |op.payload|), op.path + op.payload)
         == [op.operation.Tag(), 0] + (Le(2, op.mode) + (Le(4, |op.path|)
            + (Le(8, |op.payload|) + (op.path + op.payload))))
  {
    var sizes := Le(2, op.mode) + (Le(4, |op.path|) + (Le(8, |op.payload|) + (op.path + op.payload)));
    assert Le(1, 0) == [0];
    assert Le(1, op.operation.Tag()) == [op.operation.Tag()];
    assert [op.operation.Tag()] + ([0] + sizes) == [op.operation.Tag(), 0] + sizes;
  }

  method WriteHeadAndPayload(w: Writer, op: Op) returns (fault: Option<PatchError>)
    requires w.Valid() && w.maximum == DEFAULTS.maxPatchBytes
    modifies w
    ensures Wrote(w, fault, PutBytes(old(w.buffer),
      PutHead(Head(op.operation, op.mode, |op.path|, |op.payload|),
              op.path + op.payload)))
  {
    hide PutBytes, PutHead, Le;
    HeadChunks(op);
    ghost var s8 := Le(8, |op.payload|) + (op.path + op.payload);
    ghost var s4 := Le(4, |op.path|) + s8;
    PutInTwo(w.buffer, [op.operation.Tag(), 0], Le(2, op.mode) + s4);
    fault := Put(w, [op.operation.Tag(), 0]);
    if fault.Some? { return; }
    PutInTwo(w.buffer, Le(2, op.mode), s4);
    fault := Put(w, Le(2, op.mode));
    if fault.Some? { return; }
    PutInTwo(w.buffer, Le(4, |op.path|), s8);
    fault := Put(w, Le(4, |op.path|));
    if fault.Some? { return; }
    PutInTwo(w.buffer, Le(8, |op.payload|), op.path + op.payload);
    fault := Put(w, Le(8, |op.payload|));
    if fault.Some? { return; }
    PutInTwo(w.buffer, op.path, op.payload);
    fault := Put(w, op.path);
    if fault.Some? { return; }
    fault := Put(w, op.payload);
  }

  lemma BlobChunks(blob: bytes)
    ensures PutBlob(blob, []) == Le(4, |blob|) + blob
  {
    assert blob + [] == blob;
  }

  /** Metadata is encoded into its own buffer, measured, and appended behind its length. */
  method WriteRecord(w: Writer, m: Metadata) returns (fault: Option<PatchError>)
    requires w.Valid() && w.maximum == DEFAULTS.maxPatchBytes
    modifies w
    ensures Wrote(w, fault, WriteMetadata(old(w.buffer), m))
  {
    hide PutBytes, Le, PutBlob, MetadataStream.EncodeChecked;
    var encoded := MetadataStream.Encode(m);
    if encoded.Err? { return Some(MetadataFault(encoded.error)); }
    var blob := encoded.value;
    if |blob| > DEFAULTS.maxPayloadBytes || |blob| >= U32_LIMIT { return Some(LimitExceeded); }
    BlobChunks(blob);
    PutInTwo(w.buffer, Le(4, |blob|), blob);
    fault := Put(w, Le(4, |blob|));
    if fault.Some? { return; }
    fault := Put(w, blob);
  }

  method WriteEntry(w: Writer, op: Op) returns (fault: Option<PatchError>)
    requires w.Valid() && w.maximum == DEFAULTS.maxPatchBytes
    modifies w
    ensures Wrote(w, fault, WriteOp(old(w.buffer), op))
  {
    hide PutBytes, PutHead, WriteMetadata;
    fault := WriteHeadAndPayload(w, op);
    if fault.Some? { return; }
    fault := WriteRecord(w, op.meta);
  }

  method WriteEntries(p: Primitives, w: Writer, source: seq<Entry>, entries: seq<Entry>)
    returns (fault: Option<PatchError>)
    requires w.Valid() && w.maximum == DEFAULTS.maxPatchBytes && Increasing(EntryPaths(source))
    modifies w
    ensures Wrote(w, fault, WriteOps(p, source, entries, old(w.buffer)))
  {
    hide WriteOp, Choose;
    for i := 0 to |entries|
      invariant w.Valid()
      invariant WriteOps(p, source, entries, old(w.buffer)) == WriteOps(p, source, entries[i..], w.buffer)
    {
      assert entries[i..][1..] == entries[i + 1..];
      var op := ChooseOp(p, source, entries[i]);
      if op.Err? { return Some(op.error); }
      fault := WriteEntry(w, op.value);
      if fault.Some? { return; }
    }
    fault := None;
  }

  method WriteTree(p: Primitives, w: Writer, source: Snapshot, target: Snapshot, rules: seq<Rule>)
    returns (fault: Option<PatchError>)
    requires w.Valid() && w.maximum == DEFAULTS.maxPatchBytes && w.buffer == []
    requires Increasing(EntryPaths(source.entries))
    modifies w
    ensures Wrote(w, fault, WriteAll(p, source, target, rules))
  {
    hide WriteRules, WriteOps, WriteMetadata;
    fault := Put(w, EmptySlot());
    assert [] + EmptySlot() == EmptySlot();
    assert w.buffer == EmptySlot();
    fault := WriteRuleList(w, rules);
    if fault.Some? { return; }
    fault := WriteEntries(p, w, source.entries, target.entries);
    if fault.Some? { return; }
    if !target.root.IsEmpty() {
      fault := WriteRecord(w, target.root);
    }
  }

  /* ---------- create ---------- */

  method HashOf(p: Primitives, s: Snapshot) returns (d: Digest)
    ensures d == TreeHash(p, s)
  {
    var fed := HashStream(p, s);
    d := (p.blake3)(fed);
  }

  /** `project`, skipped when nothing is omitted. */
  method Masked(s: Snapshot, omit: Omit) returns (r: Snapshot)
    requires Canonical(s)
    ensures r == Project(s, omit) && Canonical(r)
  {
    ProjectCanonical(s, omit);
    if omit == {} {
      ProjectUnion(s, {}, {});
      return s;
    }
    var projected := ProjectSnapshot(s, omit);
    r := projected.value;
  }

  method Finish(p: Primitives, h: Header, out: bytes) returns (patch: bytes)
    requires |out| >= HEADER_LEN
    ensures patch == EncodeHeader(p, h, out[HEADER_LEN..]) + out[HEADER_LEN..]
  {
    var slot := new byte[HEADER_LEN];
    EncodeHeaderInPlace(p, h, out[HEADER_LEN..], slot);
    patch := slot[..] + out[HEADER_LEN..];
  }

  /** `create` refines the pure encoder, error for error and byte for byte. */
  method CreatePatch(p: Primitives, source: Snapshot, target: Snapshot, rules: seq<Rule>, omit: Omit)
    returns (r: Result<bytes, PatchError>)
    requires Canonical(source) && Canonical(target)
    ensures r == Create(p, source, target, rules, omit)
  {
    hide WriteAll, CompileFilter, Project, TreeHash, Canonical, EncodeHeader;
    var src := Masked(source, omit);
    var tgt := Masked(target, omit);
    if |rules| > DEFAULTS.maxRules { return Err(LimitExceeded); }
    var filter := FilterCompile(rules);
    if filter.Err? { return Err(FilterFault(filter.error)); }
    var sourceHash := HashOf(p, src);
    var targetHash := HashOf(p, tgt);
    var header := Header(2, !tgt.root.IsEmpty(), omit, |rules| % U32_LIMIT, |tgt.entries| % U32_LIMIT,
                         sourceHash, targetHash);
    var w := new Writer(DEFAULTS.maxPatchBytes);
    SortedEntries(src);
    var fault := WriteTree(p, w, src, tgt, rules);
    if fault.Some? { return Err(fault.value); }
    var patch := Finish(p, header, w.buffer);
    r := Ok(patch);
  }

  lemma SortedEntries(s: Snapshot)
    requires Canonical(s)
    ensures Increasing(EntryPaths(s.entries))
  {
    WellFormedPaths(s.entries);
  }
}
