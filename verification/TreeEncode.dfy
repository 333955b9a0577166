/** `create` (rust/src/tree_patch_encode.rs): operation selection and serialization. */
module TreeEncode {
  import opened Wire
  import opened Listing
  import opened Metadata
  import opened Primitives
  import opened Snapshots
  import opened TreePatch
  import opened TreeBody
  import opened PathFilter
  import ByteOrder
  import FilePatch
  import MetadataCodec
  import MetadataStream

  /* ---------- Operation selection ---------- */

  /** Unchanged files are copied, changed ones become deltas, new ones travel raw. */
  function SelectFile(p: Primitives, source: seq<Entry>, path: bytes, body: bytes)
    : (r: Result<(Operation, bytes), PatchError>)
  {
    match FindPath(source, path)
    case None => Ok((FileRaw, body))
    case Some(i) =>
      match source[i].content
      case Dir(_) => Ok((FileRaw, body))
      case Link(_) => Ok((FileRaw, body))
      case Regular(_, previous) =>
        if previous == body then Ok((FileCopy, []))
        else match FilePatch.Encode(p, previous, body)
          case Err(e) => Err(FileFault(e))
          case Ok(delta) => Ok((FileDelta, delta))
  }

  function Select(p: Primitives, source: seq<Entry>, e: Entry): (r: Result<(Operation, bytes), PatchError>)
  {
    match e.content
    case Dir(_) => Ok((Directory, []))
    case Link(target) => if |target| > DEFAULTS.maxSymlinkBytes then Err(LimitExceeded) else Ok((Symlink, target))
    case Regular(_, body) =>
      if e.meta.hardlinkTo.Some? then Ok((FileHardlink, e.meta.hardlinkTo.value))
      else SelectFile(p, source, e.path, body)
  }

  function Choose(p: Primitives, source: seq<Entry>, e: Entry): (r: Result<Op, PatchError>)
    ensures r.Ok? ==> r.value.path == e.path && r.value.mode == e.content.ModeBits() && r.value.meta == e.meta
  {
    var (operation, payload) :- Select(p, source, e);
    if |payload| > DEFAULTS.maxPayloadBytes then Err(LimitExceeded)
    else Ok(Op(e.path, e.content.ModeBits(), operation, payload, e.meta))
  }

  /** Directories, symlinks and hardlinks say what they are and carry what they point to. */
  lemma OtherOperations(p: Primitives, source: seq<Entry>, e: Entry, op: Op)
    requires Choose(p, source, e) == Ok(op)
    ensures op.path == e.path && op.mode == e.content.ModeBits() && op.meta == e.meta
    ensures op.operation == Directory <==> e.content.Dir?
    ensures op.operation == Symlink <==> e.content.Link?
    ensures op.operation == FileHardlink <==> e.content.Regular? && e.meta.hardlinkTo.Some?
    ensures op.operation == Directory ==> op.payload == []
    ensures op.operation == Symlink ==> op.payload == e.content.target
    ensures op.operation == FileHardlink ==> e.meta.hardlinkTo == Some(op.payload)
  {
    hide FilePatch.Encode;
  }

  /**
   A plain file is copied exactly when the source has the same bytes at its path, sent as a delta
   from the source's bytes exactly when those are different, and sent whole exactly when the
   source has no plain file there.
   */
  lemma FileOperations(p: Primitives, source: seq<Entry>, e: Entry, op: Op)
    requires ByteOrder.Increasing(EntryPaths(source)) && Choose(p, source, e) == Ok(op)
    requires e.content.Regular? && e.meta.hardlinkTo.None?
    ensures op.operation == FileCopy <==>
            exists i :: FileAt(source, e.path, i) && source[i].content.body == e.content.body
    ensures op.operation == FileDelta <==>
            exists i :: FileAt(source, e.path, i) && source[i].content.body != e.content.body
    ensures op.operation == FileRaw <==> forall i :: !FileAt(source, e.path, i)
    ensures op.operation == FileCopy ==> op.payload == []
    ensures op.operation == FileRaw ==> op.payload == e.content.body
    ensures forall i :: op.operation == FileDelta && FileAt(source, e.path, i) ==>
              FilePatch.Encode(p, source[i].content.body, e.content.body) == Ok(op.payload)
  {
    hide FilePatch.Encode, FindPath, ByteOrder.Lt;
    forall i | FileAt(source, e.path, i) ensures FindPath(source, e.path) == Some(i) {
      FindPathUnique(source, i);
    }
    var found := FindPath(source, e.path);
    if found.Some? && source[found.value].content.Regular? {
      assert FileAt(source, e.path, found.value);
    }
  }

  /** Exactly when an entry can be sent: its link target, its bytes or its delta must fit. */
  lemma ChooseAccepts(p: Primitives, source: seq<Entry>, e: Entry)
    requires ByteOrder.Increasing(EntryPaths(source))
    ensures Choose(p, source, e).Ok? <==>
            && (e.content.Link? ==> |e.content.target| <= 65_536)
            && (e.content.Regular? && e.meta.hardlinkTo.Some? ==> |e.meta.hardlinkTo.value| <= 0x2_0000_0000)
            && (e.content.Regular? && e.meta.hardlinkTo.None? ==>
                  && ((forall i :: !FileAt(source, e.path, i)) ==> |e.content.body| <= 0x2_0000_0000)
                  && (forall i :: FileAt(source, e.path, i) && source[i].content.body != e.content.body ==>
                        var delta := FilePatch.Encode(p, source[i].content.body, e.content.body);
                        delta.Ok? && |delta.value| <= 0x2_0000_0000))
  {
    hide FilePatch.Encode, FindPath, ByteOrder.Lt;
    forall i | FileAt(source, e.path, i) ensures FindPath(source, e.path) == Some(i) {
      FindPathUnique(source, i);
    }
    var found := FindPath(source, e.path);
    if found.Some? && source[found.value].content.Regular? {
      assert FileAt(source, e.path, found.value);
    }
  }

  /* ---------- Serialization under the patch limit ---------- */

  function PutBytes(out: bytes, chunk: bytes): (r: Result<bytes, PatchError>)
    ensures r.Ok? ==> r.value == out + chunk && |r.value| <= DEFAULTS.maxPatchBytes
  {
    if |out| + |chunk| > DEFAULTS.maxPatchBytes then Err(LimitExceeded) else Ok(out + chunk)
  }

  function WriteMetadata(out: bytes, m: Metadata): (r: Result<bytes, PatchError>)
    ensures r.Ok? ==> && r.value == out + PutBlob(MetadataCodec.Encode(m), [])
                      && |MetadataCodec.Encode(m)| < U32_LIMIT && |MetadataCodec.Encode(m)| <= DEFAULTS.maxPayloadBytes
                      && |r.value| <= DEFAULTS.maxPatchBytes
  {
    match MetadataStream.EncodeChecked(m)
    case Err(e) => Err(MetadataFault(e))
    case Ok(blob) =>
      if |blob| > DEFAULTS.maxPayloadBytes || |blob| >= U32_LIMIT then Err(LimitExceeded)
      else PutBytes(out, PutBlob(blob, []))
  }

  function WriteOp(out: bytes, op: Op): (r: Result<bytes, PatchError>)
    ensures r.Ok? ==> |r.value| >= |out|
  {
    var out :- PutBytes(out, PutHead(Head(op.operation, op.mode, |op.path|, |op.payload|), op.path + op.payload));
    WriteMetadata(out, op.meta)
  }

  function WriteOps(p: Primitives, source: seq<Entry>, entries: seq<Entry>, out: bytes): (r: Result<bytes, PatchError>)
    ensures r.Ok? ==> |r.value| >= |out|
    decreases |entries|
  {
    if entries == [] then Ok(out)
    else
      var op :- Choose(p, source, entries[0]);
      var out :- WriteOp(out, op);
      WriteOps(p, source, entries[1..], out)
  }

  function WriteRules(rules: seq<Rule>, out: bytes): (r: Result<bytes, PatchError>)
    ensures r.Ok? ==> |r.value| >= |out|
    decreases |rules|
  {
    if rules == [] then Ok(out)
    else if rules[0].pattern == [] || |rules[0].pattern| > DEFAULTS.maxPatternBytes then Err(LimitExceeded)
    else
      var out :- PutBytes(out, PutRule(rules[0], []));
      WriteRules(rules[1..], out)
  }

  function WriteRoot(out: bytes, root: Metadata): (r: Result<bytes, PatchError>)
    ensures r.Ok? ==> |r.value| >= |out|
  {
    if root.IsEmpty() then Ok(out) else WriteMetadata(out, root)
  }

  /** A blank header slot. */
  function EmptySlot(): (s: bytes)
    ensures |s| == HEADER_LEN
  {
    seq(HEADER_LEN, _ => 0)
  }

  function HeaderFor(p: Primitives, source: Snapshot, target: Snapshot, rules: seq<Rule>, omit: Omit): (h: Header)
  {
    Header(2, !target.root.IsEmpty(), omit, |rules| % U32_LIMIT, |target.entries| % U32_LIMIT,
           TreeHash(p, source), TreeHash(p, target))
  }

  /** Everything `create` writes after projecting both trees, with the header slot still blank. */
  function WriteAll(p: Primitives, source: Snapshot, target: Snapshot, rules: seq<Rule>): (r: Result<bytes, PatchError>)
    ensures r.Ok? ==> |r.value| >= HEADER_LEN
  {
    var out :- WriteRules(rules, EmptySlot());
    var out :- WriteOps(p, source.entries, target.entries, out);
    WriteRoot(out, target.root)
  }

  function Create(p: Primitives, source: Snapshot, target: Snapshot, rules: seq<Rule>, omit: Omit)
    : (r: Result<bytes, PatchError>)
  {
    var src, tgt := Project(source, omit), Project(target, omit);
    if |rules| > DEFAULTS.maxRules then Err(LimitExceeded)
    else match CompileFilter(rules)
      case Err(e) => Err(FilterFault(e))
      case Ok(_) =>
        var out :- WriteAll(p, src, tgt, rules);
        var body := out[HEADER_LEN..];
        Ok(EncodeHeader(p, HeaderFor(p, src, tgt, rules, omit), body) + body)
  }

  /* ---------- What was written ---------- */

  lemma OpLayout(out: bytes, op: Op)
    requires WriteOp(out, op).Ok?
    ensures WriteOp(out, op).value == out + PutOp(op, [])
    ensures |MetadataCodec.Encode(op.meta)| < U32_LIMIT && |MetadataCodec.Encode(op.meta)| <= DEFAULTS.maxPayloadBytes
    ensures |WriteOp(out, op).value| <= DEFAULTS.maxPatchBytes
  {
    var head := PutHead(Head(op.operation, op.mode, |op.path|, |op.payload|), op.path + op.payload);
    assert WriteOp(out, op) == WriteMetadata(out + head, op.meta);
    OpChunks(op);
    Concatenated(out, head, PutBlob(MetadataCodec.Encode(op.meta), []));
  }

  lemma OpChunks(op: Op)
    ensures PutHead(Head(op.operation, op.mode, |op.path|, |op.payload|), op.path + op.payload)
            + PutBlob(MetadataCodec.Encode(op.meta), []) == PutOp(op, [])
  {
    hide PutHead, PutBlob, MetadataCodec.Encode;
    var blob := PutBlob(MetadataCodec.Encode(op.meta), []);
    HeadAppend(Head(op.operation, op.mode, |op.path|, |op.payload|), op.path + op.payload, blob);
    assert op.path + op.payload + blob == op.path + (op.payload + blob);
  }

  /** The operation chosen for an entry, small enough to write. */
  ghost predicate OpChosen(p: Primitives, source: seq<Entry>, e: Entry, op: Op) {
    && Choose(p, source, e) == Ok(op)
    && |MetadataCodec.Encode(op.meta)| < U32_LIMIT
    && |MetadataCodec.Encode(op.meta)| <= DEFAULTS.maxPayloadBytes
  }

  ghost predicate ChosenFor(p: Primitives, source: seq<Entry>, entries: seq<Entry>, ops: seq<Op>) {
    |ops| == |entries| && forall i :: 0 <= i < |ops| ==> OpChosen(p, source, entries[i], ops[i])
  }

  lemma FirstOp(p: Primitives, source: seq<Entry>, entries: seq<Entry>, out: bytes) returns (op: Op, next: bytes)
    requires entries != [] && WriteOps(p, source, entries, out).Ok?
    ensures OpChosen(p, source, entries[0], op)
    ensures next == out + PutOp(op, []) && |next| <= DEFAULTS.maxPatchBytes
    ensures WriteOps(p, source, entries, out) == WriteOps(p, source, entries[1..], next)
  {
    op := Choose(p, source, entries[0]).value;
    next := WriteOp(out, op).value;
    OpLayout(out, op);
  }

  lemma {:induction false} OpsLayout(p: Primitives, source: seq<Entry>, entries: seq<Entry>, out: bytes)
    returns (ops: seq<Op>)
    requires WriteOps(p, source, entries, out).Ok? && |out| <= DEFAULTS.maxPatchBytes
    ensures ChosenFor(p, source, entries, ops)
    ensures WriteOps(p, source, entries, out).value == out + PutAll(ops, PutOp, [])
    ensures |WriteOps(p, source, entries, out).value| <= DEFAULTS.maxPatchBytes
    decreases |entries|
  {
    hide PutOp, OpChosen, Choose, WriteOp;
    if entries == [] {
      ops := [];
    } else {
      var op, next := FirstOp(p, source, entries, out);
      var rest := OpsLayout(p, source, entries[1..], next);
      ops := [op] + rest;
      assert out + PutOp(op, []) + PutAll(rest, PutOp, []) == out + PutAll(ops, PutOp, []) by {
        OpPrepends();
        ConsLayout(op, rest, PutOp, out);
      }
      forall i | 0 <= i < |ops| ensures OpChosen(p, source, entries[i], ops[i]) {
        if i > 0 {
          assert OpChosen(p, source, entries[1..][i - 1], rest[i - 1]);
        }
      }
    }
  }

  /** Writing one record and then the others is writing the list. */
  lemma ConsLayout<T(!new)>(x: T, xs: seq<T>, put: (T, bytes) -> bytes, out: bytes)
    requires Prepends(put)
    ensures out + put(x, []) + PutAll(xs, put, []) == out + PutAll([x] + xs, put, [])
  {
    var tail := PutAll(xs, put, []);
    assert ([x] + xs)[1..] == xs;
    assert put(x, []) + tail == put(x, [] + tail);
    assert [] + tail == tail;
    Concatenated(out, put(x, []), tail);
  }

  lemma {:induction false} RulesLayout(rules: seq<Rule>, out: bytes)
    requires WriteRules(rules, out).Ok? && |out| <= DEFAULTS.maxPatchBytes
    ensures WriteRules(rules, out).value == out + PutAll(rules, PutRule, [])
    ensures |WriteRules(rules, out).value| <= DEFAULTS.maxPatchBytes
    ensures forall i :: 0 <= i < |rules| ==> 0 < |rules[i].pattern| <= DEFAULTS.maxPatternBytes
    decreases |rules|
  {
    if rules != [] {
      RulesLayout(rules[1..], out + PutRule(rules[0], []));
      RulePrepends();
      ConsLayout(rules[0], rules[1..], PutRule, out);
      assert rules == [rules[0]] + rules[1..];
    }
  }

  lemma RootLayout(out: bytes, root: Metadata)
    requires WriteRoot(out, root).Ok? && |out| <= DEFAULTS.maxPatchBytes
    ensures WriteRoot(out, root).value == out + PutRoot(root)
    ensures |WriteRoot(out, root).value| <= DEFAULTS.maxPatchBytes
    ensures root.IsEmpty() ||
            (|MetadataCodec.Encode(root)| < U32_LIMIT && |MetadataCodec.Encode(root)| <= DEFAULTS.maxPayloadBytes)
  {
  }

  lemma BodyFromParts(rules: seq<Rule>, ops: seq<Op>, root: Metadata, out: bytes)
    ensures out + PutAll(rules, PutRule, []) + PutAll(ops, PutOp, []) + PutRoot(root) == out + Body(rules, ops, root)
  {
    RulePrepends();
    OpPrepends();
    TwoLists(rules, PutRule, ops, PutOp, PutRoot(root), out);
  }

  lemma TwoLists<T(!new), U(!new)>(xs: seq<T>, putX: (T, bytes) -> bytes, ys: seq<U>, putY: (U, bytes) -> bytes,
                                   c: bytes, out: bytes)
    requires Prepends(putX) && Prepends(putY)
    ensures out + PutAll(xs, putX, []) + PutAll(ys, putY, []) + c == out + PutAll(xs, putX, PutAll(ys, putY, c))
  {
    var a, b := PutAll(xs, putX, []), PutAll(ys, putY, []);
    PutAllAppend(ys, putY, [], c);
    assert [] + c == c;
    PutAllAppend(xs, putX, [], b + c);
    assert [] + (b + c) == b + c;
    assert out + a + b + c == out + (a + (b + c));
  }

  lemma AllLayout(p: Primitives, source: Snapshot, target: Snapshot, rules: seq<Rule>) returns (ops: seq<Op>)
    requires WriteAll(p, source, target, rules).Ok?
    ensures ChosenFor(p, source.entries, target.entries, ops)
    ensures WriteAll(p, source, target, rules).value == EmptySlot() + Body(rules, ops, target.root)
    ensures |WriteAll(p, source, target, rules).value| <= DEFAULTS.maxPatchBytes
    ensures forall i :: 0 <= i < |rules| ==> 0 < |rules[i].pattern| <= DEFAULTS.maxPatternBytes
    ensures target.root.IsEmpty() || (&& |MetadataCodec.Encode(target.root)| < U32_LIMIT
                                      && |MetadataCodec.Encode(target.root)| <= DEFAULTS.maxPayloadBytes)
  {
    RulesLayout(rules, EmptySlot());
    var out := EmptySlot() + PutAll(rules, PutRule, []);
    ops := OpsLayout(p, source.entries, target.entries, out);
    RootLayout(out + PutAll(ops, PutOp, []), target.root);
    BodyFromParts(rules, ops, target.root, EmptySlot());
  }

  /* ---------- When writing succeeds ---------- */

  lemma {:induction false} RulesSucceed(rules: seq<Rule>, out: bytes)
    requires forall i :: 0 <= i < |rules| ==> 0 < |rules[i].pattern| <= DEFAULTS.maxPatternBytes
    requires |out| + |PutAll(rules, PutRule, [])| <= DEFAULTS.maxPatchBytes
    ensures WriteRules(rules, out).Ok?
    decreases |rules|
  {
    hide PutRule;
    if rules != [] {
      var rest := PutAll(rules[1..], PutRule, []);
      RuleGrows(rules[0], rest);
      RulesSucceed(rules[1..], out + PutRule(rules[0], []));
    }
  }

  lemma RuleGrows(r: Rule, rest: bytes)
    ensures |PutRule(r, rest)| == |PutRule(r, [])| + |rest|
  {
  }

  lemma OpGrows(op: Op, rest: bytes)
    ensures |PutOp(op, rest)| == |PutOp(op, [])| + |rest|
  {
    hide MetadataCodec.Encode;
  }

  lemma OpSucceeds(op: Op, out: bytes)
    requires |MetadataCodec.Encode(op.meta)| < U32_LIMIT && |MetadataCodec.Encode(op.meta)| <= DEFAULTS.maxPayloadBytes
    requires |out| + |PutOp(op, [])| <= DEFAULTS.maxPatchBytes
    ensures WriteOp(out, op).Ok?
  {
    hide MetadataCodec.Encode, PutHead;
    OpChunks(op);
  }

  lemma {:induction false} OpsSucceed(p: Primitives, source: seq<Entry>, entries: seq<Entry>, ops: seq<Op>, out: bytes)
    requires ChosenFor(p, source, entries, ops)
    requires |out| + |PutAll(ops, PutOp, [])| <= DEFAULTS.maxPatchBytes
    ensures WriteOps(p, source, entries, out).Ok?
    decreases |entries|
  {
    hide PutOp, Choose, WriteOp, MetadataCodec.Encode;
    if entries != [] {
      var rest := PutAll(ops[1..], PutOp, []);
      assert OpChosen(p, source, entries[0], ops[0]);
      OpGrows(ops[0], rest);
      OpSucceeds(ops[0], out);
      OpLayout(out, ops[0]);
      forall i | 0 <= i < |ops[1..]| ensures OpChosen(p, source, entries[1..][i], ops[1..][i]) {
        assert OpChosen(p, source, entries[i + 1], ops[i + 1]);
      }
      OpsSucceed(p, source, entries[1..], ops[1..], out + PutOp(ops[0], []));
    }
  }

  lemma RootSucceeds(out: bytes, root: Metadata)
    requires root.IsEmpty() || (&& |MetadataCodec.Encode(root)| < U32_LIMIT
                                && |MetadataCodec.Encode(root)| <= DEFAULTS.maxPayloadBytes)
    requires |out| + |PutRoot(root)| <= DEFAULTS.maxPatchBytes
    ensures WriteRoot(out, root).Ok?
  {
    hide MetadataCodec.Encode;
  }

  /** The body of a patch for these entries exists and stays within every limit. */
  ghost predicate Writable(p: Primitives, source: Snapshot, target: Snapshot, rules: seq<Rule>, ops: seq<Op>) {
    && ChosenFor(p, source.entries, target.entries, ops)
    && (target.root.IsEmpty() || (&& |MetadataCodec.Encode(target.root)| < U32_LIMIT
                                  && |MetadataCodec.Encode(target.root)| <= DEFAULTS.maxPayloadBytes))
    && HEADER_LEN + |Body(rules, ops, target.root)| <= DEFAULTS.maxPatchBytes
  }

  lemma AllSucceeds(p: Primitives, source: Snapshot, target: Snapshot, rules: seq<Rule>, ops: seq<Op>)
    requires Writable(p, source, target, rules, ops)
    requires forall i :: 0 <= i < |rules| ==> 0 < |rules[i].pattern| <= DEFAULTS.maxPatternBytes
    ensures WriteAll(p, source, target, rules).Ok?
  {
    hide PutAll, ChosenFor, WriteRules, WriteOps, WriteRoot, MetadataCodec.Encode, PutRoot, Body;
    var slot := EmptySlot();
    var a, b, c := PutAll(rules, PutRule, []), PutAll(ops, PutOp, []), PutRoot(target.root);
    BodyFromParts(rules, ops, target.root, slot);
    assert |slot + a + b + c| == HEADER_LEN + |Body(rules, ops, target.root)|;
    RulesSucceed(rules, slot);
    RulesLayout(rules, slot);
    OpsSucceed(p, source.entries, target.entries, ops, slot + a);
    var chosen := OpsLayout(p, source.entries, target.entries, slot + a);
    SameChoice(p, source.entries, target.entries, ops, chosen);
    RootSucceeds(slot + a + b, target.root);
  }

  lemma SameChoice(p: Primitives, source: seq<Entry>, entries: seq<Entry>, ops: seq<Op>, others: seq<Op>)
    requires ChosenFor(p, source, entries, ops) && ChosenFor(p, source, entries, others)
    ensures ops == others
  {
    hide Choose, MetadataCodec.Encode;
    forall i | 0 <= i < |ops| ensures ops[i] == others[i] {
      assert OpChosen(p, source, entries[i], ops[i]) && OpChosen(p, source, entries[i], others[i]);
    }
  }

  /** `create` succeeds exactly when the rules are usable and a body within the limits exists. */
  lemma CreateAccepts(p: Primitives, source: Snapshot, target: Snapshot, rules: seq<Rule>, omit: Omit)
    ensures Create(p, source, target, rules, omit).Ok? <==>
            && |rules| <= 4096 && CompileFilter(rules).Ok?
            && (forall i :: 0 <= i < |rules| ==> 0 < |rules[i].pattern| <= 4096)
            && exists ops :: Writable(p, Project(source, omit), Project(target, omit), rules, ops)
  {
    hide CompileFilter, WriteAll, HeaderFor, EncodeHeader, Body, ChosenFor, MetadataCodec.Encode;
    var src, tgt := Project(source, omit), Project(target, omit);
    if Create(p, source, target, rules, omit).Ok? {
      var ops := AllLayout(p, src, tgt, rules);
      assert Writable(p, src, tgt, rules, ops);
    }
    if |rules| <= 4096 && CompileFilter(rules).Ok?
       && (forall i :: 0 <= i < |rules| ==> 0 < |rules[i].pattern| <= 4096)
       && exists ops :: Writable(p, src, tgt, rules, ops) {
      var ops :| Writable(p, src, tgt, rules, ops);
      AllSucceeds(p, src, tgt, rules, ops);
    }
  }
}
