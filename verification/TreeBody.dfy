/** The patch body grammar: filter rules, entry operations and the optional root record. */
module TreeBody {
  import opened Wire
  import opened Listing
  import opened Metadata
  import opened TreePatch
  import opened PathFilter
  import MetadataCanonical
  import MetadataCodec
  import Paths
  import Structure
  import Utf8

  datatype Operation = Directory | Symlink | FileCopy | FileRaw | FileDelta | FileHardlink {
    function Tag(): (t: byte)
      ensures 1 <= t <= 6
    {
      match this
      case Directory => 1
      case Symlink => 2
      case FileCopy => 3
      case FileRaw => 4
      case FileDelta => 5
      case FileHardlink => 6
    }
  }

  function OperationFromTag(t: nat): (r: Option<Operation>)
    ensures forall o: Operation :: r == Some(o) <==> t == o.Tag()
  {
    if t == 1 then Some(Directory) else if t == 2 then Some(Symlink) else if t == 3 then Some(FileCopy)
    else if t == 4 then Some(FileRaw) else if t == 5 then Some(FileDelta) else if t == 6 then Some(FileHardlink)
    else None
  }

  /** One target entry as the patch carries it. */
  datatype Op = Op(path: bytes, mode: u16, operation: Operation, payload: bytes, meta: Metadata)

  function View(op: Op): (r: Structure.Record)
  {
    Structure.Record(op.path, op.mode,
                     match op.operation
                     case Directory => Structure.Directory
                     case Symlink => Structure.Symlink
                     case _ => Structure.File,
                     op.payload)
  }

  function Records(ops: seq<Op>): (rs: seq<Structure.Record>)
    ensures |rs| == |ops|
    ensures forall i :: 0 <= i < |rs| ==> rs[i] == View(ops[i])
  {
    seq(|ops|, i requires 0 <= i < |ops| => View(ops[i]))
  }

  /* ---------- Writer ---------- */

  function ActionTag(a: Action): (t: byte)
    ensures 1 <= t <= 2
  {
    if a.Include? then 1 else 2
  }

  function PutRule(r: Rule, tail: bytes): (s: bytes)
    ensures |s| == 8 + |r.pattern| + |tail|
  {
    PutWord(1, ActionTag(r.action), PutWord(1, 0, PutWord(2, 0, PutBlob(r.pattern, tail))))
  }

  /** The fixed part of an entry: what it does and how long its path and payload are. */
  datatype Head = Head(operation: Operation, mode: u16, pathLength: nat, payloadLength: nat)

  function PutHead(h: Head, tail: bytes): (s: bytes)
    ensures |s| == 16 + |tail|
  {
    PutWord(1, h.operation.Tag(), PutWord(1, 0, PutWord(2, h.mode,
    PutWord(4, h.pathLength, PutWord(8, h.payloadLength, tail)))))
  }

  function PutOp(op: Op, tail: bytes): (s: bytes)
    ensures |s| == 20 + |op.path| + |op.payload| + |MetadataCodec.Encode(op.meta)| + |tail|
  {
    PutHead(Head(op.operation, op.mode, |op.path|, |op.payload|),
            op.path + (op.payload + PutBlob(MetadataCodec.Encode(op.meta), tail)))
  }

  /** An empty root adds no bytes. */
  function PutRoot(root: Metadata): (s: bytes) {
    if root.IsEmpty() then [] else PutBlob(MetadataCodec.Encode(root), [])
  }

  function Body(rules: seq<Rule>, ops: seq<Op>, root: Metadata): (s: bytes) {
    PutAll(rules, PutRule, PutAll(ops, PutOp, PutRoot(root)))
  }

  lemma RulePrepends()
    ensures Prepends(PutRule)
  {
    forall r: Rule, s: bytes, t: bytes ensures PutRule(r, s) + t == PutRule(r, s + t) {
      BlobAppend(r.pattern, s, t);
      WordAppend(2, 0, PutBlob(r.pattern, s), t);
      WordAppend(1, 0, PutWord(2, 0, PutBlob(r.pattern, s)), t);
      WordAppend(1, ActionTag(r.action), PutWord(1, 0, PutWord(2, 0, PutBlob(r.pattern, s))), t);
    }
  }

  lemma WordAppend(width: nat, v: nat, s: bytes, t: bytes)
    ensures PutWord(width, v, s) + t == PutWord(width, v, s + t)
  {
  }

  lemma BlobAppend(b: bytes, s: bytes, t: bytes)
    ensures PutBlob(b, s) + t == PutBlob(b, s + t)
  {
    assert b + s + t == b + (s + t);
    WordAppend(4, |b|, b + s, t);
  }

  lemma OpAppend(op: Op, s: bytes, t: bytes)
    ensures PutOp(op, s) + t == PutOp(op, s + t)
  {
    var blob := MetadataCodec.Encode(op.meta);
    BlobAppend(blob, s, t);
    var q := PutBlob(blob, s);
    assert op.payload + q + t == op.payload + (q + t);
    assert op.path + (op.payload + q) + t == op.path + (op.payload + (q + t));
    HeadAppend(Head(op.operation, op.mode, |op.path|, |op.payload|), op.path + (op.payload + q), t);
  }

  lemma HeadAppend(h: Head, s: bytes, t: bytes)
    ensures PutHead(h, s) + t == PutHead(h, s + t)
  {
    var s8 := PutWord(8, h.payloadLength, s);
    var s4 := PutWord(4, h.pathLength, s8);
    var s2 := PutWord(2, h.mode, s4);
    WordAppend(8, h.payloadLength, s, t);
    WordAppend(4, h.pathLength, s8, t);
    WordAppend(2, h.mode, s4, t);
    WordAppend(1, 0, s2, t);
    WordAppend(1, h.operation.Tag(), PutWord(1, 0, s2), t);
  }

  lemma OpPrepends()
    ensures Prepends(PutOp)
  {
    forall op: Op, s: bytes, t: bytes ensures PutOp(op, s) + t == PutOp(op, s + t) {
      OpAppend(op, s, t);
    }
  }

  /* ---------- Parser ---------- */

  /** A length is checked against its limit before anything is taken. */
  function Length(s: bytes, width: nat, limit: nat): (r: Step<nat, PatchError>)
    ensures r.Ok? ==> r.value.value <= limit
  {
    var Parsed(n, s) :- Word(s, width).OrElse(UnexpectedEndOfInput);
    if n > limit then Err(LimitExceeded) else Ok(Parsed(n, s))
  }

  /** The checks that tie an operation to its payload and metadata. */
  function OpFault(limits: Limits, omit: Omit, op: Op): (fault: Option<PatchError>)
  {
    if HasOmitted(op.meta, omit) then Some(OmittedMetadataPresent)
    else if (op.operation.Directory? || op.operation.FileCopy?) && op.payload != [] then Some(InvalidPayload)
    else if op.operation.Symlink? && |op.payload| > limits.maxSymlinkBytes then Some(LimitExceeded)
    else if op.operation.FileHardlink? && op.meta.hardlinkTo != Some(op.payload)
    then Some(SnapshotFault(Paths.InvalidHardlinkRelation))
    else if op.meta.hardlinkTo.Some? && !op.operation.FileHardlink?
    then Some(SnapshotFault(Paths.InvalidHardlinkRelation))
    else None
  }

  function MetadataStep(s: bytes, limit: nat): (r: Step<Metadata, PatchError>)
  {
    var Parsed(n, s) :- Length(s, 4, limit);
    var Parsed(blob, s) :- Take(s, n).OrElse(UnexpectedEndOfInput);
    match MetadataCodec.Decode(blob)
    case Err(e) => Err(MetadataFault(e))
    case Ok(meta) => Ok(Parsed(meta, s))
  }

  /** The grammar under one set of limits and one omission mask. */
  datatype Grammar = Grammar(limits: Limits, omit: Omit) {
    function RuleStep(s: bytes): (r: Step<Rule, PatchError>)
    {
      var Parsed(t, s) :- Word(s, 1).OrElse(UnexpectedEndOfInput);
      :- Need(t == 1 || t == 2, InvalidRule);
      var Parsed(flags, s) :- Word(s, 1).OrElse(UnexpectedEndOfInput);
      :- Need(flags == 0, InvalidRule);
      var Parsed(reserved, s) :- Word(s, 2).OrElse(UnexpectedEndOfInput);
      :- Need(reserved == 0, InvalidRule);
      var Parsed(n, s) :- Length(s, 4, limits.maxPatternBytes);
      :- Need(n != 0, InvalidRule);
      var Parsed(pattern, s) :- Take(s, n).OrElse(UnexpectedEndOfInput);
      :- Need(Utf8.Valid(pattern), SnapshotFault(Paths.InvalidUtf8));
      Ok(Parsed(Rule(if t == 1 then Include else Exclude, pattern), s))
    }

    function HeadStep(s: bytes): (r: Step<Head, PatchError>)
    {
      WordSizes();
      var Parsed(t, s) :- Word(s, 1).OrElse(UnexpectedEndOfInput);
      var operation :- OperationFromTag(t).OrElse(InvalidOperation);
      var Parsed(flags, s) :- Word(s, 1).OrElse(UnexpectedEndOfInput);
      :- Need(flags == 0, UnsupportedFlags);
      var Parsed(mode, s) :- Word(s, 2).OrElse(UnexpectedEndOfInput);
      var Parsed(pathLength, s) :- Length(s, 4, limits.maxPathBytes);
      :- Need(pathLength != 0, InvalidPath);
      var Parsed(payloadLength, s) :- Length(s, 8, limits.maxPayloadBytes);
      Ok(Parsed(Head(operation, mode, pathLength, payloadLength), s))
    }

    function OpStep(s: bytes): (r: Step<Op, PatchError>)
    {
      var Parsed(head, s) :- HeadStep(s);
      var Parsed(path, s) :- Take(s, head.pathLength).OrElse(UnexpectedEndOfInput);
      var Parsed(payload, s) :- Take(s, head.payloadLength).OrElse(UnexpectedEndOfInput);
      var Parsed(meta, s) :- MetadataStep(s, limits.maxPayloadBytes);
      var op := Op(path, head.mode, head.operation, payload, meta);
      if OpFault(limits, omit, op).Some? then Err(OpFault(limits, omit, op).value) else Ok(Parsed(op, s))
    }

    function RootStep(present: bool, s: bytes): (r: Step<Metadata, PatchError>)
    {
      if !present then Ok(Parsed(EMPTY, s))
      else
        var Parsed(root, s) :- MetadataStep(s, limits.maxPayloadBytes);
        if HasOmitted(root, omit) then Err(OmittedMetadataPresent)
        else if root.IsEmpty() then Err(MetadataFault(BadMetadata))
        else if root.holes != [] then Err(SnapshotFault(Paths.InvalidSparseExtent))
        else if root.hardlinkTo.Some? then Err(SnapshotFault(Paths.InvalidHardlinkRelation))
        else Ok(Parsed(root, s))
    }
  }

  /* ---------- Parsing undoes writing ---------- */

  lemma LengthOfPut(width: nat, n: nat, limit: nat, tail: bytes)
    requires n < Pow256(width) && n <= limit
    ensures Length(PutWord(width, n, tail), width, limit) == Ok(Parsed(n, tail))
  {
    WordOfPut(width, n, tail);
  }

  predicate MetadataFits(m: Metadata, limit: nat) {
    && MetadataCanonical.Canonical(m)
    && |MetadataCodec.Encode(m)| < U32_LIMIT && |MetadataCodec.Encode(m)| <= limit
  }

  lemma MetadataOfPut(m: Metadata, limit: nat, tail: bytes)
    requires MetadataFits(m, limit)
    ensures MetadataStep(PutBlob(MetadataCodec.Encode(m), tail), limit) == Ok(Parsed(m, tail))
  {
    var blob := MetadataCodec.Encode(m);
    WordSizes();
    LengthOfPut(4, |blob|, limit, blob + tail);
    TakeOfPut(blob, tail);
    MetadataCodec.DecodeOfEncode(m);
  }

  lemma RuleOfPut(g: Grammar, r: Rule, tail: bytes)
    requires 0 < |r.pattern| <= g.limits.maxPatternBytes
    ensures g.RuleStep(PutRule(r, tail)) == Ok(Parsed(r, tail))
  {
    WordSizes();
    var named := PutBlob(r.pattern, tail);
    WordOfPut(1, ActionTag(r.action), PutWord(1, 0, PutWord(2, 0, named)));
    WordOfPut(1, 0, PutWord(2, 0, named));
    WordOfPut(2, 0, named);
    LengthOfPut(4, |r.pattern|, g.limits.maxPatternBytes, r.pattern + tail);
    TakeOfPut(r.pattern, tail);
  }

  predicate OpFits(g: Grammar, op: Op) {
    && 0 < |op.path| <= g.limits.maxPathBytes
    && |op.payload| <= g.limits.maxPayloadBytes
    && MetadataFits(op.meta, g.limits.maxPayloadBytes)
    && OpFault(g.limits, g.omit, op).None?
  }

  lemma HeadOfPut(g: Grammar, h: Head, tail: bytes)
    requires 0 < h.pathLength <= g.limits.maxPathBytes && h.payloadLength <= g.limits.maxPayloadBytes
    ensures g.HeadStep(PutHead(h, tail)) == Ok(Parsed(h, tail))
  {
    WordSizes();
    var s8 := PutWord(8, h.payloadLength, tail);
    var s4 := PutWord(4, h.pathLength, s8);
    WordOfPut(1, h.operation.Tag(), PutWord(1, 0, PutWord(2, h.mode, s4)));
    WordOfPut(1, 0, PutWord(2, h.mode, s4));
    WordOfPut(2, h.mode, s4);
    LengthOfPut(4, h.pathLength, g.limits.maxPathBytes, s8);
    LengthOfPut(8, h.payloadLength, g.limits.maxPayloadBytes, tail);
  }

  lemma OpOfPut(g: Grammar, op: Op, tail: bytes)
    requires OpFits(g, op)
    ensures g.OpStep(PutOp(op, tail)) == Ok(Parsed(op, tail))
  {
    var meta := PutBlob(MetadataCodec.Encode(op.meta), tail);
    HeadOfPut(g, Head(op.operation, op.mode, |op.path|, |op.payload|), op.path + (op.payload + meta));
    TakeOfPut(op.path, op.payload + meta);
    TakeOfPut(op.payload, meta);
    MetadataOfPut(op.meta, g.limits.maxPayloadBytes, tail);
  }

  lemma RulesRead(g: Grammar, rules: seq<Rule>)
    requires forall i :: 0 <= i < |rules| ==> 0 < |rules[i].pattern| <= g.limits.maxPatternBytes
    ensures forall i :: 0 <= i < |rules| ==> Reads(g.RuleStep, PutRule, rules[i])
  {
    forall i | 0 <= i < |rules| ensures Reads(g.RuleStep, PutRule, rules[i]) {
      forall tail: bytes ensures g.RuleStep(PutRule(rules[i], tail)) == Ok(Parsed(rules[i], tail)) {
        RuleOfPut(g, rules[i], tail);
      }
    }
  }

  lemma OpsRead(g: Grammar, ops: seq<Op>)
    requires forall i :: 0 <= i < |ops| ==> OpFits(g, ops[i])
    ensures forall i :: 0 <= i < |ops| ==> Reads(g.OpStep, PutOp, ops[i])
  {
    forall i | 0 <= i < |ops| ensures Reads(g.OpStep, PutOp, ops[i]) {
      forall tail: bytes ensures g.OpStep(PutOp(ops[i], tail)) == Ok(Parsed(ops[i], tail)) {
        OpOfPut(g, ops[i], tail);
      }
    }
  }

  /** Nine bytes per rule and forty-one per entry are lower bounds on what was written. */
  lemma {:induction false} RulesSize(rules: seq<Rule>, tail: bytes)
    requires forall i :: 0 <= i < |rules| ==> 0 < |rules[i].pattern|
    ensures |PutAll(rules, PutRule, tail)| >= RULE_UNIT * |rules| + |tail|
  {
    if rules != [] {
      RulesSize(rules[1..], tail);
    }
  }

  lemma {:induction false} OpsSize(ops: seq<Op>, tail: bytes)
    requires forall i :: 0 <= i < |ops| ==> 0 < |ops[i].path|
    ensures |PutAll(ops, PutOp, tail)| >= ENTRY_UNIT * |ops| + |tail|
  {
    if ops != [] {
      OpsSize(ops[1..], tail);
      var rest := PutAll(ops[1..], PutOp, tail);
      assert |PutOp(ops[0], rest)| >= 41 + |rest|;
    }
  }

  /* ---------- Writing undoes parsing ---------- */

  lemma PutOfLength(s: bytes, width: nat, limit: nat)
    requires Length(s, width, limit).Ok?
    ensures var Parsed(n, rest) := Length(s, width, limit).value; s == PutWord(width, n, rest)
  {
    PutOfWord(s, width);
  }

  lemma PutOfMetadata(s: bytes, limit: nat)
    requires MetadataStep(s, limit).Ok?
    ensures var Parsed(m, rest) := MetadataStep(s, limit).value;
            MetadataCanonical.Canonical(m) && s == PutBlob(MetadataCodec.Encode(m), rest)
  {
    PutOfLength(s, 4, limit);
    var Parsed(n, s1) := Length(s, 4, limit).value;
    MetadataCodec.EncodeOfDecode(Take(s1, n).value.value);
  }

  lemma PutOfRule(g: Grammar, s: bytes)
    requires g.RuleStep(s).Ok?
    ensures var Parsed(r, rest) := g.RuleStep(s).value; s == PutRule(r, rest)
  {
    PutOfWord(s, 1);
    var s1 := Word(s, 1).value.rest;
    PutOfWord(s1, 1);
    var s2 := Word(s1, 1).value.rest;
    PutOfWord(s2, 2);
    var s3 := Word(s2, 2).value.rest;
    PutOfLength(s3, 4, g.limits.maxPatternBytes);
  }

  lemma PutOfHead(g: Grammar, s: bytes)
    requires g.HeadStep(s).Ok?
    ensures var Parsed(h, rest) := g.HeadStep(s).value; s == PutHead(h, rest)
  {
    PutOfWord(s, 1);
    var s1 := Word(s, 1).value.rest;
    PutOfWord(s1, 1);
    var s2 := Word(s1, 1).value.rest;
    PutOfWord(s2, 2);
    var s3 := Word(s2, 2).value.rest;
    PutOfLength(s3, 4, g.limits.maxPathBytes);
    PutOfLength(Length(s3, 4, g.limits.maxPathBytes).value.rest, 8, g.limits.maxPayloadBytes);
  }

  lemma PutOfOp(g: Grammar, s: bytes)
    requires g.OpStep(s).Ok?
    ensures var Parsed(op, rest) := g.OpStep(s).value; s == PutOp(op, rest) && MetadataCanonical.Canonical(op.meta)
  {
    hide PutHead, PutBlob, MetadataStep, OpFault, MetadataCanonical.Canonical, MetadataCodec.Encode;
    PutOfHead(g, s);
    var Parsed(h, s1) := g.HeadStep(s).value;
    var s2 := Take(s1, h.pathLength).value.rest;
    var s3 := Take(s2, h.payloadLength).value.rest;
    PutOfMetadata(s3, g.limits.maxPayloadBytes);
  }

  lemma GrammarWrites(g: Grammar)
    ensures Writes(g.RuleStep, PutRule) && Writes(g.OpStep, PutOp)
  {
    forall s: bytes | g.RuleStep(s).Ok? ensures s == PutRule(g.RuleStep(s).value.value, g.RuleStep(s).value.rest) {
      PutOfRule(g, s);
    }
    forall s: bytes | g.OpStep(s).Ok? ensures s == PutOp(g.OpStep(s).value.value, g.OpStep(s).value.rest) {
      PutOfOp(g, s);
    }
  }
}
