/**
 `ParsedPatch::decode` as it runs (rust/src/tree_patch_decode.rs): a reader whose position
 advances while vectors of rules and entries grow.  Every method refines the pure parser.
 */
module TreeReader {
  import opened Wire
  import opened Listing
  import opened Metadata
  import opened Primitives
  import opened ReadCursor
  import opened TreePatch
  import opened TreeBody
  import opened TreeDecode
  import opened PathFilter
  import MetadataCodec
  import MetadataStream
  import Paths
  import Structure
  import Utf8

  /** The reader after a step whose outcome should have been `goal`. */
  ghost predicate Did<T>(c: Reader, r: Result<T, PatchError>, goal: Step<T, PatchError>)
    reads c
  {
    && c.Valid()
    && match goal
       case Err(e) => r == Err(e)
       case Ok(Parsed(v, rest)) => r == Ok(v) && c.Rest() == rest
  }

  method Word(c: Reader, width: nat) returns (r: Result<nat, PatchError>)
    requires c.Valid()
    modifies c
    ensures Did(c, r, Wire.Word(old(c.Rest()), width).OrElse(UnexpectedEndOfInput))
  {
    var v := c.Word(width);
    r := v.OrElse(UnexpectedEndOfInput);
  }

  method Take(c: Reader, n: nat) returns (r: Result<bytes, PatchError>)
    requires c.Valid()
    modifies c
    ensures Did(c, r, Wire.Take(old(c.Rest()), n).OrElse(UnexpectedEndOfInput))
  {
    var v := c.Take(n);
    r := v.OrElse(UnexpectedEndOfInput);
  }

  method ReadLength(c: Reader, width: nat, limit: nat) returns (r: Result<nat, PatchError>)
    requires c.Valid()
    modifies c
    ensures Did(c, r, Length(old(c.Rest()), width, limit))
  {
    r := Word(c, width);
    if r.Ok? && r.value > limit { r := Err(LimitExceeded); }
  }

  method ReadRule(c: Reader, g: Grammar) returns (r: Result<Rule, PatchError>)
    requires c.Valid()
    modifies c
    ensures Did(c, r, g.RuleStep(old(c.Rest())))
  {
    hide Length, Wire.Word, Wire.Take, Utf8.Valid;
    var t := Word(c, 1);
    if t.Err? { return Err(t.error); }
    if t.value != 1 && t.value != 2 { return Err(InvalidRule); }
    var flags := Word(c, 1);
    if flags.Err? { return Err(flags.error); }
    if flags.value != 0 { return Err(InvalidRule); }
    var reserved := Word(c, 2);
    if reserved.Err? { return Err(reserved.error); }
    if reserved.value != 0 { return Err(InvalidRule); }
    var n := ReadLength(c, 4, g.limits.maxPatternBytes);
    if n.Err? { return Err(n.error); }
    if n.value == 0 { return Err(InvalidRule); }
    var pattern := Take(c, n.value);
    if pattern.Err? { return Err(pattern.error); }
    if !Utf8.Valid(pattern.value) { return Err(SnapshotFault(Paths.InvalidUtf8)); }
    r := Ok(Rule(if t.value == 1 then Include else Exclude, pattern.value));
  }

  method ReadHead(c: Reader, g: Grammar) returns (r: Result<Head, PatchError>)
    requires c.Valid()
    modifies c
    ensures Did(c, r, g.HeadStep(old(c.Rest())))
  {
    hide Length;
    WordSizes();
    var t := Word(c, 1);
    if t.Err? { return Err(t.error); }
    var operation := OperationFromTag(t.value);
    if operation.None? { return Err(InvalidOperation); }
    var flags := Word(c, 1);
    if flags.Err? { return Err(flags.error); }
    if flags.value != 0 { return Err(UnsupportedFlags); }
    var mode := Word(c, 2);
    if mode.Err? { return Err(mode.error); }
    var pathLength := ReadLength(c, 4, g.limits.maxPathBytes);
    if pathLength.Err? { return Err(pathLength.error); }
    if pathLength.value == 0 { return Err(InvalidPath); }
    var payloadLength := ReadLength(c, 8, g.limits.maxPayloadBytes);
    if payloadLength.Err? { return Err(payloadLength.error); }
    r := Ok(Head(operation.value, mode.value, pathLength.value, payloadLength.value));
  }

  method ReadMetadata(c: Reader, limit: nat) returns (r: Result<Metadata, PatchError>)
    requires c.Valid()
    modifies c
    ensures Did(c, r, MetadataStep(old(c.Rest()), limit))
  {
    hide Length, Wire.Take, MetadataCodec.Decode;
    var n := ReadLength(c, 4, limit);
    if n.Err? { return Err(n.error); }
    var blob := Take(c, n.value);
    if blob.Err? { return Err(blob.error); }
    var meta := MetadataStream.Decode(blob.value);
    if meta.Err? { return Err(MetadataFault(meta.error)); }
    r := Ok(meta.value);
  }

  method ReadOp(c: Reader, g: Grammar) returns (r: Result<Op, PatchError>)
    requires c.Valid()
    modifies c
    ensures Did(c, r, g.OpStep(old(c.Rest())))
  {
    hide Wire.Take, MetadataStep, OpFault;
    var head := ReadHead(c, g);
    if head.Err? { return Err(head.error); }
    var path := Take(c, head.value.pathLength);
    if path.Err? { return Err(path.error); }
    var payload := Take(c, head.value.payloadLength);
    if payload.Err? { return Err(payload.error); }
    var meta := ReadMetadata(c, g.limits.maxPayloadBytes);
    if meta.Err? { return Err(meta.error); }
    var op := Op(path.value, head.value.mode, head.value.operation, payload.value, meta.value);
    var fault := OpFault(g.limits, g.omit, op);
    if fault.Some? { return Err(fault.value); }
    r := Ok(op);
  }

  method ReadRoot(c: Reader, g: Grammar, present: bool) returns (r: Result<Metadata, PatchError>)
    requires c.Valid()
    modifies c
    ensures Did(c, r, g.RootStep(present, old(c.Rest())))
  {
    hide MetadataStep, HasOmitted;
    if !present { return Ok(EMPTY); }
    r := ReadMetadata(c, g.limits.maxPayloadBytes);
    if r.Err? { return; }
    if HasOmitted(r.value, g.omit) {
      r := Err(OmittedMetadataPresent);
    } else if r.value.IsEmpty() {
      r := Err(MetadataFault(BadMetadata));
    } else if r.value.holes != [] {
      r := Err(SnapshotFault(Paths.InvalidSparseExtent));
    } else if r.value.hardlinkTo.Some? {
      r := Err(SnapshotFault(Paths.InvalidHardlinkRelation));
    }
  }

  /* ---------- The two loops ---------- */

  method ReadRules(c: Reader, g: Grammar, n: nat) returns (r: Result<seq<Rule>, PatchError>)
    requires c.Valid()
    modifies c
    ensures Did(c, r, ParseAll(old(c.Rest()), n, g.RuleStep))
  {
    hide Grammar.RuleStep, Utf8.Valid;
    ghost var all := ParseAll(c.Rest(), n, g.RuleStep);
    MetadataStream.ExtendNothing(all);
    var rules: seq<Rule> := [];
    for i := 0 to n
      invariant c.Valid()
      invariant all == MetadataStream.Extend(rules, ParseAll(c.Rest(), n - i, g.RuleStep))
    {
      MetadataStream.ParseAllContinues(all, rules, c.Rest(), n - i, g.RuleStep);
      var rule := ReadRule(c, g);
      if rule.Err? { return Err(rule.error); }
      rules := rules + [rule.value];
    }
    assert rules + [] == rules;
    r := Ok(rules);
  }

  method ReadOps(c: Reader, g: Grammar, n: nat) returns (r: Result<seq<Op>, PatchError>)
    requires c.Valid()
    modifies c
    ensures Did(c, r, ParseAll(old(c.Rest()), n, g.OpStep))
  {
    hide Grammar.OpStep;
    ghost var all := ParseAll(c.Rest(), n, g.OpStep);
    MetadataStream.ExtendNothing(all);
    var ops: seq<Op> := [];
    for i := 0 to n
      invariant c.Valid()
      invariant all == MetadataStream.Extend(ops, ParseAll(c.Rest(), n - i, g.OpStep))
    {
      MetadataStream.ParseAllContinues(all, ops, c.Rest(), n - i, g.OpStep);
      var op := ReadOp(c, g);
      if op.Err? { return Err(op.error); }
      ops := ops + [op.value];
    }
    assert ops + [] == ops;
    r := Ok(ops);
  }

  method CheckRuleList(rules: seq<Rule>) returns (fault: Option<PatchError>)
    ensures fault == CheckRules(rules)
  {
    if rules == [] { return None; }
    var compiled := FilterCompile(rules);
    fault := if compiled.Err? then Some(FilterFault(compiled.error)) else None;
  }

  /** `ParsedPatch::decode` refines the pure parser, error for error. */
  method DecodePatch(p: Primitives, patch: bytes, limits: Limits) returns (r: Result<ParsedPatch, PatchError>)
    ensures r == Decode(p, patch, limits)
  {
    hide DecodePrefix, ParseAll, CheckRules, Structure.Fault;
    var envelope := DecodePrefix(p, patch, limits);
    if envelope.Err? { return Err(envelope.error); }
    var Envelope(header, body) := envelope.value;
    var g := Grammar(limits, header.omit);
    var c := new Reader(body);
    var rules := ReadRules(c, g, header.ruleCount);
    if rules.Err? { return Err(rules.error); }
    var fault := CheckRuleList(rules.value);
    if fault.Some? { return Err(fault.value); }
    var ops := ReadOps(c, g, header.entryCount);
    if ops.Err? { return Err(ops.error); }
    var root := ReadRoot(c, g, header.rootMetadata);
    if root.Err? { return Err(root.error); }
    if c.position != |body| { return Err(TrailingData); }
    var broken := Structure.Validate(Records(ops.value));
    if broken.Some? { return Err(SnapshotFault(broken.value)); }
    r := Ok(ParsedPatch(header, rules.value, ops.value, root.value));
  }
}
