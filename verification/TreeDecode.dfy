/** `ParsedPatch::decode` (rust/src/tree_patch_decode.rs). */
module TreeDecode {
  import opened Wire
  import opened Listing
  import opened Metadata
  import opened Primitives
  import opened TreePatch
  import opened TreeBody
  import opened PathFilter
  import MetadataCanonical
  import MetadataCodec
  import Structure
  import Utf8

  datatype ParsedPatch = ParsedPatch(header: Header, rules: seq<Rule>, ops: seq<Op>, root: Metadata)

  function CheckRules(rules: seq<Rule>): (fault: Option<PatchError>)
  {
    match if rules == [] then Ok(Filter([], true)) else CompileFilter(rules)
    case Ok(_) => None
    case Err(e) => Some(FilterFault(e))
  }

  function DecodeBody(header: Header, body: bytes, limits: Limits): (r: Result<ParsedPatch, PatchError>)
  {
    var g := Grammar(limits, header.omit);
    var Parsed(rules, s) :- ParseAll(body, header.ruleCount, g.RuleStep);
    if CheckRules(rules).Some? then Err(CheckRules(rules).value)
    else
      var Parsed(ops, s) :- ParseAll(s, header.entryCount, g.OpStep);
      var Parsed(root, s) :- g.RootStep(header.rootMetadata, s);
      if s != [] then Err(TrailingData)
      else match Structure.Fault(Records(ops))
        case Some(e) => Err(SnapshotFault(e))
        case None => Ok(ParsedPatch(header, rules, ops, root))
  }

  function Decode(p: Primitives, patch: bytes, limits: Limits): (r: Result<ParsedPatch, PatchError>)
  {
    var Envelope(header, body) :- DecodePrefix(p, patch, limits);
    DecodeBody(header, body, limits)
  }

  /* ---------- A well-made patch parses to what was written ---------- */

  /** Everything the decoder will ask of the parts of a patch. */
  ghost predicate Encodable(header: Header, rules: seq<Rule>, ops: seq<Op>, root: Metadata, limits: Limits) {
    && header.neededReader <= VERSION
    && header.ruleCount == |rules| <= limits.maxRules
    && header.entryCount == |ops| <= limits.maxEntries
    && header.rootMetadata == !root.IsEmpty()
    && (forall i :: 0 <= i < |rules| ==> 0 < |rules[i].pattern| <= limits.maxPatternBytes)
    && CheckRules(rules).None?
    && (forall i :: 0 <= i < |ops| ==> OpFits(Grammar(limits, header.omit), ops[i]))
    && Structure.Fault(Records(ops)).None?
    && RootFits(root, header.omit, limits)
    && HEADER_LEN + |Body(rules, ops, root)| <= limits.maxPatchBytes
  }

  predicate RootFits(root: Metadata, omit: Omit, limits: Limits) {
    root.IsEmpty() ||
    (&& MetadataFits(root, limits.maxPayloadBytes) && !HasOmitted(root, omit)
     && root.holes == [] && root.hardlinkTo.None?)
  }

  lemma RootOfPut(g: Grammar, root: Metadata)
    requires RootFits(root, g.omit, g.limits)
    ensures g.RootStep(!root.IsEmpty(), PutRoot(root)) == Ok(Parsed(root, []))
  {
    if root.IsEmpty() {
      assert root == EMPTY;
    } else {
      MetadataOfPut(root, g.limits.maxPayloadBytes, []);
    }
  }

  lemma CountsFit(header: Header, rules: seq<Rule>, ops: seq<Op>, root: Metadata, limits: Limits)
    requires Encodable(header, rules, ops, root, limits)
    ensures RULE_UNIT * header.ruleCount + ENTRY_UNIT * header.entryCount <= |Body(rules, ops, root)|
  {
    RulesSize(rules, PutAll(ops, PutOp, PutRoot(root)));
    forall i | 0 <= i < |ops| ensures 0 < |ops[i].path| {
      assert OpFits(Grammar(limits, header.omit), ops[i]);
    }
    OpsSize(ops, PutRoot(root));
  }

  lemma DecodeOfBody(header: Header, rules: seq<Rule>, ops: seq<Op>, root: Metadata, limits: Limits)
    requires Encodable(header, rules, ops, root, limits)
    ensures DecodeBody(header, Body(rules, ops, root), limits) == Ok(ParsedPatch(header, rules, ops, root))
  {
    hide OpFits, RootFits, CheckRules, Structure.Fault, PutRule, PutOp, PutRoot, ParseAll, PutAll, Reads;
    var g := Grammar(limits, header.omit);
    var tail := PutAll(ops, PutOp, PutRoot(root));
    RulesRead(g, rules);
    ParseOfPut(rules, PutRule, g.RuleStep, tail);
    OpsRead(g, ops);
    ParseOfPut(ops, PutOp, g.OpStep, PutRoot(root));
    RootOfPut(g, root);
  }

  /** Parsing returns exactly the parts, and neither the counts nor the limits get in the way. */
  lemma DecodeOfEncode(p: Primitives, header: Header, rules: seq<Rule>, ops: seq<Op>, root: Metadata, limits: Limits)
    requires Encodable(header, rules, ops, root, limits)
    ensures var body := Body(rules, ops, root);
            Decode(p, EncodeHeader(p, header, body) + body, limits) == Ok(ParsedPatch(header, rules, ops, root))
  {
    var body := Body(rules, ops, root);
    CountsFit(header, rules, ops, root, limits);
    DecodeOfEncodeHeader(p, header, body, limits);
    DecodeOfBody(header, rules, ops, root, limits);
  }

  /* ---------- An accepted patch has only one spelling ---------- */

  lemma PutOfRootStep(g: Grammar, present: bool, s: bytes)
    requires g.RootStep(present, s).Ok? && g.RootStep(present, s).value.rest == []
    ensures var root := g.RootStep(present, s).value.value; s == PutRoot(root) && present == !root.IsEmpty()
  {
    hide MetadataStep;
    if present {
      PutOfMetadata(s, g.limits.maxPayloadBytes);
    }
  }

  predicate OpCanonical(op: Op) { MetadataCanonical.Canonical(op.meta) }

  lemma OpsCanonical(g: Grammar, s: bytes, n: nat)
    requires ParseAll(s, n, g.OpStep).Ok?
    ensures forall op :: op in ParseAll(s, n, g.OpStep).value.value ==> OpCanonical(op)
  {
    forall t: bytes | g.OpStep(t).Ok? ensures OpCanonical(g.OpStep(t).value.value) {
      PutOfOp(g, t);
    }
    ParseAllSatisfies(s, n, g.OpStep, OpCanonical);
  }

  /** The bytes of any accepted patch are determined by what they parse to. */
  lemma EncodeOfDecode(p: Primitives, patch: bytes, limits: Limits)
    requires Decode(p, patch, limits).Ok?
    ensures var ParsedPatch(header, rules, ops, root) := Decode(p, patch, limits).value;
            var body := Body(rules, ops, root);
            && patch == EncodeHeader(p, header, body) + body
            && header.ruleCount == |rules| && header.entryCount == |ops| && header.rootMetadata == !root.IsEmpty()
            && forall op :: op in ops ==> OpCanonical(op)
  {
    hide CheckRules, Structure.Fault, PutRule, PutOp, PutRoot, ParseAll, PutAll, EncodeHeader, DecodePrefix, Writes;
    EncodeOfDecodePrefix(p, patch, limits);
    var Envelope(header, body) := DecodePrefix(p, patch, limits).value;
    var g := Grammar(limits, header.omit);
    GrammarWrites(g);
    PutOfParse(body, header.ruleCount, g.RuleStep, PutRule);
    var s1 := ParseAll(body, header.ruleCount, g.RuleStep).value.rest;
    PutOfParse(s1, header.entryCount, g.OpStep, PutOp);
    OpsCanonical(g, s1, header.entryCount);
    var s2 := ParseAll(s1, header.entryCount, g.OpStep).value.rest;
    PutOfRootStep(g, header.rootMetadata, s2);
  }

  /* ---------- Exactly which patches are accepted ---------- */

  /** How an operation must agree with its payload, its metadata and the mask. */
  predicate OpSound(limits: Limits, omit: Omit, op: Op) {
    && Omitted(op.meta, omit) == op.meta
    && (op.operation == Directory || op.operation == FileCopy ==> op.payload == [])
    && (op.operation == Symlink ==> |op.payload| <= limits.maxSymlinkBytes)
    && (op.operation == FileHardlink ==> op.meta.hardlinkTo == Some(op.payload))
    && (op.operation != FileHardlink ==> op.meta.hardlinkTo == None)
  }

  lemma OpFaultMeans(limits: Limits, omit: Omit, op: Op)
    ensures OpFault(limits, omit, op).None? <==> OpSound(limits, omit, op)
  {
    hide HasOmitted, Omitted;
    HasOmittedMeans(op.meta, omit);
  }

  lemma HeadStepFits(g: Grammar, s: bytes)
    requires g.HeadStep(s).Ok?
    ensures var h := g.HeadStep(s).value.value;
            0 < h.pathLength <= g.limits.maxPathBytes && h.payloadLength <= g.limits.maxPayloadBytes
  {
    hide Length;
  }

  lemma OpStepFits(g: Grammar, s: bytes)
    requires g.OpStep(s).Ok?
    ensures OpFits(g, g.OpStep(s).value.value)
  {
    HeadStepFits(g, s);
    hide OpFault, MetadataStep, MetadataFits, Grammar.HeadStep;
    var Parsed(h, s1) := g.HeadStep(s).value;
    var s3 := Take(Take(s1, h.pathLength).value.rest, h.payloadLength).value.rest;
    StepFits(s3, g.limits.maxPayloadBytes);
  }

  lemma StepFits(s: bytes, limit: nat)
    requires MetadataStep(s, limit).Ok?
    ensures MetadataFits(MetadataStep(s, limit).value.value, limit)
  {
    hide MetadataCodec.Encode, MetadataCodec.Decode, MetadataCanonical.Canonical;
    WordSizes();
    var Parsed(n, s1) := Length(s, 4, limit).value;
    MetadataCodec.EncodeOfDecode(Take(s1, n).value.value);
  }

  lemma RuleStepFits(g: Grammar, s: bytes)
    requires g.RuleStep(s).Ok?
    ensures 0 < |g.RuleStep(s).value.value.pattern| <= g.limits.maxPatternBytes
  {
    hide Utf8.Valid;
  }

  lemma RootStepFits(g: Grammar, present: bool, s: bytes)
    requires g.RootStep(present, s).Ok?
    ensures RootFits(g.RootStep(present, s).value.value, g.omit, g.limits)
  {
    hide MetadataStep, MetadataFits, HasOmitted;
    if present {
      StepFits(s, g.limits.maxPayloadBytes);
    }
  }

  lemma RulesFit(g: Grammar, s: bytes, n: nat)
    requires ParseAll(s, n, g.RuleStep).Ok?
    ensures forall r :: r in ParseAll(s, n, g.RuleStep).value.value ==> 0 < |r.pattern| <= g.limits.maxPatternBytes
  {
    var good := (r: Rule) => 0 < |r.pattern| <= g.limits.maxPatternBytes;
    forall t: bytes | g.RuleStep(t).Ok? ensures good(g.RuleStep(t).value.value) {
      RuleStepFits(g, t);
    }
    ParseAllSatisfies(s, n, g.RuleStep, good);
  }

  lemma OpsFit(g: Grammar, s: bytes, n: nat)
    requires ParseAll(s, n, g.OpStep).Ok?
    ensures forall op :: op in ParseAll(s, n, g.OpStep).value.value ==> OpFits(g, op)
  {
    var good := (op: Op) => OpFits(g, op);
    forall t: bytes | g.OpStep(t).Ok? ensures good(g.OpStep(t).value.value) {
      OpStepFits(g, t);
    }
    ParseAllSatisfies(s, n, g.OpStep, good);
  }

  lemma AcceptedHeader(p: Primitives, patch: bytes, limits: Limits)
    requires DecodePrefix(p, patch, limits).Ok?
    ensures var Envelope(h, body) := DecodePrefix(p, patch, limits).value;
            && h.neededReader <= VERSION && h.ruleCount <= limits.maxRules && h.entryCount <= limits.maxEntries
            && HEADER_LEN + |body| == |patch| <= limits.maxPatchBytes
  {
    hide OmitFromBits, Checksum;
  }

  /** What the parts of an accepted patch satisfy. */
  lemma DecodedEncodable(p: Primitives, patch: bytes, limits: Limits)
    requires Decode(p, patch, limits).Ok?
    ensures var ParsedPatch(h, rules, ops, root) := Decode(p, patch, limits).value;
            Encodable(h, rules, ops, root, limits)
  {
    hide DecodePrefix, CheckRules, Structure.Fault, ParseAll, OpFits, RootFits, EncodeHeader, Body;
    AcceptedHeader(p, patch, limits);
    EncodeOfDecode(p, patch, limits);
    var Envelope(h, body) := DecodePrefix(p, patch, limits).value;
    var ParsedPatch(_, rules, ops, root) := Decode(p, patch, limits).value;
    var g := Grammar(limits, h.omit);
    RulesFit(g, body, h.ruleCount);
    var s1 := ParseAll(body, h.ruleCount, g.RuleStep).value.rest;
    OpsFit(g, s1, h.entryCount);
    RootStepFits(g, h.rootMetadata, ParseAll(s1, h.entryCount, g.OpStep).value.rest);
    assert forall i :: 0 <= i < |rules| ==> rules[i] in rules;
    assert forall i :: 0 <= i < |ops| ==> ops[i] in ops;
  }

  ghost predicate PatchOf(p: Primitives, patch: bytes, h: Header, rules: seq<Rule>, ops: seq<Op>, root: Metadata) {
    patch == EncodeHeader(p, h, Body(rules, ops, root)) + Body(rules, ops, root)
  }

  /** A byte string is accepted exactly when it is the encoding of parts that fit together and the limits. */
  lemma DecodeAccepts(p: Primitives, patch: bytes, limits: Limits)
    ensures Decode(p, patch, limits).Ok? <==>
            exists h, rules, ops, root :: PatchOf(p, patch, h, rules, ops, root)
              && Encodable(h, rules, ops, root, limits)
  {
    hide Decode, Encodable, EncodeHeader, Body;
    if Decode(p, patch, limits).Ok? {
      EncodeOfDecode(p, patch, limits);
      DecodedEncodable(p, patch, limits);
      var ParsedPatch(h, rules, ops, root) := Decode(p, patch, limits).value;
      assert PatchOf(p, patch, h, rules, ops, root);
    }
    if h, rules, ops, root :| PatchOf(p, patch, h, rules, ops, root) && Encodable(h, rules, ops, root, limits) {
      DecodeOfEncode(p, h, rules, ops, root, limits);
    }
  }
}
