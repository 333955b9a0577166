/** Apply undoes create: the law DIFZTREE patches exist for. */
module TreeRoundTrip {
  import opened Wire
  import opened Metadata
  import opened Primitives
  import opened Snapshots
  import opened TreePatch
  import opened TreeBody
  import opened TreeDecode
  import opened TreeEncode
  import opened TreeApply
  import opened PathFilter
  import FilePatch
  import MetadataCanonical
  import MetadataCodec
  import Paths
  import Structure

  /* ---------- A created patch parses ---------- */

  lemma ChosenStructure(p: Primitives, source: seq<Entry>, entries: seq<Entry>, ops: seq<Op>)
    requires ChosenFor(p, source, entries, ops)
    ensures Structure.Fault(TreeBody.Records(ops)) == Structure.Fault(Snapshots.Records(entries))
  {
    hide Choose, MetadataCodec.Encode;
    var rs, ts := TreeBody.Records(ops), Snapshots.Records(entries);
    forall i | 0 <= i < |rs|
      ensures && rs[i].path == ts[i].path && rs[i].mode == ts[i].mode && rs[i].kind == ts[i].kind
              && (!rs[i].kind.File? ==> rs[i].data == ts[i].data)
    {
      assert OpChosen(p, source, entries[i], ops[i]);
      OtherOperations(p, source, entries[i], ops[i]);
    }
    hide Structure.Fault;
    Structure.FaultSame(rs, ts);
  }

  /** What the decoder asks of one operation follows from the snapshot relations. */
  lemma ChosenFits(p: Primitives, source: seq<Entry>, entries: seq<Entry>, i: nat, op: Op, g: Grammar)
    requires i < |entries| && OpChosen(p, source, entries[i], op)
    requires CoversDefaults(g.limits)
    requires 0 < |entries[i].path| <= Paths.MAX_PATH_BYTES && HardlinkHolds(entries, i)
    requires MetadataCanonical.Canonical(entries[i].meta) && !HasOmitted(entries[i].meta, g.omit)
    ensures OpFits(g, op)
  {
    hide MetadataCanonical.Canonical, MetadataCodec.Encode, FilePatch.Encode, FindPath, HasOmitted, SharedMetadataEqual;
  }

  lemma ProjectedOmits(s: Snapshot, omit: Omit)
    ensures forall i :: 0 <= i < |s.entries| ==> !HasOmitted(Project(s, omit).entries[i].meta, omit)
    ensures !HasOmitted(Project(s, omit).root, omit)
  {
    forall m: Metadata ensures !HasOmitted(Omitted(m, omit), omit) {
      OmittedUnion(m, omit, omit);
      assert omit + omit == omit;
      HasOmittedMeans(Omitted(m, omit), omit);
    }
  }

  lemma CreatedIsEncodable(p: Primitives, source: seq<Entry>, target: Snapshot, rules: seq<Rule>, h: Header,
                           ops: seq<Op>, limits: Limits)
    requires Canonical(target) && CoversDefaults(limits)
    requires forall i :: 0 <= i < |target.entries| ==> !HasOmitted(target.entries[i].meta, h.omit)
    requires h.neededReader == 2 && h.ruleCount == |rules| && h.entryCount == |ops|
             && h.rootMetadata == !target.root.IsEmpty()
    requires ChosenFor(p, source, target.entries, ops)
    requires |rules| <= DEFAULTS.maxRules && CompileFilter(rules).Ok?
    requires forall i :: 0 <= i < |rules| ==> 0 < |rules[i].pattern| <= DEFAULTS.maxPatternBytes
    requires RootFits(target.root, h.omit, limits)
    requires HEADER_LEN + |Body(rules, ops, target.root)| <= DEFAULTS.maxPatchBytes
    ensures Encodable(h, rules, ops, target.root, limits)
  {
    hide *;
    ChosenAllFit(p, source, target, ops, Grammar(limits, h.omit));
    ChosenStructure(p, source, target.entries, ops);
    CanonicalShape(target);
    ChosenCount(p, source, target.entries, ops);
    Assemble(h, rules, ops, target.root, limits);
  }

  lemma ChosenCount(p: Primitives, source: seq<Entry>, entries: seq<Entry>, ops: seq<Op>)
    requires ChosenFor(p, source, entries, ops) && |entries| <= Paths.MAX_ENTRIES
    ensures |ops| <= DEFAULTS.maxEntries
  {
  }

  lemma Assemble(h: Header, rules: seq<Rule>, ops: seq<Op>, root: Metadata, limits: Limits)
    requires CoversDefaults(limits)
    requires h.neededReader == 2 && h.ruleCount == |rules| && h.entryCount == |ops| && h.rootMetadata == !root.IsEmpty()
    requires |rules| <= DEFAULTS.maxRules && CompileFilter(rules).Ok?
    requires forall i :: 0 <= i < |rules| ==> 0 < |rules[i].pattern| <= DEFAULTS.maxPatternBytes
    requires |ops| <= DEFAULTS.maxEntries && Structure.Fault(TreeBody.Records(ops)).None?
    requires forall i :: 0 <= i < |ops| ==> OpFits(Grammar(limits, h.omit), ops[i])
    requires RootFits(root, h.omit, limits)
    requires HEADER_LEN + |Body(rules, ops, root)| <= DEFAULTS.maxPatchBytes
    ensures Encodable(h, rules, ops, root, limits)
  {
    hide CompileFilter, OpFits, RootFits, Body, Structure.Fault;
  }

  lemma RootChosen(target: Snapshot, omit: Omit, limits: Limits)
    requires Canonical(target) && CoversDefaults(limits) && !HasOmitted(target.root, omit)
    requires target.root.IsEmpty() || (&& |MetadataCodec.Encode(target.root)| < U32_LIMIT
                                       && |MetadataCodec.Encode(target.root)| <= DEFAULTS.maxPayloadBytes)
    ensures RootFits(target.root, omit, limits)
  {
  }

  lemma ChosenAllFit(p: Primitives, source: seq<Entry>, target: Snapshot, ops: seq<Op>, g: Grammar)
    requires Canonical(target) && CoversDefaults(g.limits) && ChosenFor(p, source, target.entries, ops)
    requires forall i :: 0 <= i < |target.entries| ==> !HasOmitted(target.entries[i].meta, g.omit)
    ensures forall i :: 0 <= i < |ops| ==> OpFits(g, ops[i])
  {
    hide OpFits, OpChosen, Canonical, HasOmitted, CoversDefaults;
    CanonicalShape(target);
    forall i | 0 <= i < |ops| ensures OpFits(g, ops[i]) {
      assert OpChosen(p, source, target.entries[i], ops[i]);
      assert HardlinkHolds(target.entries, i);
      ChosenFits(p, source, target.entries, i, ops[i], g);
    }
  }

  /**
   Parsing a created patch returns the header, rules, operations and root that were written, with
   nothing left over, under any limits at least as generous as the default ones.
   */
  lemma DecodeOfCreate(p: Primitives, source: Snapshot, target: Snapshot, rules: seq<Rule>, omit: Omit, limits: Limits)
    returns (ops: seq<Op>)
    requires Canonical(source) && Canonical(target) && CoversDefaults(limits)
    requires Create(p, source, target, rules, omit).Ok?
    ensures ChosenFor(p, Project(source, omit).entries, Project(target, omit).entries, ops)
    ensures Decode(p, Create(p, source, target, rules, omit).value, limits)
         == Ok(ParsedPatch(HeaderFor(p, Project(source, omit), Project(target, omit), rules, omit),
                           rules, ops, Project(target, omit).root))
  {
    var src, tgt := Project(source, omit), Project(target, omit);
    var h := HeaderFor(p, src, tgt, rules, omit);
    CreateMeans(p, source, target, rules, omit);
    ops := AllLayout(p, src, tgt, rules);
    var body := Body(rules, ops, tgt.root);
    ProjectCanonical(target, omit);
    ProjectedOmits(target, omit);
    assert Encodable(h, rules, ops, tgt.root, limits)
        && Create(p, source, target, rules, omit) == Ok(EncodeHeader(p, h, body) + body) by {
      hide *;
      LayoutParts(p, src, tgt, rules, omit, ops, WriteAll(p, src, tgt, rules).value, limits);
      CreatedIsEncodable(p, src.entries, tgt, rules, h, ops, limits);
    }
    TreeDecode.DecodeOfEncode(p, h, rules, ops, tgt.root, limits);
  }

  lemma CreateMeans(p: Primitives, source: Snapshot, target: Snapshot, rules: seq<Rule>, omit: Omit)
    requires Create(p, source, target, rules, omit).Ok?
    ensures |rules| <= DEFAULTS.maxRules && CompileFilter(rules).Ok?
    ensures var src, tgt := Project(source, omit), Project(target, omit);
            && WriteAll(p, src, tgt, rules).Ok?
            && var body := WriteAll(p, src, tgt, rules).value[HEADER_LEN..];
               Create(p, source, target, rules, omit)
               == Ok(EncodeHeader(p, HeaderFor(p, src, tgt, rules, omit), body) + body)
  {
  }

  lemma LayoutParts(p: Primitives, source: Snapshot, target: Snapshot, rules: seq<Rule>, omit: Omit, ops: seq<Op>,
                    out: bytes, limits: Limits)
    requires out == EmptySlot() + Body(rules, ops, target.root) && |out| <= DEFAULTS.maxPatchBytes
    requires Canonical(target) && CoversDefaults(limits) && !HasOmitted(target.root, omit)
    requires ChosenFor(p, source.entries, target.entries, ops) && |rules| <= DEFAULTS.maxRules
    requires target.root.IsEmpty() || (&& |MetadataCodec.Encode(target.root)| < U32_LIMIT
                                       && |MetadataCodec.Encode(target.root)| <= DEFAULTS.maxPayloadBytes)
    ensures var h := HeaderFor(p, source, target, rules, omit);
            && h.neededReader == 2 && h.omit == omit && h.ruleCount == |rules| && h.entryCount == |ops|
            && h.rootMetadata == !target.root.IsEmpty()
    ensures RootFits(target.root, omit, limits)
    ensures HEADER_LEN + |Body(rules, ops, target.root)| <= DEFAULTS.maxPatchBytes
    ensures |out| >= HEADER_LEN && out[HEADER_LEN..] == Body(rules, ops, target.root)
  {
    hide *;
    RootChosen(target, omit, limits);
    CanonicalShape(target);
    HeaderFields(p, source, target, rules, omit, ops);
    BodyBytes(rules, ops, target.root, out);
  }

  lemma HeaderFields(p: Primitives, source: Snapshot, target: Snapshot, rules: seq<Rule>, omit: Omit, ops: seq<Op>)
    requires |target.entries| <= Paths.MAX_ENTRIES && |rules| <= DEFAULTS.maxRules
    requires ChosenFor(p, source.entries, target.entries, ops)
    ensures var h := HeaderFor(p, source, target, rules, omit);
            && h.neededReader == 2 && h.omit == omit && h.ruleCount == |rules| && h.entryCount == |ops|
            && h.rootMetadata == !target.root.IsEmpty()
  {
    hide TreeHash, OpChosen, Metadata.IsEmpty;
  }

  lemma BodyBytes(rules: seq<Rule>, ops: seq<Op>, root: Metadata, out: bytes)
    requires out == EmptySlot() + Body(rules, ops, root) && |out| <= DEFAULTS.maxPatchBytes
    ensures HEADER_LEN + |Body(rules, ops, root)| <= DEFAULTS.maxPatchBytes
    ensures |out| >= HEADER_LEN && out[HEADER_LEN..] == Body(rules, ops, root)
  {
    hide Body, EmptySlot;
  }

  /* ---------- Replaying the operations ---------- */

  function TotalContent(entries: seq<Entry>): (n: nat)
  {
    if entries == [] then 0 else |entries[0].content.Body()| + TotalContent(entries[1..])
  }

  lemma ProjectedSource(source: seq<Entry>, omit: Omit, path: bytes)
    ensures FindPath(ProjectEntries(source, omit), path) == FindPath(source, path)
  {
    assert EntryPaths(ProjectEntries(source, omit)) == EntryPaths(source);
  }

  lemma DeltaOfEncode(p: Primitives, previous: bytes, body: bytes, remaining: nat)
    requires CodecLaw(p) && FilePatch.Encode(p, previous, body).Ok?
    ensures Delta(p, previous, FilePatch.Encode(p, previous, body).value, remaining)
         == if |body| <= remaining then Ok(body) else Err(LimitExceeded)
  {
    var header := FilePatch.Header((p.blake3)(previous), (p.blake3)(body), |previous|, |body|);
    FilePatch.DecodeOfEncodeHeader(header, (p.compress)(previous, body).value);
    FilePatch.ApplyOfEncode(p, previous, body, 0);
  }

  /** The three ways a plain file travels, in terms of the unprojected source. */
  lemma SelectFileCases(p: Primitives, source: seq<Entry>, omit: Omit, path: bytes, body: bytes,
                        operation: Operation, payload: bytes) returns (previous: bytes)
    requires SelectFile(p, ProjectEntries(source, omit), path, body) == Ok((operation, payload))
    ensures || (operation == FileRaw && payload == body)
            || (operation == FileCopy && SourceFile(source, path) == Ok(body))
            || (operation == FileDelta && SourceFile(source, path) == Ok(previous)
                && FilePatch.Encode(p, previous, body) == Ok(payload))
  {
    ProjectedSource(source, omit, path);
    previous := body;
    match FindPath(source, path)
    case None =>
    case Some(i) =>
      if source[i].content.Regular? {
        previous := source[i].content.body;
      }
  }

  lemma ExpandDelta(p: Primitives, source: seq<Entry>, st: Progress, op: Op, previous: bytes)
    requires op.operation == FileDelta && op.mode < 0x200 && SourceFile(source, op.path) == Ok(previous)
    ensures Expand(p, source, st, op) == match Delta(p, previous, op.payload, st.remaining)
                                         case Err(e) => Err(e)
                                         case Ok(body) => Ok(Regular(op.mode, body))
  {
  }

  lemma ExpandOther(p: Primitives, source: seq<Entry>, st: Progress, op: Op, body: bytes)
    requires op.mode < 0x200
    requires || (op.operation == FileRaw && op.payload == body)
             || (op.operation == FileCopy && SourceFile(source, op.path) == Ok(body))
             || (op.operation == FileHardlink && LinkedFile(st.entries, op.payload) == Ok(body))
    ensures Expand(p, source, st, op) == Ok(Regular(op.mode, body))
  {
  }

  /** Rebuilt exactly, or stopped by the budget. */
  ghost predicate Rebuilds(p: Primitives, source: seq<Entry>, st: Progress, op: Op, content: Content) {
    || Expand(p, source, st, op) == Ok(content)
    || (|content.Body()| > st.remaining && Expand(p, source, st, op) == Err(LimitExceeded))
  }

  lemma ReplayFile(p: Primitives, source: seq<Entry>, omit: Omit, body: bytes, st: Progress, op: Op)
    requires CodecLaw(p) && op.mode < 0x200
    requires SelectFile(p, ProjectEntries(source, omit), op.path, body) == Ok((op.operation, op.payload))
    ensures Rebuilds(p, source, st, op, Regular(op.mode, body))
  {
    var previous := SelectFileCases(p, source, omit, op.path, body, op.operation, op.payload);
    if op.operation == FileDelta {
      ExpandDelta(p, source, st, op, previous);
      DeltaOfEncode(p, previous, body, st.remaining);
    } else {
      ExpandOther(p, source, st, op, body);
    }
  }

  /** A hardlink finds its file among the entries already rebuilt. */
  lemma LinkFound(entries: seq<Entry>, i: nat)
    requires i < |entries| && HardlinkHolds(entries, i) && entries[i].meta.hardlinkTo.Some?
    ensures entries[i].content.Regular?
    ensures LinkedFile(entries[..i], entries[i].meta.hardlinkTo.value) == Ok(entries[i].content.body)
  {
  }

  lemma ChosenSelects(p: Primitives, source: seq<Entry>, e: Entry, op: Op)
    requires Choose(p, source, e) == Ok(op)
    ensures op.path == e.path && op.mode == e.content.ModeBits() && op.meta == e.meta
    ensures Select(p, source, e) == Ok((op.operation, op.payload))
  {
  }

  lemma ReplayContent(p: Primitives, source: seq<Entry>, omit: Omit, entries: seq<Entry>, i: nat,
                      remaining: u64, op: Op)
    requires CodecLaw(p)
    requires i < |entries| && HardlinkHolds(entries, i) && Choose(p, ProjectEntries(source, omit), entries[i]) == Ok(op)
    ensures Rebuilds(p, source, Progress(entries[..i], remaining), op, entries[i].content)
  {
    var e, st := entries[i], Progress(entries[..i], remaining);
    ChosenSelects(p, ProjectEntries(source, omit), e, op);
    match e.content {
      case Dir(_) =>
      case Link(_) =>
      case Regular(_, body) =>
        if e.meta.hardlinkTo.Some? {
          LinkFound(entries, i);
          ExpandOther(p, source, st, op, body);
        } else {
          ReplayFile(p, source, omit, body, st, op);
        }
    }
  }

  lemma ReplayOne(p: Primitives, source: seq<Entry>, omit: Omit, entries: seq<Entry>, i: nat, remaining: u64, op: Op)
    requires CodecLaw(p)
    requires i < |entries| && HardlinkHolds(entries, i) && Choose(p, ProjectEntries(source, omit), entries[i]) == Ok(op)
    ensures ApplyOp(p, source, Progress(entries[..i], remaining), op)
         == if |entries[i].content.Body()| <= remaining
            then Ok(Progress(entries[..i + 1], remaining - |entries[i].content.Body()|))
            else Err(LimitExceeded)
  {
    ReplayContent(p, source, omit, entries, i, remaining, op);
    assert entries[..i + 1] == entries[..i] + [Entry(op.path, entries[i].content, op.meta)];
  }

  /** The whole loop: every entry is rebuilt, or the first overrun is reported. */
  lemma {:induction false} Replay(p: Primitives, source: seq<Entry>, omit: Omit, entries: seq<Entry>, ops: seq<Op>,
                                  i: nat, remaining: u64)
    requires CodecLaw(p) && i <= |entries|
    requires forall k :: 0 <= k < |entries| ==> HardlinkHolds(entries, k)
    requires |ops| == |entries|
    requires forall k :: 0 <= k < |entries| ==> Choose(p, ProjectEntries(source, omit), entries[k]) == Ok(ops[k])
    ensures var r := ApplyOps(p, source, ops[i..], Progress(entries[..i], remaining));
            if TotalContent(entries[i..]) <= remaining
            then r.Ok? && r.value.entries == entries
            else r == Err(LimitExceeded)
    decreases |entries| - i
  {
    if i == |entries| {
      assert entries[..i] == entries;
    } else {
      assert HardlinkHolds(entries, i) && Choose(p, ProjectEntries(source, omit), entries[i]) == Ok(ops[i]);
      ReplayOne(p, source, omit, entries, i, remaining, ops[i]);
      assert ops[i..][1..] == ops[i + 1..] && entries[i..][1..] == entries[i + 1..];
      var n := |entries[i].content.Body()|;
      if n <= remaining {
        Replay(p, source, omit, entries, ops, i + 1, remaining - n);
      }
    }
  }

  lemma {:induction false} ProjectedContent(entries: seq<Entry>, omit: Omit)
    ensures TotalContent(ProjectEntries(entries, omit)) == TotalContent(entries)
  {
    if entries != [] {
      assert ProjectEntries(entries, omit)[1..] == ProjectEntries(entries[1..], omit);
      ProjectedContent(entries[1..], omit);
    }
  }

  /* ---------- The law ---------- */

  /**
   For all canonical snapshots, rules and masks: what `create` returns, `apply` turns back into
   the projected target, unless the target's total content exceeds the output budget, which is
   then the error.
   */
  lemma ApplyUndoesCreate(p: Primitives, source: Snapshot, target: Snapshot, rules: seq<Rule>, omit: Omit,
                          limits: ApplyLimits)
    requires Canonical(source) && Canonical(target) && CodecLaw(p) && CoversDefaults(limits.patch)
    requires Create(p, source, target, rules, omit).Ok?
    ensures Apply(p, source, Create(p, source, target, rules, omit).value, limits)
         == if TotalContent(target.entries) <= limits.maxOutputBytes
            then Ok(Project(target, omit)) else Err(LimitExceeded)
  {
    hide Create, Decode, Fault, TreeHash, ApplyOps, Choose, TotalContent, MetadataCodec.Encode, HardlinkHolds, HolesFit,
      CoversDefaults, CodecLaw;
    var src, tgt := Project(source, omit), Project(target, omit);
    var ops := DecodeOfCreate(p, source, target, rules, omit, limits.patch);
    ProjectCanonical(target, omit);
    FaultMeans(tgt);
    forall k | 0 <= k < |ops| ensures Choose(p, src.entries, tgt.entries[k]) == Ok(ops[k]) {
      assert OpChosen(p, src.entries, tgt.entries[k], ops[k]);
    }
    Replay(p, source.entries, omit, tgt.entries, ops, 0, limits.maxOutputBytes);
    assert ops[0..] == ops && tgt.entries[0..] == tgt.entries && tgt.entries[..0] == [];
    ProjectedContent(target.entries, omit);
  }

  /** Equal tree digests of these two snapshots come from equal identity streams. */
  ghost predicate TreesDistinguished(p: Primitives, a: Snapshot, b: Snapshot) {
    TreeHash(p, a) == TreeHash(p, b) ==> IdentityStream(p, a) == IdentityStream(p, b)
  }

  /** Canonical snapshots with the same identity are equal, when neither kind of digest collides. */
  lemma SameIdentity(p: Primitives, a: Snapshot, b: Snapshot)
    requires Canonical(a) && Canonical(b) && TreeHash(p, a) == TreeHash(p, b)
    requires TreesDistinguished(p, a, b) && NoCollision(p, a, b)
    ensures a == b
  {
    hide IdentityStream, Canonical, NoCollision;
    IdentityUnambiguous(p, a, b);
  }

  /**
   A created patch applied to any source whatever, if it applies at all, gives the projected
   target and nothing else, when digests do not collide.  No codec law is needed.
   */
  lemma OnlyTheTarget(p: Primitives, source: Snapshot, target: Snapshot, rules: seq<Rule>, omit: Omit,
                      other: Snapshot, limits: ApplyLimits)
    requires Canonical(source) && Canonical(target) && CoversDefaults(limits.patch)
    requires Create(p, source, target, rules, omit).Ok?
    requires Apply(p, other, Create(p, source, target, rules, omit).value, limits).Ok?
    requires var result := Apply(p, other, Create(p, source, target, rules, omit).value, limits).value;
             TreesDistinguished(p, result, Project(target, omit)) && NoCollision(p, result, Project(target, omit))
    ensures Apply(p, other, Create(p, source, target, rules, omit).value, limits) == Ok(Project(target, omit))
  {
    hide Create, Apply, Decode, TreeHash, Canonical, NoCollision, TreesDistinguished, CoversDefaults;
    var patch := Create(p, source, target, rules, omit).value;
    var ops := DecodeOfCreate(p, source, target, rules, omit, limits.patch);
    ProjectCanonical(target, omit);
    ApplySound(p, other, patch, limits);
    SameIdentity(p, Apply(p, other, patch, limits).value, Project(target, omit));
  }

  /** The hypotheses can be met: the codec that stores targets whole, and two empty trees. */
  lemma HypothesesMet(digest: bytes -> Digest)
    ensures var p := Primitives(digest, (source, target) => Some(target), (source, frame, n) => Some(frame));
            var empty := Snapshot([], EMPTY);
            CodecLaw(p) && Canonical(empty) && CoversDefaults(DEFAULTS) && Create(p, empty, empty, [], {}).Ok?
  {
    hide TreeHash;
    var p := Primitives(digest, (source, target) => Some(target), (source, frame, n) => Some(frame));
    var empty := Snapshot([], EMPTY);
    ProjectUnion(empty, {}, {});
    assert WriteRules([], EmptySlot()) == Ok(EmptySlot());
    assert WriteOps(p, [], [], EmptySlot()) == Ok(EmptySlot());
    assert WriteAll(p, empty, empty, []) == Ok(EmptySlot());
    assert CompileRules([], 0) == Ok([]);
  }
}
