/** DIFZTREE v2: the patch record types, their limits and the integrity envelope (rust/src/tree_patch.rs). */
module TreePatch {
  import opened Wire
  import opened Metadata
  import opened Primitives
  import opened WriteBuffer
  import Paths
  import FilePatch
  import PathFilter

  datatype PatchError =
    | LimitExceeded | UnexpectedEndOfInput | InvalidMagic | UnsupportedVersion | PatchHashMismatch
    | ReaderTooOld | UnsupportedFlags | InvalidRule | InvalidOperation | InvalidPath | InvalidPayload
    | OmittedMetadataPresent | TrailingData
    | MetadataFault(meta: MetaError)
    | SnapshotFault(dir: Paths.DirError)
    | FilterFault(filter: PathFilter.FilterError)
    | FileFault(file: FilePatch.FileError)
    | SourceHashMismatch | TargetHashMismatch | MissingSourceEntry | SourceKindMismatch

  const MAGIC: bytes := Ascii("DIFZTREE")
  const PATCH_DOMAIN: bytes := Ascii("DIFZTREE-PATCH") + [2]
  const HEADER_LEN: nat := 120
  const CHECKSUM_OFFSET: nat := 88
  const VERSION: nat := 2
  const RULE_UNIT: nat := 9
  const ENTRY_UNIT: nat := 41

  datatype Limits = Limits(
    maxPatchBytes: u64, maxEntries: u32, maxRules: u32,
    maxPathBytes: u32, maxPatternBytes: u32, maxSymlinkBytes: u64, maxPayloadBytes: u64)

  const DEFAULTS: Limits := Limits(0x4_0000_0000, 1_000_000, 4096, 4096, 4096, 65_536, 0x2_0000_0000)

  /** At least as generous as the limits `create` works under. */
  predicate CoversDefaults(l: Limits) {
    && l.maxPatchBytes >= DEFAULTS.maxPatchBytes && l.maxEntries >= DEFAULTS.maxEntries
    && l.maxRules >= DEFAULTS.maxRules && l.maxPathBytes >= DEFAULTS.maxPathBytes
    && l.maxPatternBytes >= DEFAULTS.maxPatternBytes && l.maxSymlinkBytes >= DEFAULTS.maxSymlinkBytes
    && l.maxPayloadBytes >= DEFAULTS.maxPayloadBytes
  }

  datatype Header = Header(
    neededReader: u16, rootMetadata: bool, omit: Omit, ruleCount: u32, entryCount: u32,
    sourceHash: Digest, targetHash: Digest)

  function Flags(h: Header): (n: nat)
    ensures n < 128
  {
    2 * Bits(h.omit) + if h.rootMetadata then 1 else 0
  }

  /** The 88 bytes before the checksum. */
  function Prefix(h: Header): (s: bytes)
    ensures |s| == CHECKSUM_OFFSET
  {
    MAGIC + (Le(2, VERSION) + (Le(2, h.neededReader) + (Le(4, Flags(h)) + (Le(4, h.ruleCount)
    + (Le(4, h.entryCount) + (h.sourceHash + h.targetHash))))))
  }

  function Checksum(p: Primitives, prefix: bytes, body: bytes): (d: Digest) {
    (p.blake3)(PATCH_DOMAIN + prefix + body)
  }

  /** The header slot for this exact body. */
  function EncodeHeader(p: Primitives, h: Header, body: bytes): (s: bytes)
    ensures |s| == HEADER_LEN
  {
    Prefix(h) + Checksum(p, Prefix(h), body)
  }

  datatype Envelope = Envelope(header: Header, body: bytes)

  /** The fields of a full-length header, before any of them is judged. */
  datatype RawHeader = RawHeader(
    magic: bytes, version: u16, neededReader: u16, flags: u32, ruleCount: u32, entryCount: u32,
    sourceHash: Digest, targetHash: Digest, checksum: Digest)

  function Fields(s: bytes): (f: RawHeader)
    requires |s| >= HEADER_LEN
  {
    WordSizes();
    RawHeader(s[..8], FromLe(s[8..10]), FromLe(s[10..12]), FromLe(s[12..16]), FromLe(s[16..20]), FromLe(s[20..24]),
              s[24..56], s[56..88], s[88..120])
  }

  function DecodePrefix(p: Primitives, s: bytes, limits: Limits): (r: Result<Envelope, PatchError>)
  {
    if |s| > limits.maxPatchBytes then Err(LimitExceeded)
    else if |s| < HEADER_LEN then Err(UnexpectedEndOfInput)
    else
      var f, body := Fields(s), s[HEADER_LEN..];
      if f.magic != MAGIC then Err(InvalidMagic)
      else if f.version != VERSION then Err(UnsupportedVersion)
      else if Checksum(p, s[..CHECKSUM_OFFSET], body) != f.checksum then Err(PatchHashMismatch)
      else if f.neededReader > VERSION then Err(ReaderTooOld)
      else if f.flags >= 128 then Err(UnsupportedFlags)
      else if f.ruleCount > limits.maxRules || f.entryCount > limits.maxEntries then Err(LimitExceeded)
      // Counts that the body cannot hold are refused before anything is allocated for them.
      else if f.ruleCount > |body| / RULE_UNIT || f.entryCount > (|body| - f.ruleCount * RULE_UNIT) / ENTRY_UNIT
      then Err(UnexpectedEndOfInput)
      else
        Ok(Envelope(Header(f.neededReader, f.flags % 2 == 1, OmitFromBits(f.flags / 2).value,
                           f.ruleCount, f.entryCount, f.sourceHash, f.targetHash), body))
  }

  lemma FieldsOfPrefix(h: Header, d: Digest, body: bytes)
    ensures var s := Prefix(h) + d + body;
            && s[..CHECKSUM_OFFSET] == Prefix(h) && s[HEADER_LEN..] == body
            && Fields(s) == RawHeader(MAGIC, VERSION, h.neededReader, Flags(h), h.ruleCount, h.entryCount,
                                      h.sourceHash, h.targetHash, d)
  {
    var s := Prefix(h) + d + body;
    WordSizes();
    FromLeOfLe(2, VERSION);
    FromLeOfLe(2, h.neededReader);
    FromLeOfLe(4, Flags(h));
    FromLeOfLe(4, h.ruleCount);
    FromLeOfLe(4, h.entryCount);
    PrefixSlices(h);
    assert s[..8] == Prefix(h)[..8];
    assert s[8..10] == Prefix(h)[8..10];
    assert s[10..12] == Prefix(h)[10..12];
    assert s[12..16] == Prefix(h)[12..16];
    assert s[16..20] == Prefix(h)[16..20];
    assert s[20..24] == Prefix(h)[20..24];
    assert s[24..56] == Prefix(h)[24..56];
    assert s[56..88] == Prefix(h)[56..88];
    assert s[88..120] == d;
  }

  lemma PrefixSlices(h: Header)
    ensures var s := Prefix(h);
            && s[..8] == MAGIC && s[8..10] == Le(2, VERSION) && s[10..12] == Le(2, h.neededReader)
            && s[12..16] == Le(4, Flags(h)) && s[16..20] == Le(4, h.ruleCount) && s[20..24] == Le(4, h.entryCount)
            && s[24..56] == h.sourceHash && s[56..88] == h.targetHash
  {
    var s := Prefix(h);
    var s6 := h.sourceHash + h.targetHash;
    var s5 := Le(4, h.entryCount) + s6;
    var s4 := Le(4, h.ruleCount) + s5;
    var s3 := Le(4, Flags(h)) + s4;
    var s2 := Le(2, h.neededReader) + s3;
    var s1 := Le(2, VERSION) + s2;
    assert s[..8] == MAGIC && s[8..] == s1;
    assert s[10..] == s1[2..] == s2 && s[8..10] == s1[..2];
    assert s[12..] == s2[2..] == s3 && s[10..12] == s2[..2];
    assert s[16..] == s3[4..] == s4 && s[12..16] == s3[..4];
    assert s[20..] == s4[4..] == s5 && s[16..20] == s4[..4];
    assert s[24..] == s5[4..] == s6 && s[20..24] == s5[..4];
    assert s[24..56] == s6[..32] && s[56..88] == s6[32..];
  }

  /** An envelope whose counts the body can hold opens again, under any sufficient limits. */
  lemma DecodeOfEncodeHeader(p: Primitives, h: Header, body: bytes, limits: Limits)
    requires h.neededReader <= VERSION
    requires HEADER_LEN + |body| <= limits.maxPatchBytes
    requires h.ruleCount <= limits.maxRules && h.entryCount <= limits.maxEntries
    requires RULE_UNIT * h.ruleCount + ENTRY_UNIT * h.entryCount <= |body|
    ensures DecodePrefix(p, EncodeHeader(p, h, body) + body, limits) == Ok(Envelope(h, body))
  {
    FieldsOfPrefix(h, Checksum(p, Prefix(h), body), body);
    OmitOfBits(h.omit);
    assert Flags(h) / 2 == Bits(h.omit);
  }

  lemma BitsOfOnes(b0: nat, b1: nat, b2: nat, b3: nat, b4: nat, b5: nat)
    ensures Bits(One(b0, XattrFamily) + One(b1, AclFamily) + One(b2, TimestampsFamily)
                 + One(b3, FinderFamily) + One(b4, SparseFamily) + One(b5, HardlinkFamily))
         == b0 % 2 + 2 * (b1 % 2) + 4 * (b2 % 2) + 8 * (b3 % 2) + 16 * (b4 % 2) + 32 * (b5 % 2)
  {
  }

  lemma Binary(n: nat)
    requires n < 64
    ensures n == n % 2 + 2 * (n / 2 % 2) + 4 * (n / 4 % 2) + 8 * (n / 8 % 2) + 16 * (n / 16 % 2) + 32 * (n / 32 % 2)
  {
    var a, b, c, d, e := n / 2, n / 4, n / 8, n / 16, n / 32;
    assert b == a / 2 && c == b / 2 && d == c / 2 && e == d / 2 && e < 2;
    assert n == n % 2 + 2 * a && a == a % 2 + 2 * b && b == b % 2 + 2 * c;
    assert c == c % 2 + 2 * d && d == d % 2 + 2 * e;
  }

  lemma FlagsDetermineOmit(bits: nat)
    requires bits < 64
    ensures Bits(OmitFromBits(bits).value) == bits
  {
    BitsOfOnes(bits, bits / 2, bits / 4, bits / 8, bits / 16, bits / 32);
    Binary(bits);
  }

  /** An accepted envelope is exactly the encoding of its header for its body. */
  lemma EncodeOfDecodePrefix(p: Primitives, s: bytes, limits: Limits)
    requires DecodePrefix(p, s, limits).Ok?
    ensures var Envelope(h, body) := DecodePrefix(p, s, limits).value; s == EncodeHeader(p, h, body) + body
  {
    var Envelope(h, body) := DecodePrefix(p, s, limits).value;
    FlagsDetermineOmit(Fields(s).flags / 2);
    assert Flags(h) == Fields(s).flags;
    PrefixOfFields(s, h);
    assert s == s[..88] + s[88..120] + s[120..];
  }

  /**
   The checksum binds every other byte: change any of them in an accepted patch, magic and version
   apart, and the patch is refused for its hash, unless the digest collides.
   */
  lemma AnyChangeIsNoticed(p: Primitives, patch: bytes, other: bytes, limits: Limits)
    requires DecodePrefix(p, patch, limits).Ok? && other != patch && HEADER_LEN <= |other| <= limits.maxPatchBytes
    requires other[..10] == patch[..10] && other[88..120] == patch[88..120]
    requires var a := Ascii("DIFZTREE-PATCH") + [2] + patch[..88] + patch[120..];
             var b := Ascii("DIFZTREE-PATCH") + [2] + other[..88] + other[120..];
             (p.blake3)(a) == (p.blake3)(b) ==> a == b
    ensures DecodePrefix(p, other, limits) == Err(PatchHashMismatch)
  {
    hide FromLe, OmitFromBits;
    var domain := Ascii("DIFZTREE-PATCH") + [2];
    var a, b := domain + patch[..88] + patch[120..], domain + other[..88] + other[120..];
    assert other[..8] == other[..10][..8] && patch[..8] == patch[..10][..8];
    assert other[8..10] == other[..10][8..] && patch[8..10] == patch[..10][8..];
    CoveredBytes(domain, patch, other);
  }

  lemma CoveredBytes(domain: bytes, s: bytes, t: bytes)
    requires |s| >= HEADER_LEN && |t| >= HEADER_LEN && s[88..120] == t[88..120]
    ensures domain + s[..88] + s[120..] == domain + t[..88] + t[120..] ==> s == t
  {
    var a, b := domain + s[..88] + s[120..], domain + t[..88] + t[120..];
    assert s[..88] == a[|domain|..|domain| + 88] && t[..88] == b[|domain|..|domain| + 88];
    assert s[120..] == a[|domain| + 88..] && t[120..] == b[|domain| + 88..];
    assert s == s[..88] + s[88..120] + s[120..];
    assert t == t[..88] + t[88..120] + t[120..];
  }

  lemma PrefixOfFields(s: bytes, h: Header)
    requires |s| >= HEADER_LEN
    requires Fields(s) == RawHeader(MAGIC, VERSION, h.neededReader, Flags(h), h.ruleCount, h.entryCount,
                                    h.sourceHash, h.targetHash, s[88..120])
    ensures Prefix(h) == s[..88]
  {
    LeOfFromLe(s[8..10]);
    LeOfFromLe(s[10..12]);
    LeOfFromLe(s[12..16]);
    LeOfFromLe(s[16..20]);
    LeOfFromLe(s[20..24]);
    PrefixFromSlices(s);
  }

  lemma PrefixFromSlices(s: bytes)
    requires |s| >= HEADER_LEN
    ensures s[..88] == s[..8] + (s[8..10] + (s[10..12] + (s[12..16] + (s[16..20] + (s[20..24] +
                       (s[24..56] + s[56..88]))))))
  {
  }

  /** `Header::encode` fills the fixed slot field by field. */
  method EncodeHeaderInPlace(p: Primitives, h: Header, body: bytes, slot: array<byte>)
    requires slot.Length == HEADER_LEN
    modifies slot
    ensures slot[..] == EncodeHeader(p, h, body)
  {
    CopyNext(slot, 0, MAGIC);
    CopyNext(slot, 8, Le(2, VERSION));
    CopyNext(slot, 10, Le(2, h.neededReader));
    CopyNext(slot, 12, Le(4, Flags(h)));
    CopyNext(slot, 16, Le(4, h.ruleCount));
    CopyNext(slot, 20, Le(4, h.entryCount));
    CopyNext(slot, 24, h.sourceHash);
    CopyNext(slot, 56, h.targetHash);
    PrefixLeftToRight(h);
    assert slot[..88] == Prefix(h);
    CopyNext(slot, 88, Checksum(p, slot[..88], body));
    assert slot[..] == slot[..120];
  }

  lemma PrefixLeftToRight(h: Header)
    ensures Prefix(h) == [] + MAGIC + Le(2, VERSION) + Le(2, h.neededReader) + Le(4, Flags(h)) + Le(4, h.ruleCount)
                         + Le(4, h.entryCount) + h.sourceHash + h.targetHash
  {
    hide Le, Flags;
    Regrouped(MAGIC, Le(2, VERSION), Le(2, h.neededReader), Le(4, Flags(h)),
              Le(4, h.ruleCount) + (Le(4, h.entryCount) + (h.sourceHash + h.targetHash)));
    Regrouped(Le(4, h.ruleCount), Le(4, h.entryCount), h.sourceHash, h.targetHash, []);
    var left := [] + MAGIC + Le(2, VERSION) + Le(2, h.neededReader) + Le(4, Flags(h));
    Regrouped(left, Le(4, h.ruleCount), Le(4, h.entryCount), h.sourceHash, h.targetHash);
  }

  lemma Regrouped(a: bytes, b: bytes, c: bytes, d: bytes, e: bytes)
    ensures a + (b + (c + (d + e))) == [] + a + b + c + d + e
  {
  }
}
