/** Single-file patches: the fixed ZDIF v4 header and one prefix frame (rust/src/lib.rs, rust/src/file.rs). */
module FilePatch {
  import opened Wire
  import opened Metadata
  import opened Primitives
  import opened WriteBuffer

  const MAGIC: bytes := Ascii("ZDIF") + [4]
  const HEADER_LEN: nat := 85

  datatype FileError =
    | InvalidMagic | Truncated | SizeMismatch | SourceHashMismatch | TargetHashMismatch
    | WindowTooLarge | CompressionFailed | DecompressionFailed | ResourceLimitExceeded

  datatype Header = Header(sourceHash: Digest, targetHash: Digest, sourceLen: u64, targetLen: u64)

  function EncodeHeader(h: Header, frame: bytes): (s: bytes)
    ensures |s| == HEADER_LEN + |frame|
  {
    MAGIC + (h.sourceHash + (h.targetHash + PutWord(8, h.sourceLen, PutWord(8, h.targetLen, frame))))
  }

  /** Short or foreign magic is reported before a short header. */
  function DecodeHeader(s: bytes): (r: Result<Parsed<Header>, FileError>)
    ensures r.Ok? ==> |s| == HEADER_LEN + |r.value.rest|
  {
    if |s| < 5 || s[..5] != MAGIC then Err(InvalidMagic)
    else if |s| < HEADER_LEN then Err(Truncated)
    else
      WordSizes();
      Ok(Parsed(Header(s[5..37], s[37..69], FromLe(s[69..77]), FromLe(s[77..85])), s[85..]))
  }

  lemma DecodeOfEncodeHeader(h: Header, frame: bytes)
    ensures DecodeHeader(EncodeHeader(h, frame)) == Ok(Parsed(h, frame))
  {
    var s := EncodeHeader(h, frame);
    WordSizes();
    FromLeOfLe(8, h.sourceLen);
    FromLeOfLe(8, h.targetLen);
    assert s[..5] == MAGIC;
    assert s[5..37] == h.sourceHash;
    assert s[37..69] == h.targetHash;
    assert s[69..77] == Le(8, h.sourceLen);
    assert s[77..85] == Le(8, h.targetLen);
    assert s[85..] == frame;
  }

  /** Every header that parses is the encoding of what it parsed to. */
  lemma EncodeOfDecodeHeader(s: bytes)
    ensures DecodeHeader(s).Ok? ==> EncodeHeader(DecodeHeader(s).value.value, DecodeHeader(s).value.rest) == s
  {
    if DecodeHeader(s).Ok? {
      LeOfFromLe(s[69..77]);
      LeOfFromLe(s[77..85]);
      assert s[77..] == s[77..85] + s[85..];
      assert s[69..] == s[69..77] + s[77..];
      assert s[37..] == s[37..69] + s[69..];
      assert s[5..] == s[5..37] + s[37..];
      assert s == s[..5] + s[5..];
    }
  }

  predicate WindowFits(source: nat, target: nat) {
    source <= MAX_INPUT_LEN && target <= MAX_INPUT_LEN
  }

  function Encode(p: Primitives, source: bytes, target: bytes): (r: Result<bytes, FileError>)
  {
    if !WindowFits(|source|, |target|) then Err(WindowTooLarge)
    else
      var header := Header((p.blake3)(source), (p.blake3)(target), |source|, |target|);
      var frame :- (p.compress)(source, target).OrElse(CompressionFailed);
      Ok(EncodeHeader(header, frame))
  }

  /** A zero limit means no limit. */
  function Apply(p: Primitives, source: bytes, patch: bytes, maximum: nat): (r: Result<bytes, FileError>)
  {
    var Parsed(header, frame) :- DecodeHeader(patch);
    if header.sourceLen != |source| then Err(SizeMismatch)
    else if header.sourceHash != (p.blake3)(source) then Err(SourceHashMismatch)
    else if maximum != 0 && header.targetLen > maximum then Err(ResourceLimitExceeded)
    else if !WindowFits(|source|, header.targetLen) then Err(WindowTooLarge)
    else
      var output :- (p.decompress)(source, frame, header.targetLen).OrElse(DecompressionFailed);
      if header.targetHash != (p.blake3)(output) then Err(TargetHashMismatch) else Ok(output)
  }

  /** Applying an encoded patch gives the target back, or reports the caller's limit. */
  lemma ApplyOfEncode(p: Primitives, source: bytes, target: bytes, maximum: nat)
    requires CodecLaw(p) && Encode(p, source, target).Ok?
    ensures Apply(p, source, Encode(p, source, target).value, maximum)
         == if maximum == 0 || |target| <= maximum then Ok(target) else Err(ResourceLimitExceeded)
  {
    var header := Header((p.blake3)(source), (p.blake3)(target), |source|, |target|);
    DecodeOfEncodeHeader(header, (p.compress)(source, target).value);
  }

  /** Whatever is accepted was made for this source, has the promised bytes and respects the caller's limit. */
  lemma ApplySound(p: Primitives, source: bytes, patch: bytes, maximum: nat)
    requires Apply(p, source, patch, maximum).Ok?
    ensures DecodeHeader(patch).Ok?
    ensures var Parsed(h, frame) := DecodeHeader(patch).value;
            var output := Apply(p, source, patch, maximum).value;
            && h.sourceLen == |source| && h.sourceHash == (p.blake3)(source) && h.targetHash == (p.blake3)(output)
            && (maximum == 0 || h.targetLen <= maximum) && |source| <= MAX_INPUT_LEN && h.targetLen <= MAX_INPUT_LEN
            && (p.decompress)(source, frame, h.targetLen) == Some(output)
  {
  }

  /* ---------- encode as it runs ---------- */

  method EncodeHeaderInPlace(h: Header, slot: array<byte>)
    requires slot.Length == HEADER_LEN
    modifies slot
    ensures slot[..] == EncodeHeader(h, [])
  {
    CopyNext(slot, 0, MAGIC);
    CopyNext(slot, 5, h.sourceHash);
    CopyNext(slot, 37, h.targetHash);
    CopyNext(slot, 69, Le(8, h.sourceLen));
    CopyNext(slot, 77, Le(8, h.targetLen));
    assert slot[..] == slot[..85];
    FieldsInOrder(h);
  }

  lemma FieldsInOrder(h: Header)
    ensures EncodeHeader(h, []) == [] + MAGIC + h.sourceHash + h.targetHash + Le(8, h.sourceLen) + Le(8, h.targetLen)
  {
  }

  lemma HeaderThenFrame(h: Header, frame: bytes)
    ensures EncodeHeader(h, []) + frame == EncodeHeader(h, frame)
  {
  }

  /** The header is put first and the frame appended behind it. */
  method EncodeFile(p: Primitives, source: bytes, target: bytes) returns (r: Result<bytes, FileError>)
    ensures r == Encode(p, source, target)
  {
    if !WindowFits(|source|, |target|) {
      return Err(WindowTooLarge);
    }
    var slot := new byte[HEADER_LEN];
    var header := Header((p.blake3)(source), (p.blake3)(target), |source|, |target|);
    EncodeHeaderInPlace(header, slot);
    var output := slot[..];
    var frame := (p.compress)(source, target);
    if frame.None? {
      return Err(CompressionFailed);
    }
    HeaderThenFrame(header, frame.value);
    output := output + frame.value;
    r := Ok(output);
  }
}
