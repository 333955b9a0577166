/** The two foreign primitives, as values a caller supplies: BLAKE3 and the zstd prefix codec. */
module Primitives {
  import opened Wire

  type Digest = d: bytes | |d| == 32 witness seq(32, _ => 0)

  /** The codec refuses inputs above 2 GiB. */
  const MAX_INPUT_LEN: nat := 0x8000_0000

  datatype Primitives = Primitives(
    blake3: bytes -> Digest,
    /** One source-prefix frame for the target, or nothing when compression fails. */
    compress: (bytes, bytes) -> Option<bytes>,
    /** The frame expanded to exactly the expected length, or nothing. */
    decompress: (bytes, bytes, nat) -> Option<bytes>)

  /** Decoding a frame with the source it was made from gives the target back. */
  ghost predicate CodecLaw(p: Primitives) {
    forall source: bytes, target: bytes ::
      |source| <= MAX_INPUT_LEN && |target| <= MAX_INPUT_LEN && p.compress(source, target).Some?
      ==> p.decompress(source, p.compress(source, target).value, |target|) == Some(target)
  }
}
