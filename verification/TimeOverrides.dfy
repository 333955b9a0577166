/** The one-time and modification-time override attributes (rust/src/metadata.rs). */
module TimeOverrides {
  import opened Wire
  import opened Metadata
  import MetadataCanonical
  import MetadataCodec

  /** A presence byte, then the time. */
  function OverrideBytes(t: Option<Time>): (s: bytes)
    ensures |s| == if t.None? then 1 else 13
  {
    if t.None? then [0] else [1] + MetadataCodec.TimeBytes(t.value)
  }

  function EncodeOverride(t: Option<Time>): (r: Result<bytes, MetaError>)
  {
    if MetadataCanonical.TimeOk(t) then Ok(OverrideBytes(t)) else Err(InvalidNsec)
  }

  function DecodeOverride(s: bytes): (r: Result<Option<Time>, MetaError>)
  {
    if s == [0] then Ok(None)
    else if |s| != 13 || s[0] != 1 then Err(BadMetadata)
    else
      var t :- MetadataCodec.DecodeTime(s[1..]);
      Ok(Some(t))
  }

  /** Valid times and accepted attributes are in bijection. */
  lemma OverrideBijection(t: Option<Time>, s: bytes)
    ensures EncodeOverride(t) == Ok(s) <==> DecodeOverride(s) == Ok(t)
  {
    if EncodeOverride(t) == Ok(s) && t.Some? {
      assert s[1..] == MetadataCodec.TimeBytes(t.value);
      MetadataCodec.TimeOfBytes(t.value);
    }
    if DecodeOverride(s) == Ok(t) && t.Some? {
      MetadataCodec.BytesOfTime(s[1..]);
      assert s == [s[0]] + s[1..];
    }
  }

  /** What a file's modification time should be, as long as `observed` is what it still shows. */
  datatype ModificationOverride = ModificationOverride(original: Option<Time>, observed: Time)

  function EncodeModification(m: ModificationOverride): (r: Result<bytes, MetaError>)
  {
    var original :- EncodeOverride(m.original);
    if m.observed.nsec >= NSEC_LIMIT then Err(InvalidNsec)
    else Ok(original + MetadataCodec.TimeBytes(m.observed))
  }

  function DecodeModification(s: bytes): (r: Result<ModificationOverride, MetaError>)
  {
    if |s| != 13 && |s| != 25 then Err(BadMetadata)
    else
      var original :- DecodeOverride(s[..|s| - 12]);
      var observed :- MetadataCodec.DecodeTime(s[|s| - 12..]);
      Ok(ModificationOverride(original, observed))
  }

  lemma ModificationBijection(m: ModificationOverride, s: bytes)
    ensures EncodeModification(m) == Ok(s) <==> DecodeModification(s) == Ok(m)
  {
    if EncodeModification(m) == Ok(s) {
      var original := EncodeOverride(m.original).value;
      assert s[..|s| - 12] == original && s[|s| - 12..] == MetadataCodec.TimeBytes(m.observed);
      OverrideBijection(m.original, original);
      MetadataCodec.TimeOfBytes(m.observed);
    }
    if DecodeModification(s) == Ok(m) {
      OverrideBijection(m.original, s[..|s| - 12]);
      MetadataCodec.BytesOfTime(s[|s| - 12..]);
      assert s == s[..|s| - 12] + s[|s| - 12..];
    }
  }
}
