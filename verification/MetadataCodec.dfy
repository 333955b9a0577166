/** The canonical metadata wire format: writer and decoder (rust/src/metadata_decode.rs). */
module MetadataCodec {
  import opened Wire
  import opened Holes
  import opened Listing
  import opened Metadata
  import opened MetadataCanonical

  /* ---------- Writer ---------- */

  /** Signed seconds travel as their two's complement. */
  function Unsigned(v: i64): (n: u64) {
    if v < 0 then v + U64_LIMIT else v
  }

  function Signed(n: u64): (v: i64)
    ensures Unsigned(v) == n
  {
    if n < 0x8000_0000_0000_0000 then n else n - U64_LIMIT
  }

  function PutXattr(x: Xattr, tail: bytes): (s: bytes)
    ensures |s| == 9 + |x.name| + |x.value| + |tail|
  {
    PutWord(1, x.class_.Tag(), PutBlob(x.name, PutBlob(x.value, tail)))
  }

  function PutAce(a: Ace, tail: bytes): (s: bytes)
    ensures |s| == 6 + |a.name| + |tail|
  {
    PutWord(1, a.tag.Tag(), PutWord(1, a.permissions, PutBlob(a.name, tail)))
  }

  function PutNativeAcl(acl: Option<NativeAcl>, tail: bytes): (s: bytes)
    ensures |s| >= 1 + |tail|
  {
    if acl.None? then PutWord(1, 0, tail)
    else PutWord(1, acl.value.origin.Tag(), PutBlob(acl.value.body, tail))
  }

  function TimeBytes(t: Time): (s: bytes)
    ensures |s| == 12
  {
    Le(8, Unsigned(t.sec)) + Le(4, t.nsec)
  }

  function PutTime(t: Option<Time>, tail: bytes): (s: bytes)
    ensures |s| >= |tail|
  {
    if t.None? then tail else TimeBytes(t.value) + tail
  }

  function TimeFlags(t: Times): (n: nat)
    ensures n < 8
    ensures (n % 2 == 1) == t.mtime.Some?
    ensures (n / 2 % 2 == 1) == t.atime.Some?
    ensures (n / 4 % 2 == 1) == t.btime.Some?
  {
    (if t.mtime.Some? then 1 else 0) + (if t.atime.Some? then 2 else 0) + (if t.btime.Some? then 4 else 0)
  }

  function PutTimes(t: Times, tail: bytes): (s: bytes)
    ensures |s| >= 1 + |tail|
  {
    PutWord(1, TimeFlags(t), PutTime(t.mtime, PutTime(t.atime, PutTime(t.btime, tail))))
  }

  function PutFinder(flags: u32, info: Option<FinderInfo>, tail: bytes): (s: bytes)
    ensures |s| >= 5 + |tail|
  {
    PutWord(4, flags, if info.None? then PutWord(1, 0, tail) else PutWord(1, 1, info.value + tail))
  }

  function PutHole(h: Hole, tail: bytes): (s: bytes)
    ensures |s| == 16 + |tail|
  {
    PutWord(8, h.offset, PutWord(8, h.length, tail))
  }

  function PutHardlink(link: Option<bytes>, tail: bytes): (s: bytes)
    ensures |s| >= 1 + |tail|
  {
    if link.None? then PutWord(1, 0, tail) else PutWord(1, 1, PutBlob(link.value, tail))
  }

  /** The fixed tail of the record, from the native ACL on. */
  function PutAfterAces(m: Metadata): (s: bytes)
    ensures |s| >= 12
  {
    PutNativeAcl(m.nativeAcl, PutTimes(m.times, PutFinder(m.finderFlags, m.finderInfo, PutAfterFinder(m))))
  }

  function PutAfterFinder(m: Metadata): (s: bytes)
    ensures |s| >= 5
  {
    HoleCodec();
    PutAllSize(m.holes, PutHole, PutHardlink(m.hardlinkTo, []), 16);
    PutCounted(m.holes, PutHole, PutHardlink(m.hardlinkTo, []))
  }

  /** The canonical bytes of a record; the empty record is 20 zero bytes. */
  function Encode(m: Metadata): (s: bytes)
    ensures |s| >= 20
  {
    XattrCodec();
    AceCodec();
    PutAllSize(m.aces, PutAce, PutAfterAces(m), 6);
    PutAllSize(m.xattrs, PutXattr, PutCounted(m.aces, PutAce, PutAfterAces(m)), 9);
    PutCounted(m.xattrs, PutXattr, PutCounted(m.aces, PutAce, PutAfterAces(m)))
  }

  /* ---------- Decoder ---------- */

  function XattrStep(s: bytes): (r: Step<Xattr, MetaError>)
  {
    var Parsed(t, s) :- Word(s, 1).OrElse(TruncatedMetadata);
    var class_ :- ClassFromTag(t).OrElse(BadMetadata);
    var Parsed(name, s) :- Blob(s).OrElse(TruncatedMetadata);
    var Parsed(value, s) :- Blob(s).OrElse(TruncatedMetadata);
    Ok(Parsed(Xattr(class_, name, value), s))
  }

  function AceStep(s: bytes): (r: Step<Ace, MetaError>)
  {
    var Parsed(t, s) :- Word(s, 1).OrElse(TruncatedMetadata);
    var tag :- AceTagFromTag(t).OrElse(BadMetadata);
    var Parsed(permissions, s) :- Word(s, 1).OrElse(TruncatedMetadata);
    :- Need(permissions < 8, BadMetadata);
    var Parsed(name, s) :- Blob(s).OrElse(TruncatedMetadata);
    Ok(Parsed(Ace(tag, permissions, name), s))
  }

  function NativeAclStep(s: bytes): (r: Step<Option<NativeAcl>, MetaError>)
  {
    var Parsed(t, s) :- Word(s, 1).OrElse(TruncatedMetadata);
    if t == 0 then Ok(Parsed(None, s))
    else
      var origin :- OsFromTag(t).OrElse(BadMetadata);
      var Parsed(body, s) :- Blob(s).OrElse(TruncatedMetadata);
      Ok(Parsed(Some(NativeAcl(origin, body)), s))
  }

  function DecodeTime(s: bytes): (r: Result<Time, MetaError>)
  {
    if |s| != 12 then Err(BadMetadata)
    else
      WordSizes();
      var sec, nsec := FromLe(s[..8]), FromLe(s[8..]);
      if nsec >= NSEC_LIMIT then Err(InvalidNsec) else Ok(Time(Signed(sec), nsec))
  }

  function TimeStep(present: bool, s: bytes): (r: Step<Option<Time>, MetaError>)
  {
    if !present then Ok(Parsed(None, s))
    else
      var Parsed(w, s) :- Take(s, 12).OrElse(TruncatedMetadata);
      var t :- DecodeTime(w);
      Ok(Parsed(Some(t), s))
  }

  function TimesStep(s: bytes): (r: Step<Times, MetaError>)
  {
    var Parsed(flags, s) :- Word(s, 1).OrElse(TruncatedMetadata);
    :- Need(flags < 8, BadMetadata);
    var Parsed(mtime, s) :- TimeStep(flags % 2 == 1, s);
    var Parsed(atime, s) :- TimeStep(flags / 2 % 2 == 1, s);
    var Parsed(btime, s) :- TimeStep(flags / 4 % 2 == 1, s);
    Ok(Parsed(Times(mtime, atime, btime), s))
  }

  datatype Finder = Finder(flags: u32, info: Option<FinderInfo>)

  function FinderStep(s: bytes): (r: Step<Finder, MetaError>)
  {
    WordSizes();
    var Parsed(flags, s) :- Word(s, 4).OrElse(TruncatedMetadata);
    var Parsed(t, s) :- Word(s, 1).OrElse(TruncatedMetadata);
    if t == 0 then Ok(Parsed(Finder(flags, None), s))
    else if t == 1 then
      var Parsed(info, s) :- Take(s, 32).OrElse(TruncatedMetadata);
      Ok(Parsed(Finder(flags, Some(info)), s))
    else Err(BadMetadata)
  }

  function HoleStep(s: bytes): (r: Step<Hole, MetaError>)
  {
    WordSizes();
    var Parsed(offset, s) :- Word(s, 8).OrElse(TruncatedMetadata);
    var Parsed(length, s) :- Word(s, 8).OrElse(TruncatedMetadata);
    Ok(Parsed(Hole(offset, length), s))
  }

  function HardlinkStep(s: bytes): (r: Step<Option<bytes>, MetaError>)
  {
    var Parsed(t, s) :- Word(s, 1).OrElse(TruncatedMetadata);
    if t == 0 then Ok(Parsed(None, s))
    else if t == 1 then
      var Parsed(path, s) :- Blob(s).OrElse(TruncatedMetadata);
      Ok(Parsed(Some(path), s))
    else Err(BadMetadata)
  }

  function Decode(s: bytes): (r: Result<Metadata, MetaError>)
  {
    var Parsed(xattrs, s) :- Counted(s, 9, XattrStep, TruncatedMetadata);
    var Parsed(aces, s) :- Counted(s, 6, AceStep, TruncatedMetadata);
    var Parsed(nativeAcl, s) :- NativeAclStep(s);
    var Parsed(times, s) :- TimesStep(s);
    var Parsed(finder, s) :- FinderStep(s);
    var Parsed(holes, s) :- Counted(s, 16, HoleStep, TruncatedMetadata);
    var Parsed(hardlinkTo, s) :- HardlinkStep(s);
    :- Need(s == [], TrailingMetadata);
    var m := Metadata(xattrs, aces, nativeAcl, times, finder.flags, finder.info, holes, hardlinkTo);
    Wrap(m, Fault(m))
  }

  /* ---------- Decoding undoes writing ---------- */

  lemma XattrOfPut(x: Xattr, tail: bytes)
    requires |x.name| < U32_LIMIT && |x.value| < U32_LIMIT
    ensures XattrStep(PutXattr(x, tail)) == Ok(Parsed(x, tail))
  {
    WordSizes();
    WordOfPut(1, x.class_.Tag(), PutBlob(x.name, PutBlob(x.value, tail)));
    BlobOfPut(x.name, PutBlob(x.value, tail));
    BlobOfPut(x.value, tail);
  }

  lemma AceOfPut(a: Ace, tail: bytes)
    requires |a.name| < U32_LIMIT
    ensures AceStep(PutAce(a, tail)) == Ok(Parsed(a, tail))
  {
    WordSizes();
    WordOfPut(1, a.tag.Tag(), PutWord(1, a.permissions, PutBlob(a.name, tail)));
    WordOfPut(1, a.permissions, PutBlob(a.name, tail));
    BlobOfPut(a.name, tail);
  }

  lemma NativeAclOfPut(acl: Option<NativeAcl>, tail: bytes)
    requires NativeAclOk(acl)
    ensures NativeAclStep(PutNativeAcl(acl, tail)) == Ok(Parsed(acl, tail))
  {
    WordSizes();
    if acl.None? {
      WordOfPut(1, 0, tail);
    } else {
      WordOfPut(1, acl.value.origin.Tag(), PutBlob(acl.value.body, tail));
      BlobOfPut(acl.value.body, tail);
    }
  }

  lemma TimeOfBytes(t: Time)
    requires t.nsec < NSEC_LIMIT
    ensures DecodeTime(TimeBytes(t)) == Ok(t)
  {
    WordSizes();
    var s := TimeBytes(t);
    assert s[..8] == Le(8, Unsigned(t.sec)) && s[8..] == Le(4, t.nsec);
    FromLeOfLe(8, Unsigned(t.sec));
    FromLeOfLe(4, t.nsec);
  }

  lemma TimeOfPut(t: Option<Time>, tail: bytes)
    requires TimeOk(t)
    ensures TimeStep(t.Some?, PutTime(t, tail)) == Ok(Parsed(t, tail))
  {
    if t.Some? {
      TakeOfPut(TimeBytes(t.value), tail);
      TimeOfBytes(t.value);
    }
  }

  lemma TimesOfPut(t: Times, tail: bytes)
    requires TimesOk(t)
    ensures TimesStep(PutTimes(t, tail)) == Ok(Parsed(t, tail))
  {
    WordSizes();
    var s1 := PutTime(t.btime, tail);
    var s2 := PutTime(t.atime, s1);
    WordOfPut(1, TimeFlags(t), PutTime(t.mtime, s2));
    TimeOfPut(t.mtime, s2);
    TimeOfPut(t.atime, s1);
    TimeOfPut(t.btime, tail);
  }

  lemma FinderOfPut(flags: u32, info: Option<FinderInfo>, tail: bytes)
    ensures FinderStep(PutFinder(flags, info, tail)) == Ok(Parsed(Finder(flags, info), tail))
  {
    WordSizes();
    if info.None? {
      WordOfPut(4, flags, PutWord(1, 0, tail));
      WordOfPut(1, 0, tail);
    } else {
      WordOfPut(4, flags, PutWord(1, 1, info.value + tail));
      WordOfPut(1, 1, info.value + tail);
      TakeOfPut(info.value, tail);
    }
  }

  lemma HoleOfPut(h: Hole, tail: bytes)
    ensures HoleStep(PutHole(h, tail)) == Ok(Parsed(h, tail))
  {
    WordSizes();
    WordOfPut(8, h.offset, PutWord(8, h.length, tail));
    WordOfPut(8, h.length, tail);
  }

  lemma HardlinkOfPut(link: Option<bytes>, tail: bytes)
    requires link.Some? ==> |link.value| < U32_LIMIT
    ensures HardlinkStep(PutHardlink(link, tail)) == Ok(Parsed(link, tail))
  {
    WordSizes();
    if link.None? {
      WordOfPut(1, 0, tail);
    } else {
      WordOfPut(1, 1, PutBlob(link.value, tail));
      BlobOfPut(link.value, tail);
    }
  }

  /** The record codecs satisfy the laws the list codecs need. */
  lemma XattrCodec()
    ensures Sized(PutXattr, 9)
    ensures forall x: Xattr :: |x.name| < U32_LIMIT && |x.value| < U32_LIMIT ==> Reads(XattrStep, PutXattr, x)
    ensures Writes(XattrStep, PutXattr)
  {
    forall x: Xattr, tail: bytes | |x.name| < U32_LIMIT && |x.value| < U32_LIMIT
      ensures XattrStep(PutXattr(x, tail)) == Ok(Parsed(x, tail))
    {
      XattrOfPut(x, tail);
    }
    forall s: bytes | XattrStep(s).Ok?
      ensures s == PutXattr(XattrStep(s).value.value, XattrStep(s).value.rest)
    {
      PutOfXattr(s);
    }
  }

  lemma AceCodec()
    ensures Sized(PutAce, 6)
    ensures forall a: Ace :: |a.name| < U32_LIMIT ==> Reads(AceStep, PutAce, a)
    ensures Writes(AceStep, PutAce)
  {
    forall a: Ace, tail: bytes | |a.name| < U32_LIMIT
      ensures AceStep(PutAce(a, tail)) == Ok(Parsed(a, tail))
    {
      AceOfPut(a, tail);
    }
    forall s: bytes | AceStep(s).Ok?
      ensures s == PutAce(AceStep(s).value.value, AceStep(s).value.rest)
    {
      PutOfAce(s);
    }
  }

  lemma HoleCodec()
    ensures Sized(PutHole, 16)
    ensures forall h: Hole :: Reads(HoleStep, PutHole, h)
    ensures Writes(HoleStep, PutHole)
  {
    forall h: Hole, tail: bytes
      ensures HoleStep(PutHole(h, tail)) == Ok(Parsed(h, tail))
    {
      HoleOfPut(h, tail);
    }
    forall s: bytes | HoleStep(s).Ok?
      ensures s == PutHole(HoleStep(s).value.value, HoleStep(s).value.rest)
    {
      PutOfHole(s);
    }
  }

  lemma RecordsFit(m: Metadata)
    requires Canonical(m)
    ensures forall i :: 0 <= i < |m.xattrs| ==> Reads(XattrStep, PutXattr, m.xattrs[i])
    ensures forall i :: 0 <= i < |m.aces| ==> Reads(AceStep, PutAce, m.aces[i])
    ensures m.hardlinkTo.Some? ==> |m.hardlinkTo.value| < U32_LIMIT
  {
    XattrCodec();
    AceCodec();
    forall i | 0 <= i < |m.xattrs| ensures Reads(XattrStep, PutXattr, m.xattrs[i]) {
      assert XattrOk(m.xattrs[i]);
    }
    forall i | 0 <= i < |m.aces| ensures Reads(AceStep, PutAce, m.aces[i]) {
      assert AceOk(m.aces[i]);
    }
  }

  /** Every canonical record survives its own encoding; the count checks never get in the way. */
  lemma DecodeOfEncode(m: Metadata)
    requires Canonical(m)
    ensures Decode(Encode(m)) == Ok(m)
  {
    hide XattrStep, AceStep, NativeAclStep, TimesStep, FinderStep, HoleStep, HardlinkStep, PutXattr, PutAce,
      PutNativeAcl, PutTimes, PutFinder, PutHole, PutHardlink, Counted, PutCounted, Reads, Sized, Writes, Fault;
    RecordsFit(m);
    XattrCodec();
    AceCodec();
    HoleCodec();
    CountedOfPut(m.xattrs, PutXattr, XattrStep, PutCounted(m.aces, PutAce, PutAfterAces(m)), 9, TruncatedMetadata);
    CountedOfPut(m.aces, PutAce, AceStep, PutAfterAces(m), 6, TruncatedMetadata);
    var finder := PutFinder(m.finderFlags, m.finderInfo, PutAfterFinder(m));
    NativeAclOfPut(m.nativeAcl, PutTimes(m.times, finder));
    TimesOfPut(m.times, finder);
    FinderOfPut(m.finderFlags, m.finderInfo, PutAfterFinder(m));
    CountedOfPut(m.holes, PutHole, HoleStep, PutHardlink(m.hardlinkTo, []), 16, TruncatedMetadata);
    HardlinkOfPut(m.hardlinkTo, []);
    FaultMeans(m);
  }

  /* ---------- Writing undoes decoding ---------- */

  lemma PutOfXattr(s: bytes)
    ensures XattrStep(s).Ok? ==> var Parsed(x, rest) := XattrStep(s).value; s == PutXattr(x, rest)
  {
    if XattrStep(s).Ok? {
      PutOfWord(s, 1);
      var s1 := Word(s, 1).value.rest;
      PutOfBlob(s1);
      PutOfBlob(Blob(s1).value.rest);
    }
  }

  lemma PutOfAce(s: bytes)
    ensures AceStep(s).Ok? ==> var Parsed(a, rest) := AceStep(s).value; s == PutAce(a, rest)
  {
    if AceStep(s).Ok? {
      PutOfWord(s, 1);
      var s1 := Word(s, 1).value.rest;
      PutOfWord(s1, 1);
      PutOfBlob(Word(s1, 1).value.rest);
    }
  }

  lemma PutOfNativeAcl(s: bytes)
    ensures NativeAclStep(s).Ok? ==>
              var Parsed(acl, rest) := NativeAclStep(s).value; s == PutNativeAcl(acl, rest)
  {
    if NativeAclStep(s).Ok? {
      PutOfWord(s, 1);
      PutOfBlob(Word(s, 1).value.rest);
    }
  }

  lemma BytesOfTime(s: bytes)
    ensures DecodeTime(s).Ok? ==> s == TimeBytes(DecodeTime(s).value)
  {
    if DecodeTime(s).Ok? {
      LeOfFromLe(s[..8]);
      LeOfFromLe(s[8..]);
      assert s == s[..8] + s[8..];
    }
  }

  lemma PutOfTime(present: bool, s: bytes)
    ensures TimeStep(present, s).Ok? ==>
              var Parsed(t, rest) := TimeStep(present, s).value; t.Some? == present && s == PutTime(t, rest)
  {
    if present && TimeStep(present, s).Ok? {
      BytesOfTime(Take(s, 12).value.value);
    }
  }

  lemma FlagsDetermined(n: nat, t: Times)
    requires n < 8
    requires (n % 2 == 1) == t.mtime.Some? && (n / 2 % 2 == 1) == t.atime.Some? && (n / 4 % 2 == 1) == t.btime.Some?
    ensures TimeFlags(t) == n
  {
    assert n == n % 2 + 2 * (n / 2 % 2) + 4 * (n / 4 % 2);
  }

  lemma PutOfTimes(s: bytes)
    ensures TimesStep(s).Ok? ==> var Parsed(t, rest) := TimesStep(s).value; s == PutTimes(t, rest)
  {
    if TimesStep(s).Ok? {
      PutOfWord(s, 1);
      var Parsed(flags, s1) := Word(s, 1).value;
      PutOfTime(flags % 2 == 1, s1);
      var s2 := TimeStep(flags % 2 == 1, s1).value.rest;
      PutOfTime(flags / 2 % 2 == 1, s2);
      var s3 := TimeStep(flags / 2 % 2 == 1, s2).value.rest;
      PutOfTime(flags / 4 % 2 == 1, s3);
      FlagsDetermined(flags, TimesStep(s).value.value);
    }
  }

  lemma PutOfFinder(s: bytes)
    ensures FinderStep(s).Ok? ==>
              var Parsed(f, rest) := FinderStep(s).value; s == PutFinder(f.flags, f.info, rest)
  {
    if FinderStep(s).Ok? {
      PutOfWord(s, 4);
      PutOfWord(Word(s, 4).value.rest, 1);
    }
  }

  lemma PutOfHole(s: bytes)
    ensures HoleStep(s).Ok? ==> var Parsed(h, rest) := HoleStep(s).value; s == PutHole(h, rest)
  {
    if HoleStep(s).Ok? {
      PutOfWord(s, 8);
      PutOfWord(Word(s, 8).value.rest, 8);
    }
  }

  lemma PutOfHardlink(s: bytes)
    ensures HardlinkStep(s).Ok? ==>
              var Parsed(link, rest) := HardlinkStep(s).value; s == PutHardlink(link, rest)
  {
    if HardlinkStep(s).Ok? {
      PutOfWord(s, 1);
      PutOfBlob(Word(s, 1).value.rest);
    }
  }

  /** Every accepted byte string is the encoding of the canonical record it decodes to. */
  lemma EncodeOfDecode(s: bytes)
    ensures Decode(s).Ok? ==> Canonical(Decode(s).value) && Encode(Decode(s).value) == s
  {
    hide XattrStep, AceStep, NativeAclStep, TimesStep, FinderStep, HoleStep, HardlinkStep, PutXattr, PutAce,
      PutNativeAcl, PutTimes, PutFinder, PutHole, PutHardlink, Counted, PutCounted, Reads, Sized, Writes, Fault;
    if Decode(s).Ok? {
      var m := Decode(s).value;
      FaultMeans(m);
      XattrCodec();
      AceCodec();
      HoleCodec();
      PutOfCounted(s, 9, XattrStep, PutXattr, TruncatedMetadata);
      var s1 := Counted(s, 9, XattrStep, TruncatedMetadata).value.rest;
      PutOfCounted(s1, 6, AceStep, PutAce, TruncatedMetadata);
      var s2 := Counted(s1, 6, AceStep, TruncatedMetadata).value.rest;
      PutOfNativeAcl(s2);
      var s3 := NativeAclStep(s2).value.rest;
      PutOfTimes(s3);
      var s4 := TimesStep(s3).value.rest;
      PutOfFinder(s4);
      var s5 := FinderStep(s4).value.rest;
      PutOfCounted(s5, 16, HoleStep, PutHole, TruncatedMetadata);
      var s6 := Counted(s5, 16, HoleStep, TruncatedMetadata).value.rest;
      PutOfHardlink(s6);
      assert s6 == PutHardlink(m.hardlinkTo, []);
      assert s5 == PutAfterFinder(m);
      assert s2 == PutAfterAces(m);
    }
  }

  /** Together: the wire format is a bijection between canonical records and accepted strings. */
  lemma EncodeInjective(a: Metadata, b: Metadata)
    requires Canonical(a) && Canonical(b) && Encode(a) == Encode(b)
    ensures a == b
  {
    DecodeOfEncode(a);
    DecodeOfEncode(b);
  }
}
