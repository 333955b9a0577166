/** The per-parent attribute that carries unsupported symlink metadata (rust/src/symlink_transport.rs). */
module SymlinkTransport {
  import opened Wire
  import opened ByteOrder
  import opened Listing
  import opened Metadata
  import opened TimeOverrides
  import opened ReadCursor
  import MetadataCanonical
  import MetadataCodec
  import MetadataStream
  import Paths

  const MAX_BYTES: nat := 65_536
  const MAGIC: bytes := Ascii("DIFZLINK") + [1]
  const UNIT: nat := 31
  const MAX_RECORDS: nat := (MAX_BYTES - 9 - 4) / 31

  datatype TransportError = InvalidTransport | TransportTooLarge | MetadataFault(meta: MetaError)

  /** What one symlink could not keep natively; `absentTimes` marks times that must read as missing. */
  datatype Record = Record(
    name: bytes, meta: Metadata, absentTimes: byte, observedMtime: Option<Time>,
    aclOverride: bool, finderOverride: bool)

  /* ---------- validate ---------- */

  predicate Marks(absent: byte, weight: nat)
    requires weight > 0
  {
    absent / weight % 2 == 1
  }

  predicate RecordOk(r: Record) {
    var t := r.meta.times;
    && (t.mtime.Some? || Marks(r.absentTimes, 1) <==> r.observedMtime.Some?)
    && Paths.ValidPath(r.name)
    && r.absentTimes < 8
    && !(Marks(r.absentTimes, 1) && t.mtime.Some?)
    && !(Marks(r.absentTimes, 2) && t.atime.Some?)
    && !(Marks(r.absentTimes, 4) && t.btime.Some?)
    && Paths.SLASH !in r.name
    && !(r.meta.IsEmpty() && r.absentTimes == 0 && !r.aclOverride && !r.finderOverride)
    && r.meta.holes == []
    && r.meta.hardlinkTo.None?
  }

  function Bit(b: bool, weight: nat): nat { if b then weight else 0 }

  /** The three marks say which times must read as missing, and agree with the times that are kept. */
  predicate MarkedTimes(r: Record, m: bool, a: bool, b: bool) {
    var t := r.meta.times;
    && r.absentTimes == Bit(m, 1) + Bit(a, 2) + Bit(b, 4)
    && !(m && t.mtime.Some?) && !(a && t.atime.Some?) && !(b && t.btime.Some?)
    && (r.observedMtime.Some? <==> m || t.mtime.Some?)
    && (m || a || b || r.aclOverride || r.finderOverride || r.meta != EMPTY)
  }

  /**
   What makes a record valid: a plain name, three marks that exclude the times they mark, an
   observed time exactly when the modification time is kept, something to say, and no field that a
   symlink cannot have.
   */
  lemma RecordMeans(r: Record)
    ensures RecordOk(r) <==>
            && Paths.ValidPath(r.name) && 0x2f !in r.name
            && r.meta.holes == [] && r.meta.hardlinkTo == None
            && exists m: bool, a: bool, b: bool :: MarkedTimes(r, m, a, b)
  {
    hide Paths.ValidPath, Marks, Bit;
    var m, a, b := Marks(r.absentTimes, 1), Marks(r.absentTimes, 2), Marks(r.absentTimes, 4);
    NoBits();
    MarksAreBits(r.absentTimes, m, a, b);
    MarksAreBits(r.absentTimes, false, false, false);
    if RecordOk(r) {
      assert MarkedTimes(r, m, a, b);
    }
    if x: bool, y: bool, z: bool :| MarkedTimes(r, x, y, z) {
      MarksAreBits(r.absentTimes, x, y, z);
    }
  }

  lemma NoBits()
    ensures Bit(false, 1) + Bit(false, 2) + Bit(false, 4) == 0
  {
  }

  lemma MarksAreBits(n: byte, m: bool, a: bool, b: bool)
    ensures n == Bit(m, 1) + Bit(a, 2) + Bit(b, 4) <==>
            n < 8 && m == Marks(n, 1) && a == Marks(n, 2) && b == Marks(n, 4)
  {
  }

  function Names(records: seq<Record>): (names: seq<bytes>)
    ensures |names| == |records|
    ensures forall i :: 0 <= i < |records| ==> names[i] == records[i].name
  {
    seq(|records|, i requires 0 <= i < |records| => records[i].name)
  }

  function RecordFault(records: seq<Record>, i: nat): (fault: Option<TransportError>)
    requires i < |records|
  {
    if !RecordOk(records[i]) then Some(InvalidTransport)
    else if i > 0 && !Lt(records[i - 1].name, records[i].name) then Some(InvalidTransport)
    else if !MetadataCanonical.TimeOk(records[i].observedMtime) then Some(MetadataFault(InvalidNsec))
    else None
  }

  function RecordsFault(records: seq<Record>, n: nat): (fault: Option<TransportError>)
    requires n <= |records|
  {
    if n == 0 then None
    else if RecordsFault(records, n - 1).Some? then RecordsFault(records, n - 1)
    else RecordFault(records, n - 1)
  }

  /** The first error `Transport::new` reports. */
  function Fault(records: seq<Record>): (fault: Option<TransportError>)
  {
    if |records| > MAX_RECORDS then Some(TransportTooLarge) else RecordsFault(records, |records|)
  }

  predicate Fine(r: Record) { RecordOk(r) && MetadataCanonical.TimeOk(r.observedMtime) }

  /** Well-formed records in strictly increasing name order. */
  predicate Sorted(records: seq<Record>) {
    (forall i :: 0 <= i < |records| ==> Fine(records[i])) && Increasing(Names(records))
  }

  lemma {:induction false} RecordsFaultMeans(records: seq<Record>, n: nat)
    requires n <= |records|
    ensures RecordsFault(records, n).None? <==> Sorted(records[..n])
  {
    hide Fine;
    if n > 0 {
      RecordsFaultMeans(records, n - 1);
      SortedSnoc(records, n - 1);
      assert RecordFault(records, n - 1).None? <==>
             Fine(records[n - 1]) && (n > 1 ==> Lt(records[n - 2].name, records[n - 1].name)) by {
        FineMeans(records, n - 1);
      }
    }
  }

  lemma FineMeans(records: seq<Record>, i: nat)
    requires i < |records|
    ensures RecordFault(records, i).None? <==> Fine(records[i]) && (i > 0 ==> Lt(records[i - 1].name, records[i].name))
  {
    hide RecordOk;
  }

  lemma SortedSnoc(records: seq<Record>, n: nat)
    requires n < |records|
    ensures Sorted(records[..n + 1]) <==>
            Sorted(records[..n]) && Fine(records[n]) && (n > 0 ==> Lt(records[n - 1].name, records[n].name))
  {
    hide Fine, Lt;
    var before, all := records[..n], records[..n + 1];
    assert all == before + [records[n]];
    assert Names(all) == Names(before) + [records[n].name];
    if Sorted(before) && (n > 0 ==> Lt(records[n - 1].name, records[n].name)) {
      IncreasingSnoc(Names(before), records[n].name);
    }
    if Sorted(all) {
      forall i, j | 0 <= i < j < n ensures Lt(Names(before)[i], Names(before)[j]) {
        assert Lt(Names(all)[i], Names(all)[j]);
      }
      forall i | 0 <= i < n ensures Fine(before[i]) {
        assert Fine(all[i]);
      }
      assert Fine(all[n]);
      assert n > 0 ==> Lt(Names(all)[n - 1], Names(all)[n]);
    }
  }

  lemma {:induction false} RecordsFaultPersists(records: seq<Record>, n: nat)
    requires n <= |records|
    ensures RecordsFault(records, n).Some? ==> RecordsFault(records, |records|) == RecordsFault(records, n)
    decreases |records| - n
  {
    hide RecordFault;
    if n < |records| {
      RecordsFaultPersists(records, n + 1);
    }
  }

  /** `Transport::new`. */
  method New(records: seq<Record>) returns (fault: Option<TransportError>)
    ensures fault == Fault(records)
  {
    hide RecordOk;
    if |records| > MAX_RECORDS { return Some(TransportTooLarge); }
    for i := 0 to |records|
      invariant RecordsFault(records, i).None?
    {
      RecordsFaultPersists(records, i + 1);
      if !RecordOk(records[i]) { return Some(InvalidTransport); }
      if i > 0 && !Lt(records[i - 1].name, records[i].name) { return Some(InvalidTransport); }
      var observed := EncodeOverride(records[i].observedMtime);
      if observed.Err? { return Some(MetadataFault(observed.error)); }
    }
    fault := None;
  }

  function Lookup(records: seq<Record>, name: bytes): (r: Option<Record>)
    ensures r.Some? ==> r.value in records && r.value.name == name
    ensures r.None? ==> forall x :: x in records ==> x.name != name
  {
    match IndexOf(Names(records), name)
    case None => (assert forall i :: 0 <= i < |records| ==> Names(records)[i] != name; None)
    case Some(i) => Some(records[i])
  }

  /** `find` returns the record with that name, if there is one. */
  method Find(records: seq<Record>, name: bytes) returns (r: Option<Record>)
    requires Sorted(records)
    ensures r.Some? ==> r.value in records && r.value.name == name
    ensures r.None? ==> name !in Names(records)
    ensures r == Lookup(records, name)
  {
    var found := BinarySearch(Names(records), name);
    r := if found.Some? then Some(records[found.value]) else None;
  }

  /* ---------- Wire format ---------- */

  function Flags(r: Record): (f: nat)
  {
    r.absentTimes + (if r.aclOverride then 8 else 0) + (if r.finderOverride then 16 else 0)
  }

  function PutRecord(r: Record, tail: bytes): (s: bytes)
    ensures |s| == 9 + |OverrideBytes(r.observedMtime)| + |r.name| + |MetadataCodec.Encode(r.meta)| + |tail|
  {
    var blob := MetadataCodec.Encode(r.meta);
    PutWord(4, |r.name|, PutWord(4, |blob|, PutWord(1, Flags(r),
    OverrideBytes(r.observedMtime) + (r.name + (blob + tail)))))
  }

  function Attribute(records: seq<Record>): (s: bytes)
    ensures |s| == 13 + |PutAll(records, PutRecord, [])|
  {
    MAGIC + PutCounted(records, PutRecord, [])
  }

  function ObservedStep(s: bytes): (r: Step<Option<Time>, TransportError>)
    ensures r.Err? ==> r.error == InvalidTransport
  {
    var Parsed(t, s) :- Word(s, 1).OrElse(InvalidTransport);
    if t == 0 then Ok(Parsed(None, s))
    else if t == 1 then
      var Parsed(w, s) :- Take(s, 12).OrElse(InvalidTransport);
      match MetadataCodec.DecodeTime(w)
      case Err(_) => Err(InvalidTransport)
      case Ok(time) => Ok(Parsed(Some(time), s))
    else Err(InvalidTransport)
  }

  function RecordStep(s: bytes): (r: Step<Record, TransportError>)
    ensures r.Err? ==> r.error == InvalidTransport
  {
    var Parsed(nameLength, s) :- Word(s, 4).OrElse(InvalidTransport);
    var Parsed(metaLength, s) :- Word(s, 4).OrElse(InvalidTransport);
    var Parsed(flags, s) :- Word(s, 1).OrElse(InvalidTransport);
    :- Need(flags < 32, InvalidTransport);
    var Parsed(observed, s) :- ObservedStep(s);
    var Parsed(name, s) :- Take(s, nameLength).OrElse(InvalidTransport);
    var Parsed(blob, s) :- Take(s, metaLength).OrElse(InvalidTransport);
    match MetadataCodec.Decode(blob)
    case Err(_) => Err(InvalidTransport)
    case Ok(meta) =>
      var record := Record(name, meta, flags % 8, observed, flags / 8 % 2 == 1, flags / 16 % 2 == 1);
      if RecordOk(record) then Ok(Parsed(record, s)) else Err(InvalidTransport)
  }

  function Decode(b: bytes): (r: Result<seq<Record>, TransportError>)
  {
    if |b| > MAX_BYTES then Err(TransportTooLarge)
    else if |b| < 9 || b[..9] != MAGIC then Err(InvalidTransport)
    else
      var Parsed(records, s) :- Counted(b[9..], UNIT, RecordStep, InvalidTransport);
      if s == [] && Increasing(Names(records)) then Ok(records) else Err(InvalidTransport)
  }

  /* ---------- Size ---------- */

  lemma RecordSize(r: Record)
    requires Fine(r)
    ensures AtLeast(PutRecord, r, UNIT)
  {
  }

  /** Whatever encodes within the byte limit is within the record cap. */
  lemma CapNeverRejects(records: seq<Record>)
    requires Sorted(records) && |Attribute(records)| <= MAX_BYTES
    ensures |records| <= MAX_RECORDS && Fault(records).None?
  {
    hide Fine;
    forall i | 0 <= i < |records| ensures AtLeast(PutRecord, records[i], UNIT) {
      RecordSize(records[i]);
    }
    ListedSize(records, PutRecord, [], UNIT);
    RecordsFaultMeans(records, |records|);
    assert records[..|records|] == records;
  }

  lemma {:induction false} BlobsSmall(records: seq<Record>, i: nat)
    requires i < |records|
    ensures |MetadataCodec.Encode(records[i].meta)| <= |PutAll(records, PutRecord, [])|
  {
    if i > 0 {
      BlobsSmall(records[1..], i - 1);
    }
  }

  /* ---------- Decoding undoes encoding ---------- */

  lemma ObservedOfPut(t: Option<Time>, tail: bytes)
    requires MetadataCanonical.TimeOk(t)
    ensures ObservedStep(OverrideBytes(t) + tail) == Ok(Parsed(t, tail))
  {
    if t.None? {
      FirstByte(0, tail);
    } else {
      var w := MetadataCodec.TimeBytes(t.value);
      assert [1] + w + tail == [1] + (w + tail);
      FirstByte(1, w + tail);
      TakeOfPut(w, tail);
      MetadataCodec.TimeOfBytes(t.value);
    }
  }

  lemma FirstByte(b: byte, tail: bytes)
    ensures Word([b] + tail, 1) == Some(Parsed(b, tail))
    ensures PutWord(1, b, tail) == [b] + tail
  {
    WordSizes();
    assert Le(1, b) == [b];
    WordOfPut(1, b, tail);
  }

  lemma RecordOfPut(r: Record, tail: bytes)
    requires Fine(r) && MetadataCanonical.Canonical(r.meta) && |MetadataCodec.Encode(r.meta)| < U32_LIMIT
    ensures RecordStep(PutRecord(r, tail)) == Ok(Parsed(r, tail))
  {
    hide MetadataCodec.Encode, MetadataCodec.Decode, OverrideBytes, ObservedStep, MetadataCanonical.Canonical;
    var blob := MetadataCodec.Encode(r.meta);
    var s3 := OverrideBytes(r.observedMtime) + (r.name + (blob + tail));
    var s2 := PutWord(1, Flags(r), s3);
    WordSizes();
    WordOfPut(4, |r.name|, PutWord(4, |blob|, s2));
    WordOfPut(4, |blob|, s2);
    WordOfPut(1, Flags(r), s3);
    ObservedOfPut(r.observedMtime, r.name + (blob + tail));
    TakeOfPut(r.name, blob + tail);
    TakeOfPut(blob, tail);
    MetadataCodec.DecodeOfEncode(r.meta);
    FlagBits(r);
  }

  lemma FlagBits(r: Record)
    requires r.absentTimes < 8
    ensures Flags(r) < 32 && Flags(r) % 8 == r.absentTimes
    ensures (Flags(r) / 8 % 2 == 1) == r.aclOverride && (Flags(r) / 16 % 2 == 1) == r.finderOverride
  {
  }

  /** Every valid sorted list that fits survives its own encoding. */
  lemma DecodeOfEncode(records: seq<Record>)
    requires Sorted(records) && |Attribute(records)| <= MAX_BYTES
    requires forall i :: 0 <= i < |records| ==> MetadataCanonical.Canonical(records[i].meta)
    ensures Decode(Attribute(records)) == Ok(records)
  {
    hide Fine, RecordStep, PutRecord, Counted, PutCounted, MetadataCanonical.Canonical;
    CapNeverRejects(records);
    forall i | 0 <= i < |records|
      ensures Reads(RecordStep, PutRecord, records[i]) && AtLeast(PutRecord, records[i], UNIT)
    {
      BlobsSmall(records, i);
      RecordSize(records[i]);
      forall tail: bytes ensures RecordStep(PutRecord(records[i], tail)) == Ok(Parsed(records[i], tail)) {
        RecordOfPut(records[i], tail);
      }
    }
    CountedOfListed(records, PutRecord, RecordStep, [], UNIT, InvalidTransport);
    var b := Attribute(records);
    assert b[..9] == MAGIC && b[9..] == PutCounted(records, PutRecord, []);
  }

  /* ---------- Encoding undoes decoding ---------- */

  lemma PutOfObserved(s: bytes)
    ensures ObservedStep(s).Ok? ==> var Parsed(t, rest) := ObservedStep(s).value;
                                    s == OverrideBytes(t) + rest && MetadataCanonical.TimeOk(t)
  {
    if ObservedStep(s).Ok? {
      PutOfWord(s, 1);
      var Parsed(t, s1) := Word(s, 1).value;
      FirstByte(t, s1);
      if t == 1 {
        var w := Take(s1, 12).value.value;
        MetadataCodec.BytesOfTime(w);
        assert [1] + (w + s1[12..]) == [1] + w + s1[12..];
      }
    }
  }

  lemma FlagsOfBits(f: nat)
    requires f < 32
    ensures f == f % 8 + (if f / 8 % 2 == 1 then 8 else 0) + (if f / 16 % 2 == 1 then 16 else 0)
  {
  }

  predicate WellRead(r: Record) { Fine(r) && MetadataCanonical.Canonical(r.meta) }

  lemma PutOfRecord(s: bytes)
    ensures RecordStep(s).Ok? ==> var Parsed(r, rest) := RecordStep(s).value; s == PutRecord(r, rest) && WellRead(r)
  {
    hide MetadataCodec.Encode, MetadataCodec.Decode, OverrideBytes, ObservedStep, MetadataCanonical.Canonical, RecordOk;
    if RecordStep(s).Ok? {
      PutOfWord(s, 4);
      var s1 := Word(s, 4).value.rest;
      PutOfWord(s1, 4);
      var s2 := Word(s1, 4).value.rest;
      PutOfWord(s2, 1);
      var Parsed(flags, s3) := Word(s2, 1).value;
      FlagsOfBits(flags);
      PutOfObserved(s3);
      var s4 := ObservedStep(s3).value.rest;
      var Parsed(name, s5) := Take(s4, Word(s, 4).value.value).value;
      var Parsed(blob, s6) := Take(s5, Word(s1, 4).value.value).value;
      MetadataCodec.EncodeOfDecode(blob);
    }
  }

  /** Every accepted attribute is the encoding of the valid sorted list it decodes to. */
  lemma EncodeOfDecode(b: bytes)
    requires Decode(b).Ok?
    ensures Attribute(Decode(b).value) == b && |b| <= MAX_BYTES
    ensures Sorted(Decode(b).value) && Fault(Decode(b).value).None?
    ensures forall r :: r in Decode(b).value ==> WellRead(r)
  {
    hide RecordStep, PutRecord, WellRead, Fine;
    var records := Decode(b).value;
    assert Writes(RecordStep, PutRecord) by {
      forall s: bytes | RecordStep(s).Ok? ensures s == PutRecord(RecordStep(s).value.value, RecordStep(s).value.rest) {
        PutOfRecord(s);
      }
    }
    PutOfCounted(b[9..], UNIT, RecordStep, PutRecord, InvalidTransport);
    assert b == b[..9] + b[9..];
    var n := Word(b[9..], 4).value.value;
    forall t: bytes | RecordStep(t).Ok? ensures WellRead(RecordStep(t).value.value) {
      PutOfRecord(t);
    }
    ParseAllSatisfies(b[9..][4..], n, RecordStep, WellRead);
    WellReadSorted(records);
    CapNeverRejects(records);
  }

  lemma WellReadSorted(records: seq<Record>)
    requires Increasing(Names(records)) && forall r :: r in records ==> WellRead(r)
    ensures Sorted(records)
  {
    hide Fine, MetadataCanonical.Canonical;
    forall i | 0 <= i < |records| ensures Fine(records[i]) {
      assert WellRead(records[i]);
    }
  }

  /* ---------- encode and decode as they run ---------- */

  /** The first error of the measuring pass, which starts with `total` bytes already counted. */
  function SizeFault(records: seq<Record>, total: nat): (fault: Option<TransportError>)
    decreases |records|
  {
    if records == [] then None
    else
      var blob := |MetadataCodec.Encode(records[0].meta)|;
      var next := total + 9 + |OverrideBytes(records[0].observedMtime)| + |records[0].name| + blob;
      if blob >= U64_LIMIT then Some(MetadataFault(BadMetadata))
      else if next > MAX_BYTES then Some(TransportTooLarge)
      else SizeFault(records[1..], next)
  }

  /** It finds an error exactly when the attribute would be too large. */
  lemma {:induction false} SizeFaultMeans(records: seq<Record>, total: nat)
    requires total <= MAX_BYTES
    ensures SizeFault(records, total).None? <==> total + |PutAll(records, PutRecord, [])| <= MAX_BYTES
    decreases |records|
  {
    hide MetadataCodec.Encode, OverrideBytes, PutRecord;
    if records != [] {
      var next := total + 9 + |OverrideBytes(records[0].observedMtime)| + |records[0].name|
                  + |MetadataCodec.Encode(records[0].meta)|;
      assert |PutAll(records, PutRecord, [])| == next - total + |PutAll(records[1..], PutRecord, [])|;
      if next <= MAX_BYTES {
        SizeFaultMeans(records[1..], next);
      }
    }
  }

  method Measure(records: seq<Record>) returns (fault: Option<TransportError>)
    ensures fault == SizeFault(records, 13)
  {
    hide MetadataCodec.Encode, OverrideBytes;
    var total := 13;
    for i := 0 to |records|
      invariant 0 <= total <= MAX_BYTES
      invariant SizeFault(records, 13) == SizeFault(records[i..], total)
    {
      assert records[i..][1..] == records[i + 1..];
      var blob := MetadataStream.EncodedLen(records[i].meta);
      if blob.Err? { return Some(MetadataFault(blob.error)); }
      total := total + 9 + |OverrideBytes(records[i].observedMtime)| + |records[i].name| + blob.value;
      if total > MAX_BYTES { return Some(TransportTooLarge); }
    }
    fault := None;
  }

  lemma RecordChunks(b: bytes, r: Record, blob: bytes, tail: bytes)
    requires blob == MetadataCodec.Encode(r.meta)
    ensures b + Le(4, |r.name|) + Le(4, |blob|) + Le(1, Flags(r))
              + OverrideBytes(r.observedMtime) + r.name + blob + tail
         == b + PutRecord(r, tail)
  {
    hide MetadataCodec.Encode, OverrideBytes, Le;
    var observed := OverrideBytes(r.observedMtime);
    assert observed + (r.name + (blob + tail)) == observed + r.name + blob + tail;
  }

  /** `encode`: bounded first, then written; it fails exactly when the attribute would be too large. */
  method Encode(records: seq<Record>) returns (r: Result<bytes, TransportError>)
    requires Fault(records).None?
    ensures r.Ok? <==> |Attribute(records)| <= MAX_BYTES
    ensures match SizeFault(records, 13)
            case None => r == Ok(Attribute(records))
            case Some(e) => r == Err(e)
  {
    hide MetadataCodec.Encode, PutRecord, MetadataStream.EncodeChecked, SizeFault;
    SizeFaultMeans(records, 13);
    var fault := Measure(records);
    if fault.Some? { return Err(fault.value); }
    var b := MAGIC + Le(4, |records|);
    assert records[0..] == records;
    assert b + PutAll(records, PutRecord, []) == Attribute(records);
    for i := 0 to |records|
      invariant b + PutAll(records[i..], PutRecord, []) == Attribute(records)
    {
      assert records[i..][1..] == records[i + 1..];
      var blob := MetadataStream.Encode(records[i].meta);
      BlobsSmall(records, i);
      assert blob == Ok(MetadataCodec.Encode(records[i].meta)) by { Checked(records[i].meta); }
      RecordChunks(b, records[i], blob.value, PutAll(records[i + 1..], PutRecord, []));
      b := b + Le(4, |records[i].name|) + Le(4, |blob.value|) + Le(1, Flags(records[i]))
        + OverrideBytes(records[i].observedMtime) + records[i].name + blob.value;
    }
    assert b + [] == b;
    r := Ok(b);
  }

  lemma Checked(m: Metadata)
    requires |MetadataCodec.Encode(m)| < U64_LIMIT
    ensures MetadataStream.EncodeChecked(m) == Ok(MetadataCodec.Encode(m))
  {
  }

  ghost predicate Did<T>(c: Reader, r: Option<T>, goal: Step<T, TransportError>)
    reads c
  {
    && c.Valid()
    && match goal
       case Err(_) => r == None
       case Ok(Parsed(v, rest)) => r == Some(v) && c.Rest() == rest
  }

  method ReadObserved(c: Reader) returns (r: Option<Option<Time>>)
    requires c.Valid()
    modifies c
    ensures Did(c, r, ObservedStep(old(c.Rest())))
  {
    hide MetadataCodec.DecodeTime;
    var t := c.Word(1);
    if t.None? { return None; }
    if t.value == 0 { return Some(None); }
    if t.value != 1 { return None; }
    var w := c.Take(12);
    if w.None? { return None; }
    var time := MetadataCodec.DecodeTime(w.value);
    r := if time.Err? then None else Some(Some(time.value));
  }

  method ReadRecord(c: Reader) returns (r: Option<Record>)
    requires c.Valid()
    modifies c
    ensures Did(c, r, RecordStep(old(c.Rest())))
  {
    hide MetadataCodec.Decode, ObservedStep, RecordOk;
    var nameLength := c.Word(4);
    if nameLength.None? { return None; }
    var metaLength := c.Word(4);
    if metaLength.None? { return None; }
    var flags := c.Word(1);
    if flags.None? || flags.value >= 32 { return None; }
    var observed := ReadObserved(c);
    if observed.None? { return None; }
    var name := c.Take(nameLength.value);
    if name.None? { return None; }
    var blob := c.Take(metaLength.value);
    if blob.None? { return None; }
    var meta := MetadataStream.Decode(blob.value);
    if meta.Err? { return None; }
    var record := Record(name.value, meta.value, flags.value % 8, observed.value,
                         flags.value / 8 % 2 == 1, flags.value / 16 % 2 == 1);
    if !RecordOk(record) { return None; }
    r := Some(record);
  }

  lemma {:induction false} ParseAllInvalid(s: bytes, n: nat)
    ensures ParseAll(s, n, RecordStep).Err? ==> ParseAll(s, n, RecordStep).error == InvalidTransport
    decreases n
  {
    hide RecordStep;
    if n > 0 && RecordStep(s).Ok? {
      ParseAllInvalid(RecordStep(s).value.rest, n - 1);
    }
  }

  lemma NamesExtend(done: seq<Record>, rest: seq<Record>)
    requires Increasing(Names(done + rest))
    ensures Increasing(Names(done))
  {
    forall i, j | 0 <= i < j < |done| ensures Lt(Names(done)[i], Names(done)[j]) {
      assert Lt(Names(done + rest)[i], Names(done + rest)[j]);
    }
  }

  /** The record loop; the order of names is checked as each record arrives. */
  method ReadRecords(c: Reader, n: nat) returns (r: Option<seq<Record>>)
    requires c.Valid()
    modifies c
    ensures c.Valid()
    ensures match ParseAll(old(c.Rest()), n, RecordStep)
            case Err(_) => r == None
            case Ok(Parsed(v, rest)) => if Increasing(Names(v)) then r == Some(v) && c.Rest() == rest else r == None
  {
    hide RecordStep, Lt;
    ghost var all := ParseAll(c.Rest(), n, RecordStep);
    MetadataStream.ExtendNothing(all);
    var records: seq<Record> := [];
    for i := 0 to n
      invariant c.Valid()
      invariant all == MetadataStream.Extend(records, ParseAll(c.Rest(), n - i, RecordStep))
      invariant Increasing(Names(records))
    {
      MetadataStream.ParseAllContinues(all, records, c.Rest(), n - i, RecordStep);
      var record := ReadRecord(c);
      if record.None? { return None; }
      ghost var rest := ParseAll(c.Rest(), n - i - 1, RecordStep);
      assert Names(records + [record.value]) == Names(records) + [record.value.name];
      if records != [] && !Lt(records[|records| - 1].name, record.value.name) {
        OutOfOrder(records, record.value, rest);
        return None;
      }
      IncreasingSnoc(Names(records), record.value.name);
      records := records + [record.value];
    }
    assert records + [] == records;
    r := Some(records);
  }

  lemma OutOfOrder(records: seq<Record>, next: Record, rest: Step<seq<Record>, TransportError>)
    requires records != [] && !Lt(records[|records| - 1].name, next.name)
    ensures rest.Ok? ==> !Increasing(Names(records + [next] + rest.value.value))
  {
    var all := records + [next];
    assert !Increasing(Names(all)) by {
      assert Names(all)[|records| - 1] == records[|records| - 1].name && Names(all)[|records|] == next.name;
    }
    if rest.Ok? && Increasing(Names(all + rest.value.value)) {
      NamesExtend(all, rest.value.value);
      assert false;
    }
  }

  /** `decode` over a moving reader. */
  method DecodeAttribute(b: bytes) returns (r: Result<seq<Record>, TransportError>)
    ensures r == Decode(b)
  {
    hide RecordStep;
    if |b| > MAX_BYTES { return Err(TransportTooLarge); }
    var c := new Reader(b);
    var magic := c.Take(9);
    if magic.None? || magic.value != MAGIC { return Err(InvalidTransport); }
    var count := c.Word(4);
    if count.None? || count.value > (|b| - c.position) / UNIT { return Err(InvalidTransport); }
    ParseAllInvalid(c.Rest(), count.value);
    var records := ReadRecords(c, count.value);
    if records.None? || c.position != |b| { return Err(InvalidTransport); }
    r := Ok(records.value);
  }
}
