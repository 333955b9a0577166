/**
 The metadata writer and decoder as they run: chunk by chunk into a bounded sink, and from a
 moving cursor.  Each method refines the pure codec.
 */
module MetadataStream {
  import opened Wire
  import opened ReadCursor
  import opened WriteBuffer
  import opened Holes
  import opened Listing
  import opened Metadata
  import opened MetadataCanonical
  import MetadataCodec

  /* ---------- write ---------- */

  /**
   `goal` is everything the writer must have produced once `todo` follows what is buffered; the
   sink refuses exactly when `goal` exceeds its limit.
   */
  ghost predicate Towards(w: Writer, todo: bytes, goal: bytes)
    reads w
  {
    w.Valid() && w.buffer + todo == goal
  }

  method Emit(w: Writer, chunk: bytes, ghost todo: bytes, ghost goal: bytes) returns (ok: bool)
    requires Towards(w, chunk + todo, goal)
    modifies w
    ensures w.Valid()
    ensures ok ==> Towards(w, todo, goal)
    ensures !ok ==> |goal| > w.maximum
  {
    ok := w.Put(chunk);
    assert old(w.buffer) + (chunk + todo) == old(w.buffer) + chunk + todo;
  }

  method EmitBlob(w: Writer, blob: bytes, ghost todo: bytes, ghost goal: bytes) returns (ok: bool)
    requires Towards(w, PutBlob(blob, todo), goal)
    modifies w
    ensures w.Valid()
    ensures ok ==> Towards(w, todo, goal)
    ensures !ok ==> |goal| > w.maximum
  {
    ok := Emit(w, Le(4, |blob|), blob + todo, goal);
    if ok {
      ok := Emit(w, blob, todo, goal);
    }
  }

  method WriteXattrs(w: Writer, xs: seq<Xattr>, ghost todo: bytes, ghost goal: bytes) returns (ok: bool)
    requires Towards(w, PutCounted(xs, MetadataCodec.PutXattr, todo), goal)
    modifies w
    ensures w.Valid()
    ensures ok ==> Towards(w, todo, goal)
    ensures !ok ==> |goal| > w.maximum
  {
    ok := Emit(w, Le(4, |xs|), PutAll(xs, MetadataCodec.PutXattr, todo), goal);
    if !ok {
      return;
    }
    for i := 0 to |xs|
      invariant Towards(w, PutAll(xs[i..], MetadataCodec.PutXattr, todo), goal)
    {
      ghost var rest := PutAll(xs[i + 1..], MetadataCodec.PutXattr, todo);
      assert xs[i..][1..] == xs[i + 1..];
      ok := Emit(w, Le(1, xs[i].class_.Tag()), PutBlob(xs[i].name, PutBlob(xs[i].value, rest)), goal);
      if !ok {
        return;
      }
      ok := EmitBlob(w, xs[i].name, PutBlob(xs[i].value, rest), goal);
      if !ok {
        return;
      }
      ok := EmitBlob(w, xs[i].value, rest, goal);
      if !ok {
        return;
      }
    }
  }

  method WriteAces(w: Writer, xs: seq<Ace>, ghost todo: bytes, ghost goal: bytes) returns (ok: bool)
    requires Towards(w, PutCounted(xs, MetadataCodec.PutAce, todo), goal)
    modifies w
    ensures w.Valid()
    ensures ok ==> Towards(w, todo, goal)
    ensures !ok ==> |goal| > w.maximum
  {
    ok := Emit(w, Le(4, |xs|), PutAll(xs, MetadataCodec.PutAce, todo), goal);
    if !ok {
      return;
    }
    for i := 0 to |xs|
      invariant Towards(w, PutAll(xs[i..], MetadataCodec.PutAce, todo), goal)
    {
      ghost var rest := PutAll(xs[i + 1..], MetadataCodec.PutAce, todo);
      assert xs[i..][1..] == xs[i + 1..];
      ghost var named := PutBlob(xs[i].name, rest);
      assert PutWord(1, xs[i].tag.Tag(), PutWord(1, xs[i].permissions, named))
          == (Le(1, xs[i].tag.Tag()) + Le(1, xs[i].permissions)) + named;
      ok := Emit(w, Le(1, xs[i].tag.Tag()) + Le(1, xs[i].permissions), named, goal);
      if !ok {
        return;
      }
      ok := EmitBlob(w, xs[i].name, rest, goal);
      if !ok {
        return;
      }
    }
  }

  method WriteNativeAcl(w: Writer, acl: Option<NativeAcl>, ghost todo: bytes, ghost goal: bytes) returns (ok: bool)
    requires Towards(w, MetadataCodec.PutNativeAcl(acl, todo), goal)
    modifies w
    ensures w.Valid()
    ensures ok ==> Towards(w, todo, goal)
    ensures !ok ==> |goal| > w.maximum
  {
    match acl
    case None =>
      ok := Emit(w, Le(1, 0), todo, goal);
    case Some(a) =>
      ok := Emit(w, Le(1, a.origin.Tag()), PutBlob(a.body, todo), goal);
      if ok {
        ok := EmitBlob(w, a.body, todo, goal);
      }
  }

  method WriteTime(w: Writer, t: Option<Time>, ghost todo: bytes, ghost goal: bytes) returns (ok: bool)
    requires Towards(w, MetadataCodec.PutTime(t, todo), goal)
    modifies w
    ensures w.Valid()
    ensures ok ==> Towards(w, todo, goal)
    ensures !ok ==> |goal| > w.maximum
  {
    match t
    case None => ok := true;
    case Some(time) =>
      var sec, nsec := Le(8, MetadataCodec.Unsigned(time.sec)), Le(4, time.nsec);
      assert MetadataCodec.PutTime(t, todo) == sec + (nsec + todo);
      ok := Emit(w, sec, nsec + todo, goal);
      if ok {
        ok := Emit(w, nsec, todo, goal);
      }
  }

  method WriteTimes(w: Writer, t: Times, ghost todo: bytes, ghost goal: bytes) returns (ok: bool)
    requires Towards(w, MetadataCodec.PutTimes(t, todo), goal)
    modifies w
    ensures w.Valid()
    ensures ok ==> Towards(w, todo, goal)
    ensures !ok ==> |goal| > w.maximum
  {
    ghost var afterA := MetadataCodec.PutTime(t.btime, todo);
    ghost var afterM := MetadataCodec.PutTime(t.atime, afterA);
    ok := Emit(w, Le(1, MetadataCodec.TimeFlags(t)), MetadataCodec.PutTime(t.mtime, afterM), goal);
    if ok {
      ok := WriteTime(w, t.mtime, afterM, goal);
    }
    if ok {
      ok := WriteTime(w, t.atime, afterA, goal);
    }
    if ok {
      ok := WriteTime(w, t.btime, todo, goal);
    }
  }

  method WriteFinder(w: Writer, flags: u32, info: Option<FinderInfo>, ghost todo: bytes, ghost goal: bytes)
    returns (ok: bool)
    requires Towards(w, MetadataCodec.PutFinder(flags, info, todo), goal)
    modifies w
    ensures w.Valid()
    ensures ok ==> Towards(w, todo, goal)
    ensures !ok ==> |goal| > w.maximum
  {
    ghost var after := if info.None? then PutWord(1, 0, todo) else PutWord(1, 1, info.value + todo);
    ok := Emit(w, Le(4, flags), after, goal);
    if !ok {
      return;
    }
    match info
    case None =>
      ok := Emit(w, Le(1, 0), todo, goal);
    case Some(block) =>
      ok := Emit(w, Le(1, 1), block + todo, goal);
      if ok {
        ok := Emit(w, block, todo, goal);
      }
  }

  method WriteHoles(w: Writer, xs: seq<Hole>, ghost todo: bytes, ghost goal: bytes) returns (ok: bool)
    requires Towards(w, PutCounted(xs, MetadataCodec.PutHole, todo), goal)
    modifies w
    ensures w.Valid()
    ensures ok ==> Towards(w, todo, goal)
    ensures !ok ==> |goal| > w.maximum
  {
    ok := Emit(w, Le(4, |xs|), PutAll(xs, MetadataCodec.PutHole, todo), goal);
    if !ok {
      return;
    }
    for i := 0 to |xs|
      invariant Towards(w, PutAll(xs[i..], MetadataCodec.PutHole, todo), goal)
    {
      ghost var rest := PutAll(xs[i + 1..], MetadataCodec.PutHole, todo);
      assert xs[i..][1..] == xs[i + 1..];
      ok := Emit(w, Le(8, xs[i].offset), PutWord(8, xs[i].length, rest), goal);
      if !ok {
        return;
      }
      ok := Emit(w, Le(8, xs[i].length), rest, goal);
      if !ok {
        return;
      }
    }
  }

  method WriteHardlink(w: Writer, link: Option<bytes>, ghost todo: bytes, ghost goal: bytes) returns (ok: bool)
    requires Towards(w, MetadataCodec.PutHardlink(link, todo), goal)
    modifies w
    ensures w.Valid()
    ensures ok ==> Towards(w, todo, goal)
    ensures !ok ==> |goal| > w.maximum
  {
    match link
    case None =>
      ok := Emit(w, Le(1, 0), todo, goal);
    case Some(path) =>
      ok := Emit(w, Le(1, 1), PutBlob(path, todo), goal);
      if ok {
        ok := EmitBlob(w, path, todo, goal);
      }
  }

  /** The field writer: it appends exactly the canonical bytes, or runs into the sink's limit. */
  method Write(w: Writer, m: Metadata) returns (ok: bool)
    requires w.Valid()
    modifies w
    ensures w.Valid()
    ensures ok <==> |old(w.buffer)| + |MetadataCodec.Encode(m)| <= w.maximum
    ensures ok ==> w.buffer == old(w.buffer) + MetadataCodec.Encode(m)
  {
    ghost var goal := w.buffer + MetadataCodec.Encode(m);
    ghost var hardlink := MetadataCodec.PutHardlink(m.hardlinkTo, []);
    ghost var finder := MetadataCodec.PutFinder(m.finderFlags, m.finderInfo, MetadataCodec.PutAfterFinder(m));
    ghost var times := MetadataCodec.PutTimes(m.times, finder);
    ok := WriteXattrs(w, m.xattrs, PutCounted(m.aces, MetadataCodec.PutAce, MetadataCodec.PutAfterAces(m)), goal);
    if ok { ok := WriteAces(w, m.aces, MetadataCodec.PutAfterAces(m), goal); }
    if ok { ok := WriteNativeAcl(w, m.nativeAcl, times, goal); }
    if ok { ok := WriteTimes(w, m.times, finder, goal); }
    if ok { ok := WriteFinder(w, m.finderFlags, m.finderInfo, MetadataCodec.PutAfterFinder(m), goal); }
    if ok { ok := WriteHoles(w, m.holes, hardlink, goal); }
    if ok { ok := WriteHardlink(w, m.hardlinkTo, [], goal); }
    assert w.buffer + [] == w.buffer;
  }

  /** `encoded_len`: the count overflows exactly when the encoding would not fit in memory. */
  method EncodedLen(m: Metadata) returns (r: Result<nat, MetaError>)
    ensures r == if |MetadataCodec.Encode(m)| < U64_LIMIT then Ok(|MetadataCodec.Encode(m)|) else Err(BadMetadata)
  {
    var w := new Writer(U64_LIMIT - 1);
    var ok := Write(w, m);
    r := if ok then Ok(|w.buffer|) else Err(BadMetadata);
  }

  function EncodeChecked(m: Metadata): (r: Result<bytes, MetaError>)
    ensures r.Ok? ==> |r.value| < U64_LIMIT
  {
    if |MetadataCodec.Encode(m)| < U64_LIMIT then Ok(MetadataCodec.Encode(m)) else Err(BadMetadata)
  }

  method Encode(m: Metadata) returns (r: Result<bytes, MetaError>)
    ensures r == EncodeChecked(m)
  {
    var length := EncodedLen(m);
    if length.Err? {
      return Err(length.error);
    }
    var w := new Writer(length.value);
    assert w.buffer + MetadataCodec.Encode(m) == MetadataCodec.Encode(m);
    var _ := Write(w, m);
    r := Ok(w.buffer);
  }

  /* ---------- decode ---------- */

  method ReadXattr(c: Reader) returns (r: Result<Xattr, MetaError>)
    requires c.Valid()
    modifies c
    ensures c.Valid()
    ensures match MetadataCodec.XattrStep(old(c.Rest()))
            case Err(e) => r == Err(e)
            case Ok(Parsed(v, rest)) => r == Ok(v) && c.Rest() == rest
  {
    var t := c.Word(1);
    if t.None? { return Err(TruncatedMetadata); }
    var class_ := ClassFromTag(t.value);
    if class_.None? { return Err(BadMetadata); }
    var name := c.Blob();
    if name.None? { return Err(TruncatedMetadata); }
    var value := c.Blob();
    if value.None? { return Err(TruncatedMetadata); }
    r := Ok(Xattr(class_.value, name.value, value.value));
  }

  method ReadAce(c: Reader) returns (r: Result<Ace, MetaError>)
    requires c.Valid()
    modifies c
    ensures c.Valid()
    ensures match MetadataCodec.AceStep(old(c.Rest()))
            case Err(e) => r == Err(e)
            case Ok(Parsed(v, rest)) => r == Ok(v) && c.Rest() == rest
  {
    var t := c.Word(1);
    if t.None? { return Err(TruncatedMetadata); }
    var tag := AceTagFromTag(t.value);
    if tag.None? { return Err(BadMetadata); }
    var permissions := c.Word(1);
    if permissions.None? { return Err(TruncatedMetadata); }
    if permissions.value >= 8 { return Err(BadMetadata); }
    var name := c.Blob();
    if name.None? { return Err(TruncatedMetadata); }
    r := Ok(Ace(tag.value, permissions.value, name.value));
  }

  method ReadHole(c: Reader) returns (r: Result<Hole, MetaError>)
    requires c.Valid()
    modifies c
    ensures c.Valid()
    ensures match MetadataCodec.HoleStep(old(c.Rest()))
            case Err(e) => r == Err(e)
            case Ok(Parsed(v, rest)) => r == Ok(v) && c.Rest() == rest
  {
    WordSizes();
    var offset := c.Word(8);
    if offset.None? { return Err(TruncatedMetadata); }
    var length := c.Word(8);
    if length.None? { return Err(TruncatedMetadata); }
    r := Ok(Hole(offset.value, length.value));
  }

  /** `vector`: the announced count, refused when it cannot fit in the unread bytes. */
  method ReadCount(c: Reader, unit: nat) returns (r: Result<nat, MetaError>)
    requires c.Valid() && unit > 0
    modifies c
    ensures c.Valid()
    ensures match Word(old(c.Rest()), 4)
            case None => r == Err(TruncatedMetadata)
            case Some(Parsed(n, rest)) =>
              c.Rest() == rest && r == if n > |rest| / unit then Err(TruncatedMetadata) else Ok(n)
  {
    var n := c.Word(4);
    if n.None? { return Err(TruncatedMetadata); }
    r := if n.value > (|c.input| - c.position) / unit then Err(TruncatedMetadata) else Ok(n.value);
  }

  lemma ParseAllContinues<T, E>(all: Step<seq<T>, E>, done: seq<T>, s: bytes, n: nat, step: bytes -> Step<T, E>)
    requires n > 0
    requires all == Extend(done, ParseAll(s, n, step))
    ensures match step(s)
            case Err(e) => all == Err(e)
            case Ok(Parsed(x, rest)) => all == Extend(done + [x], ParseAll(rest, n - 1, step))
  {
    if step(s).Ok? {
      var Parsed(x, rest) := step(s).value;
      var tail := ParseAll(rest, n - 1, step);
      if tail.Ok? {
        assert done + ([x] + tail.value.value) == done + [x] + tail.value.value;
      }
    }
  }

  /** What the whole list parse gives once `done` has been read. */
  function Extend<T, E>(done: seq<T>, r: Step<seq<T>, E>): Step<seq<T>, E> {
    if r.Err? then r else Ok(Parsed(done + r.value.value, r.value.rest))
  }

  lemma ExtendNothing<T, E>(r: Step<seq<T>, E>)
    ensures Extend([], r) == r
  {
    if r.Ok? {
      assert [] + r.value.value == r.value.value;
    }
  }

  method ReadXattrRecords(c: Reader, n: nat) returns (r: Result<seq<Xattr>, MetaError>)
    requires c.Valid()
    modifies c
    ensures c.Valid()
    ensures match ParseAll(old(c.Rest()), n, MetadataCodec.XattrStep)
            case Err(e) => r == Err(e)
            case Ok(Parsed(v, rest)) => r == Ok(v) && c.Rest() == rest
  {
    hide MetadataCodec.XattrStep;
    ghost var all := ParseAll(c.Rest(), n, MetadataCodec.XattrStep);
    ExtendNothing(all);
    var xs: seq<Xattr> := [];
    for i := 0 to n
      invariant c.Valid()
      invariant all == Extend(xs, ParseAll(c.Rest(), n - i, MetadataCodec.XattrStep))
    {
      ParseAllContinues(all, xs, c.Rest(), n - i, MetadataCodec.XattrStep);
      var x := ReadXattr(c);
      if x.Err? { return Err(x.error); }
      xs := xs + [x.value];
    }
    assert xs + [] == xs;
    r := Ok(xs);
  }

  method ReadXattrs(c: Reader) returns (r: Result<seq<Xattr>, MetaError>)
    requires c.Valid()
    modifies c
    ensures c.Valid()
    ensures match Counted(old(c.Rest()), 9, MetadataCodec.XattrStep, TruncatedMetadata)
            case Err(e) => r == Err(e)
            case Ok(Parsed(v, rest)) => r == Ok(v) && c.Rest() == rest
  {
    var count := ReadCount(c, 9);
    if count.Err? { return Err(count.error); }
    r := ReadXattrRecords(c, count.value);
  }

  method ReadAceRecords(c: Reader, n: nat) returns (r: Result<seq<Ace>, MetaError>)
    requires c.Valid()
    modifies c
    ensures c.Valid()
    ensures match ParseAll(old(c.Rest()), n, MetadataCodec.AceStep)
            case Err(e) => r == Err(e)
            case Ok(Parsed(v, rest)) => r == Ok(v) && c.Rest() == rest
  {
    hide MetadataCodec.AceStep;
    ghost var all := ParseAll(c.Rest(), n, MetadataCodec.AceStep);
    ExtendNothing(all);
    var xs: seq<Ace> := [];
    for i := 0 to n
      invariant c.Valid()
      invariant all == Extend(xs, ParseAll(c.Rest(), n - i, MetadataCodec.AceStep))
    {
      ParseAllContinues(all, xs, c.Rest(), n - i, MetadataCodec.AceStep);
      var x := ReadAce(c);
      if x.Err? { return Err(x.error); }
      xs := xs + [x.value];
    }
    assert xs + [] == xs;
    r := Ok(xs);
  }

  method ReadAces(c: Reader) returns (r: Result<seq<Ace>, MetaError>)
    requires c.Valid()
    modifies c
    ensures c.Valid()
    ensures match Counted(old(c.Rest()), 6, MetadataCodec.AceStep, TruncatedMetadata)
            case Err(e) => r == Err(e)
            case Ok(Parsed(v, rest)) => r == Ok(v) && c.Rest() == rest
  {
    var count := ReadCount(c, 6);
    if count.Err? { return Err(count.error); }
    r := ReadAceRecords(c, count.value);
  }

  method ReadHoleRecords(c: Reader, n: nat) returns (r: Result<seq<Hole>, MetaError>)
    requires c.Valid()
    modifies c
    ensures c.Valid()
    ensures match ParseAll(old(c.Rest()), n, MetadataCodec.HoleStep)
            case Err(e) => r == Err(e)
            case Ok(Parsed(v, rest)) => r == Ok(v) && c.Rest() == rest
  {
    hide MetadataCodec.HoleStep;
    ghost var all := ParseAll(c.Rest(), n, MetadataCodec.HoleStep);
    ExtendNothing(all);
    var xs: seq<Hole> := [];
    for i := 0 to n
      invariant c.Valid()
      invariant all == Extend(xs, ParseAll(c.Rest(), n - i, MetadataCodec.HoleStep))
    {
      ParseAllContinues(all, xs, c.Rest(), n - i, MetadataCodec.HoleStep);
      var x := ReadHole(c);
      if x.Err? { return Err(x.error); }
      xs := xs + [x.value];
    }
    assert xs + [] == xs;
    r := Ok(xs);
  }

  method ReadHoles(c: Reader) returns (r: Result<seq<Hole>, MetaError>)
    requires c.Valid()
    modifies c
    ensures c.Valid()
    ensures match Counted(old(c.Rest()), 16, MetadataCodec.HoleStep, TruncatedMetadata)
            case Err(e) => r == Err(e)
            case Ok(Parsed(v, rest)) => r == Ok(v) && c.Rest() == rest
  {
    var count := ReadCount(c, 16);
    if count.Err? { return Err(count.error); }
    r := ReadHoleRecords(c, count.value);
  }

  method ReadNativeAcl(c: Reader) returns (r: Result<Option<NativeAcl>, MetaError>)
    requires c.Valid()
    modifies c
    ensures c.Valid()
    ensures match MetadataCodec.NativeAclStep(old(c.Rest()))
            case Err(e) => r == Err(e)
            case Ok(Parsed(v, rest)) => r == Ok(v) && c.Rest() == rest
  {
    var t := c.Word(1);
    if t.None? { return Err(TruncatedMetadata); }
    if t.value == 0 { return Ok(None); }
    var origin := OsFromTag(t.value);
    if origin.None? { return Err(BadMetadata); }
    var body := c.Blob();
    if body.None? { return Err(TruncatedMetadata); }
    r := Ok(Some(NativeAcl(origin.value, body.value)));
  }

  method ReadTime(c: Reader, present: bool) returns (r: Result<Option<Time>, MetaError>)
    requires c.Valid()
    modifies c
    ensures c.Valid()
    ensures match MetadataCodec.TimeStep(present, old(c.Rest()))
            case Err(e) => r == Err(e)
            case Ok(Parsed(v, rest)) => r == Ok(v) && c.Rest() == rest
  {
    if !present { return Ok(None); }
    var w := c.Take(12);
    if w.None? { return Err(TruncatedMetadata); }
    var t := MetadataCodec.DecodeTime(w.value);
    r := if t.Err? then Err(t.error) else Ok(Some(t.value));
  }

  method ReadTimes(c: Reader) returns (r: Result<Times, MetaError>)
    requires c.Valid()
    modifies c
    ensures c.Valid()
    ensures match MetadataCodec.TimesStep(old(c.Rest()))
            case Err(e) => r == Err(e)
            case Ok(Parsed(v, rest)) => r == Ok(v) && c.Rest() == rest
  {
    var flags := c.Word(1);
    if flags.None? { return Err(TruncatedMetadata); }
    if flags.value >= 8 { return Err(BadMetadata); }
    var mtime := ReadTime(c, flags.value % 2 == 1);
    if mtime.Err? { return Err(mtime.error); }
    var atime := ReadTime(c, flags.value / 2 % 2 == 1);
    if atime.Err? { return Err(atime.error); }
    var btime := ReadTime(c, flags.value / 4 % 2 == 1);
    if btime.Err? { return Err(btime.error); }
    r := Ok(Times(mtime.value, atime.value, btime.value));
  }

  method ReadFinder(c: Reader) returns (r: Result<MetadataCodec.Finder, MetaError>)
    requires c.Valid()
    modifies c
    ensures c.Valid()
    ensures match MetadataCodec.FinderStep(old(c.Rest()))
            case Err(e) => r == Err(e)
            case Ok(Parsed(v, rest)) => r == Ok(v) && c.Rest() == rest
  {
    WordSizes();
    var flags := c.Word(4);
    if flags.None? { return Err(TruncatedMetadata); }
    var t := c.Word(1);
    if t.None? { return Err(TruncatedMetadata); }
    if t.value == 0 { return Ok(MetadataCodec.Finder(flags.value, None)); }
    if t.value != 1 { return Err(BadMetadata); }
    var info := c.Take(32);
    if info.None? { return Err(TruncatedMetadata); }
    r := Ok(MetadataCodec.Finder(flags.value, Some(info.value)));
  }

  method ReadHardlink(c: Reader) returns (r: Result<Option<bytes>, MetaError>)
    requires c.Valid()
    modifies c
    ensures c.Valid()
    ensures match MetadataCodec.HardlinkStep(old(c.Rest()))
            case Err(e) => r == Err(e)
            case Ok(Parsed(v, rest)) => r == Ok(v) && c.Rest() == rest
  {
    var t := c.Word(1);
    if t.None? { return Err(TruncatedMetadata); }
    if t.value == 0 { return Ok(None); }
    if t.value != 1 { return Err(BadMetadata); }
    var path := c.Blob();
    if path.None? { return Err(TruncatedMetadata); }
    r := Ok(Some(path.value));
  }

  /** `CanonicalMetadata::decode` over a moving cursor. */
  method Decode(input: bytes) returns (r: Result<Metadata, MetaError>)
    ensures r == MetadataCodec.Decode(input)
  {
    var c := new Reader(input);
    var xattrs := ReadXattrs(c);
    if xattrs.Err? { return Err(xattrs.error); }
    var aces := ReadAces(c);
    if aces.Err? { return Err(aces.error); }
    var nativeAcl := ReadNativeAcl(c);
    if nativeAcl.Err? { return Err(nativeAcl.error); }
    var times := ReadTimes(c);
    if times.Err? { return Err(times.error); }
    var finder := ReadFinder(c);
    if finder.Err? { return Err(finder.error); }
    var holes := ReadHoles(c);
    if holes.Err? { return Err(holes.error); }
    var hardlinkTo := ReadHardlink(c);
    if hardlinkTo.Err? { return Err(hardlinkTo.error); }
    if c.position != |input| { return Err(TrailingMetadata); }
    var m := Metadata(xattrs.value, aces.value, nativeAcl.value, times.value,
                      finder.value.flags, finder.value.info, holes.value, hardlinkTo.value);
    var fault := Validate(m);
    r := Wrap(m, fault);
  }
}
