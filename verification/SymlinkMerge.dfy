/**
 What the directory writer keeps for a symlink and how the reader puts it back
 (src/directory_fs.zig): record construction, the merge, and the law that ties them together.
 */
module SymlinkMerge {
  import opened Wire
  import opened ByteOrder
  import opened Metadata
  import opened Primitives
  import opened Sorting
  import opened SymlinkTransport
  import opened MetadataNormalize
  import MetadataCanonical
  import Paths
  import Snapshots
  import Structure
  import Utf8

  /* ---------- Attributes that could not be stored ---------- */

  function Where<T(!new)>(xs: seq<T>, p: T -> bool): (r: seq<T>)
    ensures forall x :: x in r <==> x in xs && p(x)
    ensures |r| <= |xs|
  {
    if xs == [] then [] else (if p(xs[0]) then [xs[0]] else []) + Where(xs[1..], p)
  }

  lemma WhereCons<T(!new)>(xs: seq<T>, p: T -> bool)
    requires xs != []
    ensures multiset(Where(xs, p)) == multiset(Where(xs[1..], p)) + if p(xs[0]) then multiset{xs[0]} else multiset{}
  {
  }

  lemma {:induction false} WherePartition<T(!new)>(xs: seq<T>, p: T -> bool, q: T -> bool)
    requires forall x :: q(x) == !p(x)
    ensures multiset(Where(xs, p)) + multiset(Where(xs, q)) == multiset(xs)
  {
    hide Where;
    if xs != [] {
      WherePartition(xs[1..], p, q);
      WhereCons(xs, p);
      WhereCons(xs, q);
      assert xs == [xs[0]] + xs[1..];
    }
  }

  lemma {:induction false} WhereIncreasing(xs: seq<Xattr>, p: Xattr -> bool)
    requires MetadataCanonical.XattrsIncreasing(xs)
    ensures MetadataCanonical.XattrsIncreasing(Where(xs, p))
  {
    hide XattrLt;
    if xs != [] {
      WhereIncreasing(xs[1..], p);
      var rest := Where(xs[1..], p);
      forall i | 0 <= i < |rest| ensures XattrLt(xs[0], rest[i]) {
        assert rest[i] in xs[1..];
        var k :| 0 <= k < |xs[1..]| && xs[1..][k] == rest[i];
        assert XattrLt(xs[0], xs[k + 1]);
      }
    }
  }

  lemma WhereAppend<T(!new)>(xs: seq<T>, x: T, p: T -> bool)
    ensures Where(xs + [x], p) == Where(xs, p) + (if p(x) then [x] else [])
  {
    if xs != [] {
      WhereAppend(xs[1..], x, p);
      assert (xs + [x])[1..] == xs[1..] + [x];
    }
  }

  /** `restoreXattrs` on a symlink: what the file system refuses is preserved, in order. */
  method PreserveXattrs(xs: seq<Xattr>, stored: Xattr -> bool) returns (preserved: seq<Xattr>)
    ensures preserved == Where(xs, x => !stored(x))
  {
    preserved := [];
    for i := 0 to |xs|
      invariant preserved == Where(xs[..i], x => !stored(x))
    {
      WhereAppend(xs[..i], xs[i], x => !stored(x));
      assert xs[..i + 1] == xs[..i] + [xs[i]];
      if !stored(xs[i]) {
        preserved := preserved + [xs[i]];
      }
    }
    assert xs[..|xs|] == xs;
  }

  /* ---------- Record construction ---------- */

  function AclOnly(m: Metadata): (r: Metadata) { EMPTY.(aces := m.aces, nativeAcl := m.nativeAcl) }

  function FinderOnly(m: Metadata): (r: Metadata) { EMPTY.(finderFlags := m.finderFlags, finderInfo := m.finderInfo) }

  /** Which families differ from what the file system shows; ACL and Finder are compared by digest. */
  datatype Keeping = Keeping(mtime: bool, btime: bool, acl: bool, finder: bool)

  function KeepingFor(p: Primitives, desired: Metadata, native: Metadata, omit: Omit, birth: bool): (k: Keeping)
  {
    Keeping(
      TimestampsFamily !in omit && desired.times.mtime != native.times.mtime,
      TimestampsFamily !in omit && birth,
      AclFamily !in omit && Snapshots.MetaHash(p, AclOnly(native)) != Snapshots.MetaHash(p, AclOnly(desired)),
      FinderFamily !in omit && Snapshots.MetaHash(p, FinderOnly(native)) != Snapshots.MetaHash(p, FinderOnly(desired)))
  }

  function Kept(desired: Metadata, xattrs: seq<Xattr>, k: Keeping): (m: Metadata)
  {
    Metadata(
      xattrs,
      if k.acl then desired.aces else [],
      if k.acl then desired.nativeAcl else None,
      Times(if k.mtime then desired.times.mtime else None, None, if k.btime then desired.times.btime else None),
      if k.finder then desired.finderFlags else 0,
      if k.finder then desired.finderInfo else None,
      [], None)
  }

  function AbsentTimes(desired: Metadata, k: Keeping): (b: byte)
    ensures b < 8
  {
    (if k.mtime && desired.times.mtime.None? then 1 else 0) + (if k.btime && desired.times.btime.None? then 4 else 0)
  }

  function Basename(path: bytes): (name: bytes)
    ensures Paths.SLASH !in name
  {
    match Structure.LastSlash(path)
    case None => path
    case Some(slash) => path[slash + 1..]
  }

  function Candidate(desired: Metadata, native: Metadata, path: bytes, xattrs: seq<Xattr>, k: Keeping): (r: Record)
  {
    Record(Basename(path), Kept(desired, xattrs, k), AbsentTimes(desired, k),
           if k.mtime then native.times.mtime else None, k.acl, k.finder)
  }

  /** The writer's record, or none when the file system already shows everything. */
  function BuildRecord(desired: Metadata, native: Metadata, path: bytes,
                       xattrs: seq<Xattr>, k: Keeping): (r: Option<Record>)
  {
    var kept := Kept(desired, xattrs, k);
    if !kept.IsEmpty() || AbsentTimes(desired, k) != 0 || k.acl || k.finder
    then Some(Candidate(desired, native, path, xattrs, k))
    else None
  }

  /* ---------- The merge ---------- */

  function HasKey(xs: seq<Xattr>, x: Xattr): (r: bool) {
    exists i :: 0 <= i < |xs| && xs[i].class_ == x.class_ && xs[i].name == x.name
  }

  /** Native attributes win; kept ones are appended when their key is free. */
  function MergeXattrs(native: seq<Xattr>, kept: seq<Xattr>): (r: seq<Xattr>)
    decreases |kept|
  {
    if kept == [] then native
    else MergeXattrs(if HasKey(native, kept[0]) then native else native + [kept[0]], kept[1..])
  }

  method HasXattr(xs: seq<Xattr>, x: Xattr) returns (found: bool)
    ensures found == HasKey(xs, x)
  {
    for i := 0 to |xs|
      invariant forall k :: 0 <= k < i ==> !(xs[k].class_ == x.class_ && xs[k].name == x.name)
    {
      if xs[i].class_ == x.class_ && xs[i].name == x.name {
        return true;
      }
    }
    found := false;
  }

  method AppendXattrs(native: seq<Xattr>, kept: seq<Xattr>) returns (r: seq<Xattr>)
    ensures r == MergeXattrs(native, kept)
  {
    r := native;
    for i := 0 to |kept|
      invariant MergeXattrs(native, kept) == MergeXattrs(r, kept[i..])
    {
      assert kept[i..][1..] == kept[i + 1..];
      var found := HasXattr(r, kept[i]);
      if !found {
        r := r + [kept[i]];
      }
    }
  }

  function MergeTimes(native: Times, record: Record): (t: Times)
  {
    var kept := record.meta.times;
    Times(
      if native.mtime == record.observedMtime && (kept.mtime.Some? || Marks(record.absentTimes, 1)) then kept.mtime
      else native.mtime,
      if Marks(record.absentTimes, 2) then None else if kept.atime.Some? then kept.atime else native.atime,
      if Marks(record.absentTimes, 4) then None else if kept.btime.Some? then kept.btime else native.btime)
  }

  /** The merged fields, before the final normalization. */
  function Merged(native: Metadata, record: Record): (m: Metadata)
  {
    var kept := record.meta;
    native.(
      xattrs := MergeXattrs(native.xattrs, kept.xattrs),
      aces := if record.aclOverride || kept.aces != [] then kept.aces else native.aces,
      nativeAcl := if record.aclOverride || kept.nativeAcl.Some? then kept.nativeAcl else native.nativeAcl,
      times := MergeTimes(native.times, record),
      finderFlags := if record.finderOverride || kept.finderFlags != 0 then kept.finderFlags else native.finderFlags,
      finderInfo := if record.finderOverride || kept.finderInfo.Some? then kept.finderInfo else native.finderInfo)
  }

  method AssignTimes(native: Times, record: Record) returns (times: Times)
    ensures times == MergeTimes(native, record)
  {
    var kept := record.meta.times;
    times := native;
    if native.mtime == record.observedMtime {
      if kept.mtime.Some? || Marks(record.absentTimes, 1) { times := times.(mtime := kept.mtime); }
    }
    if kept.atime.Some? { times := times.(atime := kept.atime); }
    if kept.btime.Some? { times := times.(btime := kept.btime); }
    if Marks(record.absentTimes, 2) { times := times.(atime := None); }
    if Marks(record.absentTimes, 4) { times := times.(btime := None); }
  }

  /** `mergeSymlinkMetadata`, assignment by assignment. */
  method AssignFields(native: Metadata, record: Record) returns (result: Metadata)
    ensures result == Merged(native, record)
  {
    hide MergeXattrs, MergeTimes;
    var kept := record.meta;
    result := native;
    var attrs := AppendXattrs(native.xattrs, kept.xattrs);
    result := result.(xattrs := attrs);
    if kept.aces != [] { result := result.(aces := kept.aces); }
    if kept.nativeAcl.Some? { result := result.(nativeAcl := kept.nativeAcl); }
    if record.aclOverride { result := result.(aces := kept.aces, nativeAcl := kept.nativeAcl); }
    var times := AssignTimes(native.times, record);
    result := result.(times := times);
    if kept.finderFlags != 0 { result := result.(finderFlags := kept.finderFlags); }
    if kept.finderInfo.Some? { result := result.(finderInfo := kept.finderInfo); }
    if record.finderOverride { result := result.(finderFlags := kept.finderFlags, finderInfo := kept.finderInfo); }
  }

  method Merge(native: Metadata, record: Record, omit: Omit) returns (r: Result<Metadata, MetaError>)
    ensures match InputFault(Omitted(Merged(native, record), omit))
            case Some(e) => r == Err(e)
            case None => r.Ok? && Normalized(Omitted(Merged(native, record), omit), r.value)
  {
    hide *;
    var result := AssignFields(native, record);
    r := Normalize(result, omit);
  }

  /* ---------- The law ---------- */

  /** Symlink metadata a patch may ask for: canonical, without access time, holes or hardlink. */
  ghost predicate Wanted(desired: Metadata, omit: Omit) {
    && MetadataCanonical.Canonical(desired) && !HasOmitted(desired, omit)
    && desired.times.atime.None? && desired.holes == [] && desired.hardlinkTo.None?
  }

  /** A reading of the symlink that shows exactly the attributes that were stored. */
  ghost predicate Readback(native: Metadata, desired: Metadata, omit: Omit, stored: Xattr -> bool) {
    && MetadataCanonical.Canonical(native) && !HasOmitted(native, omit)
    && multiset(native.xattrs) == multiset(Where(desired.xattrs, stored))
    && native.times.atime.None? && native.holes == [] && native.hardlinkTo.None?
    && (TimestampsFamily !in omit ==> native.times.mtime.Some?)
  }

  ghost predicate Distinguished(p: Primitives, a: Metadata, b: Metadata) {
    Snapshots.MetaHash(p, a) == Snapshots.MetaHash(p, b) ==> a == b
  }

  /** Everything known when the record is built. */
  ghost predicate Restored(p: Primitives, desired: Metadata, native: Metadata, omit: Omit,
                           stored: Xattr -> bool, birth: bool) {
    && Wanted(desired, omit) && Readback(native, desired, omit, stored)
    && Distinguished(p, AclOnly(native), AclOnly(desired)) && Distinguished(p, FinderOnly(native), FinderOnly(desired))
    && (desired.times.btime != native.times.btime ==> birth)
  }

  /** Same fields, and the same attributes in any order. */
  ghost predicate SameContent(m: Metadata, d: Metadata) {
    multiset(m.xattrs) == multiset(d.xattrs) && m.(xattrs := d.xattrs) == d
  }

  /** Normalizing a shuffled canonical record gives that record. */
  lemma SameContentNormalizes(m: Metadata, d: Metadata, omit: Omit)
    requires SameContent(m, d) && MetadataCanonical.Canonical(d) && !HasOmitted(d, omit)
    ensures InputFault(Omitted(m, omit)).None?
    ensures forall t :: Normalized(Omitted(m, omit), t) <==> t == d
  {
    SameElements(m.xattrs, d.xattrs);
    assert !HasOmitted(m, omit);
    HasOmittedMeans(m, omit);
    assert Omitted(m, omit) == m;
    SameContentFaultless(m, d);
    assert Normalized(m, d);
    forall t ensures Normalized(m, t) <==> t == d {
      if Normalized(m, t) {
        NormalizedUnique(m, m, t, d);
      }
    }
  }

  lemma SameContentFaultless(m: Metadata, d: Metadata)
    requires SameContent(m, d) && MetadataCanonical.Canonical(d)
    ensures InputFault(m).None?
  {
    CanonicalHasNoInputFault(d);
    SameElements(m.xattrs, d.xattrs);
    XattrInputFaultMeans(m.xattrs, |m.xattrs|);
    XattrInputFaultMeans(d.xattrs, |d.xattrs|);
    DistinctPermuted(d.xattrs, m.xattrs, XattrKey);
    forall i | 0 <= i < |m.xattrs| ensures MetadataCanonical.XattrOk(m.xattrs[i]) {
      assert m.xattrs[i] in d.xattrs;
    }
  }

  lemma {:induction false} MergeDisjoint(native: seq<Xattr>, kept: seq<Xattr>)
    requires DistinctBy(native + kept, XattrKey)
    ensures MergeXattrs(native, kept) == native + kept
    decreases |kept|
  {
    if kept != [] {
      var all := native + kept;
      assert native + [kept[0]] + kept[1..] == all;
      assert !HasKey(native, kept[0]) by {
        forall i | 0 <= i < |native| ensures !(native[i].class_ == kept[0].class_ && native[i].name == kept[0].name) {
          assert XattrKey(all[i]) != XattrKey(all[|native|]);
        }
      }
      MergeDisjoint(native + [kept[0]], kept[1..]);
    }
  }

  /** What was stored and what was kept are together what was wanted. */
  lemma MergedXattrs(desired: Metadata, native: Metadata, omit: Omit, stored: Xattr -> bool, unstored: Xattr -> bool)
    requires Wanted(desired, omit) && Readback(native, desired, omit, stored) && forall x :: unstored(x) == !stored(x)
    ensures multiset(MergeXattrs(native.xattrs, Where(desired.xattrs, unstored))) == multiset(desired.xattrs)
  {
    var kept := Where(desired.xattrs, unstored);
    WherePartition(desired.xattrs, stored, unstored);
    assert multiset(native.xattrs + kept) == multiset(desired.xattrs);
    CanonicalHasNoInputFault(desired);
    DistinctPermuted(desired.xattrs, native.xattrs + kept, XattrKey);
    MergeDisjoint(native.xattrs, kept);
  }

  /** The file as it now reads: `native`, but with modification time `mtime`. */
  function Touched(m: Metadata, mtime: Option<Time>): (r: Metadata) {
    m.(times := m.times.(mtime := mtime))
  }

  lemma MergedTimes(desired: Metadata, native: Metadata, omit: Omit, path: bytes, xattrs: seq<Xattr>, k: Keeping,
                    mtime: Option<Time>)
    requires desired.times.atime.None? && native.times.atime.None?
    requires k.mtime == (TimestampsFamily !in omit && desired.times.mtime != native.times.mtime)
    requires k.btime || desired.times.btime == native.times.btime
    requires mtime == native.times.mtime || (mtime.Some? && TimestampsFamily !in omit)
    requires TimestampsFamily in omit ==> desired.times.mtime == native.times.mtime == None
    ensures MergeTimes(native.times.(mtime := mtime), Candidate(desired, native, path, xattrs, k))
         == desired.times.(mtime := if mtime == native.times.mtime then desired.times.mtime else mtime)
  {
    MarkBits(k.mtime && desired.times.mtime.None?, k.btime && desired.times.btime.None?);
  }

  lemma MarkBits(one: bool, four: bool)
    ensures var n := (if one then 1 else 0) + (if four then 4 else 0);
            Marks(n, 1) == one && !Marks(n, 2) && Marks(n, 4) == four
  {
  }

  lemma KeptWhatDiffers(p: Primitives, desired: Metadata, native: Metadata, omit: Omit,
                        stored: Xattr -> bool, birth: bool)
    requires Restored(p, desired, native, omit, stored, birth)
    ensures var k := KeepingFor(p, desired, native, omit, birth);
            && (k.acl || (desired.aces == native.aces && desired.nativeAcl == native.nativeAcl))
            && (k.finder || (desired.finderFlags == native.finderFlags && desired.finderInfo == native.finderInfo))
            && (k.btime || desired.times.btime == native.times.btime)
            && (TimestampsFamily in omit ==> desired.times.mtime == native.times.mtime == None)
  {
    hide Snapshots.MetaHash, MetadataCanonical.Canonical;
    assert AclOnly(native) == AclOnly(desired) ==> native.aces == desired.aces && native.nativeAcl == desired.nativeAcl;
    assert FinderOnly(native) == FinderOnly(desired) ==>
           native.finderFlags == desired.finderFlags && native.finderInfo == desired.finderInfo;
  }

  /** Merging the writer's record into a later reading restores every field, except a time changed since. */
  lemma MergedContent(p: Primitives, desired: Metadata, native: Metadata, omit: Omit, stored: Xattr -> bool,
                      unstored: Xattr -> bool, birth: bool, path: bytes, mtime: Option<Time>)
    requires Restored(p, desired, native, omit, stored, birth) && forall x :: unstored(x) == !stored(x)
    requires mtime == native.times.mtime || (mtime.Some? && TimestampsFamily !in omit)
    ensures var k := KeepingFor(p, desired, native, omit, birth);
            var record := Candidate(desired, native, path, Where(desired.xattrs, unstored), k);
            SameContent(Merged(Touched(native, mtime), record),
                        if mtime == native.times.mtime then desired else Touched(desired, mtime))
  {
    hide Snapshots.MetaHash, MetadataCanonical.Canonical, MergeTimes, MergeXattrs, Where;
    var k := KeepingFor(p, desired, native, omit, birth);
    KeptWhatDiffers(p, desired, native, omit, stored, birth);
    MergedXattrs(desired, native, omit, stored, unstored);
    MergedTimes(desired, native, omit, path, Where(desired.xattrs, unstored), k, mtime);
  }

  /**
   The transport law: reading the symlink back gives the wanted metadata, through the record if
   the writer built one and directly if it did not.
   */
  lemma TransportLaw(p: Primitives, desired: Metadata, native: Metadata, omit: Omit, stored: Xattr -> bool,
                     unstored: Xattr -> bool, birth: bool, path: bytes)
    requires Restored(p, desired, native, omit, stored, birth) && forall x :: unstored(x) == !stored(x)
    ensures match BuildRecord(desired, native, path, Where(desired.xattrs, unstored),
                              KeepingFor(p, desired, native, omit, birth))
            case None => native == desired
            case Some(record) =>
              var merged := Omitted(Merged(native, record), omit);
              InputFault(merged).None? && forall t :: Normalized(merged, t) <==> t == desired
  {
    hide Snapshots.MetaHash, MetadataCanonical.Canonical, Merged, Where, InputFault, Normalized;
    var k := KeepingFor(p, desired, native, omit, birth);
    var xattrs := Where(desired.xattrs, unstored);
    var record := Candidate(desired, native, path, xattrs, k);
    MergedContent(p, desired, native, omit, stored, unstored, birth, path, native.times.mtime);
    assert Touched(native, native.times.mtime) == native;
    SameContentNormalizes(Merged(native, record), desired, omit);
    if BuildRecord(desired, native, path, xattrs, k).None? {
      NothingKept(p, desired, native, omit, stored, unstored, birth);
    }
  }

  lemma NothingKept(p: Primitives, desired: Metadata, native: Metadata, omit: Omit, stored: Xattr -> bool,
                    unstored: Xattr -> bool, birth: bool)
    requires Restored(p, desired, native, omit, stored, birth) && forall x :: unstored(x) == !stored(x)
    requires var k := KeepingFor(p, desired, native, omit, birth);
             && Kept(desired, Where(desired.xattrs, unstored), k).IsEmpty() && AbsentTimes(desired, k) == 0
             && !k.acl && !k.finder
    ensures native == desired
  {
    hide Snapshots.MetaHash;
    KeptWhatDiffers(p, desired, native, omit, stored, birth);
    WherePartition(desired.xattrs, stored, unstored);
    assert multiset(native.xattrs) == multiset(desired.xattrs);
    XattrOrder();
    assert StrictlyOrdered(native.xattrs, XattrLt) && StrictlyOrdered(desired.xattrs, XattrLt);
    StrictlyOrderedUnique(native.xattrs, desired.xattrs, XattrLt);
  }

  /**
   A record is built exactly when it is needed: no record if and only if the link already reads as
   wanted and the birth time is not asked to be kept regardless.
   */
  lemma RecordNeeded(p: Primitives, desired: Metadata, native: Metadata, omit: Omit, stored: Xattr -> bool,
                     unstored: Xattr -> bool, birth: bool, path: bytes)
    requires Restored(p, desired, native, omit, stored, birth) && forall x :: unstored(x) == !stored(x)
    ensures BuildRecord(desired, native, path, Where(desired.xattrs, unstored),
                        KeepingFor(p, desired, native, omit, birth)).None?
            <==> native == desired && (birth ==> TimestampsFamily in omit)
  {
    hide Snapshots.MetaHash, MetadataCanonical.Canonical, Where;
    var k := KeepingFor(p, desired, native, omit, birth);
    if BuildRecord(desired, native, path, Where(desired.xattrs, unstored), k).None? {
      NothingKept(p, desired, native, omit, stored, unstored, birth);
    }
    if native == desired {
      WherePartition(desired.xattrs, stored, unstored);
      NothingMore(desired.xattrs, Where(desired.xattrs, stored), Where(desired.xattrs, unstored));
    }
  }

  lemma NothingMore(all: seq<Xattr>, part: seq<Xattr>, rest: seq<Xattr>)
    requires multiset(part) + multiset(rest) == multiset(all) && multiset(part) == multiset(all)
    ensures rest == []
  {
    assert |multiset(part) + multiset(rest)| == |multiset(part)| + |multiset(rest)|;
    assert |rest| == |multiset(rest)|;
  }

  /** And it keeps each family exactly when that family differs from what the file system shows. */
  lemma RecordMinimal(p: Primitives, desired: Metadata, native: Metadata, omit: Omit, stored: Xattr -> bool,
                      unstored: Xattr -> bool, birth: bool, path: bytes)
    requires Restored(p, desired, native, omit, stored, birth)
    ensures match BuildRecord(desired, native, path, Where(desired.xattrs, unstored),
                              KeepingFor(p, desired, native, omit, birth))
            case None => true
            case Some(r) =>
              && (r.aclOverride <==> desired.aces != native.aces || desired.nativeAcl != native.nativeAcl)
              && (r.finderOverride <==>
                  desired.finderFlags != native.finderFlags || desired.finderInfo != native.finderInfo)
              && (r.observedMtime.Some? <==> desired.times.mtime != native.times.mtime)
              && (r.meta.aces == if r.aclOverride then desired.aces else [])
              && (r.meta.nativeAcl == if r.aclOverride then desired.nativeAcl else None)
              && (r.meta.finderFlags == if r.finderOverride then desired.finderFlags else 0)
              && (r.meta.finderInfo == if r.finderOverride then desired.finderInfo else None)
              && (r.meta.times.mtime == if r.observedMtime.Some? then desired.times.mtime else None)
              && (forall x :: x in r.meta.xattrs <==> x in desired.xattrs && unstored(x))
  {
    hide Snapshots.MetaHash, MetadataCanonical.Canonical, Where;
    KeptWhatDiffers(p, desired, native, omit, stored, birth);
    assert AclOnly(native) == AclOnly(desired) <==>
           native.aces == desired.aces && native.nativeAcl == desired.nativeAcl;
    assert FinderOnly(native) == FinderOnly(desired) <==>
           native.finderFlags == desired.finderFlags && native.finderInfo == desired.finderInfo;
  }

  /** In a merge of any record with distinct keys, the native value of an attribute wins over the kept one. */
  lemma {:induction false} MergeXattrsMeans(native: seq<Xattr>, kept: seq<Xattr>)
    requires DistinctBy(kept, XattrKey)
    ensures forall x :: x in MergeXattrs(native, kept) <==> x in native || (x in kept && !HasKey(native, x))
    decreases |kept|
  {
    if kept != [] {
      var first, rest := kept[0], kept[1..];
      var next := if HasKey(native, first) then native else native + [first];
      MergeXattrsMeans(next, rest);
      forall x ensures x in MergeXattrs(native, kept) <==> x in native || (x in kept && !HasKey(native, x)) {
        if x in rest {
          var k :| 0 <= k < |rest| && rest[k] == x;
          assert XattrKey(kept[0]) != XattrKey(kept[k + 1]);
          KeyAfter(native, first, x);
        }
      }
    }
  }

  lemma KeyAfter(native: seq<Xattr>, first: Xattr, x: Xattr)
    requires XattrKey(first) != XattrKey(x)
    ensures HasKey(native + [first], x) <==> HasKey(native, x)
  {
    var all := native + [first];
    if HasKey(native, x) {
      var i :| 0 <= i < |native| && native[i].class_ == x.class_ && native[i].name == x.name;
      assert all[i].class_ == x.class_ && all[i].name == x.name;
    }
  }

  /** Each time of a merge is the kept one, absent if so marked, and otherwise the native one. */
  lemma MergeTimesMeans(native: Times, r: Record)
    requires RecordOk(r)
    ensures var t := MergeTimes(native, r);
            && (r.meta.times.atime.Some? ==> t.atime == r.meta.times.atime)
            && (r.absentTimes / 2 % 2 == 1 ==> t.atime == None)
            && (r.meta.times.atime.None? && r.absentTimes / 2 % 2 == 0 ==> t.atime == native.atime)
            && (r.meta.times.btime.Some? ==> t.btime == r.meta.times.btime)
            && (r.absentTimes / 4 % 2 == 1 ==> t.btime == None)
            && (r.meta.times.btime.None? && r.absentTimes / 4 % 2 == 0 ==> t.btime == native.btime)
            && (native.mtime != r.observedMtime ==> t.mtime == native.mtime)
            && (native.mtime == r.observedMtime ==> t.mtime == r.meta.times.mtime)
  {
  }

  /**
   What the record speaks of reads as the record says, an override speaking of the whole family;
   what it does not speak of reads as the file system shows it.
   */
  lemma MergeSays(native: Metadata, r: Record)
    ensures var m, kept := Merged(native, r), r.meta;
            && (r.aclOverride || kept.aces != [] ==> m.aces == kept.aces)
            && (r.aclOverride || kept.nativeAcl.Some? ==> m.nativeAcl == kept.nativeAcl)
            && (r.finderOverride || kept.finderFlags != 0 ==> m.finderFlags == kept.finderFlags)
            && (r.finderOverride || kept.finderInfo.Some? ==> m.finderInfo == kept.finderInfo)
            && m.holes == native.holes && m.hardlinkTo == native.hardlinkTo
    ensures Merged(native, Record(r.name, EMPTY, 0, r.observedMtime, false, false)) == native
    ensures var m := Merged(native, r); m.(xattrs := Merged(m, r).xattrs) == Merged(m, r).(times := m.times)
  {
  }

  /** A stored modification time is ignored once the symlink shows another one; nothing else is lost. */
  lemma ChangedMtimeWins(p: Primitives, desired: Metadata, native: Metadata, omit: Omit, stored: Xattr -> bool,
                         unstored: Xattr -> bool, birth: bool, path: bytes, mtime: Time)
    requires Restored(p, desired, native, omit, stored, birth) && forall x :: unstored(x) == !stored(x)
    requires Some(mtime) != native.times.mtime && mtime.nsec < NSEC_LIMIT && TimestampsFamily !in omit
    ensures match BuildRecord(desired, native, path, Where(desired.xattrs, unstored),
                              KeepingFor(p, desired, native, omit, birth))
            case None => Touched(native, Some(mtime)) == Touched(desired, Some(mtime))
            case Some(record) =>
              var merged := Omitted(Merged(Touched(native, Some(mtime)), record), omit);
              InputFault(merged).None? && forall t :: Normalized(merged, t) <==> t == Touched(desired, Some(mtime))
  {
    hide Snapshots.MetaHash, Merged, Where, InputFault, Normalized;
    var k := KeepingFor(p, desired, native, omit, birth);
    var xattrs := Where(desired.xattrs, unstored);
    var record := Candidate(desired, native, path, xattrs, k);
    var touched := Touched(desired, Some(mtime));
    MergedContent(p, desired, native, omit, stored, unstored, birth, path, Some(mtime));
    assert MetadataCanonical.Canonical(touched) && !HasOmitted(touched, omit);
    SameContentNormalizes(Merged(Touched(native, Some(mtime)), record), touched, omit);
    if BuildRecord(desired, native, path, xattrs, k).None? {
      NothingKept(p, desired, native, omit, stored, unstored, birth);
    }
  }

  /* ---------- The record passes validation, except for one kind of name ---------- */

  lemma BasenameText(path: bytes)
    requires Paths.ValidPath(path)
    ensures var name := Basename(path);
            && name != [] && |name| <= Paths.MAX_PATH_BYTES && Utf8.Valid(name) && !Paths.BadComponent(name)
            && Paths.BACKSLASH !in name && 0 !in name
  {
    match Structure.LastSlash(path) {
      case None =>
        Paths.SplitWhole(path);
        assert path in Paths.Split(path);
      case Some(slash) =>
        Paths.LastPiece(path, slash);
        Utf8.ValidSuffix(path, slash);
        assert path[slash..][1..] == path[slash + 1..];
        assert Utf8.Valid(path[slash + 1..]);
        assert Basename(path) in Paths.Split(path);
    }
  }

  /** A basename of a valid path is itself a valid path exactly when it has no drive prefix. */
  lemma BasenameValid(path: bytes)
    requires Paths.ValidPath(path)
    ensures Paths.ValidPath(Basename(path)) <==> !Paths.DrivePrefixed(Basename(path))
  {
    var name := Basename(path);
    BasenameText(path);
    Paths.SplitWhole(name);
    assert name[0] in name;
  }

  /** The writer's record satisfies transport validation if and only if the basename has no drive prefix. */
  lemma RecordValid(p: Primitives, desired: Metadata, native: Metadata, omit: Omit, stored: Xattr -> bool,
                    unstored: Xattr -> bool, birth: bool, path: bytes)
    requires Restored(p, desired, native, omit, stored, birth) && Paths.ValidPath(path)
    ensures match BuildRecord(desired, native, path, Where(desired.xattrs, unstored),
                              KeepingFor(p, desired, native, omit, birth))
            case None => true
            case Some(record) =>
              && (Fine(record) <==> !Paths.DrivePrefixed(Basename(path)))
              && MetadataCanonical.Canonical(record.meta)
  {
    hide Snapshots.MetaHash, Paths.ValidPath, Paths.DrivePrefixed, Basename, MetadataCanonical.Canonical, Where;
    var k := KeepingFor(p, desired, native, omit, birth);
    MarkBits(k.mtime && desired.times.mtime.None?, k.btime && desired.times.btime.None?);
    BasenameValid(path);
    KeptCanonical(desired, unstored, k);
    assert MetadataCanonical.TimeOk(native.times.mtime) by { CanonicalTimes(native); }
  }

  lemma CanonicalTimes(m: Metadata)
    requires MetadataCanonical.Canonical(m)
    ensures MetadataCanonical.TimesOk(m.times)
  {
  }

  lemma KeptCanonical(desired: Metadata, unstored: Xattr -> bool, k: Keeping)
    requires MetadataCanonical.Canonical(desired)
    ensures MetadataCanonical.Canonical(Kept(desired, Where(desired.xattrs, unstored), k))
  {
    hide XattrLt, MetadataCanonical.XattrOk;
    WhereIncreasing(desired.xattrs, unstored);
    var xattrs := Where(desired.xattrs, unstored);
    forall i | 0 <= i < |xattrs| ensures MetadataCanonical.XattrOk(xattrs[i]) {
      assert xattrs[i] in desired.xattrs;
    }
  }

  /** The names concerned do occur: a drive prefix is only looked for at the start of an entry path. */
  lemma DrivePrefixedBasename()
    ensures var path := Ascii("d/C:x");
            Paths.ValidPath(path) && Paths.DrivePrefixed(Basename(path))
  {
    hide Paths.Split, Utf8.Valid, Structure.LastSlash;
    var path := Ascii("d/C:x");
    var dir, name: bytes := [0x64], [0x43, 0x3a, 0x78];
    assert path == dir + [Paths.SLASH] + name;
    Utf8.AsciiDecodes(path);
    Paths.SplitWhole(name);
    Paths.SplitFirst(dir, name);
    assert path[1] in path;
    assert Structure.LastSlash(path) == Some(1);
    assert Basename(path) == path[2..] == name;
  }

  function AtTime(sec: i64): (m: Metadata) { Touched(EMPTY, Some(Time(sec, 0))) }

  lemma AtTimeCanonical(sec: i64)
    ensures MetadataCanonical.Canonical(AtTime(sec))
  {
  }

  /** A whole input of the kind: the symlink `d/C:x` shows another time than wanted, and its record is refused. */
  lemma DrivePrefixedRecord(p: Primitives)
    ensures var path, desired, native, all, nothing := Ascii("d/C:x"), AtTime(1), AtTime(2),
            (_: Xattr) => true, (_: Xattr) => false;
            var record := BuildRecord(desired, native, path, Where(desired.xattrs, nothing),
                                      KeepingFor(p, desired, native, {}, false));
            && Paths.ValidPath(path) && Restored(p, desired, native, {}, all, false)
            && record.Some? && !Fine(record.value)
  {
    hide Snapshots.MetaHash, Paths.ValidPath, Paths.DrivePrefixed, Basename, MetadataCanonical.Canonical, Fine;
    var path, desired, native, all, nothing := Ascii("d/C:x"), AtTime(1), AtTime(2),
      (_: Xattr) => true, (_: Xattr) => false;
    AtTimeCanonical(1);
    AtTimeCanonical(2);
    DrivePrefixedBasename();
    assert Restored(p, desired, native, {}, all, false);
    RecordValid(p, desired, native, {}, all, nothing, false, path);
  }

  /* ---------- Records of one parent ---------- */

  function Parent(path: bytes): (parent: bytes) {
    match Structure.LastSlash(path)
    case None => []
    case Some(slash) => path[..slash]
  }

  /** Entries come in path order, so the records collected for one parent come in name order. */
  lemma SiblingNamesIncrease(a: bytes, b: bytes)
    requires Paths.ValidPath(a) && Paths.ValidPath(b) && Parent(a) == Parent(b) && Lt(a, b)
    ensures Lt(Basename(a), Basename(b))
  {
    hide Lt, Paths.Split, Utf8.Valid, Structure.LastSlash;
    if Parent(a) != [] {
      var prefix := Parent(a) + [Paths.SLASH];
      assert a == prefix + Basename(a);
      assert b == prefix + Basename(b);
      LtCommonPrefix(prefix, Basename(a), Basename(b));
    }
  }
}
