/**
 Linux POSIX ACLs (rust/src/linux_acl.rs): kernel records in the version 2 layout of
 posix_acl_xattr.h, the validity rules of acl(5), and conversion to and from portable entries.
 */
module LinuxAcl {
  import opened Wire
  import opened Listing
  import opened Metadata
  import opened Sorting
  import Decimals
  import MetadataNormalize
  import Utf8

  datatype AclError = InvalidAcl | UnrepresentableAcl

  /** One kernel record: raw tag, permission bits and numeric principal. */
  datatype Record = Record(tag: u16, permissions: u16, id: u32)

  /* ---------- Kernel tags ---------- */

  function KernelTag(t: AceTag): (n: u16)
  {
    match t
    case Owner => 1
    case NamedUser => 2
    case Group => 4
    case NamedGroup => 8
    case Mask => 16
    case Everyone => 32
  }

  function TagOf(n: nat): (r: Option<AceTag>)
    ensures forall t: AceTag :: r == Some(t) <==> n == KernelTag(t)
  {
    if n == 1 then Some(Owner) else if n == 2 then Some(NamedUser) else if n == 4 then Some(Group)
    else if n == 8 then Some(NamedGroup) else if n == 16 then Some(Mask) else if n == 32 then Some(Everyone)
    else None
  }

  predicate IsNamed(t: AceTag) { t.NamedUser? || t.NamedGroup? }

  /** Kernel bits are read = 4, write = 2, execute = 1: the portable bits reversed. */
  function Reversed(p: nat): (q: Permissions)
  {
    4 * (p % 2) + 2 * (p / 2 % 2) + p / 4 % 2
  }

  lemma ReversedBits(r: nat, w: nat, x: nat)
    requires r < 2 && w < 2 && x < 2
    ensures Reversed(r + 2 * w + 4 * x) == 4 * r + 2 * w + x
  {
  }

  lemma ReversedTwice(p: Permissions)
    ensures Reversed(Reversed(p)) == p
  {
    hide Reversed;
    var r, w, x := p % 2, p / 2 % 2, p / 4;
    ReversedBits(r, w, x);
    ReversedBits(x, w, r);
  }

  /* ---------- Valid ACLs ---------- */

  predicate RawLt(a: Record, b: Record) {
    a.tag < b.tag || (a.tag == b.tag && a.id < b.id)
  }

  lemma RawOrder()
    ensures WeakOrder(RawLt)
  {
  }

  /** Exactly the named entries carry a principal. */
  predicate RecordOk(r: Record) {
    && TagOf(r.tag).Some? && r.permissions <= 7
    && (IsNamed(TagOf(r.tag).value) <==> r.id != U32_MAX)
  }

  predicate Has(rs: seq<Record>, t: AceTag) {
    exists i :: 0 <= i < |rs| && rs[i].tag == KernelTag(t)
  }

  predicate AllOk(rs: seq<Record>) { forall i :: 0 <= i < |rs| ==> RecordOk(rs[i]) }

  /** The three base entries, and a mask as soon as anything is named. */
  predicate Complete(rs: seq<Record>) {
    && Has(rs, Owner) && Has(rs, Group) && Has(rs, Everyone)
    && (Has(rs, NamedUser) || Has(rs, NamedGroup) ==> Has(rs, Mask))
  }

  ghost predicate ValidAcl(rs: seq<Record>) {
    AllOk(rs) && StrictlyOrdered(rs, RawLt) && Complete(rs)
  }

  /* ---------- The lists of acl(5), written out ---------- */

  predicate Base(r: Record, tag: nat) { r.tag == tag && r.permissions <= 7 && r.id == 0xffff_ffff }

  /** Named entries of one kind, by increasing principal. */
  predicate Run(rs: seq<Record>, tag: nat) {
    && (forall i :: 0 <= i < |rs| ==> rs[i].tag == tag && rs[i].permissions <= 7 && rs[i].id < 0xffff_ffff)
    && (forall i, j :: 0 <= i < j < |rs| ==> rs[i].id < rs[j].id)
  }

  /** Owner, users, group, groups, a mask that may be missing when nothing is named, everyone. */
  predicate Laid(rs: seq<Record>, o: Record, us: seq<Record>, g: Record, gs: seq<Record>, m: seq<Record>, e: Record) {
    && rs == [o] + (us + ([g] + (gs + (m + [e]))))
    && Base(o, 1) && Run(us, 2) && Base(g, 4) && Run(gs, 8) && Base(e, 32)
    && (m == [] || (|m| == 1 && Base(m[0], 16)))
    && (us != [] || gs != [] ==> m != [])
  }

  predicate TagIn(rs: seq<Record>, tag: nat) { exists i :: 0 <= i < |rs| && rs[i].tag == tag }

  predicate Above(rs: seq<Record>, tag: nat) { forall i :: 0 <= i < |rs| ==> rs[i].tag > tag }

  predicate Only(rs: seq<Record>, tag: nat) { forall i :: 0 <= i < |rs| ==> rs[i].tag == tag }

  ghost predicate Neat(rs: seq<Record>) { AllOk(rs) && StrictlyOrdered(rs, RawLt) }

  /** The records with the least tag come first. */
  lemma {:induction false} Peel(rs: seq<Record>, tag: nat) returns (first: seq<Record>, rest: seq<Record>)
    requires tag > 0 && Neat(rs) && Above(rs, tag - 1)
    ensures rs == first + rest && Neat(first) && Neat(rest) && Only(first, tag) && Above(rest, tag)
    ensures forall t :: TagIn(rs, t) <==> (t == tag && first != []) || TagIn(rest, t)
  {
    var n := 0;
    while n < |rs| && rs[n].tag == tag
      invariant 0 <= n <= |rs| && Only(rs[..n], tag)
    {
      n := n + 1;
    }
    first, rest := rs[..n], rs[n..];
    forall i | 0 <= i < |rest| ensures rest[i].tag > tag {
      assert rest[i] == rs[n + i];
      assert rs[n].tag > tag && (i > 0 ==> RawLt(rs[n], rs[n + i]));
    }
    forall t ensures TagIn(rs, t) <==> (t == tag && first != []) || TagIn(rest, t) {
      TagInConcat(first, rest, t);
      assert first != [] ==> first[0].tag == tag;
    }
    assert rs == first + rest;
  }

  lemma TagInConcat(a: seq<Record>, b: seq<Record>, t: nat)
    ensures TagIn(a + b, t) <==> TagIn(a, t) || TagIn(b, t)
  {
    if i :| 0 <= i < |a| && a[i].tag == t {
      assert (a + b)[i] == a[i];
    }
    if i :| 0 <= i < |b| && b[i].tag == t {
      assert (a + b)[|a| + i] == b[i];
    }
  }

  /** An unnamed tag stands alone. */
  lemma Single(rs: seq<Record>, tag: nat)
    requires Neat(rs) && Only(rs, tag) && tag != 2 && tag != 8
    ensures |rs| <= 1 && (rs != [] ==> Base(rs[0], tag) && rs == [rs[0]])
  {
    forall i | 0 <= i < |rs| ensures Base(rs[i], tag) {
      assert RecordOk(rs[i]);
    }
    assert |rs| > 1 ==> RawLt(rs[0], rs[1]);
  }

  lemma NamedRun(rs: seq<Record>, tag: nat)
    requires Neat(rs) && Only(rs, tag) && (tag == 2 || tag == 8)
    ensures Run(rs, tag)
  {
    forall i | 0 <= i < |rs| ensures rs[i].permissions <= 7 && rs[i].id < 0xffff_ffff {
      assert RecordOk(rs[i]);
    }
    forall i, j | 0 <= i < j < |rs| ensures rs[i].id < rs[j].id {
      assert RawLt(rs[i], rs[j]);
    }
  }

  /** Between two tags of the table there is none. */
  lemma NextTag(rs: seq<Record>, tag: nat)
    requires Neat(rs) && Above(rs, tag) && tag in [1, 2, 4, 8, 16, 32]
    ensures tag == 32 ==> rs == []
    ensures tag < 32 ==> Above(rs, 2 * tag - 1)
  {
    forall i | 0 <= i < |rs| ensures tag < 32 && rs[i].tag > 2 * tag - 1 {
      assert RecordOk(rs[i]);
    }
    assert rs != [] ==> rs[0].tag > tag;
  }

  /** The unnamed record with the least tag, which has to be there, comes first. */
  lemma PeelOne(rs: seq<Record>, tag: nat) returns (r: Record, rest: seq<Record>)
    requires tag in [1, 4, 32] && Neat(rs) && Above(rs, tag - 1) && TagIn(rs, tag)
    ensures rs == [r] + rest && Base(r, tag) && Neat(rest) && Above(rest, tag) && (tag == 32 ==> rest == [])
    ensures tag < 32 ==> Above(rest, 2 * tag - 1)
    ensures forall t :: TagIn(rs, t) <==> t == tag || TagIn(rest, t)
  {
    var first;
    first, rest := Peel(rs, tag);
    NextTag(rest, tag);
    Single(first, tag);
    assert !TagIn(rest, tag);
    r := first[0];
  }

  lemma PeelRun(rs: seq<Record>, tag: nat) returns (run: seq<Record>, rest: seq<Record>)
    requires tag in [2, 8] && Neat(rs) && Above(rs, tag - 1)
    ensures rs == run + rest && Run(run, tag) && Neat(rest) && Above(rest, 2 * tag - 1)
    ensures forall t :: TagIn(rs, t) <==> (t == tag && run != []) || TagIn(rest, t)
  {
    run, rest := Peel(rs, tag);
    NextTag(rest, tag);
    NamedRun(run, tag);
  }

  /** A valid list falls into the six parts in order. */
  lemma ValidIsLaid(rs: seq<Record>)
    requires ValidAcl(rs)
    ensures exists o, us, g, gs, m, e :: Laid(rs, o, us, g, gs, m, e)
  {
    CompleteTags(rs);
    AboveNone(rs);
    hide AllOk, Complete, Neat, TagIn, Above, Only, Run, Base;
    assert Neat(rs) by { ValidNeat(rs); }
    var o, r1 := PeelOne(rs, 1);
    var us, r2 := PeelRun(r1, 2);
    var g, r3 := PeelOne(r2, 4);
    var gs, r4 := PeelRun(r3, 8);
    var m, r5 := Peel(r4, 16);
    NextTag(r5, 16);
    Single(m, 16);
    var e, r6 := PeelOne(r5, 32);
    assert r5 == [e];
    assert Laid(rs, o, us, g, gs, m, e);
  }

  lemma ValidNeat(rs: seq<Record>)
    requires ValidAcl(rs)
    ensures Neat(rs)
  {
  }

  lemma Follows(a: seq<Record>, tag: nat, b: seq<Record>)
    requires Neat(a) && Neat(b) && Only(a, tag) && Above(b, tag)
    ensures Neat(a + b)
  {
  }

  lemma OneNeat(r: Record, tag: nat)
    requires Base(r, tag) && tag in [1, 4, 16, 32]
    ensures Neat([r]) && Only([r], tag)
  {
  }

  lemma RunNeat(rs: seq<Record>, tag: nat)
    requires Run(rs, tag) && (tag == 2 || tag == 8)
    ensures Neat(rs) && Only(rs, tag)
  {
  }

  lemma AboveConcat(a: seq<Record>, tag: nat, b: seq<Record>, low: nat)
    requires low < tag && Only(a, tag) && Above(b, tag)
    ensures Above(a + b, low)
  {
  }

  /** One more part in front. */
  lemma PartInFront(a: seq<Record>, tag: nat, b: seq<Record>, low: nat)
    requires low < tag && Neat(a) && Neat(b) && Only(a, tag) && Above(b, tag)
    ensures Neat(a + b) && Above(a + b, low)
    ensures forall t :: TagIn(a + b, t) <==> (t == tag && a != []) || TagIn(b, t)
  {
    Follows(a, tag, b);
    AboveConcat(a, tag, b, low);
    forall t ensures TagIn(a + b, t) <==> (t == tag && a != []) || TagIn(b, t) {
      TagInConcat(a, b, t);
      assert a != [] ==> a[0].tag == tag;
    }
  }

  lemma LaidIsValid(rs: seq<Record>, o: Record, us: seq<Record>, g: Record, gs: seq<Record>, m: seq<Record>, e: Record)
    requires Laid(rs, o, us, g, gs, m, e)
    ensures ValidAcl(rs)
  {
    CompleteTags(rs);
    NothingIn();
    OneNeat(o, 1);
    RunNeat(us, 2);
    OneNeat(g, 4);
    RunNeat(gs, 8);
    assert Neat(m) && Only(m, 16) by {
      if m != [] {
        assert m == [m[0]];
        OneNeat(m[0], 16);
      }
    }
    OneNeat(e, 32);
    assert Neat([]) && Above([], 32);
    assert Neat(rs) ==> AllOk(rs) && StrictlyOrdered(rs, RawLt);
    hide RecordOk, Complete, Neat, TagIn, Above, Only, Run, Base;
    assert [e] + [] == [e];
    PartInFront([e], 32, [], 16);
    PartInFront(m, 16, [e], 8);
    PartInFront(gs, 8, m + [e], 4);
    PartInFront([g], 4, gs + (m + [e]), 2);
    PartInFront(us, 2, [g] + (gs + (m + [e])), 1);
    PartInFront([o], 1, us + ([g] + (gs + (m + [e]))), 0);
  }

  /** The valid lists are exactly those that acl(5) lays out. */
  lemma ValidMeans(rs: seq<Record>)
    ensures ValidAcl(rs) <==> exists o, us, g, gs, m, e :: Laid(rs, o, us, g, gs, m, e)
  {
    hide ValidAcl, Laid;
    if ValidAcl(rs) {
      ValidIsLaid(rs);
    }
    if o, us, g, gs, m, e :| Laid(rs, o, us, g, gs, m, e) {
      LaidIsValid(rs, o, us, g, gs, m, e);
    }
  }

  lemma NothingIn()
    ensures forall t :: !TagIn([], t)
  {
  }

  lemma AboveNone(rs: seq<Record>)
    requires AllOk(rs)
    ensures Above(rs, 0)
  {
    forall i | 0 <= i < |rs| ensures rs[i].tag > 0 {
      assert RecordOk(rs[i]);
    }
  }

  lemma CompleteTags(rs: seq<Record>)
    ensures Complete(rs) <==>
            TagIn(rs, 1) && TagIn(rs, 4) && TagIn(rs, 32) && (TagIn(rs, 2) || TagIn(rs, 8) ==> TagIn(rs, 16))
  {
  }

  /* ---------- Layout ---------- */

  function PutRaw(r: Record, tail: bytes): (s: bytes)
    ensures |s| == 8 + |tail|
  {
    PutWord(2, r.tag, PutWord(2, r.permissions, PutWord(4, r.id, tail)))
  }

  function RawOf(s: bytes): (r: Record)
    requires |s| >= 8
  {
    WordSizes();
    Record(FromLe(s[..2]), FromLe(s[2..4]), FromLe(s[4..8]))
  }

  /** The whole records of a body, eight bytes each. */
  function RawRecords(s: bytes): (rs: seq<Record>)
    ensures |rs| == |s| / 8
  {
    if |s| < 8 then [] else [RawOf(s)] + RawRecords(s[8..])
  }

  predicate Layout(b: bytes) {
    |b| >= 4 && (|b| - 4) % 8 == 0 && b[..4] == Le(4, 2)
  }

  function Entries(b: bytes): (rs: seq<Record>) {
    if |b| < 4 then [] else RawRecords(b[4..])
  }

  /** What the kernel interface accepts: nothing at all, or a valid list in version 2 layout. */
  ghost predicate Accepted(b: bytes) {
    b == [] || (Layout(b) && ValidAcl(Entries(b)))
  }

  function Bytes(rs: seq<Record>): (b: bytes) {
    if rs == [] then [] else PutWord(4, 2, PutAll(rs, PutRaw, []))
  }

  lemma RawOfPut(r: Record, tail: bytes)
    ensures RawOf(PutRaw(r, tail)) == r && PutRaw(r, tail)[8..] == tail
  {
    var s := PutRaw(r, tail);
    WordSizes();
    FromLeOfLe(2, r.tag);
    FromLeOfLe(2, r.permissions);
    FromLeOfLe(4, r.id);
    assert s[..2] == Le(2, r.tag);
    assert s[2..4] == Le(2, r.permissions);
    assert s[4..8] == Le(4, r.id);
  }

  lemma PutOfRaw(s: bytes)
    requires |s| >= 8
    ensures PutRaw(RawOf(s), s[8..]) == s
  {
    LeOfFromLe(s[..2]);
    LeOfFromLe(s[2..4]);
    LeOfFromLe(s[4..8]);
    assert s[4..] == s[4..8] + s[8..];
    assert s[2..] == s[2..4] + s[4..];
    assert s == s[..2] + s[2..];
  }

  lemma {:induction false} RecordsOfPut(rs: seq<Record>)
    ensures RawRecords(PutAll(rs, PutRaw, [])) == rs && |PutAll(rs, PutRaw, [])| == 8 * |rs|
  {
    if rs != [] {
      RecordsOfPut(rs[1..]);
      RawOfPut(rs[0], PutAll(rs[1..], PutRaw, []));
      assert rs == [rs[0]] + rs[1..];
    }
  }

  lemma {:induction false} PutOfRecords(s: bytes)
    requires |s| % 8 == 0
    ensures PutAll(RawRecords(s), PutRaw, []) == s
  {
    if |s| >= 8 {
      PutOfRecords(s[8..]);
      PutOfRaw(s);
      assert RawRecords(s)[1..] == RawRecords(s[8..]);
    }
  }

  lemma {:induction false} RecordAt(s: bytes, i: nat)
    requires 8 * i + 8 <= |s|
    ensures RawRecords(s)[i] == RawOf(s[8 * i..8 * i + 8])
  {
    if i == 0 {
      assert s[..8][..2] == s[..2] && s[..8][2..4] == s[2..4] && s[..8][4..8] == s[4..8];
    } else {
      RecordAt(s[8..], i - 1);
      assert s[8..][8 * (i - 1)..8 * (i - 1) + 8] == s[8 * i..8 * i + 8];
    }
  }

  /** Accepted byte strings and valid record lists determine each other. */
  lemma BytesOfEntries(b: bytes)
    requires Accepted(b)
    ensures Bytes(Entries(b)) == b
  {
    if b != [] {
      assert Has(Entries(b), Owner);
      PutOfRecords(b[4..]);
    }
  }

  lemma EntriesOfBytes(rs: seq<Record>)
    ensures Entries(Bytes(rs)) == rs
    ensures Accepted(Bytes(rs)) <==> rs == [] || ValidAcl(rs)
  {
    RecordsOfPut(rs);
    if rs != [] {
      assert Bytes(rs)[4..] == PutAll(rs, PutRaw, []);
      assert Bytes(rs)[..4] == Le(4, 2);
    }
  }

  /* ---------- PosixAcl::new ---------- */

  function BaseTag(t: AceTag): (base: set<AceTag>) {
    if IsNamed(t) then {} else {t}
  }

  /** What the scanning loop has accumulated after a prefix of the records. */
  ghost predicate Scanned(rs: seq<Record>, i: nat, base: set<AceTag>, named: bool, lastTag: u16, lastId: u32) {
    && i <= |rs|
    && AllOk(rs[..i]) && StrictlyOrdered(rs[..i], RawLt)
    && (forall t: AceTag :: t in base <==> !IsNamed(t) && Has(rs[..i], t))
    && (named <==> Has(rs[..i], NamedUser) || Has(rs[..i], NamedGroup))
    && (if i == 0 then lastTag == 0 else lastTag == rs[i - 1].tag && lastId == rs[i - 1].id)
  }

  lemma HasSnoc(rs: seq<Record>, i: nat, t: AceTag)
    requires i < |rs|
    ensures Has(rs[..i + 1], t) <==> Has(rs[..i], t) || rs[i].tag == KernelTag(t)
  {
    var before, all := rs[..i], rs[..i + 1];
    assert forall k :: 0 <= k < i ==> before[k] == all[k];
    assert all[i] == rs[i];
    if Has(before, t) {
      var k :| 0 <= k < |before| && before[k].tag == KernelTag(t);
      assert all[k].tag == KernelTag(t);
    }
  }

  lemma OrderedSnoc(rs: seq<Record>, i: nat)
    requires i < |rs| && StrictlyOrdered(rs[..i], RawLt)
    requires i > 0 ==> RawLt(rs[i - 1], rs[i])
    ensures StrictlyOrdered(rs[..i + 1], RawLt)
  {
    var before, all := rs[..i], rs[..i + 1];
    forall a, c | 0 <= a < c < |all| ensures RawLt(all[a], all[c]) {
      if c < i {
        assert RawLt(before[a], before[c]);
      } else if a < i - 1 {
        assert RawLt(before[a], before[i - 1]);
      }
    }
  }

  lemma ScanStep(rs: seq<Record>, i: nat, base: set<AceTag>, named: bool, lastTag: u16, lastId: u32)
    requires Scanned(rs, i, base, named, lastTag, lastId) && i < |rs| && RecordOk(rs[i])
    requires i > 0 ==> RawLt(rs[i - 1], rs[i])
    ensures TagOf(rs[i].tag).Some?
    ensures var t := TagOf(rs[i].tag).value;
            Scanned(rs, i + 1, base + BaseTag(t), named || IsNamed(t), rs[i].tag, rs[i].id)
  {
    OrderedSnoc(rs, i);
    forall t: AceTag ensures Has(rs[..i + 1], t) <==> Has(rs[..i], t) || rs[i].tag == KernelTag(t) {
      HasSnoc(rs, i, t);
    }
    assert AllOk(rs[..i + 1]) by {
      assert rs[..i + 1] == rs[..i] + [rs[i]];
    }
  }

  lemma Refused(rs: seq<Record>, i: nat)
    requires i < |rs|
    requires !RecordOk(rs[i]) || (i > 0 && !RawLt(rs[i - 1], rs[i]))
    ensures !ValidAcl(rs)
  {
  }

  /** The single pass accepts exactly the valid ACLs. */
  method PosixAclNew(b: bytes) returns (ok: bool)
    ensures ok <==> Accepted(b)
  {
    hide TagOf, Scanned, Le, RawOf, RawRecords, RecordOk, ValidAcl;
    if b == [] {
      return true;
    }
    if |b| < 4 || (|b| - 4) % 8 != 0 || b[..4] != Le(4, 2) {
      return false;
    }
    ghost var rs := Entries(b);
    var base: set<AceTag>, named, lastTag: u16, lastId: u32 := {}, false, 0, 0;
    ScanStart(rs);
    for i := 0 to (|b| - 4) / 8
      invariant Scanned(rs, i, base, named, lastTag, lastId)
    {
      RecordAt(b[4..], i);
      assert b[4 + 8 * i..12 + 8 * i] == b[4..][8 * i..8 * i + 8];
      var raw := RawOf(b[4 + 8 * i..12 + 8 * i]);
      ScanLast(rs, i, base, named, lastTag, lastId);
      var fine := CheckRecord(raw, lastTag, lastId);
      if !fine {
        Refused(rs, i);
        return false;
      }
      ScanStep(rs, i, base, named, lastTag, lastId);
      var t := TagOf(raw.tag).value;
      base, named, lastTag, lastId := base + BaseTag(t), named || IsNamed(t), raw.tag, raw.id;
    }
    ScanEnd(rs, base, named, lastTag, lastId);
    ok := {Owner, Group, Everyone} <= base && (named ==> Mask in base);
  }

  lemma ScanStart(rs: seq<Record>)
    ensures Scanned(rs, 0, {}, false, 0, 0)
  {
  }

  lemma ScanLast(rs: seq<Record>, i: nat, base: set<AceTag>, named: bool, lastTag: u16, lastId: u32)
    requires Scanned(rs, i, base, named, lastTag, lastId)
    ensures i == 0 ==> lastTag == 0
    ensures i > 0 ==> && lastTag == rs[i - 1].tag && lastId == rs[i - 1].id
                      && lastTag != 0 && RecordOk(Record(lastTag, 0, lastId))
  {
    if i > 0 {
      assert rs[..i][i - 1] == rs[i - 1] && RecordOk(rs[..i][i - 1]);
    }
  }

  lemma ScanEnd(rs: seq<Record>, base: set<AceTag>, named: bool, lastTag: u16, lastId: u32)
    requires Scanned(rs, |rs|, base, named, lastTag, lastId)
    ensures ValidAcl(rs) <==> {Owner, Group, Everyone} <= base && (named ==> Mask in base)
  {
    assert rs[..|rs|] == rs;
    assert {Owner, Group, Everyone} <= base <==> Owner in base && Group in base && Everyone in base;
  }

  /** The checks on one record, given the tag and principal before it (zero at the start). */
  method CheckRecord(raw: Record, lastTag: u16, lastId: u32) returns (ok: bool)
    requires lastTag != 0 ==> RecordOk(Record(lastTag, 0, lastId))
    ensures ok <==> RecordOk(raw) && (lastTag == 0 || RawLt(Record(lastTag, 0, lastId), raw))
  {
    if raw.permissions > 7 || raw.tag < lastTag {
      return false;
    }
    var t := TagOf(raw.tag);
    if t.None? {
      return false;
    }
    if IsNamed(t.value) {
      ok := !(raw.id == U32_MAX || (raw.tag == lastTag && raw.id <= lastId));
    } else {
      ok := !(raw.id != U32_MAX || raw.tag == lastTag);
    }
  }

  /* ---------- Conversion ---------- */

  function PortableAce(r: Record): (a: Ace)
    requires RecordOk(r)
  {
    var t := TagOf(r.tag).value;
    Ace(t, Reversed(r.permissions), if IsNamed(t) then Decimals.Print(r.id) else [])
  }

  function KernelRecord(a: Ace): (r: Option<Record>)
    ensures r.Some? ==> r.value.tag == KernelTag(a.tag)
  {
    if IsNamed(a.tag) then
      var id :- Decimals.Parse(a.name);
      Some(Record(KernelTag(a.tag), Reversed(a.permissions), id))
    else Some(Record(KernelTag(a.tag), Reversed(a.permissions), U32_MAX))
  }

  lemma KernelOfPortable(r: Record)
    requires RecordOk(r)
    ensures KernelRecord(PortableAce(r)) == Some(r)
  {
    ReversedTwice(r.permissions);
    Decimals.ParseOfPrint(r.id);
  }

  function Portable(rs: seq<Record>): (aces: seq<Ace>)
    requires AllOk(rs)
    ensures |aces| == |rs|
    ensures forall i :: 0 <= i < |rs| ==> aces[i] == PortableAce(rs[i])
  {
    seq(|rs|, i requires 0 <= i < |rs| => PortableAce(rs[i]))
  }

  /** `portable` over an accepted byte string. */
  method PortableAces(b: bytes) returns (aces: seq<Ace>)
    requires Accepted(b)
    ensures aces == if b == [] then [] else Portable(Entries(b))
  {
    hide ValidAcl, RecordOk, RawOf, RawRecords, PortableAce, Le;
    aces := [];
    if b == [] {
      return;
    }
    AcceptedEntries(b);
    ghost var rs := Entries(b);
    for i := 0 to (|b| - 4) / 8
      invariant |aces| == i
      invariant forall k :: 0 <= k < i ==> aces[k] == PortableAce(rs[k])
    {
      RecordAt(b[4..], i);
      assert b[4 + 8 * i..12 + 8 * i] == b[4..][8 * i..8 * i + 8];
      var ace := ConvertRecord(b[4 + 8 * i..12 + 8 * i]);
      aces := aces + [ace];
    }
  }

  /** One record: only the low permission byte is looked at, which is all there is to it. */
  method ConvertRecord(entry: bytes) returns (a: Ace)
    requires |entry| == 8 && RecordOk(RawOf(entry))
    ensures a == PortableAce(RawOf(entry))
  {
    var raw := RawOf(entry);
    LowByte(entry[2..4]);
    var t := TagOf(raw.tag).value;
    var name := [];
    if IsNamed(t) {
      name := Decimals.Decimal(raw.id);
    }
    a := Ace(t, Reversed(entry[2]), name);
  }

  lemma LowByte(s: bytes)
    requires |s| == 2 && FromLe(s) < 256
    ensures FromLe(s) == s[0]
  {
    assert FromLe(s) == s[0] + 256 * FromLe(s[1..]);
  }

  /* ---------- Conversion, byte by byte ---------- */

  function Two(low: nat, high: nat): nat { low + 256 * high }

  function Four(a: nat, b: nat, c: nat, d: nat): nat { a + 256 * b + 65536 * c + 16777216 * d }

  lemma TwoBytes(s: bytes)
    requires |s| == 2
    ensures FromLe(s) == Two(s[0], s[1])
  {
    assert FromLe(s) == s[0] + 256 * FromLe(s[1..]);
    assert FromLe(s[1..]) == s[1] + 256 * FromLe(s[1..][1..]);
  }

  lemma FourBytes(s: bytes)
    requires |s| == 4
    ensures FromLe(s) == Four(s[0], s[1], s[2], s[3])
  {
    var t := s[2..];
    TwoBytes(t);
    assert s[1..][1..] == t;
    assert FromLe(s) == s[0] + 256 * FromLe(s[1..]);
    assert FromLe(s[1..]) == s[1] + 256 * FromLe(t);
  }

  /** The fields of the record that starts at byte `at`. */
  lemma RecordBytes(b: bytes, i: nat)
    requires |b| >= 4 && (|b| - 4) % 8 == 0 && i < (|b| - 4) / 8
    ensures |Entries(b)| == (|b| - 4) / 8
    ensures var r, at := Entries(b)[i], 4 + 8 * i;
            && r.tag == Two(b[at], b[at + 1]) && r.permissions == Two(b[at + 2], b[at + 3])
            && r.id == Four(b[at + 4], b[at + 5], b[at + 6], b[at + 7])
  {
    hide FromLe;
    var c := b[4..][8 * i..8 * i + 8];
    RecordAt(b[4..], i);
    TwoBytes(c[..2]);
    TwoBytes(c[2..4]);
    FourBytes(c[4..8]);
    assert forall k :: 0 <= k < 8 ==> c[k] == b[4 + 8 * i + k];
  }

  /** The portable entries of an accepted byte string. */
  ghost function PortableOf(b: bytes): (aces: seq<Ace>)
    requires Accepted(b)
    ensures |aces| == |Entries(b)|
  {
    AcceptedEntries(b);
    Portable(Entries(b))
  }

  /** The tag numbers and permission bits of posix_acl_xattr.h. */
  predicate SaysTag(a: Ace, tag: nat, permissions: nat) {
    && (a.tag == Owner <==> tag == 1) && (a.tag == NamedUser <==> tag == 2) && (a.tag == Group <==> tag == 4)
    && (a.tag == NamedGroup <==> tag == 8) && (a.tag == Mask <==> tag == 16) && (a.tag == Everyone <==> tag == 32)
    && a.permissions == permissions / 4 % 2 + 2 * (permissions / 2 % 2) + 4 * (permissions % 2)
  }

  /** A principal as a decimal name, or none. */
  predicate SaysName(a: Ace, tag: nat, id: nat) {
    if tag == 2 || tag == 8 then id < U32_MAX && a.name == Decimals.Print(id) else id == U32_MAX && a.name == []
  }

  /** What each entry of an accepted byte string says, read off its eight bytes. */
  lemma PortableBytes(b: bytes, i: nat)
    requires Accepted(b) && b != [] && i < (|b| - 4) / 8
    ensures |PortableOf(b)| == (|b| - 4) / 8
    ensures var a, at := PortableOf(b)[i], 4 + 8 * i;
            && b[at + 1] == 0 && b[at + 2] < 8 && b[at + 3] == 0 && SaysTag(a, b[at], b[at + 2])
            && SaysName(a, b[at], Four(b[at + 4], b[at + 5], b[at + 6], b[at + 7]))
  {
    hide Entries, ValidAcl, SaysTag, SaysName;
    AcceptedEntries(b);
    RecordBytes(b, i);
    RecordFields(Entries(b)[i]);
  }

  lemma RecordFields(r: Record)
    requires RecordOk(r)
    ensures r.tag < 256 && r.permissions < 8
    ensures SaysTag(PortableAce(r), r.tag, r.permissions) && SaysName(PortableAce(r), r.tag, r.id)
  {
    hide Decimals.Print;
  }

  /** The place of an entry in the order acl(5) lists them. */
  function Rank(t: AceTag): (n: nat) {
    match t
    case Owner => 0
    case NamedUser => 1
    case Group => 2
    case NamedGroup => 3
    case Mask => 4
    case Everyone => 5
  }

  /** Entries come in that order, and only named users and named groups can repeat. */
  lemma PortableOrder(b: bytes, i: nat, j: nat)
    requires Accepted(b) && i < j < |PortableOf(b)|
    ensures var aces := PortableOf(b);
            || Rank(aces[i].tag) < Rank(aces[j].tag)
            || (aces[i].tag == aces[j].tag && (aces[i].tag == NamedUser || aces[i].tag == NamedGroup))
  {
    hide Entries, ValidAcl, Decimals.Print;
    AcceptedEntries(b);
    var rs := Entries(b);
    assert RawLt(rs[i], rs[j]);
    RecordFields(rs[i]);
    RecordFields(rs[j]);
  }

  /** The other way round: how a portable entry is written. */
  lemma EncodedFields(a: Ace)
    ensures var r := KernelRecord(a);
            && (a.tag == Owner ==> r.Some? && r.value.tag == 1) && (a.tag == Group ==> r.Some? && r.value.tag == 4)
            && (a.tag == Mask ==> r.Some? && r.value.tag == 16) && (a.tag == Everyone ==> r.Some? && r.value.tag == 32)
            && (a.tag == NamedUser && r.Some? ==> r.value.tag == 2 && Decimals.Parse(a.name) == Some(r.value.id))
            && (a.tag == NamedGroup && r.Some? ==> r.value.tag == 8 && Decimals.Parse(a.name) == Some(r.value.id))
            && (r.None? <==> (a.tag == NamedUser || a.tag == NamedGroup) && Decimals.Parse(a.name).None?)
            && (r.Some? && a.tag != NamedUser && a.tag != NamedGroup ==> r.value.id == 0xffff_ffff)
            && (r.Some? ==> && (r.value.permissions / 4 % 2 == 1 <==> a.permissions % 2 == 1)
                            && (r.value.permissions / 2 % 2 == 1 <==> a.permissions / 2 % 2 == 1)
                            && (r.value.permissions % 2 == 1 <==> a.permissions / 4 % 2 == 1))
  {
    hide Decimals.Parse, Reversed;
    var p := a.permissions;
    var r, w, x := p % 2, p / 2 % 2, p / 4;
    ReversedBits(r, w, x);
    BitsBack(4 * r + 2 * w + x, r, w, x);
  }

  lemma BitsBack(q: nat, r: nat, w: nat, x: nat)
    requires r < 2 && w < 2 && x < 2 && q == 4 * r + 2 * w + x
    ensures q / 4 % 2 == r && q / 2 % 2 == w && q % 2 == x
  {
  }

  /* ---------- encode_portable ---------- */

  function Known(r: Record): Option<Record> { Some(r) }

  /** `b` is the accepted byte string whose records are exactly the converted entries, in any order. */
  ghost predicate Encodes(aces: seq<Ace>, b: bytes) {
    Accepted(b) && multiset(Map(aces, KernelRecord)) == multiset(Map(Entries(b), Known))
  }

  lemma KnownPermuted(r: seq<Record>, s: seq<Record>)
    requires multiset(Map(r, Known)) == multiset(Map(s, Known))
    ensures multiset(r) == multiset(s)
  {
    var back := (x: Option<Record>) => if x.Some? then x.value else Record(0, 0, 0);
    MapPermuted(Map(r, Known), Map(s, Known), back);
    assert Map(Map(r, Known), back) == r && Map(Map(s, Known), back) == s;
  }

  lemma AcceptedEntries(b: bytes)
    requires Accepted(b)
    ensures StrictlyOrdered(Entries(b), RawLt) && AllOk(Entries(b))
  {
  }

  /** At most one byte string encodes a list of entries. */
  lemma EncodesUnique(aces: seq<Ace>, b: bytes, c: bytes)
    requires Encodes(aces, b) && Encodes(aces, c)
    ensures b == c
  {
    hide ValidAcl;
    KnownPermuted(Entries(b), Entries(c));
    RawOrder();
    AcceptedEntries(b);
    AcceptedEntries(c);
    StrictlyOrderedUnique(Entries(b), Entries(c), RawLt);
    BytesOfEntries(b);
    BytesOfEntries(c);
  }

  /** Conversion to kernel records; the first unusable principal stops it. */
  method ToKernel(aces: seq<Ace>) returns (r: Option<seq<Record>>)
    ensures r.None? <==> exists i :: 0 <= i < |aces| && KernelRecord(aces[i]).None?
    ensures r.Some? ==> Map(r.value, Known) == Map(aces, KernelRecord)
  {
    var entries: seq<Record> := [];
    for i := 0 to |aces|
      invariant |entries| == i
      invariant forall k :: 0 <= k < i ==> KernelRecord(aces[k]) == Some(entries[k])
    {
      var id: u32 := U32_MAX;
      if IsNamed(aces[i].tag) {
        var parsed := Decimals.Principal(aces[i].name);
        if parsed.None? {
          assert KernelRecord(aces[i]).None?;
          return None;
        }
        id := parsed.value;
      }
      entries := entries + [Record(KernelTag(aces[i].tag), Reversed(aces[i].permissions), id)];
    }
    r := Some(entries);
  }

  /** Records appended one after another behind the version word. */
  method Serialize(rs: seq<Record>) returns (b: bytes)
    ensures b == PutWord(4, 2, PutAll(rs, PutRaw, []))
  {
    b := Le(4, 2);
    assert rs[0..] == rs;
    for i := 0 to |rs|
      invariant b + PutAll(rs[i..], PutRaw, []) == PutWord(4, 2, PutAll(rs, PutRaw, []))
    {
      assert rs[i..][1..] == rs[i + 1..];
      Appended(b, rs[i], PutAll(rs[i + 1..], PutRaw, []));
      b := b + Le(2, rs[i].tag) + Le(2, rs[i].permissions) + Le(4, rs[i].id);
    }
  }

  lemma Appended(b: bytes, r: Record, tail: bytes)
    ensures b + Le(2, r.tag) + Le(2, r.permissions) + Le(4, r.id) + tail == b + PutRaw(r, tail)
  {
  }

  lemma SortedEncodes(aces: seq<Ace>, entries: seq<Record>, sorted: seq<Record>)
    requires aces != [] && Map(entries, Known) == Map(aces, KernelRecord)
    requires multiset(sorted) == multiset(entries) && Ordered(sorted, RawLt)
    ensures sorted != []
    ensures Accepted(Bytes(sorted)) ==> Encodes(aces, Bytes(sorted))
    ensures forall b :: Encodes(aces, b) ==> b == Bytes(sorted)
  {
    hide ValidAcl;
    SameElements(sorted, entries);
    EntriesOfBytes(sorted);
    MapPermuted(sorted, entries, Known);
    RawOrder();
    forall b | Encodes(aces, b) ensures b == Bytes(sorted) {
      KnownPermuted(sorted, Entries(b));
      AcceptedEntries(b);
      OrderedIsStrict(sorted, Entries(b), RawLt);
      BytesOfEntries(b);
    }
  }

  /**
   `encode_portable`: entries sorted by kernel tag and principal.  It returns exactly the byte
   string that encodes the entries, if there is one; how the sort breaks ties cannot matter.
   */
  method EncodePortable(aces: seq<Ace>) returns (r: Result<bytes, AclError>)
    ensures forall b :: r == Ok(b) <==> Encodes(aces, b)
    ensures r == Err(UnrepresentableAcl) <==> exists i :: 0 <= i < |aces| && KernelRecord(aces[i]).None?
  {
    hide ValidAcl, KernelRecord;
    if aces == [] {
      NothingEncodes();
      return Ok([]);
    }
    var entries := ToKernel(aces);
    if entries.None? {
      ghost var i :| 0 <= i < |aces| && KernelRecord(aces[i]).None?;
      NotRepresentable(aces, i);
      return Err(UnrepresentableAcl);
    }
    RawOrder();
    var sorted := Sort(entries.value, RawLt);
    SortedEncodes(aces, entries.value, sorted);
    var b := Serialize(sorted);
    var ok := PosixAclNew(b);
    assert forall i :: 0 <= i < |aces| ==> Map(aces, KernelRecord)[i] == Map(entries.value, Known)[i];
    r := if ok then Ok(b) else Err(InvalidAcl);
  }

  lemma NothingEncodes()
    ensures forall b :: Encodes([], b) <==> b == []
  {
    forall b ensures Encodes([], b) <==> b == [] {
      if Encodes([], b) {
        assert Map([], KernelRecord) == [];
        SameElements(Map([], KernelRecord), Map(Entries(b), Known));
        BytesOfEntries(b);
      }
      assert Map([], KernelRecord) == [] && Map(Entries([]), Known) == [];
    }
  }

  lemma NotRepresentable(aces: seq<Ace>, i: nat)
    requires i < |aces| && KernelRecord(aces[i]).None?
    ensures forall b :: !Encodes(aces, b)
  {
    assert Map(aces, KernelRecord)[i] == None;
    assert None in Map(aces, KernelRecord);
    forall b ensures !Encodes(aces, b) {
      if Encodes(aces, b) {
        SameElements(Map(aces, KernelRecord), Map(Entries(b), Known));
        assert false;
      }
    }
  }

  /* ---------- Round trip ---------- */

  lemma PortableConverts(rs: seq<Record>)
    requires AllOk(rs)
    ensures Map(Portable(rs), KernelRecord) == Map(rs, Known)
  {
    hide KernelRecord, PortableAce;
    forall i | 0 <= i < |rs| ensures KernelRecord(Portable(rs)[i]) == Known(rs[i]) {
      KernelOfPortable(rs[i]);
    }
  }

  /**
   For every byte string the kernel interface accepts: its portable entries, in whatever order
   they are kept, encode that byte string and no other.
   */
  lemma RoundTrip(b: bytes, aces: seq<Ace>)
    requires Accepted(b)
    requires multiset(aces) == multiset(Portable(Entries(b)))
    ensures forall c :: Encodes(aces, c) <==> c == b
  {
    var rs := Entries(b);
    hide ValidAcl, KernelRecord, PortableAce;
    AcceptedEntries(b);
    MapPermuted(aces, Portable(rs), KernelRecord);
    PortableConverts(rs);
    forall c ensures Encodes(aces, c) <==> c == b {
      if Encodes(aces, c) {
        EncodesUnique(aces, b, c);
      }
    }
  }

  lemma PortableDistinct(rs: seq<Record>)
    requires AllOk(rs) && StrictlyOrdered(rs, RawLt)
    ensures DistinctBy(Portable(rs), MetadataNormalize.AceKey)
  {
    var aces := Portable(rs);
    forall i, j | 0 <= i < j < |aces| ensures MetadataNormalize.AceKey(aces[i]) != MetadataNormalize.AceKey(aces[j]) {
      assert RawLt(rs[i], rs[j]) && RecordOk(rs[i]) && RecordOk(rs[j]);
      Decimals.ParseOfPrint(rs[i].id);
      Decimals.ParseOfPrint(rs[j].id);
    }
  }

  lemma PortableNameOk(r: Record)
    requires RecordOk(r)
    ensures AceNameOk(PortableAce(r).tag, PortableAce(r).name) && |PortableAce(r).name| < U32_LIMIT
  {
    var name := PortableAce(r).name;
    Decimals.PrintLength(r.id);
    Utf8.AsciiDecodes(name);
  }

  lemma {:induction false} PortableNamesOk(rs: seq<Record>, n: nat)
    requires AllOk(rs) && n <= |rs|
    ensures MetadataNormalize.AceInputFault(Portable(rs), n).None?
  {
    if n > 0 {
      PortableNamesOk(rs, n - 1);
      PortableNameOk(rs[n - 1]);
    }
  }

  /**
   The whole way round: the entries of any accepted byte string normalize, unless there are more
   than a metadata record can count, and what normalizing makes of them, sorted by portable tag
   and name, encodes that byte string and no other.
   */
  lemma NormalizedRoundTrip(b: bytes)
    requires Accepted(b)
    ensures var m := EMPTY.(aces := Portable(Entries(b)));
            && (MetadataNormalize.InputFault(m).None? <==> |Entries(b)| < U32_LIMIT)
            && forall t, c :: MetadataNormalize.Normalized(m, t) ==> (Encodes(t.aces, c) <==> c == b)
  {
    hide ValidAcl, PortableAce, KernelRecord;
    var rs := Entries(b);
    AcceptedEntries(b);
    PortableDistinct(rs);
    PortableNamesOk(rs, |rs|);
    var m := EMPTY.(aces := Portable(rs));
    forall t, c | MetadataNormalize.Normalized(m, t) ensures Encodes(t.aces, c) <==> c == b {
      RoundTrip(b, t.aces);
    }
  }

  /** The base entries, a mask, and named users 0, 1, 2 and so on. */
  function Crowd(users: nat): (rs: seq<Record>)
    requires users < U32_LIMIT
    ensures |rs| == users + 4
  {
    [Record(1, 0, U32_MAX)] + seq(users, i requires 0 <= i < users => Record(2, 0, i))
    + [Record(4, 0, U32_MAX), Record(16, 0, U32_MAX), Record(32, 0, U32_MAX)]
  }

  lemma CrowdValid(users: nat)
    requires users < U32_LIMIT
    ensures ValidAcl(Crowd(users))
  {
    hide TagOf;
    var rs := Crowd(users);
    assert TagOf(1) == Some(Owner) && TagOf(2) == Some(NamedUser) && TagOf(4) == Some(Group);
    assert TagOf(16) == Some(Mask) && TagOf(32) == Some(Everyone);
    assert rs[0].tag == 1 && rs[users + 1].tag == 4 && rs[users + 2].tag == 16 && rs[users + 3].tag == 32;
    assert forall i :: 1 <= i <= users ==> rs[i] == Record(2, 0, i - 1);
  }

  /** The exception does occur: an accepted byte string whose entries cannot be normalized. */
  lemma TooManyEntries() returns (b: bytes)
    ensures Accepted(b) && |Entries(b)| >= U32_LIMIT
    ensures MetadataNormalize.InputFault(EMPTY.(aces := Portable(Entries(b)))).Some?
  {
    hide ValidAcl, Crowd, MetadataNormalize.InputFault, PortableAce;
    var rs := Crowd(U32_MAX);
    CrowdValid(U32_MAX);
    b := Bytes(rs);
    EntriesOfBytes(rs);
    AcceptedEntries(b);
    NormalizedRoundTrip(b);
  }

  /* ---------- The DIFZACL container ---------- */

  const MAGIC: bytes := Ascii("DIFZACL") + [1]

  datatype Container = Container(access: bytes, default_: bytes)

  function Seal(c: Container): (r: Result<bytes, AclError>)
  {
    if |c.access| >= U32_LIMIT || |c.default_| >= U32_LIMIT then Err(InvalidAcl)
    else Ok(MAGIC + PutWord(4, |c.access|, PutWord(4, |c.default_|, c.access + c.default_)))
  }

  /** Where the two parts lie, once magic and lengths agree with the whole. */
  function Parts(b: bytes): (r: Option<Container>)
    ensures r.Some? ==> |r.value.access| < U32_LIMIT && |r.value.default_| < U32_LIMIT
  {
    if |b| < 16 || b[..8] != MAGIC then None
    else
      WordSizes();
      var access, default_ := FromLe(b[8..12]), FromLe(b[12..16]);
      if access + default_ != |b| - 16 then None
      else Some(Container(b[16..16 + access], b[16 + access..]))
  }

  ghost predicate ContainerOk(c: Container) { Accepted(c.access) && Accepted(c.default_) }

  method Open(b: bytes) returns (r: Result<Container, AclError>)
    ensures forall c :: r == Ok(c) <==> Parts(b) == Some(c) && ContainerOk(c)
    ensures r.Err? ==> r.error == InvalidAcl
  {
    var parts := Parts(b);
    if parts.None? {
      return Err(InvalidAcl);
    }
    var ok := PosixAclNew(parts.value.access);
    if !ok {
      return Err(InvalidAcl);
    }
    ok := PosixAclNew(parts.value.default_);
    if !ok {
      return Err(InvalidAcl);
    }
    r := Ok(parts.value);
  }

  lemma LaidOut(magic: bytes, x: bytes, y: bytes, access: bytes, default_: bytes)
    requires |magic| == 8 && |x| == |y| == 4
    ensures var b := magic + (x + (y + (access + default_)));
            && b[..8] == magic && b[8..12] == x && b[12..16] == y
            && b[16..16 + |access|] == access && b[16 + |access|..] == default_
  {
    var s3 := access + default_;
    var s2 := y + s3;
    var s1 := x + s2;
    var b := magic + s1;
    assert b[8..] == s1 && b[12..] == s1[4..] == s2 && b[16..] == s2[4..] == s3;
    assert b[8..12] == s1[..4] && b[12..16] == s2[..4];
    assert b[16..16 + |access|] == s3[..|access|] && b[16 + |access|..] == s3[|access|..];
  }

  lemma PartsOfSeal(c: Container)
    requires Seal(c).Ok?
    ensures Parts(Seal(c).value) == Some(c)
  {
    hide Le, FromLe;
    WordSizes();
    FromLeOfLe(4, |c.access|);
    FromLeOfLe(4, |c.default_|);
    LaidOut(MAGIC, Le(4, |c.access|), Le(4, |c.default_|), c.access, c.default_);
  }

  lemma FourPieces(b: bytes)
    requires |b| >= 16
    ensures b == b[..8] + (b[8..12] + (b[12..16] + b[16..]))
  {
    assert b == b[..8] + b[8..];
    assert b[8..] == b[8..12] + b[12..];
    assert b[12..] == b[12..16] + b[16..];
  }

  lemma TwoParts(b: bytes, n: nat)
    requires 16 + n <= |b|
    ensures b[16..] == b[16..16 + n] + b[16 + n..]
  {
  }

  lemma SealOfParts(b: bytes)
    requires Parts(b).Some?
    ensures Seal(Parts(b).value) == Ok(b)
  {
    hide Le, FromLe;
    LeOfFromLe(b[8..12]);
    LeOfFromLe(b[12..16]);
    FourPieces(b);
    TwoParts(b, |Parts(b).value.access|);
  }

  /** Containers and the byte strings that have parts are in bijection. */
  lemma ContainerBijection(c: Container, b: bytes)
    ensures Seal(c) == Ok(b) <==> Parts(b) == Some(c)
  {
    hide Seal, Parts;
    if Seal(c).Ok? {
      PartsOfSeal(c);
    }
    if Parts(b).Some? {
      SealOfParts(b);
    }
  }
}
