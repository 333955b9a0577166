/** Validation and normalization of metadata records (rust/src/metadata_canonical.rs). */
module MetadataCanonical {
  import opened Wire
  import opened ByteOrder
  import opened Holes
  import opened Metadata
  import Paths

  /* ---------- The canonical form, declaratively ---------- */

  predicate XattrsIncreasing(xs: seq<Xattr>) {
    forall i, j :: 0 <= i < j < |xs| ==> XattrLt(xs[i], xs[j])
  }

  predicate AcesIncreasing(xs: seq<Ace>) {
    forall i, j :: 0 <= i < j < |xs| ==> AceLt(xs[i], xs[j])
  }

  predicate XattrOk(x: Xattr) {
    XattrNameFault(x.class_, x.name).None? && |x.value| < U32_LIMIT
  }

  predicate AceOk(a: Ace) {
    AceNameOk(a.tag, a.name) && |a.name| < U32_LIMIT
  }

  predicate NativeAclOk(acl: Option<NativeAcl>) {
    acl.Some? ==> 0 < |acl.value.body| < U32_LIMIT
  }

  predicate TimeOk(t: Option<Time>) {
    t.Some? ==> t.value.nsec < NSEC_LIMIT
  }

  predicate TimesOk(t: Times) {
    TimeOk(t.mtime) && TimeOk(t.atime) && TimeOk(t.btime)
  }

  predicate Canonical(m: Metadata) {
    && |m.xattrs| < U32_LIMIT
    && (forall i :: 0 <= i < |m.xattrs| ==> XattrOk(m.xattrs[i]))
    && XattrsIncreasing(m.xattrs)
    && |m.aces| < U32_LIMIT
    && (forall i :: 0 <= i < |m.aces| ==> AceOk(m.aces[i]))
    && AcesIncreasing(m.aces)
    && NativeAclOk(m.nativeAcl)
    && TimesOk(m.times)
    && |m.holes| < U32_LIMIT && Proper(m.holes) && Separated(m.holes)
    && (m.hardlinkTo.Some? ==> HardlinkOk(m.hardlinkTo.value))
  }

  /* ---------- validate ---------- */

  function XattrFault(xs: seq<Xattr>, i: nat): (fault: Option<MetaError>)
    requires i < |xs|
  {
    var x := xs[i];
    if XattrNameFault(x.class_, x.name).Some? then XattrNameFault(x.class_, x.name)
    else if |x.value| >= U32_LIMIT then Some(BadMetadata)
    else if i > 0 && xs[i - 1].class_ == x.class_ && xs[i - 1].name == x.name then Some(DuplicateXattr)
    else if i > 0 && !XattrLt(xs[i - 1], x) then Some(BadMetadata)
    else None
  }

  function XattrsFault(xs: seq<Xattr>, n: nat): (fault: Option<MetaError>)
    requires n <= |xs|
  {
    if n == 0 then None
    else if XattrsFault(xs, n - 1).Some? then XattrsFault(xs, n - 1)
    else XattrFault(xs, n - 1)
  }

  function AceFault(xs: seq<Ace>, i: nat): (fault: Option<MetaError>)
    requires i < |xs|
  {
    var a := xs[i];
    if !AceNameOk(a.tag, a.name) then Some(InvalidAceName)
    else if |a.name| >= U32_LIMIT then Some(BadMetadata)
    else if i > 0 && xs[i - 1].tag == a.tag && xs[i - 1].name == a.name then Some(DuplicateAce)
    else if i > 0 && !AceLt(xs[i - 1], a) then Some(BadMetadata)
    else None
  }

  function AcesFault(xs: seq<Ace>, n: nat): (fault: Option<MetaError>)
    requires n <= |xs|
  {
    if n == 0 then None
    else if AcesFault(xs, n - 1).Some? then AcesFault(xs, n - 1)
    else AceFault(xs, n - 1)
  }

  function NativeAclFault(acl: Option<NativeAcl>): (fault: Option<MetaError>)
  {
    if acl.Some? && acl.value.body == [] then Some(EmptyNativeAcl)
    else if acl.Some? && |acl.value.body| >= U32_LIMIT then Some(BadMetadata)
    else None
  }

  function TimesFault(t: Times): (fault: Option<MetaError>)
  {
    if TimesOk(t) then None else Some(InvalidNsec)
  }

  function HoleFault(h: Hole): (fault: Option<MetaError>)
  {
    if h.length == 0 then Some(ZeroLengthHole)
    else if h.End() >= U64_LIMIT then Some(HoleOverflow)
    else None
  }

  function HolesFault(holes: seq<Hole>, n: nat): (fault: Option<MetaError>)
    requires n <= |holes|
  {
    if n == 0 then None
    else if HolesFault(holes, n - 1).Some? then HolesFault(holes, n - 1)
    else if HoleFault(holes[n - 1]).Some? then HoleFault(holes[n - 1])
    else if n > 1 && holes[n - 1].offset <= holes[n - 2].End() then Some(BadMetadata)
    else None
  }

  function FirstOf(a: Option<MetaError>, b: Option<MetaError>): (fault: Option<MetaError>) {
    if a.Some? then a else b
  }

  function CountFault(n: nat): (fault: Option<MetaError>) {
    if n < U32_LIMIT then None else Some(BadMetadata)
  }

  function HardlinkFault(link: Option<bytes>): (fault: Option<MetaError>) {
    if link.Some? && !HardlinkOk(link.value) then Some(InvalidHardlink) else None
  }

  /** The first error `validate` reports, family by family. */
  function Fault(m: Metadata): (fault: Option<MetaError>)
  {
    FirstOf(CountFault(|m.xattrs|), FirstOf(XattrsFault(m.xattrs, |m.xattrs|),
    FirstOf(CountFault(|m.aces|), FirstOf(AcesFault(m.aces, |m.aces|),
    FirstOf(NativeAclFault(m.nativeAcl), FirstOf(TimesFault(m.times),
    FirstOf(CountFault(|m.holes|), FirstOf(HolesFault(m.holes, |m.holes|),
    HardlinkFault(m.hardlinkTo)))))))))
  }

  /** The validating loops, with `previousEnd` carried from extent to extent. */
  method Validate(m: Metadata) returns (fault: Option<MetaError>)
    ensures fault == Fault(m)
  {
    hide XattrFault, AceFault, NativeAclFault, TimesFault, HardlinkFault;
    if |m.xattrs| >= U32_LIMIT {
      return Some(BadMetadata);
    }
    for i := 0 to |m.xattrs|
      invariant XattrsFault(m.xattrs, i).None?
      invariant Fault(m) == FirstOf(XattrsFault(m.xattrs, |m.xattrs|), Fault(m))
    {
      fault := XattrFault(m.xattrs, i);
      if fault.Some? {
        FaultsPersist(m, i + 1, 0, 0);
        return;
      }
    }
    if |m.aces| >= U32_LIMIT {
      return Some(BadMetadata);
    }
    for i := 0 to |m.aces|
      invariant AcesFault(m.aces, i).None?
    {
      fault := AceFault(m.aces, i);
      if fault.Some? {
        FaultsPersist(m, 0, i + 1, 0);
        return;
      }
    }
    fault := NativeAclFault(m.nativeAcl);
    if fault.Some? {
      return;
    }
    fault := TimesFault(m.times);
    if fault.Some? {
      return;
    }
    if |m.holes| >= U32_LIMIT {
      return Some(BadMetadata);
    }
    var previousEnd: Option<nat> := None;
    for i := 0 to |m.holes|
      invariant HolesFault(m.holes, i).None?
      invariant previousEnd == if i == 0 then None else Some(m.holes[i - 1].End())
    {
      fault := HoleFault(m.holes[i]);
      if fault.Some? {
        FaultsPersist(m, 0, 0, i + 1);
        return;
      }
      if previousEnd.Some? && m.holes[i].offset <= previousEnd.value {
        FaultsPersist(m, 0, 0, i + 1);
        return Some(BadMetadata);
      }
      previousEnd := Some(m.holes[i].End());
    }
    fault := HardlinkFault(m.hardlinkTo);
  }

  lemma {:induction false} FaultsPersist(m: Metadata, x: nat, a: nat, h: nat)
    requires x <= |m.xattrs| && a <= |m.aces| && h <= |m.holes|
    ensures XattrsFault(m.xattrs, x).Some? ==> XattrsFault(m.xattrs, |m.xattrs|) == XattrsFault(m.xattrs, x)
    ensures AcesFault(m.aces, a).Some? ==> AcesFault(m.aces, |m.aces|) == AcesFault(m.aces, a)
    ensures HolesFault(m.holes, h).Some? ==> HolesFault(m.holes, |m.holes|) == HolesFault(m.holes, h)
    decreases |m.xattrs| - x + |m.aces| - a + |m.holes| - h
  {
    if x < |m.xattrs| {
      FaultsPersist(m, x + 1, a, h);
    } else if a < |m.aces| {
      FaultsPersist(m, x, a + 1, h);
    } else if h < |m.holes| {
      FaultsPersist(m, x, a, h + 1);
    }
  }

  /** `new`: wrap a record whose validation reported `fault`. */
  function Wrap(m: Metadata, fault: Option<MetaError>): (r: Result<Metadata, MetaError>)
    ensures r.Ok? ==> r.value == m
  {
    if fault.Some? then Err(fault.value) else Ok(m)
  }

  /* ---------- validate decides the canonical form ---------- */

  lemma XattrLtTransitive(a: Xattr, b: Xattr, c: Xattr)
    requires XattrLt(a, b) && XattrLt(b, c)
    ensures XattrLt(a, c)
  {
    if a.class_ == b.class_ && b.class_ == c.class_ {
      LtTransitive(a.name, b.name, c.name);
    }
  }

  lemma AceLtTransitive(a: Ace, b: Ace, c: Ace)
    requires AceLt(a, b) && AceLt(b, c)
    ensures AceLt(a, c)
  {
    if a.tag == b.tag && b.tag == c.tag {
      LtTransitive(a.name, b.name, c.name);
    }
  }

  lemma XattrsIncreasingSnoc(xs: seq<Xattr>, n: nat)
    requires 0 < n <= |xs|
    ensures XattrsIncreasing(xs[..n]) <==> XattrsIncreasing(xs[..n - 1]) && (n > 1 ==> XattrLt(xs[n - 2], xs[n - 1]))
  {
    var before, all := xs[..n - 1], xs[..n];
    assert forall i :: 0 <= i < n - 1 ==> before[i] == all[i];
    if XattrsIncreasing(before) && (n > 1 ==> XattrLt(xs[n - 2], xs[n - 1])) {
      forall i, j | 0 <= i < j < n ensures XattrLt(all[i], all[j]) {
        if j == n - 1 && i < n - 2 {
          assert XattrLt(before[i], before[n - 2]);
          XattrLtTransitive(xs[i], xs[n - 2], xs[n - 1]);
        } else if j < n - 1 {
          assert XattrLt(before[i], before[j]);
        }
      }
    }
    if XattrsIncreasing(all) {
      forall i, j | 0 <= i < j < n - 1 ensures XattrLt(before[i], before[j]) {
        assert XattrLt(all[i], all[j]);
      }
      assert n > 1 ==> XattrLt(all[n - 2], all[n - 1]);
    }
  }

  lemma XattrFaultMeans(xs: seq<Xattr>, i: nat)
    requires i < |xs|
    ensures XattrFault(xs, i).None? <==> XattrOk(xs[i]) && (i > 0 ==> XattrLt(xs[i - 1], xs[i]))
  {
    LtIrreflexive(xs[i].name);
  }

  lemma {:induction false} XattrsFaultMeans(xs: seq<Xattr>, n: nat)
    requires n <= |xs|
    ensures XattrsFault(xs, n).None? <==>
            (forall i :: 0 <= i < n ==> XattrOk(xs[i])) && XattrsIncreasing(xs[..n])
  {
    hide XattrFault, XattrOk, XattrLt;
    if n > 0 {
      XattrsFaultMeans(xs, n - 1);
      XattrFaultMeans(xs, n - 1);
      XattrsIncreasingSnoc(xs, n);
    }
  }

  lemma AcesIncreasingSnoc(xs: seq<Ace>, n: nat)
    requires 0 < n <= |xs|
    ensures AcesIncreasing(xs[..n]) <==> AcesIncreasing(xs[..n - 1]) && (n > 1 ==> AceLt(xs[n - 2], xs[n - 1]))
  {
    var before, all := xs[..n - 1], xs[..n];
    assert forall i :: 0 <= i < n - 1 ==> before[i] == all[i];
    if AcesIncreasing(before) && (n > 1 ==> AceLt(xs[n - 2], xs[n - 1])) {
      forall i, j | 0 <= i < j < n ensures AceLt(all[i], all[j]) {
        if j == n - 1 && i < n - 2 {
          assert AceLt(before[i], before[n - 2]);
          AceLtTransitive(xs[i], xs[n - 2], xs[n - 1]);
        } else if j < n - 1 {
          assert AceLt(before[i], before[j]);
        }
      }
    }
    if AcesIncreasing(all) {
      forall i, j | 0 <= i < j < n - 1 ensures AceLt(before[i], before[j]) {
        assert AceLt(all[i], all[j]);
      }
      assert n > 1 ==> AceLt(all[n - 2], all[n - 1]);
    }
  }

  lemma AceFaultMeans(xs: seq<Ace>, i: nat)
    requires i < |xs|
    ensures AceFault(xs, i).None? <==> AceOk(xs[i]) && (i > 0 ==> AceLt(xs[i - 1], xs[i]))
  {
    LtIrreflexive(xs[i].name);
  }

  lemma {:induction false} AcesFaultMeans(xs: seq<Ace>, n: nat)
    requires n <= |xs|
    ensures AcesFault(xs, n).None? <==>
            (forall i :: 0 <= i < n ==> AceOk(xs[i])) && AcesIncreasing(xs[..n])
  {
    hide AceFault, AceOk, AceLt;
    if n > 0 {
      AcesFaultMeans(xs, n - 1);
      AceFaultMeans(xs, n - 1);
      AcesIncreasingSnoc(xs, n);
    }
  }

  lemma {:induction false} HolesFaultMeans(holes: seq<Hole>, n: nat)
    requires n <= |holes|
    ensures HolesFault(holes, n).None? <==> Proper(holes[..n]) && Separated(holes[..n])
  {
    if n > 0 {
      HolesFaultMeans(holes, n - 1);
      var before, all, last := holes[..n - 1], holes[..n], holes[n - 1];
      assert all == before + [last];
      if HolesFault(holes, n).None? {
        SeparatedSnoc(before, last);
      }
      if Proper(all) && Separated(all) {
        assert forall i :: 0 <= i < n - 1 ==> all[i] == before[i];
        assert Proper(before) && Separated(before);
        assert all[n - 1] == last;
        assert n > 1 ==> all[n - 2].End() < all[n - 1].offset;
      }
    }
  }

  /** `validate` accepts exactly the canonical records. */
  lemma FaultMeans(m: Metadata)
    ensures Fault(m).None? <==> Canonical(m)
  {
    XattrsFaultMeans(m.xattrs, |m.xattrs|);
    AcesFaultMeans(m.aces, |m.aces|);
    HolesFaultMeans(m.holes, |m.holes|);
    assert m.xattrs[..|m.xattrs|] == m.xattrs;
    assert m.aces[..|m.aces|] == m.aces;
    assert m.holes[..|m.holes|] == m.holes;
  }

  /* ---------- What is accepted and what is reported ---------- */

  /** Logical attributes come before raw ones, and each class is in increasing name order. */
  predicate XattrsInOrder(xs: seq<Xattr>) {
    forall i, j :: 0 <= i < j < |xs| ==>
      !(xs[i].class_ == Raw && xs[j].class_ == Logical) && (xs[i].class_ == xs[j].class_ ==> Lt(xs[i].name, xs[j].name))
  }

  /** Owner, group, everyone, named users, named groups, mask. */
  predicate TagBefore(a: AceTag, b: AceTag) {
    match a
    case Owner => b != Owner
    case Group => b != Owner && b != Group
    case Everyone => b == NamedUser || b == NamedGroup || b == Mask
    case NamedUser => b == NamedGroup || b == Mask
    case NamedGroup => b == Mask
    case Mask => false
  }

  predicate AcesInOrder(xs: seq<Ace>) {
    forall i, j :: 0 <= i < j < |xs| ==>
      TagBefore(xs[i].tag, xs[j].tag) || (xs[i].tag == xs[j].tag && Lt(xs[i].name, xs[j].name))
  }

  /** Extents that are not empty, end below 2^64, and neither overlap nor touch. */
  predicate HolesApart(holes: seq<Hole>) {
    && (forall i :: 0 <= i < |holes| ==>
          holes[i].length > 0 && holes[i].offset + holes[i].length < 0x1_0000_0000_0000_0000)
    && (forall i, j :: 0 <= i < j < |holes| ==> holes[i].offset + holes[i].length < holes[j].offset)
  }

  predicate NsecSound(t: Option<Time>) { t.Some? ==> t.value.nsec <= 999_999_999 }

  predicate BodiesFit(xs: seq<Xattr>, aces: seq<Ace>, acl: Option<NativeAcl>) {
    && (forall x :: x in xs ==> |x.value| <= 0xffff_ffff)
    && (forall a :: a in aces ==> |a.name| <= 0xffff_ffff)
    && (acl.Some? ==> 1 <= |acl.value.body| <= 0xffff_ffff)
  }

  /** Which records `validate` accepts, family by family. */
  lemma AcceptedMeans(m: Metadata)
    ensures Fault(m).None? <==>
            && |m.xattrs| <= 0xffff_ffff && |m.aces| <= 0xffff_ffff && |m.holes| <= 0xffff_ffff
            && (forall x :: x in m.xattrs ==> XattrNameFault(x.class_, x.name).None?)
            && (forall a :: a in m.aces ==> AceNameOk(a.tag, a.name))
            && XattrsInOrder(m.xattrs) && AcesInOrder(m.aces) && BodiesFit(m.xattrs, m.aces, m.nativeAcl)
            && NsecSound(m.times.mtime) && NsecSound(m.times.atime) && NsecSound(m.times.btime)
            && HolesApart(m.holes)
            && (m.hardlinkTo.Some? ==> Paths.ValidPath(m.hardlinkTo.value))
  {
    hide Fault, Lt, XattrNameFault, AceNameOk, HardlinkOk, Paths.ValidPath;
    FaultMeans(m);
    XattrsAccepted(m.xattrs);
    AcesAccepted(m.aces);
    HolesAccepted(m.holes);
    if m.hardlinkTo.Some? {
      HardlinkIsPath(m.hardlinkTo.value);
    }
  }

  lemma XattrsAccepted(xs: seq<Xattr>)
    ensures XattrsIncreasing(xs) <==> XattrsInOrder(xs)
    ensures (forall i :: 0 <= i < |xs| ==> XattrOk(xs[i])) <==>
            forall x :: x in xs ==> XattrNameFault(x.class_, x.name).None? && |x.value| <= 0xffff_ffff
  {
    hide Lt, XattrNameFault;
    forall x: Xattr, y: Xattr
      ensures XattrLt(x, y) <==>
              !(x.class_ == Raw && y.class_ == Logical) && (x.class_ == y.class_ ==> Lt(x.name, y.name))
    {
    }
  }

  lemma AcesAccepted(xs: seq<Ace>)
    ensures AcesIncreasing(xs) <==> AcesInOrder(xs)
    ensures (forall i :: 0 <= i < |xs| ==> AceOk(xs[i])) <==>
            forall a :: a in xs ==> AceNameOk(a.tag, a.name) && |a.name| <= 0xffff_ffff
  {
    hide Lt, AceNameOk;
    forall a: Ace, b: Ace
      ensures AceLt(a, b) <==> TagBefore(a.tag, b.tag) || (a.tag == b.tag && Lt(a.name, b.name))
    {
    }
  }

  lemma HolesAccepted(holes: seq<Hole>)
    ensures Proper(holes) && Separated(holes) <==> HolesApart(holes)
  {
  }

  /** Two neighbours that make a duplicate. */
  predicate RepeatedXattr(xs: seq<Xattr>, i: nat) {
    i + 1 < |xs| && xs[i].class_ == xs[i + 1].class_ && xs[i].name == xs[i + 1].name
  }

  predicate RepeatedAce(xs: seq<Ace>, i: nat) {
    i + 1 < |xs| && xs[i].tag == xs[i + 1].tag && xs[i].name == xs[i + 1].name
  }

  /** The record has the defect that the error names. */
  ghost predicate Defect(m: Metadata, e: MetaError) {
    match e
    case ReservedTransportName => exists x :: x in m.xattrs && IsTransportName(x.name)
    case EmptyName => exists x :: x in m.xattrs && x.name == []
    case InvalidLogicalName => exists x :: x in m.xattrs && x.class_ == Logical && !LogicalNameOk(x.name)
    case InvalidRawName =>
      exists x :: x in m.xattrs && x.class_ == Raw
                  && (|x.name| > 255 || 0 in x.name || 0x2f in x.name || 0x5c in x.name)
    case DuplicateXattr => exists i: nat :: RepeatedXattr(m.xattrs, i)
    case InvalidAceName => exists a :: a in m.aces && !AceNameOk(a.tag, a.name)
    case DuplicateAce => exists i: nat :: RepeatedAce(m.aces, i)
    case EmptyNativeAcl => m.nativeAcl.Some? && m.nativeAcl.value.body == []
    case InvalidNsec => !(NsecSound(m.times.mtime) && NsecSound(m.times.atime) && NsecSound(m.times.btime))
    case ZeroLengthHole => exists h :: h in m.holes && h.length == 0
    case HoleOverflow => exists h :: h in m.holes && h.offset + h.length >= 0x1_0000_0000_0000_0000
    case InvalidHardlink => m.hardlinkTo.Some? && !Paths.ValidPath(m.hardlinkTo.value)
    case BadMetadata => true
    case _ => false
  }

  lemma {:induction false} XattrDefect(m: Metadata, n: nat)
    requires n <= |m.xattrs|
    ensures XattrsFault(m.xattrs, n).Some? ==> Defect(m, XattrsFault(m.xattrs, n).value)
  {
    if n > 0 {
      XattrDefect(m, n - 1);
      var x := m.xattrs[n - 1];
      assert x in m.xattrs;
      hide IsTransportName, LogicalNameOk;
      if XattrFault(m.xattrs, n - 1) == Some(DuplicateXattr) {
        assert RepeatedXattr(m.xattrs, n - 2);
      }
    }
  }

  lemma {:induction false} AceDefect(m: Metadata, n: nat)
    requires n <= |m.aces|
    ensures AcesFault(m.aces, n).Some? ==> Defect(m, AcesFault(m.aces, n).value)
  {
    hide AceNameOk;
    if n > 0 {
      AceDefect(m, n - 1);
      assert m.aces[n - 1] in m.aces;
      if AceFault(m.aces, n - 1) == Some(DuplicateAce) {
        assert RepeatedAce(m.aces, n - 2);
      }
    }
  }

  lemma {:induction false} HoleDefect(m: Metadata, n: nat)
    requires n <= |m.holes|
    ensures HolesFault(m.holes, n).Some? ==> Defect(m, HolesFault(m.holes, n).value)
  {
    if n > 0 {
      HoleDefect(m, n - 1);
      assert m.holes[n - 1] in m.holes;
    }
  }

  /** A refusal names a defect the record has. */
  lemma RefusedMeans(m: Metadata)
    ensures Fault(m).Some? ==> Defect(m, Fault(m).value)
  {
    hide Paths.ValidPath, HardlinkOk, XattrsFault, AcesFault, HolesFault;
    XattrDefect(m, |m.xattrs|);
    AceDefect(m, |m.aces|);
    HoleDefect(m, |m.holes|);
    if m.hardlinkTo.Some? {
      HardlinkIsPath(m.hardlinkTo.value);
    }
  }
}
