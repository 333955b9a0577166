/** `normalize` and `borrowing_omitting`: the two ways a canonical record is made from another. */
module MetadataNormalize {
  import opened Wire
  import opened ByteOrder
  import opened Holes
  import opened Metadata
  import opened MetadataCanonical
  import opened Sorting
  import Paths

  function XattrKey(x: Xattr): (XattrClass, bytes) { (x.class_, x.name) }

  function AceKey(a: Ace): (AceTag, bytes) { (a.tag, a.name) }

  /* ---------- Orders ---------- */

  lemma XattrOrder()
    ensures WeakOrder(XattrLt)
  {
    forall x: Xattr, y: Xattr, z: Xattr
      ensures !XattrLt(x, x)
      ensures XattrLt(x, y) && XattrLt(y, z) ==> XattrLt(x, z)
      ensures XattrLt(x, z) ==> XattrLt(x, y) || XattrLt(y, z)
    {
      LtIrreflexive(x.name);
      if XattrLt(x, y) && XattrLt(y, z) {
        XattrLtTransitive(x, y, z);
      }
      LtTotal(x.name, y.name);
      if Lt(y.name, x.name) && Lt(x.name, z.name) {
        LtTransitive(y.name, x.name, z.name);
      }
    }
  }

  lemma AceOrder()
    ensures WeakOrder(AceLt)
  {
    forall x: Ace, y: Ace, z: Ace
      ensures !AceLt(x, x)
      ensures AceLt(x, y) && AceLt(y, z) ==> AceLt(x, z)
      ensures AceLt(x, z) ==> AceLt(x, y) || AceLt(y, z)
    {
      LtIrreflexive(x.name);
      if AceLt(x, y) && AceLt(y, z) {
        AceLtTransitive(x, y, z);
      }
      LtTotal(x.name, y.name);
      if Lt(y.name, x.name) && Lt(x.name, z.name) {
        LtTransitive(y.name, x.name, z.name);
      }
    }
  }

  /* ---------- Specification ---------- */

  function XattrInputFault(xs: seq<Xattr>, n: nat): (fault: Option<MetaError>)
    requires n <= |xs|
  {
    if n == 0 then None
    else
      var x := xs[n - 1];
      FirstOf(XattrInputFault(xs, n - 1),
              FirstOf(XattrNameFault(x.class_, x.name), CountFault(|x.value|)))
  }

  function AceInputFault(xs: seq<Ace>, n: nat): (fault: Option<MetaError>)
    requires n <= |xs|
  {
    if n == 0 then None
    else
      var a := xs[n - 1];
      FirstOf(AceInputFault(xs, n - 1),
              FirstOf(if AceNameOk(a.tag, a.name) then None else Some(InvalidAceName), CountFault(|a.name|)))
  }

  function HoleInputFault(holes: seq<Hole>, n: nat): (fault: Option<MetaError>)
    requires n <= |holes|
  {
    if n == 0 then None else FirstOf(HoleInputFault(holes, n - 1), HoleFault(holes[n - 1]))
  }

  ghost function XattrsInputFault(xs: seq<Xattr>): (fault: Option<MetaError>)
  {
    FirstOf(CountFault(|xs|), FirstOf(XattrInputFault(xs, |xs|),
    if DistinctBy(xs, XattrKey) then None else Some(DuplicateXattr)))
  }

  ghost function AcesInputFault(xs: seq<Ace>): (fault: Option<MetaError>)
  {
    FirstOf(CountFault(|xs|), FirstOf(AceInputFault(xs, |xs|),
    if DistinctBy(xs, AceKey) then None else Some(DuplicateAce)))
  }

  function HolesInputFault(holes: seq<Hole>): (fault: Option<MetaError>)
  {
    FirstOf(CountFault(|holes|), HoleInputFault(holes, |holes|))
  }

  /** The error `normalize` reports for a record that already lost its omitted families. */
  ghost function InputFault(m: Metadata): (fault: Option<MetaError>)
  {
    FirstOf(XattrsInputFault(m.xattrs),
    FirstOf(AcesInputFault(m.aces),
    FirstOf(NativeAclFault(m.nativeAcl),
    FirstOf(TimesFault(m.times),
    FirstOf(HolesInputFault(m.holes),
    HardlinkFault(m.hardlinkTo))))))
  }

  /** `r` is a canonical record that says what `m` says: same attributes, same covered offsets. */
  ghost predicate Normalized(m: Metadata, r: Metadata) {
    && Canonical(r)
    && multiset(r.xattrs) == multiset(m.xattrs)
    && multiset(r.aces) == multiset(m.aces)
    && SameCover(r.holes, m.holes)
    && r.nativeAcl == m.nativeAcl && r.times == m.times
    && r.finderFlags == m.finderFlags && r.finderInfo == m.finderInfo
    && r.hardlinkTo == m.hardlinkTo
  }

  /** There is at most one such record, whatever the input order and whatever the sort does with ties. */
  lemma NormalizedUnique(m: Metadata, m': Metadata, r: Metadata, t: Metadata)
    requires Normalized(m, r) && Normalized(m', t)
    requires multiset(m.xattrs) == multiset(m'.xattrs) && multiset(m.aces) == multiset(m'.aces)
    requires SameCover(m.holes, m'.holes)
    requires m'.(xattrs := m.xattrs, aces := m.aces, holes := m.holes) == m
    ensures r == t
  {
    XattrOrder();
    AceOrder();
    assert StrictlyOrdered(r.xattrs, XattrLt) && StrictlyOrdered(t.xattrs, XattrLt);
    StrictlyOrderedUnique(r.xattrs, t.xattrs, XattrLt);
    assert StrictlyOrdered(r.aces, AceLt) && StrictlyOrdered(t.aces, AceLt);
    StrictlyOrderedUnique(r.aces, t.aces, AceLt);
    CanonicalFormUnique(m.holes, m'.holes, r.holes, t.holes);
  }

  /* ---------- Omission loops ---------- */

  lemma AllVisited(omit: Omit, done: set<Family>)
    requires done <= omit
    requires forall i :: 0 <= i < |FAMILIES| && FAMILIES[i] in omit ==> FAMILIES[i] in done
    ensures done == omit
  {
    forall f: Family ensures f in omit ==> f in done {
      EveryFamily(f);
      assert FAMILIES[0] == XattrFamily && FAMILIES[1] == AclFamily && FAMILIES[2] == TimestampsFamily;
      assert FAMILIES[3] == FinderFamily && FAMILIES[4] == SparseFamily && FAMILIES[5] == HardlinkFamily;
    }
  }

  /** `normalize` first clears the omitted families one by one. */
  method ClearFamilies(m: Metadata, omit: Omit) returns (r: Metadata)
    ensures r == Omitted(m, omit)
  {
    r := m;
    ghost var done: set<Family> := {};
    for i := 0 to |FAMILIES|
      invariant done <= omit
      invariant forall k :: 0 <= k < i && FAMILIES[k] in omit ==> FAMILIES[k] in done
      invariant r == Omitted(m, done)
    {
      var family := FAMILIES[i];
      if family in omit {
        match family {
          case XattrFamily => r := r.(xattrs := []);
          case AclFamily => r := r.(aces := [], nativeAcl := None);
          case TimestampsFamily => r := r.(times := NO_TIMES);
          case FinderFamily => r := r.(finderFlags := 0, finderInfo := None);
          case SparseFamily => r := r.(holes := []);
          case HardlinkFamily => r := r.(hardlinkTo := None);
        }
        done := done + {family};
      }
    }
    AllVisited(omit, done);
  }

  lemma OmittedCanonical(m: Metadata, omit: Omit)
    requires Canonical(m)
    ensures Canonical(Omitted(m, omit))
  {
  }

  /** Projection starts from the empty record and copies the families that stay. */
  method BorrowingOmitting(m: Metadata, omit: Omit) returns (r: Result<Metadata, MetaError>)
    requires Canonical(m)
    ensures r == Ok(Omitted(m, omit))
    ensures Canonical(r.value)
  {
    var value := EMPTY;
    ghost var done: set<Family> := {};
    for i := 0 to |FAMILIES|
      invariant done <= Complement(omit)
      invariant forall k :: 0 <= k < i && FAMILIES[k] !in omit ==> FAMILIES[k] in done
      invariant value == Keep(m, done)
    {
      var family := FAMILIES[i];
      if family !in omit {
        match family {
          case XattrFamily => value := value.(xattrs := m.xattrs);
          case AclFamily => value := value.(aces := m.aces, nativeAcl := m.nativeAcl);
          case TimestampsFamily => value := value.(times := m.times);
          case FinderFamily => value := value.(finderFlags := m.finderFlags, finderInfo := m.finderInfo);
          case SparseFamily => value := value.(holes := m.holes);
          case HardlinkFamily => value := value.(hardlinkTo := m.hardlinkTo);
        }
        done := done + {family};
      }
    }
    AllVisited(Complement(omit), done);
    OmittedCanonical(m, omit);
    FaultMeans(value);
    var fault := Validate(value);
    r := Wrap(value, fault);
  }

  /* ---------- Sorting families ---------- */

  lemma {:induction false} XattrInputFaultMeans(xs: seq<Xattr>, n: nat)
    requires n <= |xs|
    ensures XattrInputFault(xs, n).None? <==> forall i :: 0 <= i < n ==> XattrOk(xs[i])
    ensures XattrInputFault(xs, n).Some? ==> XattrInputFault(xs, |xs|) == XattrInputFault(xs, n)
    decreases n
  {
    XattrInputFaultPersists(xs, n);
    if n > 0 {
      XattrInputFaultMeans(xs, n - 1);
    }
  }

  lemma {:induction false} XattrInputFaultPersists(xs: seq<Xattr>, n: nat)
    requires n <= |xs|
    ensures XattrInputFault(xs, n).Some? ==> XattrInputFault(xs, |xs|) == XattrInputFault(xs, n)
    decreases |xs| - n
  {
    if n < |xs| {
      XattrInputFaultPersists(xs, n + 1);
    }
  }

  lemma {:induction false} AceInputFaultMeans(xs: seq<Ace>, n: nat)
    requires n <= |xs|
    ensures AceInputFault(xs, n).None? <==> forall i :: 0 <= i < n ==> AceOk(xs[i])
    ensures AceInputFault(xs, n).Some? ==> AceInputFault(xs, |xs|) == AceInputFault(xs, n)
    decreases n
  {
    AceInputFaultPersists(xs, n);
    if n > 0 {
      AceInputFaultMeans(xs, n - 1);
    }
  }

  lemma {:induction false} AceInputFaultPersists(xs: seq<Ace>, n: nat)
    requires n <= |xs|
    ensures AceInputFault(xs, n).Some? ==> AceInputFault(xs, |xs|) == AceInputFault(xs, n)
    decreases |xs| - n
  {
    if n < |xs| {
      AceInputFaultPersists(xs, n + 1);
    }
  }

  lemma {:induction false} HoleInputFaultMeans(holes: seq<Hole>, n: nat)
    requires n <= |holes|
    ensures HoleInputFault(holes, n).None? <==> Proper(holes[..n])
  {
    if n > 0 {
      HoleInputFaultMeans(holes, n - 1);
      assert holes[..n] == holes[..n - 1] + [holes[n - 1]];
    }
  }

  lemma {:induction false} HoleInputFaultPersists(holes: seq<Hole>, n: nat)
    requires n <= |holes|
    ensures HoleInputFault(holes, n).Some? ==> HoleInputFault(holes, |holes|) == HoleInputFault(holes, n)
    decreases |holes| - n
  {
    if n < |holes| {
      HoleInputFaultPersists(holes, n + 1);
    }
  }

  method NormalizeXattrs(xs: seq<Xattr>) returns (r: Result<seq<Xattr>, MetaError>)
    ensures match XattrsInputFault(xs)
            case Some(e) => r == Err(e)
            case None =>
              && r.Ok? && multiset(r.value) == multiset(xs) && XattrsIncreasing(r.value)
              && |r.value| == |xs| < U32_LIMIT
              && forall i :: 0 <= i < |r.value| ==> XattrOk(r.value[i])
  {
    if |xs| >= U32_LIMIT {
      return Err(BadMetadata);
    }
    for i := 0 to |xs|
      invariant XattrInputFault(xs, i).None?
    {
      XattrInputFaultPersists(xs, i + 1);
      var fault := XattrNameFault(xs[i].class_, xs[i].name);
      if fault.Some? {
        return Err(fault.value);
      }
      if |xs[i].value| >= U32_LIMIT {
        return Err(BadMetadata);
      }
    }
    XattrInputFaultMeans(xs, |xs|);
    XattrOrder();
    var sorted := Sort(xs, XattrLt);
    SortedXattrs(sorted, xs);
    var repeated := EqualNeighbours(sorted, XattrKey);
    if repeated {
      return Err(DuplicateXattr);
    }
    r := Ok(sorted);
  }

  lemma NeighboursIncreasingXattrs(xs: seq<Xattr>)
    requires Ordered(xs, XattrLt)
    requires NeighboursDiffer(xs, XattrKey)
    ensures XattrsIncreasing(xs)
  {
    assert xs[..|xs|] == xs;
    var n := 0;
    while n < |xs|
      invariant 0 <= n <= |xs|
      invariant XattrsIncreasing(xs[..n])
    {
      if n > 0 {
        assert XattrKey(xs[n - 1]) != XattrKey(xs[n]) && !XattrLt(xs[n], xs[n - 1]);
        LtTotal(xs[n - 1].name, xs[n].name);
      }
      n := n + 1;
      XattrsIncreasingSnoc(xs, n);
    }
  }

  /** After sorting, unequal neighbours mean distinct keys, and distinct keys mean strict order. */
  lemma SortedXattrs(sorted: seq<Xattr>, xs: seq<Xattr>)
    requires multiset(sorted) == multiset(xs) && Ordered(sorted, XattrLt)
    ensures |sorted| == |xs|
    ensures DistinctBy(xs, XattrKey) <==> NeighboursDiffer(sorted, XattrKey)
    ensures DistinctBy(xs, XattrKey) ==> XattrsIncreasing(sorted)
    ensures (forall i :: 0 <= i < |xs| ==> XattrOk(xs[i])) ==> (forall i :: 0 <= i < |sorted| ==> XattrOk(sorted[i]))
  {
    SameElements(sorted, xs);
    if NeighboursDiffer(sorted, XattrKey) {
      NeighboursIncreasingXattrs(sorted);
      assert DistinctBy(sorted, XattrKey) by {
        forall i, j | 0 <= i < j < |sorted| ensures XattrKey(sorted[i]) != XattrKey(sorted[j]) {
          assert XattrLt(sorted[i], sorted[j]);
          LtIrreflexive(sorted[i].name);
        }
      }
      DistinctPermuted(sorted, xs, XattrKey);
    }
    if DistinctBy(xs, XattrKey) {
      DistinctPermuted(xs, sorted, XattrKey);
      NeighboursIncreasingXattrs(sorted);
    }
    if forall i :: 0 <= i < |xs| ==> XattrOk(xs[i]) {
      forall i | 0 <= i < |sorted| ensures XattrOk(sorted[i]) {
        assert sorted[i] in xs;
      }
    }
  }

  lemma NeighboursIncreasingAces(xs: seq<Ace>)
    requires Ordered(xs, AceLt)
    requires NeighboursDiffer(xs, AceKey)
    ensures AcesIncreasing(xs)
  {
    assert xs[..|xs|] == xs;
    var n := 0;
    while n < |xs|
      invariant 0 <= n <= |xs|
      invariant AcesIncreasing(xs[..n])
    {
      if n > 0 {
        assert AceKey(xs[n - 1]) != AceKey(xs[n]) && !AceLt(xs[n], xs[n - 1]);
        LtTotal(xs[n - 1].name, xs[n].name);
      }
      n := n + 1;
      AcesIncreasingSnoc(xs, n);
    }
  }

  /** After sorting, unequal neighbours mean distinct keys, and distinct keys mean strict order. */
  lemma SortedAces(sorted: seq<Ace>, xs: seq<Ace>)
    requires multiset(sorted) == multiset(xs) && Ordered(sorted, AceLt)
    ensures |sorted| == |xs|
    ensures DistinctBy(xs, AceKey) <==> NeighboursDiffer(sorted, AceKey)
    ensures DistinctBy(xs, AceKey) ==> AcesIncreasing(sorted)
    ensures (forall i :: 0 <= i < |xs| ==> AceOk(xs[i])) ==> (forall i :: 0 <= i < |sorted| ==> AceOk(sorted[i]))
  {
    SameElements(sorted, xs);
    if NeighboursDiffer(sorted, AceKey) {
      NeighboursIncreasingAces(sorted);
      assert DistinctBy(sorted, AceKey) by {
        forall i, j | 0 <= i < j < |sorted| ensures AceKey(sorted[i]) != AceKey(sorted[j]) {
          assert AceLt(sorted[i], sorted[j]);
          LtIrreflexive(sorted[i].name);
        }
      }
      DistinctPermuted(sorted, xs, AceKey);
    }
    if DistinctBy(xs, AceKey) {
      DistinctPermuted(xs, sorted, AceKey);
      NeighboursIncreasingAces(sorted);
    }
    if forall i :: 0 <= i < |xs| ==> AceOk(xs[i]) {
      forall i | 0 <= i < |sorted| ensures AceOk(sorted[i]) {
        assert sorted[i] in xs;
      }
    }
  }

  method NormalizeAces(xs: seq<Ace>) returns (r: Result<seq<Ace>, MetaError>)
    ensures match AcesInputFault(xs)
            case Some(e) => r == Err(e)
            case None =>
              && r.Ok? && multiset(r.value) == multiset(xs) && AcesIncreasing(r.value)
              && |r.value| == |xs| < U32_LIMIT
              && forall i :: 0 <= i < |r.value| ==> AceOk(r.value[i])
  {
    if |xs| >= U32_LIMIT {
      return Err(BadMetadata);
    }
    for i := 0 to |xs|
      invariant AceInputFault(xs, i).None?
    {
      AceInputFaultPersists(xs, i + 1);
      if !AceNameOk(xs[i].tag, xs[i].name) {
        return Err(InvalidAceName);
      }
      if |xs[i].name| >= U32_LIMIT {
        return Err(BadMetadata);
      }
    }
    AceInputFaultMeans(xs, |xs|);
    AceOrder();
    var sorted := Sort(xs, AceLt);
    SortedAces(sorted, xs);
    var repeated := EqualNeighbours(sorted, AceKey);
    if repeated {
      return Err(DuplicateAce);
    }
    r := Ok(sorted);
  }

  method NormalizeHoles(holes: seq<Hole>) returns (r: Result<seq<Hole>, MetaError>)
    ensures match HolesInputFault(holes)
            case Some(e) => r == Err(e)
            case None =>
              && r.Ok? && |r.value| < U32_LIMIT
              && Proper(r.value) && Separated(r.value) && SameCover(r.value, holes)
  {
    if |holes| >= U32_LIMIT {
      return Err(BadMetadata);
    }
    for i := 0 to |holes|
      invariant HoleInputFault(holes, i).None?
    {
      HoleInputFaultPersists(holes, i + 1);
      if holes[i].length == 0 {
        return Err(ZeroLengthHole);
      }
      if holes[i].offset + holes[i].length >= U64_LIMIT {
        return Err(HoleOverflow);
      }
    }
    HoleInputFaultMeans(holes, |holes|);
    assert holes[..|holes|] == holes;
    var merged := Canonicalize(holes);
    r := Ok(merged);
  }

  /**
   `normalize`: the omitted families go first, then each family is checked in input order and
   sorted or merged, and the result is validated once more.
   */
  method Normalize(raw: Metadata, omit: Omit) returns (r: Result<Metadata, MetaError>)
    ensures match InputFault(Omitted(raw, omit))
            case Some(e) => r == Err(e)
            case None => r.Ok? && Normalized(Omitted(raw, omit), r.value)
  {
    var m := ClearFamilies(raw, omit);
    var xattrs := NormalizeXattrs(m.xattrs);
    if xattrs.Err? {
      return Err(xattrs.error);
    }
    var aces := NormalizeAces(m.aces);
    if aces.Err? {
      return Err(aces.error);
    }
    var fault := NativeAclFault(m.nativeAcl);
    if fault.Some? {
      return Err(fault.value);
    }
    fault := TimesFault(m.times);
    if fault.Some? {
      return Err(fault.value);
    }
    var holes := NormalizeHoles(m.holes);
    if holes.Err? {
      return Err(holes.error);
    }
    var result := m.(xattrs := xattrs.value, aces := aces.value, holes := holes.value);
    FaultMeans(result);
    OnlyHardlinkCanFail(result);
    fault := Validate(result);
    r := Wrap(result, fault);
  }

  lemma OnlyHardlinkCanFail(m: Metadata)
    requires Canonical(m.(hardlinkTo := None))
    ensures Fault(m) == HardlinkFault(m.hardlinkTo)
  {
    FaultMeans(m.(hardlinkTo := None));
  }

  /* ---------- Normalizing a canonical record ---------- */

  /** Projection and normalization with the same mask agree on canonical records. */
  lemma NormalizeAgreesWithOmitted(m: Metadata, omit: Omit)
    requires Canonical(m)
    ensures InputFault(Omitted(m, omit)).None?
    ensures forall r :: Normalized(Omitted(m, omit), r) <==> r == Omitted(m, omit)
  {
    var o := Omitted(m, omit);
    OmittedCanonical(m, omit);
    CanonicalHasNoInputFault(o);
    assert Normalized(o, o);
    forall r ensures Normalized(o, r) <==> r == o {
      if Normalized(o, r) {
        NormalizedUnique(o, o, r, o);
      }
    }
  }

  lemma CanonicalHasNoInputFault(m: Metadata)
    requires Canonical(m)
    ensures InputFault(m).None?
  {
    XattrOrder();
    AceOrder();
    XattrInputFaultMeans(m.xattrs, |m.xattrs|);
    AceInputFaultMeans(m.aces, |m.aces|);
    HoleInputFaultMeans(m.holes, |m.holes|);
    assert m.holes[..|m.holes|] == m.holes;
    assert DistinctBy(m.xattrs, XattrKey) by {
      forall i, j | 0 <= i < j < |m.xattrs| ensures XattrKey(m.xattrs[i]) != XattrKey(m.xattrs[j]) {
        assert XattrLt(m.xattrs[i], m.xattrs[j]);
        LtIrreflexive(m.xattrs[i].name);
      }
    }
    assert DistinctBy(m.aces, AceKey) by {
      forall i, j | 0 <= i < j < |m.aces| ensures AceKey(m.aces[i]) != AceKey(m.aces[j]) {
        assert AceLt(m.aces[i], m.aces[j]);
        LtIrreflexive(m.aces[i].name);
      }
    }
  }

  /** Whatever has a normal form, with proper holes that can be counted, is normalized without error. */
  lemma NormalizableIsNormalized(m: Metadata, r: Metadata)
    requires Normalized(m, r) && Proper(m.holes) && |m.holes| < U32_LIMIT
    ensures InputFault(m).None?
  {
    hide XattrOk, AceOk;
    CanonicalHasNoInputFault(r);
    SameElements(m.xattrs, r.xattrs);
    SameElements(m.aces, r.aces);
    XattrInputFaultMeans(m.xattrs, |m.xattrs|);
    AceInputFaultMeans(m.aces, |m.aces|);
    HoleInputFaultMeans(m.holes, |m.holes|);
    assert m.holes[..|m.holes|] == m.holes;
    DistinctPermuted(r.xattrs, m.xattrs, XattrKey);
    DistinctPermuted(r.aces, m.aces, AceKey);
    forall i | 0 <= i < |m.xattrs| ensures XattrOk(m.xattrs[i]) {
      assert m.xattrs[i] in r.xattrs;
    }
    forall i | 0 <= i < |m.aces| ensures AceOk(m.aces[i]) {
      assert m.aces[i] in r.aces;
    }
  }

  /** The error names a defect of the record, duplicates being two entries with one key anywhere. */
  ghost predicate InputDefect(m: Metadata, e: MetaError) {
    match e
    case DuplicateXattr =>
      exists i, j :: 0 <= i < j < |m.xattrs|
                     && m.xattrs[i].class_ == m.xattrs[j].class_ && m.xattrs[i].name == m.xattrs[j].name
    case DuplicateAce =>
      exists i, j :: 0 <= i < j < |m.aces| && m.aces[i].tag == m.aces[j].tag && m.aces[i].name == m.aces[j].name
    case _ => Defect(m, e)
  }

  lemma {:induction false} XattrInputDefect(m: Metadata, n: nat)
    requires n <= |m.xattrs|
    ensures XattrInputFault(m.xattrs, n).Some? ==> InputDefect(m, XattrInputFault(m.xattrs, n).value)
  {
    if n > 0 {
      XattrInputDefect(m, n - 1);
      assert m.xattrs[n - 1] in m.xattrs;
      hide IsTransportName, LogicalNameOk;
    }
  }

  lemma {:induction false} AceInputDefect(m: Metadata, n: nat)
    requires n <= |m.aces|
    ensures AceInputFault(m.aces, n).Some? ==> InputDefect(m, AceInputFault(m.aces, n).value)
  {
    hide AceNameOk;
    if n > 0 {
      AceInputDefect(m, n - 1);
      assert m.aces[n - 1] in m.aces;
    }
  }

  lemma {:induction false} HoleInputDefect(m: Metadata, n: nat)
    requires n <= |m.holes|
    ensures HoleInputFault(m.holes, n).Some? ==> InputDefect(m, HoleInputFault(m.holes, n).value)
  {
    if n > 0 {
      HoleInputDefect(m, n - 1);
      assert m.holes[n - 1] in m.holes;
    }
  }

  /** What `normalize` refuses has the defect it reports. */
  lemma RefusedInput(m: Metadata)
    ensures InputFault(m).Some? ==> InputDefect(m, InputFault(m).value)
  {
    hide Paths.ValidPath, HardlinkOk, XattrInputFault, AceInputFault, HoleInputFault;
    XattrInputDefect(m, |m.xattrs|);
    AceInputDefect(m, |m.aces|);
    HoleInputDefect(m, |m.holes|);
    if m.hardlinkTo.Some? {
      HardlinkIsPath(m.hardlinkTo.value);
    }
  }
}
