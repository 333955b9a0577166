/**
 Unstable sorting.  Callers of `Sort` learn that the result is an ordered permutation and
 nothing about the order of ties, which is what the library sort promises.
 */
module Sorting {

  ghost predicate StrictOrder<T(!new)>(lt: (T, T) -> bool) {
    && (forall x: T :: !lt(x, x))
    && (forall x: T, y: T, z: T :: lt(x, y) && lt(y, z) ==> lt(x, z))
  }

  /** `lt` orders any two values with different keys; ties are unordered both ways. */
  ghost predicate WeakOrder<T(!new)>(lt: (T, T) -> bool) {
    && StrictOrder(lt)
    && (forall x: T, y: T, z: T :: lt(x, z) ==> lt(x, y) || lt(y, z))
  }

  ghost predicate Ordered<T>(s: seq<T>, lt: (T, T) -> bool) {
    forall i, j :: 0 <= i < j < |s| ==> !lt(s[j], s[i])
  }

  ghost predicate StrictlyOrdered<T>(s: seq<T>, lt: (T, T) -> bool) {
    forall i, j :: 0 <= i < j < |s| ==> lt(s[i], s[j])
  }

  function Insert<T>(s: seq<T>, x: T, lt: (T, T) -> bool): (r: seq<T>)
    ensures multiset(r) == multiset(s) + multiset{x}
  {
    if s == [] || lt(x, s[0]) then [x] + s
    else
      assert s == [s[0]] + s[1..];
      [s[0]] + Insert(s[1..], x, lt)
  }

  function SortBy<T>(s: seq<T>, lt: (T, T) -> bool): (r: seq<T>)
    ensures multiset(r) == multiset(s)
  {
    if s == [] then []
    else
      assert s == [s[0]] + s[1..];
      Insert(SortBy(s[1..], lt), s[0], lt)
  }

  lemma SameElements<T>(r: seq<T>, s: seq<T>)
    requires multiset(r) == multiset(s)
    ensures |r| == |s|
    ensures forall x :: x in r <==> x in s
  {
    assert |r| == |multiset(r)| && |s| == |multiset(s)|;
    forall x ensures x in r <==> x in s {
      assert x in r <==> x in multiset(r);
      assert x in s <==> x in multiset(s);
    }
  }

  lemma {:induction false} InsertOrders<T(!new)>(s: seq<T>, x: T, lt: (T, T) -> bool)
    requires WeakOrder(lt) && Ordered(s, lt)
    ensures Ordered(Insert(s, x, lt), lt)
  {
    var r := Insert(s, x, lt);
    if s == [] {
    } else if lt(x, s[0]) {
      forall i, j | 0 <= i < j < |r| ensures !lt(r[j], r[i]) {
        if i == 0 && j >= 2 {
          assert !lt(s[j - 1], s[0]);
          assert lt(x, s[j - 1]);
        }
      }
    } else {
      var rest := Insert(s[1..], x, lt);
      InsertOrders(s[1..], x, lt);
      SameElements(rest, s[1..] + [x]);
      forall i, j | 0 <= i < j < |r| ensures !lt(r[j], r[i]) {
        if i == 0 {
          assert r[j] == rest[j - 1] && rest[j - 1] in s[1..] + [x];
        }
      }
    }
  }

  lemma {:induction false} SortByOrders<T(!new)>(s: seq<T>, lt: (T, T) -> bool)
    requires WeakOrder(lt)
    ensures Ordered(SortBy(s, lt), lt)
  {
    if s != [] {
      SortByOrders(s[1..], lt);
      InsertOrders(SortBy(s[1..], lt), s[0], lt);
    }
  }

  method Sort<T(!new)>(s: seq<T>, lt: (T, T) -> bool) returns (r: seq<T>)
    requires WeakOrder(lt)
    ensures multiset(r) == multiset(s)
    ensures Ordered(r, lt)
  {
    SortByOrders(s, lt);
    r := SortBy(s, lt);
  }

  /** A strictly ordered list is determined by its elements. */
  lemma {:induction false} StrictlyOrderedUnique<T(!new)>(r: seq<T>, s: seq<T>, lt: (T, T) -> bool)
    requires StrictOrder(lt)
    requires StrictlyOrdered(r, lt) && StrictlyOrdered(s, lt)
    requires multiset(r) == multiset(s)
    ensures r == s
  {
    SameElements(r, s);
    if r != [] {
      assert r[0] in s && s[0] in r;
      if r[0] != s[0] {
        assert false;
      }
      assert r == [r[0]] + r[1..] && s == [s[0]] + s[1..];
      assert multiset(r[1..]) == multiset(r) - multiset{r[0]};
      assert multiset(s[1..]) == multiset(s) - multiset{s[0]};
      StrictlyOrderedUnique(r[1..], s[1..], lt);
    }
  }

  /** Sorting elements that can be strictly ordered orders them strictly, whatever the sort does. */
  lemma {:induction false} OrderedIsStrict<T(!new)>(r: seq<T>, s: seq<T>, lt: (T, T) -> bool)
    requires StrictOrder(lt)
    requires Ordered(r, lt) && StrictlyOrdered(s, lt)
    requires multiset(r) == multiset(s)
    ensures r == s
  {
    SameElements(r, s);
    if r != [] {
      assert r[0] in s && s[0] in r;
      if r[0] != s[0] {
        assert false;
      }
      assert r == [r[0]] + r[1..] && s == [s[0]] + s[1..];
      assert multiset(r[1..]) == multiset(r) - multiset{r[0]};
      assert multiset(s[1..]) == multiset(s) - multiset{s[0]};
      OrderedIsStrict(r[1..], s[1..], lt);
    }
  }

  /* ---------- Converting every element ---------- */

  function Map<T, U>(s: seq<T>, f: T -> U): (r: seq<U>)
    ensures |r| == |s|
    ensures forall i :: 0 <= i < |s| ==> r[i] == f(s[i])
  {
    seq(|s|, i requires 0 <= i < |s| => f(s[i]))
  }

  lemma MapWithout<T, U>(s: seq<T>, f: T -> U, k: nat)
    requires k < |s|
    ensures multiset(s[..k] + s[k + 1..]) == multiset(s) - multiset{s[k]}
    ensures multiset(Map(s, f)) == multiset(Map(s[..k] + s[k + 1..], f)) + multiset{f(s[k])}
  {
    assert s == s[..k] + [s[k]] + s[k + 1..];
    var before, after := Map(s[..k], f), Map(s[k + 1..], f);
    assert Map(s, f) == before + [f(s[k])] + after;
    assert Map(s[..k] + s[k + 1..], f) == before + after;
  }

  /** Conversion does not depend on the order of the elements. */
  lemma {:induction false} MapPermuted<T, U>(r: seq<T>, s: seq<T>, f: T -> U)
    requires multiset(r) == multiset(s)
    ensures multiset(Map(r, f)) == multiset(Map(s, f))
    decreases |r|
  {
    hide Map;
    SameElements(r, s);
    if r == [] {
      assert r == s;
    } else {
      assert r[0] in s;
      var k :| 0 <= k < |s| && s[k] == r[0];
      MapWithout(r, f, 0);
      MapWithout(s, f, k);
      MapPermuted(r[..0] + r[1..], s[..k] + s[k + 1..], f);
    }
  }

  /* ---------- Distinct keys ---------- */

  ghost predicate DistinctBy<T, K>(s: seq<T>, key: T -> K) {
    forall i, j :: 0 <= i < j < |s| ==> key(s[i]) != key(s[j])
  }

  lemma DistinctCount<T, K>(s: seq<T>, key: T -> K, p: nat)
    requires DistinctBy(s, key) && p < |s|
    ensures multiset(s)[s[p]] == 1
  {
    assert s == s[..p] + [s[p]] + s[p + 1..];
    assert s[p] !in s[..p] && s[p] !in s[p + 1..];
    assert multiset(s) == multiset(s[..p]) + multiset{s[p]} + multiset(s[p + 1..]);
  }

  lemma RepeatCount<T>(s: seq<T>, i: nat, j: nat)
    requires i < j < |s| && s[i] == s[j]
    ensures multiset(s)[s[j]] >= 2
  {
    assert s == s[..j] + [s[j]] + s[j + 1..];
    assert s[i] in s[..j];
    assert multiset(s) == multiset(s[..j]) + multiset{s[j]} + multiset(s[j + 1..]);
  }

  /** Having no two equal keys is a property of the elements, not of their order. */
  lemma DistinctPermuted<T, K>(r: seq<T>, s: seq<T>, key: T -> K)
    requires multiset(r) == multiset(s) && DistinctBy(r, key)
    ensures DistinctBy(s, key)
  {
    SameElements(r, s);
    forall i, j | 0 <= i < j < |s| ensures key(s[i]) != key(s[j]) {
      assert s[i] in r && s[j] in r;
      var p :| 0 <= p < |r| && r[p] == s[i];
      var q :| 0 <= q < |r| && r[q] == s[j];
      if p == q {
        DistinctCount(r, key, p);
        RepeatCount(s, i, j);
        assert false;
      }
    }
  }

  ghost predicate NeighboursDiffer<T, K>(s: seq<T>, key: T -> K) {
    forall k :: 0 < k < |s| ==> key(s[k - 1]) != key(s[k])
  }

  /** The duplicate scan over adjacent pairs. */
  method EqualNeighbours<T, K(==)>(s: seq<T>, key: T -> K) returns (found: bool)
    ensures found <==> !NeighboursDiffer(s, key)
  {
    var i := 1;
    while i < |s|
      invariant 1 <= i
      invariant forall k :: 0 < k < i && k < |s| ==> key(s[k - 1]) != key(s[k])
    {
      if key(s[i - 1]) == key(s[i]) {
        return true;
      }
      i := i + 1;
    }
    found := false;
  }
}
