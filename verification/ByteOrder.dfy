/** Unsigned byte order on paths and names, and binary search in a strictly increasing list. */
module ByteOrder {
  import opened Wire

  /** Lexicographic order of unsigned bytes, a proper prefix coming first. */
  predicate Lt(a: bytes, b: bytes) {
    b != [] && (a == [] || a[0] < b[0] || (a[0] == b[0] && Lt(a[1..], b[1..])))
  }

  lemma {:induction false} LtIrreflexive(a: bytes)
    ensures !Lt(a, a)
  {
    if a != [] {
      LtIrreflexive(a[1..]);
    }
  }

  lemma {:induction false} LtTransitive(a: bytes, b: bytes, c: bytes)
    requires Lt(a, b) && Lt(b, c)
    ensures Lt(a, c)
  {
    if a != [] && a[0] == b[0] && b[0] == c[0] {
      LtTransitive(a[1..], b[1..], c[1..]);
    }
  }

  lemma {:induction false} LtTotal(a: bytes, b: bytes)
    ensures Lt(a, b) || a == b || Lt(b, a)
  {
    if a != [] && b != [] && a[0] == b[0] {
      LtTotal(a[1..], b[1..]);
      assert a == [a[0]] + a[1..] && b == [b[0]] + b[1..];
    }
  }

  lemma LtAsymmetric(a: bytes, b: bytes)
    requires Lt(a, b)
    ensures a != b && !Lt(b, a)
  {
    LtIrreflexive(a);
    if Lt(b, a) {
      LtTransitive(a, b, a);
    }
  }

  lemma {:induction false} PrefixLt(a: bytes, b: bytes)
    requires |a| < |b| && b[..|a|] == a
    ensures Lt(a, b)
  {
    if a != [] {
      assert b[1..][..|a| - 1] == b[..|a|][1..];
      PrefixLt(a[1..], b[1..]);
    }
  }

  /** Unsigned lexicographic order, said without recursion: the first difference decides. */
  lemma {:induction false} LtMeans(a: bytes, b: bytes)
    ensures Lt(a, b) <==>
            exists k :: 0 <= k <= |a| && k < |b| && a[..k] == b[..k] && (k == |a| || a[k] < b[k])
  {
    if a == [] {
      assert b != [] ==> a[..0] == b[..0];
    } else if b != [] {
      LtMeans(a[1..], b[1..]);
      if a[0] == b[0] {
        if k :| 0 <= k <= |a[1..]| && k < |b[1..]| && a[1..][..k] == b[1..][..k]
                && (k == |a[1..]| || a[1..][k] < b[1..][k]) {
          assert a[..k + 1] == [a[0]] + a[1..][..k] && b[..k + 1] == [b[0]] + b[1..][..k];
        }
        if k :| 0 <= k <= |a| && k < |b| && a[..k] == b[..k] && (k == |a| || a[k] < b[k]) {
          assert k > 0;
          assert a[1..][..k - 1] == a[..k][1..] && b[1..][..k - 1] == b[..k][1..];
        }
      } else {
        assert a[..0] == b[..0];
        assert forall k :: 0 < k <= |a| && k <= |b| ==> a[..k][0] != b[..k][0];
      }
    }
  }

  lemma {:induction false} LtCommonPrefix(p: bytes, a: bytes, b: bytes)
    ensures Lt(p + a, p + b) <==> Lt(a, b)
  {
    if p == [] {
      assert p + a == a && p + b == b;
    } else {
      LtCommonPrefix(p[1..], a, b);
      assert (p + a)[1..] == p[1..] + a && (p + b)[1..] == p[1..] + b;
    }
  }

  /** Every pair is ordered, not only neighbours. */
  predicate Increasing(keys: seq<bytes>) {
    forall i, j :: 0 <= i < j < |keys| ==> Lt(keys[i], keys[j])
  }

  /** Ordered neighbours are enough: the new last key only has to exceed its predecessor. */
  lemma IncreasingSnoc(keys: seq<bytes>, key: bytes)
    requires Increasing(keys)
    requires keys != [] ==> Lt(keys[|keys| - 1], key)
    ensures Increasing(keys + [key])
  {
    var all := keys + [key];
    forall i, j | 0 <= i < j < |all|
      ensures Lt(all[i], all[j])
    {
      if j == |keys| && i < |keys| - 1 {
        LtTransitive(keys[i], keys[|keys| - 1], key);
      }
    }
  }

  /** Where `key` occurs, found by plain scanning from the end. */
  function IndexOf(keys: seq<bytes>, key: bytes): (r: Option<nat>)
    ensures r.Some? ==> r.value < |keys| && keys[r.value] == key
    ensures r.None? ==> key !in keys
  {
    if keys == [] then None
    else if keys[|keys| - 1] == key then Some(|keys| - 1)
    else IndexOf(keys[..|keys| - 1], key)
  }

  lemma IndexOfUnique(keys: seq<bytes>, i: nat)
    requires Increasing(keys) && i < |keys|
    ensures IndexOf(keys, keys[i]) == Some(i)
  {
    var found := IndexOf(keys, keys[i]);
    if found.value < i {
      LtAsymmetric(keys[found.value], keys[i]);
    } else if i < found.value {
      LtAsymmetric(keys[i], keys[found.value]);
    }
  }

  /** The explicit binary search: on increasing keys it finds exactly what scanning finds. */
  method BinarySearch(keys: seq<bytes>, key: bytes) returns (r: Option<nat>)
    requires Increasing(keys)
    ensures r == IndexOf(keys, key)
  {
    var low, high := 0, |keys|;
    while low < high
      invariant 0 <= low <= high <= |keys|
      invariant forall i :: 0 <= i < |keys| && keys[i] == key ==> low <= i < high
    {
      var middle := low + (high - low) / 2;
      if keys[middle] == key {
        IndexOfUnique(keys, middle);
        return Some(middle);
      }
      LtTotal(keys[middle], key);
      if Lt(keys[middle], key) {
        forall i | 0 <= i <= middle ensures keys[i] != key {
          if i < middle {
            LtTransitive(keys[i], keys[middle], key);
          }
          LtIrreflexive(key);
        }
        low := middle + 1;
      } else {
        forall i | middle <= i < |keys| ensures keys[i] != key {
          if middle < i {
            LtTransitive(key, keys[middle], keys[i]);
          }
          LtIrreflexive(key);
        }
        high := middle;
      }
    }
    r := None;
  }
}
