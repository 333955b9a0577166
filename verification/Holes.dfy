/** Sparse extents and the in-place merge that puts them in canonical form. */
module Holes {
  import opened Wire
  import Sorting

  datatype Hole = Hole(offset: u64, length: u64) {
    function End(): (e: nat) { offset + length }
  }

  /** Offsets that some extent covers. */
  ghost predicate Covered(holes: seq<Hole>, x: nat) {
    exists i :: 0 <= i < |holes| && holes[i].offset <= x < holes[i].End()
  }

  ghost predicate SameCover(a: seq<Hole>, b: seq<Hole>) {
    forall x: nat :: Covered(a, x) <==> Covered(b, x)
  }

  /** Positive lengths whose end still fits in a u64. */
  predicate Proper(holes: seq<Hole>) {
    forall i :: 0 <= i < |holes| ==> holes[i].length > 0 && holes[i].End() < U64_LIMIT
  }

  predicate SortedByOffset(holes: seq<Hole>) {
    forall i, j :: 0 <= i < j < |holes| ==> holes[i].offset <= holes[j].offset
  }

  /** Canonical: every extent ends strictly before every later one begins. */
  predicate Separated(holes: seq<Hole>) {
    forall i, j :: 0 <= i < j < |holes| ==> holes[i].End() < holes[j].offset
  }

  predicate OffsetLt(a: Hole, b: Hole) { a.offset < b.offset }

  lemma CoveredSnoc(holes: seq<Hole>, h: Hole, x: nat)
    ensures Covered(holes + [h], x) <==> Covered(holes, x) || h.offset <= x < h.End()
  {
    var all := holes + [h];
    if Covered(holes, x) {
      var i :| 0 <= i < |holes| && holes[i].offset <= x < holes[i].End();
      assert all[i].offset <= x < all[i].End();
    }
    if h.offset <= x < h.End() {
      assert all[|holes|].offset <= x < all[|holes|].End();
    }
  }

  /** Growing the last kept extent over the next one covers exactly both. */
  lemma GrownCover(kept: seq<Hole>, h: Hole, grown: Hole)
    requires kept != [] && h.length > 0
    requires var last := kept[|kept| - 1];
             && last.offset <= h.offset <= last.End()
             && grown.offset == last.offset
             && grown.End() == if last.End() < h.End() then h.End() else last.End()
    ensures SameCover(kept[..|kept| - 1] + [grown], kept + [h])
  {
    var init := kept[..|kept| - 1];
    assert kept == init + [kept[|kept| - 1]];
    forall x: nat ensures Covered(init + [grown], x) <==> Covered(kept + [h], x) {
      CoveredSnoc(init, grown, x);
      CoveredSnoc(init, kept[|kept| - 1], x);
      CoveredSnoc(kept, h, x);
    }
  }

  lemma SameCoverSnoc(a: seq<Hole>, b: seq<Hole>, h: Hole)
    requires SameCover(a, b)
    ensures SameCover(a + [h], b + [h])
  {
    forall x: nat ensures Covered(a + [h], x) <==> Covered(b + [h], x) {
      CoveredSnoc(a, h, x);
      CoveredSnoc(b, h, x);
    }
  }

  /**
   The compaction loop of `normalize`: `holes[..count]` is the merged prefix.  The caller
   truncates to `count`.
   */
  method MergeInPlace(holes: array<Hole>) returns (count: nat)
    requires Proper(holes[..]) && SortedByOffset(holes[..])
    modifies holes
    ensures count <= holes.Length
    ensures Proper(holes[..count]) && Separated(holes[..count])
    ensures SameCover(holes[..count], old(holes[..]))
  {
    count := 0;
    ghost var input := holes[..];
    for index := 0 to holes.Length
      invariant count <= index
      invariant forall k :: index <= k < holes.Length ==> holes[k] == input[k]
      invariant Proper(holes[..count]) && Separated(holes[..count])
      invariant SameCover(holes[..count], input[..index])
      invariant count > 0 ==> forall k :: index <= k < |input| ==> holes[count - 1].offset <= input[k].offset
    {
      var hole := holes[index];
      assert hole == input[index];
      assert input[..index + 1] == input[..index] + [hole];
      var end := hole.End();
      ghost var kept := holes[..count];
      SameCoverSnoc(kept, input[..index], hole);
      if count != 0 {
        var previous := holes[count - 1];
        var previousEnd := previous.End();
        if hole.offset <= previousEnd {
          var grown := Hole(previous.offset, (if previousEnd < end then end else previousEnd) - previous.offset);
          GrownCover(kept, hole, grown);
          holes[count - 1] := grown;
          assert holes[..count] == kept[..count - 1] + [grown];
          assert Separated(kept[..count - 1] + [grown]) by {
            assert Separated(kept);
          }
          continue;
        }
      }
      holes[count] := hole;
      count := count + 1;
      assert holes[..count] == kept + [hole];
      SeparatedSnoc(kept, hole);
    }
    assert input[..holes.Length] == input;
  }

  lemma SeparatedSnoc(kept: seq<Hole>, h: Hole)
    requires Proper(kept) && Separated(kept)
    requires kept != [] ==> kept[|kept| - 1].End() < h.offset
    ensures Separated(kept + [h])
  {
    forall i | 0 <= i < |kept| ensures kept[i].End() < h.offset {
      if i < |kept| - 1 {
        assert kept[i].End() < kept[|kept| - 1].offset;
      }
    }
  }

  /* ---------- Uniqueness ---------- */

  lemma SeparatedHeadCovers(s: seq<Hole>, x: nat)
    requires s != [] && Proper(s) && Separated(s)
    ensures Covered(s, x) ==> s[0].offset <= x
    ensures s[0].offset <= x < s[0].End() ==> Covered(s, x)
    ensures x == s[0].End() ==> !Covered(s, x)
    ensures Covered(s[1..], x) <==> Covered(s, x) && s[0].End() < x
  {
    if Covered(s[1..], x) {
      var i :| 0 <= i < |s[1..]| && s[1..][i].offset <= x < s[1..][i].End();
      assert s[i + 1].offset <= x < s[i + 1].End();
    }
    if Covered(s, x) && s[0].End() < x {
      var i :| 0 <= i < |s| && s[i].offset <= x < s[i].End();
      assert s[1..][i - 1].offset <= x < s[1..][i - 1].End();
    }
  }

  /** Two separated lists covering the same offsets are the same list. */
  lemma {:induction false} SeparatedUnique(s: seq<Hole>, t: seq<Hole>)
    requires Proper(s) && Separated(s) && Proper(t) && Separated(t)
    requires SameCover(s, t)
    ensures s == t
  {
    if s == [] {
      if t != [] {
        SeparatedHeadCovers(t, t[0].offset);
        assert false;
      }
    } else if t == [] {
      SeparatedHeadCovers(s, s[0].offset);
      assert false;
    } else {
      forall x: nat
        ensures Covered(s, x) ==> s[0].offset <= x
        ensures s[0].offset <= x < s[0].End() ==> Covered(s, x)
        ensures x == s[0].End() ==> !Covered(s, x)
        ensures Covered(t, x) ==> t[0].offset <= x
        ensures t[0].offset <= x < t[0].End() ==> Covered(t, x)
        ensures x == t[0].End() ==> !Covered(t, x)
        ensures Covered(s[1..], x) <==> Covered(s, x) && s[0].End() < x
        ensures Covered(t[1..], x) <==> Covered(t, x) && t[0].End() < x
      {
        SeparatedHeadCovers(s, x);
        SeparatedHeadCovers(t, x);
      }
      assert Covered(s, s[0].offset) && Covered(t, t[0].offset);
      assert s[0].offset == t[0].offset;
      assert !Covered(s, s[0].End()) && !Covered(t, t[0].End());
      assert s[0].End() == t[0].End();
      assert SameCover(s[1..], t[1..]);
      SeparatedUnique(s[1..], t[1..]);
      assert s == [s[0]] + s[1..] && t == [t[0]] + t[1..];
    }
  }

  /** Reordering extents does not change what they cover. */
  lemma PermutedCover(a: seq<Hole>, b: seq<Hole>)
    requires multiset(a) == multiset(b)
    ensures SameCover(a, b)
    ensures |a| == |b|
    ensures Proper(a) <==> Proper(b)
  {
    assert |a| == |multiset(a)| && |b| == |multiset(b)|;
    assert forall h :: h in a <==> h in multiset(a);
    assert forall h :: h in b <==> h in multiset(b);
    forall h: Hole ensures h in a <==> h in b {
      assert h in a <==> h in multiset(a);
    }
    forall x: nat ensures Covered(a, x) <==> Covered(b, x) {
      assert Covered(a, x) <==> exists h :: h in a && h.offset <= x < h.End();
      assert Covered(b, x) <==> exists h :: h in b && h.offset <= x < h.End();
    }
    assert Proper(a) <==> forall h :: h in a ==> h.length > 0 && h.End() < U64_LIMIT;
    assert Proper(b) <==> forall h :: h in b ==> h.length > 0 && h.End() < U64_LIMIT;
  }

  /** What `normalize` makes of a hole list, whatever the input or tie order. */
  method Canonicalize(holes: seq<Hole>) returns (r: seq<Hole>)
    requires Proper(holes)
    ensures Proper(r) && Separated(r) && SameCover(r, holes)
    ensures |r| <= |holes|
  {
    var sorted := Sorting.Sort(holes, OffsetLt);
    PermutedCover(sorted, holes);
    assert SortedByOffset(sorted) by {
      forall i, j | 0 <= i < j < |sorted| ensures sorted[i].offset <= sorted[j].offset {
        assert !OffsetLt(sorted[j], sorted[i]);
      }
    }
    var a := new Hole[|sorted|](i requires 0 <= i < |sorted| => sorted[i]);
    assert a[..] == sorted;
    var count := MergeInPlace(a);
    r := a[..count];
  }

  /** Any two hole lists covering the same offsets have the same canonical form. */
  lemma CanonicalFormUnique(a: seq<Hole>, b: seq<Hole>, r: seq<Hole>, t: seq<Hole>)
    requires SameCover(a, b)
    requires Proper(r) && Separated(r) && SameCover(r, a)
    requires Proper(t) && Separated(t) && SameCover(t, b)
    ensures r == t
  {
    SeparatedUnique(r, t);
  }
}
