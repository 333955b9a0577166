/**
 Repeated records on the wire, for any record codec.  A codec is a writer `put` and a parser
 `step`; the list laws follow from the laws of one record.
 */
module Listing {
  import opened Wire

  type Step<+T, +E> = Result<Parsed<T>, E>

  function PutAll<T>(xs: seq<T>, put: (T, bytes) -> bytes, tail: bytes): (s: bytes)
  {
    if xs == [] then tail else put(xs[0], PutAll(xs[1..], put, tail))
  }

  function ParseAll<T, E>(s: bytes, n: nat, step: bytes -> Step<T, E>): (r: Step<seq<T>, E>)
    decreases n
  {
    if n == 0 then Ok(Parsed([], s))
    else
      var Parsed(x, s1) :- step(s);
      var Parsed(xs, s2) :- ParseAll(s1, n - 1, step);
      Ok(Parsed([x] + xs, s2))
  }

  /** `step` reads back what `put` wrote for `x`, whatever follows. */
  ghost predicate Reads<T, E>(step: bytes -> Step<T, E>, put: (T, bytes) -> bytes, x: T) {
    forall tail: bytes :: step(put(x, tail)) == Ok(Parsed(x, tail))
  }

  /** Whatever `step` accepts is what `put` writes. */
  ghost predicate Writes<T, E>(step: bytes -> Step<T, E>, put: (T, bytes) -> bytes) {
    forall s: bytes :: step(s).Ok? ==> s == put(step(s).value.value, step(s).value.rest)
  }

  /** Every record takes at least `unit` bytes. */
  ghost predicate Sized<T(!new)>(put: (T, bytes) -> bytes, unit: nat) {
    forall x: T, tail: bytes :: |put(x, tail)| >= unit + |tail|
  }

  lemma {:induction false} ParseOfPut<T, E>(xs: seq<T>, put: (T, bytes) -> bytes,
                                            step: bytes -> Step<T, E>, tail: bytes)
    requires forall i :: 0 <= i < |xs| ==> Reads(step, put, xs[i])
    ensures ParseAll(PutAll(xs, put, tail), |xs|, step) == Ok(Parsed(xs, tail))
  {
    if xs != [] {
      assert Reads(step, put, xs[0]);
      ParseOfPut(xs[1..], put, step, tail);
      assert xs == [xs[0]] + xs[1..];
    }
  }

  lemma {:induction false} PutOfParse<T, E>(s: bytes, n: nat, step: bytes -> Step<T, E>, put: (T, bytes) -> bytes)
    requires Writes(step, put) && ParseAll(s, n, step).Ok?
    ensures var Parsed(xs, rest) := ParseAll(s, n, step).value; |xs| == n && s == PutAll(xs, put, rest)
    decreases n
  {
    if n > 0 {
      var Parsed(x, s1) := step(s).value;
      PutOfParse(s1, n - 1, step, put);
      var Parsed(xs, s2) := ParseAll(s1, n - 1, step).value;
      assert ([x] + xs)[1..] == xs;
    }
  }

  /** What holds of every record the parser accepts holds of every record in a list. */
  lemma {:induction false} ParseAllSatisfies<T, E>(s: bytes, n: nat, step: bytes -> Step<T, E>, good: T -> bool)
    requires forall t: bytes :: step(t).Ok? ==> good(step(t).value.value)
    requires ParseAll(s, n, step).Ok?
    ensures forall x :: x in ParseAll(s, n, step).value.value ==> good(x)
    decreases n
  {
    if n > 0 {
      ParseAllSatisfies(step(s).value.rest, n - 1, step, good);
    }
  }

  lemma {:induction false} PutAllSize<T(!new)>(xs: seq<T>, put: (T, bytes) -> bytes, tail: bytes, unit: nat)
    requires Sized(put, unit)
    ensures |PutAll(xs, put, tail)| >= unit * |xs| + |tail|
  {
    if xs != [] {
      PutAllSize(xs[1..], put, tail, unit);
      assert |put(xs[0], PutAll(xs[1..], put, tail))| >= unit + |PutAll(xs[1..], put, tail)|;
      assert unit * |xs| == unit * |xs[1..]| + unit;
    }
  }

  /* ---------- Counted lists ---------- */

  function PutCounted<T>(xs: seq<T>, put: (T, bytes) -> bytes, tail: bytes): (s: bytes)
    ensures |s| == 4 + |PutAll(xs, put, tail)|
  {
    PutWord(4, |xs|, PutAll(xs, put, tail))
  }

  /** A count is refused when the records it announces cannot fit in what is left. */
  function Counted<T, E>(s: bytes, unit: nat, step: bytes -> Step<T, E>, short: E): (r: Step<seq<T>, E>)
    requires unit > 0
  {
    var Parsed(n, s1) :- Word(s, 4).OrElse(short);
    if n > |s1| / unit then Err(short) else ParseAll(s1, n, step)
  }

  lemma CountedOfPut<T(!new), E>(xs: seq<T>, put: (T, bytes) -> bytes, step: bytes -> Step<T, E>,
                                 tail: bytes, unit: nat, short: E)
    requires unit > 0 && |xs| < U32_LIMIT && Sized(put, unit)
    requires forall i :: 0 <= i < |xs| ==> Reads(step, put, xs[i])
    ensures Counted(PutCounted(xs, put, tail), unit, step, short) == Ok(Parsed(xs, tail))
  {
    WordSizes();
    WordOfPut(4, |xs|, PutAll(xs, put, tail));
    PutAllSize(xs, put, tail, unit);
    QuotientBound(|xs|, unit, |PutAll(xs, put, tail)|);
    ParseOfPut(xs, put, step, tail);
  }

  lemma PutOfCounted<T, E>(s: bytes, unit: nat, step: bytes -> Step<T, E>, put: (T, bytes) -> bytes, short: E)
    requires unit > 0 && Writes(step, put) && Counted(s, unit, step, short).Ok?
    ensures var Parsed(xs, rest) := Counted(s, unit, step, short).value;
            |xs| < U32_LIMIT && s == PutCounted(xs, put, rest)
  {
    WordSizes();
    PutOfWord(s, 4);
    var Parsed(n, s1) := Word(s, 4).value;
    PutOfParse(s1, n, step, put);
  }

  /** The same two laws when only the listed records are known to be that large. */
  ghost predicate AtLeast<T>(put: (T, bytes) -> bytes, x: T, unit: nat) {
    forall tail: bytes :: |put(x, tail)| >= unit + |tail|
  }

  lemma {:induction false} ListedSize<T>(xs: seq<T>, put: (T, bytes) -> bytes, tail: bytes, unit: nat)
    requires forall i :: 0 <= i < |xs| ==> AtLeast(put, xs[i], unit)
    ensures |PutAll(xs, put, tail)| >= unit * |xs| + |tail|
  {
    if xs != [] {
      ListedSize(xs[1..], put, tail, unit);
      assert AtLeast(put, xs[0], unit);
      assert |put(xs[0], PutAll(xs[1..], put, tail))| >= unit + |PutAll(xs[1..], put, tail)|;
      assert unit * |xs| == unit * |xs[1..]| + unit;
    }
  }

  lemma CountedOfListed<T, E>(xs: seq<T>, put: (T, bytes) -> bytes, step: bytes -> Step<T, E>,
                              tail: bytes, unit: nat, short: E)
    requires unit > 0 && |xs| < U32_LIMIT
    requires forall i :: 0 <= i < |xs| ==> AtLeast(put, xs[i], unit)
    requires forall i :: 0 <= i < |xs| ==> Reads(step, put, xs[i])
    ensures Counted(PutCounted(xs, put, tail), unit, step, short) == Ok(Parsed(xs, tail))
  {
    WordSizes();
    WordOfPut(4, |xs|, PutAll(xs, put, tail));
    ListedSize(xs, put, tail, unit);
    QuotientBound(|xs|, unit, |PutAll(xs, put, tail)|);
    ParseOfPut(xs, put, step, tail);
  }

  /* ---------- Unambiguous lists ---------- */

  /** Two records that `put` writes alike, whatever follows them, are the same record. */
  ghost predicate Unambiguous<T>(put: (T, bytes) -> bytes, x: T, y: T) {
    forall s: bytes, t: bytes :: put(x, s) == put(y, t) ==> x == y && s == t
  }

  lemma {:induction false} PutAllInjective<T>(xs: seq<T>, ys: seq<T>, put: (T, bytes) -> bytes, s: bytes, t: bytes)
    requires |xs| == |ys|
    requires forall i :: 0 <= i < |xs| ==> Unambiguous(put, xs[i], ys[i])
    requires PutAll(xs, put, s) == PutAll(ys, put, t)
    ensures xs == ys && s == t
  {
    if xs != [] {
      assert Unambiguous(put, xs[0], ys[0]);
      PutAllInjective(xs[1..], ys[1..], put, s, t);
      assert xs == [xs[0]] + xs[1..] && ys == [ys[0]] + ys[1..];
    }
  }

  /* ---------- Appending ---------- */

  /** `put` only prepends: what follows is carried along unchanged. */
  ghost predicate Prepends<T(!new)>(put: (T, bytes) -> bytes) {
    forall x: T, s: bytes, t: bytes :: put(x, s) + t == put(x, s + t)
  }

  lemma {:induction false} PutAllAppend<T(!new)>(xs: seq<T>, put: (T, bytes) -> bytes, s: bytes, t: bytes)
    requires Prepends(put)
    ensures PutAll(xs, put, s) + t == PutAll(xs, put, s + t)
  {
    if xs != [] {
      PutAllAppend(xs[1..], put, s, t);
    }
  }
}
