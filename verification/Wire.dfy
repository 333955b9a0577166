/**
 Bytes, failure-compatible results and the little-endian words that every wire format of
 difz is built from.

 Encoders are written in continuation style: `PutX(x, tail)` is the encoding of `x` followed by
 `tail`.  Parsers consume from the front and return the value with the bytes that remain, so
 "parsing undoes putting" reads `X(PutX(x, tail)) == Some(Parsed(x, tail))`.
 */
module Wire {

  type byte = n: nat | n < 256
  type bytes = seq<byte>
  type u16 = n: nat | n < 0x1_0000
  type u32 = n: nat | n < 0x1_0000_0000
  type u64 = n: nat | n < 0x1_0000_0000_0000_0000
  type i64 = n: int | -0x8000_0000_0000_0000 <= n < 0x8000_0000_0000_0000

  const U32_MAX: u32 := 0xffff_ffff
  const U32_LIMIT: nat := 0x1_0000_0000
  const U64_LIMIT: nat := 0x1_0000_0000_0000_0000

  datatype Option<+T> = None | Some(value: T) {
    predicate IsFailure() { None? }
    function PropagateFailure<U>(): Option<U> requires None? { None }
    function Extract(): T requires Some? { value }

    function OrElse<E>(error: E): Result<T, E> {
      if Some? then Ok(value) else Err(error)
    }
  }

  datatype Result<+T, +E> = Ok(value: T) | Err(error: E) {
    predicate IsFailure() { Err? }
    function PropagateFailure<U>(): Result<U, E> requires Err? { Err(error) }
    function Extract(): T requires Ok? { value }
  }

  datatype Checked<+E> = Pass | Fail(error: E) {
    predicate IsFailure() { Fail? }
    function PropagateFailure<U>(): Result<U, E> requires Fail? { Err(error) }
  }

  function Need<E>(condition: bool, error: E): (c: Checked<E>) {
    if condition then Pass else Fail(error)
  }

  /** A parsed value and the input left after it. */
  datatype Parsed<+T> = Parsed(value: T, rest: bytes)

  /* ---------- Little-endian words ---------- */

  function Pow256(n: nat): (p: nat)
    ensures p > 0
  {
    if n == 0 then 1 else 256 * Pow256(n - 1)
  }

  /** The `width` low bytes of `v`, least significant first. */
  function Le(width: nat, v: nat): (s: bytes)
    ensures |s| == width
  {
    if width == 0 then [] else [v % 256] + Le(width - 1, v / 256)
  }

  function FromLe(s: bytes): (v: nat)
    ensures v < Pow256(|s|)
  {
    if s == [] then 0 else s[0] + 256 * FromLe(s[1..])
  }

  /** Little-endian: byte `k` holds the bits from 8k on. */
  lemma {:induction false} LeAt(width: nat, v: nat, k: nat)
    requires k < width
    ensures Le(width, v)[k] == v / Pow256(k) % 256
  {
    if k > 0 {
      LeAt(width - 1, v / 256, k - 1);
      DivTwice(v, 256, Pow256(k - 1));
    } else {
      assert Pow256(0) == 1;
    }
  }

  lemma DivTwice(v: nat, a: nat, b: nat)
    requires a > 0 && b > 0
    ensures a * b > 0 && v / a / b == v / (a * b)
  {
    var n, low := v / a, v % a;
    var q, r := n / b, n % b;
    MulMonotone(a, 1, b);
    assert v == a * n + low by { Divided(v, a); }
    assert n == b * q + r by { Divided(n, b); }
    Expanded(a, b, q, r);
    MulMonotone(a, r + 1, b);
    assert a * (r + 1) == a * r + a;
    QuotientIs(v, a * b, q, a * r + low);
  }

  lemma Divided(v: nat, d: nat)
    requires d > 0
    ensures v == d * (v / d) + v % d
  {
  }

  lemma Expanded(a: nat, b: nat, q: nat, r: nat)
    ensures a * (b * q + r) == q * (a * b) + a * r
  {
    assert a * (b * q + r) == a * (b * q) + a * r;
    assert a * (b * q) == (a * b) * q;
  }

  lemma QuotientIs(v: nat, d: nat, q: nat, r: nat)
    requires d > 0 && v == q * d + r && r < d
    ensures v / d == q
  {
    var e := v / d;
    assert v == e * d + v % d;
    if e < q {
      MulMonotone(d, e + 1, q);
      assert false;
    } else if q < e {
      MulMonotone(d, q + 1, e);
      assert false;
    }
  }

  lemma {:induction false} FromLeOfLe(width: nat, v: nat)
    requires v < Pow256(width)
    ensures FromLe(Le(width, v)) == v
  {
    if width != 0 {
      FromLeOfLe(width - 1, v / 256);
      assert Le(width, v)[1..] == Le(width - 1, v / 256);
    }
  }

  lemma {:induction false} LeOfFromLe(s: bytes)
    ensures Le(|s|, FromLe(s)) == s
  {
    if s != [] {
      LeOfFromLe(s[1..]);
      var v := FromLe(s);
      assert v % 256 == s[0] && v / 256 == FromLe(s[1..]);
      assert s == [s[0]] + s[1..];
    }
  }

  lemma WordSizes()
    ensures Pow256(1) == 0x100
    ensures Pow256(2) == 0x1_0000
    ensures Pow256(4) == U32_LIMIT
    ensures Pow256(8) == U64_LIMIT
  {
    assert Pow256(2) == 256 * Pow256(1);
    assert Pow256(3) == 256 * Pow256(2);
    assert Pow256(4) == 256 * Pow256(3);
    assert Pow256(5) == 256 * Pow256(4);
    assert Pow256(6) == 256 * Pow256(5);
    assert Pow256(7) == 256 * Pow256(6);
    assert Pow256(8) == 256 * Pow256(7);
  }

  lemma MulMonotone(a: nat, b: nat, c: nat)
    requires b <= c
    ensures a * b <= a * c
  {
  }

  lemma QuotientBound(n: nat, unit: nat, total: nat)
    requires unit > 0 && unit * n <= total
    ensures n <= total / unit
  {
    var q := total / unit;
    assert total < unit * (q + 1);
    if q < n {
      MulMonotone(unit, q + 1, n);
      assert false;
    }
  }

  /* ---------- Primitive writers ---------- */

  function PutWord(width: nat, v: nat, tail: bytes): (s: bytes)
    ensures |s| == width + |tail|
  {
    Le(width, v) + tail
  }

  /** A u32 length followed by the bytes themselves. */
  function PutBlob(blob: bytes, tail: bytes): (s: bytes)
    ensures |s| == 4 + |blob| + |tail|
  {
    PutWord(4, |blob|, blob + tail)
  }

  /* ---------- Primitive parsers ---------- */

  function Take(s: bytes, n: nat): (r: Option<Parsed<bytes>>)
    ensures r.Some? <==> n <= |s|
    ensures r.Some? ==> |r.value.value| == n && s == r.value.value + r.value.rest
  {
    if n <= |s| then Some(Parsed(s[..n], s[n..])) else None
  }

  function Word(s: bytes, width: nat): (r: Option<Parsed<nat>>)
    ensures r.Some? <==> width <= |s|
    ensures r.Some? ==> r.value.value < Pow256(width) && |s| == width + |r.value.rest|
  {
    var Parsed(w, rest) :- Take(s, width);
    Some(Parsed(FromLe(w), rest))
  }

  function Blob(s: bytes): (r: Option<Parsed<bytes>>)
    ensures r.Some? ==> |s| == 4 + |r.value.value| + |r.value.rest|
  {
    var Parsed(n, rest) :- Word(s, 4);
    Take(rest, n)
  }

  lemma TakeOfPut(blob: bytes, tail: bytes)
    ensures Take(blob + tail, |blob|) == Some(Parsed(blob, tail))
  {
    assert (blob + tail)[..|blob|] == blob;
    assert (blob + tail)[|blob|..] == tail;
  }

  lemma WordOfPut(width: nat, v: nat, tail: bytes)
    requires v < Pow256(width)
    ensures Word(PutWord(width, v, tail), width) == Some(Parsed(v, tail))
  {
    TakeOfPut(Le(width, v), tail);
    FromLeOfLe(width, v);
  }

  lemma PutOfWord(s: bytes, width: nat)
    ensures Word(s, width).Some? ==>
              var Parsed(v, rest) := Word(s, width).value; s == PutWord(width, v, rest)
  {
    if width <= |s| {
      LeOfFromLe(s[..width]);
    }
  }

  lemma BlobOfPut(blob: bytes, tail: bytes)
    requires |blob| < U32_LIMIT
    ensures Blob(PutBlob(blob, tail)) == Some(Parsed(blob, tail))
  {
    WordSizes();
    WordOfPut(4, |blob|, blob + tail);
    TakeOfPut(blob, tail);
  }

  lemma PutOfBlob(s: bytes)
    ensures Blob(s).Some? ==>
              var Parsed(blob, rest) := Blob(s).value; |blob| < U32_LIMIT && s == PutBlob(blob, rest)
  {
    WordSizes();
    PutOfWord(s, 4);
  }
}
