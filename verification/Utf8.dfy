/** UTF-8 text, decoded as section 4 of RFC 3629 defines it. */
module Utf8 {
  import opened Wire

  predicate Tail(b: byte) {
    0x80 <= b <= 0xbf
  }

  /** Six more bits from a continuation byte. */
  function Scalar(high: int, low: int): int {
    high * 64 + low
  }

  /** The first scalar value of `s` and the number of bytes it takes. */
  function First(s: bytes): (r: Option<(char, nat)>)
    ensures r.Some? ==> 1 <= r.value.1 <= |s|
  {
    if s == [] then None
    else if s[0] < 0x80 then Some((s[0] as char, 1))
    else if |s| < 2 || !Tail(s[1]) then None
    else if 0xc2 <= s[0] <= 0xdf then
      Some((Scalar(s[0] - 0xc0, s[1] - 0x80) as char, 2))
    else if |s| < 3 || !Tail(s[2]) then None
    else if || (s[0] == 0xe0 && s[1] >= 0xa0) || 0xe1 <= s[0] <= 0xec
            || (s[0] == 0xed && s[1] <= 0x9f) || 0xee <= s[0] <= 0xef then
      Some((Scalar(Scalar(s[0] - 0xe0, s[1] - 0x80), s[2] - 0x80) as char, 3))
    else if |s| < 4 || !Tail(s[3]) then None
    else if || (s[0] == 0xf0 && s[1] >= 0x90) || 0xf1 <= s[0] <= 0xf3
            || (s[0] == 0xf4 && s[1] <= 0x8f) then
      Some((Scalar(Scalar(Scalar(s[0] - 0xf0, s[1] - 0x80), s[2] - 0x80), s[3] - 0x80) as char, 4))
    else None
  }

  function Decode(s: bytes): (r: Option<seq<char>>)
  {
    if s == [] then Some([])
    else
      var (c, n) :- First(s);
      var cs :- Decode(s[n..]);
      Some([c] + cs)
  }

  predicate Valid(s: bytes) {
    Decode(s).Some?
  }

  /* ---------- The encoding, as the same section lays out its bits ---------- */

  function EncodeChar(c: char): (s: bytes)
    ensures 1 <= |s| <= 4
  {
    var v := c as int;
    if v < 0x80 then [v]
    else if v < 0x800 then [0xc0 + v / 64, 0x80 + v % 64]
    else if v < 0x1_0000 then [0xe0 + v / 4096, 0x80 + v / 64 % 64, 0x80 + v % 64]
    else [0xf0 + v / 262144, 0x80 + v / 4096 % 64, 0x80 + v / 64 % 64, 0x80 + v % 64]
  }

  function Encode(cs: seq<char>): (s: bytes) {
    if cs == [] then [] else EncodeChar(cs[0]) + Encode(cs[1..])
  }

  lemma FirstOfEncode(c: char, tail: bytes)
    ensures First(EncodeChar(c) + tail) == Some((c, |EncodeChar(c)|))
  {
    var v := c as int;
    var s := EncodeChar(c) + tail;
    assert v < 0x11_0000 && !(0xd800 <= v < 0xe000);
    if v >= 0x800 {
      assert v / 64 / 64 == v / 4096 && v / 4096 / 64 == v / 262144;
    }
  }

  lemma SixBits(high: nat, low: nat)
    requires low < 64
    ensures (high * 64 + low) / 64 == high && (high * 64 + low) % 64 == low
  {
  }

  /** Taking apart what three continuation bytes put together. */
  lemma SixBitsThrice(a: nat, b: nat, c: nat, d: nat)
    requires b < 64 && c < 64 && d < 64
    ensures var v := Scalar(Scalar(Scalar(a, b), c), d);
            v % 64 == d && v / 64 % 64 == c && v / 4096 % 64 == b && v / 262144 == a
  {
    var x := Scalar(a, b);
    var y := Scalar(x, c);
    var v := Scalar(y, d);
    SixBits(a, b);
    SixBits(x, c);
    SixBits(y, d);
    hide Scalar;
    Shifted(v, y, x);
    Shifted(y, x, a);
    assert v / 64 == y && y / 64 == x && x / 64 == a;
    DivTwice(v, 64, 4096);
  }

  lemma Shifted(v: nat, y: nat, x: nat)
    requires v / 64 == y && y / 64 == x
    ensures v / 4096 == x
  {
    DivTwice(v, 64, 64);
  }

  lemma EncodeOfFirst(s: bytes)
    requires First(s).Some?
    ensures var (c, n) := First(s).value; s[..n] == EncodeChar(c)
  {
    hide Scalar;
    var (c, n) := First(s).value;
    if n == 2 {
      TwoScalar(s[0] - 0xc0, s[1] - 0x80);
    } else if n == 3 {
      ThreeScalar(s[0] - 0xe0, s[1] - 0x80, s[2] - 0x80);
    } else if n == 4 {
      SixBitsThrice(s[0] - 0xf0, s[1] - 0x80, s[2] - 0x80, s[3] - 0x80);
      FourScalar(s[0] - 0xf0, s[1] - 0x80, s[2] - 0x80, s[3] - 0x80);
    }
  }

  lemma TwoScalar(a: nat, b: nat)
    requires 2 <= a < 32 && b < 64
    ensures var v := Scalar(a, b); 0x80 <= v < 0x800 && v / 64 == a && v % 64 == b
  {
    SixBits(a, b);
  }

  lemma ThreeScalar(a: nat, b: nat, c: nat)
    requires a < 16 && b < 64 && c < 64 && (a > 0 || b >= 32)
    ensures var v := Scalar(Scalar(a, b), c);
            0x800 <= v < 0x1_0000 && v / 4096 == a && v / 64 % 64 == b && v % 64 == c
  {
    var x := a * 64 + b;
    SixBits(a, b);
    SixBits(x, c);
    DivTwice(x * 64 + c, 64, 64);
  }

  lemma FourScalar(a: nat, b: nat, c: nat, d: nat)
    requires b < 64 && c < 64 && d < 64 && (a > 0 || b >= 16)
    ensures Scalar(Scalar(Scalar(a, b), c), d) >= 0x1_0000
  {
  }

  /** Text and valid byte strings determine each other. */
  lemma {:induction false} DecodeOfEncode(cs: seq<char>)
    ensures Decode(Encode(cs)) == Some(cs)
  {
    hide First, EncodeChar;
    if cs != [] {
      var first, rest := EncodeChar(cs[0]), Encode(cs[1..]);
      FirstOfEncode(cs[0], rest);
      DecodeOfEncode(cs[1..]);
      assert (first + rest)[|first|..] == rest;
      assert cs == [cs[0]] + cs[1..];
    }
  }

  lemma {:induction false} EncodeOfDecode(s: bytes)
    requires Decode(s).Some?
    ensures Encode(Decode(s).value) == s
  {
    hide First, EncodeChar;
    if s != [] {
      var (c, n) := First(s).value;
      EncodeOfFirst(s);
      EncodeOfDecode(s[n..]);
      var cs := Decode(s).value;
      assert cs[0] == c && cs[1..] == Decode(s[n..]).value;
      assert s == s[..n] + s[n..];
    }
  }

  /** Plain ASCII text is valid and decodes to one character per byte. */
  lemma {:induction false} AsciiDecodes(s: bytes)
    requires forall b :: b in s ==> b < 0x80
    ensures Valid(s) && |Decode(s).value| == |s|
  {
    if s != [] {
      assert s[0] in s;
      assert forall b :: b in s[1..] ==> b in s;
      AsciiDecodes(s[1..]);
    }
  }

  /** Text may be cut in front of any ASCII byte. */
  lemma {:induction false} ValidSuffix(s: bytes, i: nat)
    requires Valid(s) && i < |s| && s[i] < 0x80
    ensures Valid(s[i..])
  {
    if i > 0 {
      var n := First(s).value.1;
      assert n <= i;
      ValidSuffix(s[n..], i - n);
      assert s[n..][i - n..] == s[i..];
    } else {
      assert s[0..] == s;
    }
  }

  type Str = s: bytes | Valid(s) witness []
}
