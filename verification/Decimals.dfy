/** Numeric principals: the decimal printer and the lenient decimal parser of rust/src/linux_acl.rs. */
module Decimals {
  import opened Wire

  const ZERO: byte := 0x30
  const UNDERSCORE: byte := 0x5f
  const PLUS: byte := 0x2b
  const MINUS: byte := 0x2d

  predicate IsDigit(b: byte) { ZERO <= b <= 0x39 }

  function Digit(v: nat): (d: byte)
    requires v < 10
    ensures IsDigit(d)
  {
    0x30 + v
  }

  /* ---------- Printing ---------- */

  function Print(v: nat): (s: bytes)
    ensures s != [] && forall b :: b in s ==> IsDigit(b)
  {
    if v < 10 then [Digit(v)] else Print(v / 10) + [Digit(v % 10)]
  }

  function Pow10(n: nat): (p: nat)
    ensures p > 0
  {
    if n == 0 then 1 else 10 * Pow10(n - 1)
  }

  lemma TenDigits()
    ensures Pow10(10) > U32_LIMIT
  {
    assert Pow10(2) == 100;
    assert Pow10(4) == 100 * Pow10(2);
    assert Pow10(6) == 100 * Pow10(4);
    assert Pow10(8) == 100 * Pow10(6);
    assert Pow10(10) == 100 * Pow10(8);
  }

  /** The ten-byte buffer filled from its end. */
  method Decimal(v: u32) returns (s: bytes)
    ensures s == Print(v)
  {
    var digits := new byte[10];
    var begin, value := 10, v as nat;
    TenDigits();
    while true
      invariant 0 <= begin <= 10 && value < Pow10(begin)
      invariant value > 0 || begin == 10
      invariant begin == 10 ==> value == v
      invariant begin < 10 ==> Print(v) == Print(value) + digits[begin..]
      decreases value, begin
    {
      ghost var old' := digits[begin..];
      begin := begin - 1;
      digits[begin] := Digit(value % 10);
      assert digits[begin..] == [Digit(value % 10)] + old';
      assert value >= 10 ==> Print(value) == Print(value / 10) + [Digit(value % 10)];
      value := value / 10;
      if value == 0 {
        break;
      }
    }
    s := digits[begin..];
  }

  /** Digit by digit: place `k` from the right holds the tens of that power. */
  lemma {:induction false} PrintDigits(v: nat, k: nat)
    ensures k < |Print(v)| ==> Print(v)[|Print(v)| - 1 - k] == 0x30 + v / Pow10(k) % 10
    ensures k >= |Print(v)| ==> v / Pow10(k) == 0
    ensures v > 0 ==> Print(v)[0] != 0x30
  {
    if v < 10 {
      if k > 0 {
        SmallQuotient(v, Pow10(k - 1));
      }
    } else {
      PrintDigits(v / 10, if k > 0 then k - 1 else 0);
      assert Print(v) == Print(v / 10) + [Digit(v % 10)];
      if k > 0 {
        DivTwice(v, 10, Pow10(k - 1));
        assert Pow10(k) == 10 * Pow10(k - 1);
      } else {
        assert Pow10(0) == 1;
      }
    }
  }

  lemma SmallQuotient(v: nat, p: nat)
    requires v < 10 && p > 0
    ensures v / (10 * p) == 0
  {
    MulMonotone(10, 1, p);
    QuotientIs(v, 10 * p, 0, v);
  }

  /* ---------- Parsing ---------- */

  /** The number a run of digits and separators spells. */
  function Value(s: bytes): (v: nat)
  {
    if s == [] then 0
    else
      var last := s[|s| - 1];
      var before := Value(s[..|s| - 1]);
      if last == UNDERSCORE || !IsDigit(last) then before else 10 * before + (last - ZERO)
  }

  function Unsigned(name: bytes): (digits: bytes) {
    if name != [] && (name[0] == PLUS || name[0] == MINUS) then name[1..] else name
  }

  predicate Negative(name: bytes) {
    name != [] && name[0] == MINUS
  }

  predicate Spelled(digits: bytes, negative: bool) {
    forall b :: b in digits ==> b == UNDERSCORE || (IsDigit(b) && (negative ==> b == ZERO))
  }

  /** Digits with inner separators, an optional sign, and only zero may be negative. */
  predicate Grammatical(name: bytes) {
    var digits := Unsigned(name);
    && digits != [] && digits[0] != UNDERSCORE && digits[|digits| - 1] != UNDERSCORE
    && Spelled(digits, Negative(name))
  }

  function Parse(name: bytes): (r: Option<u32>)
  {
    if Grammatical(name) && Value(Unsigned(name)) < U32_LIMIT then Some(Value(Unsigned(name))) else None
  }

  /** A prefix never spells more than the whole. */
  lemma {:induction false} ValueMonotone(s: bytes, n: nat)
    requires n <= |s|
    ensures Value(s[..n]) <= Value(s)
  {
    if n < |s| {
      ValueMonotone(s[..|s| - 1], n);
      assert s[..|s| - 1][..n] == s[..n];
    } else {
      assert s[..n] == s;
    }
  }

  /** The parsing loop, with its overflow checks after every digit. */
  method Principal(name: bytes) returns (r: Option<u32>)
    ensures r == Parse(name)
  {
    var negative, digits := false, name;
    if name != [] && name[0] == PLUS {
      digits := name[1..];
    } else if name != [] && name[0] == MINUS {
      negative, digits := true, name[1..];
    }
    if digits == [] || digits[0] == UNDERSCORE || digits[|digits| - 1] == UNDERSCORE {
      return None;
    }
    var value: u32 := 0;
    for i := 0 to |digits|
      invariant value == Value(digits[..i])
      invariant Spelled(digits[..i], negative)
    {
      var b := digits[i];
      assert digits[..i + 1] == digits[..i] + [b];
      assert digits[..i + 1][..i] == digits[..i];
      if b == UNDERSCORE {
        continue;
      }
      if !IsDigit(b) || (negative && b != ZERO) {
        assert b in digits;
        return None;
      }
      var next := 10 * (value as nat) + (b as nat - ZERO as nat);
      if next >= U32_LIMIT {
        ValueMonotone(digits, i + 1);
        return None;
      }
      value := next;
    }
    assert digits[..|digits|] == digits;
    r := Some(value);
  }

  /* ---------- Parsing undoes printing ---------- */

  lemma {:induction false} ValueOfPrint(v: nat)
    ensures Value(Print(v)) == v
  {
    var s := Print(v);
    if v >= 10 {
      ValueOfPrint(v / 10);
      assert s[..|s| - 1] == Print(v / 10) && s[|s| - 1] == Digit(v % 10);
    } else {
      assert s[..|s| - 1] == [];
    }
  }

  /** Every 32-bit principal survives printing and parsing. */
  lemma ParseOfPrint(v: u32)
    ensures Parse(Print(v)) == Some(v)
  {
    var s := Print(v);
    ValueOfPrint(v);
    assert s[0] in s && s[|s| - 1] in s;
  }

  lemma {:induction false} PrintShort(v: nat, n: nat)
    requires v < Pow10(n) && n > 0
    ensures |Print(v)| <= n
  {
    if v >= 10 {
      PrintShort(v / 10, n - 1);
    }
  }

  lemma PrintLength(v: u32)
    ensures |Print(v)| <= 10
  {
    TenDigits();
    PrintShort(v, 10);
  }

  /* ---------- Which names spell a number ---------- */

  function WithoutSeparators(s: bytes): (r: bytes) {
    if s == [] then []
    else WithoutSeparators(s[..|s| - 1]) + if s[|s| - 1] == 0x5f then [] else [s[|s| - 1]]
  }

  function Zeros(n: nat): (s: bytes) { seq(n, _ => 0x30) }

  /** Decimal digits of `v`, perhaps with zeros in front and separators between. */
  predicate Spells(digits: bytes, v: nat) {
    && digits != [] && digits[0] != 0x5f && digits[|digits| - 1] != 0x5f
    && var plain := WithoutSeparators(digits);
    && |plain| >= |Print(v)| && plain == Zeros(|plain| - |Print(v)|) + Print(v)
  }

  lemma {:induction false} ValueOfPlain(s: bytes)
    requires forall b :: b in s ==> b == 0x5f || IsDigit(b)
    ensures Value(s) == Value(WithoutSeparators(s))
    ensures forall b :: b in WithoutSeparators(s) ==> IsDigit(b)
    ensures s != [] && s[0] != 0x5f ==> WithoutSeparators(s) != []
  {
    if s != [] {
      var before, last := s[..|s| - 1], s[|s| - 1];
      ValueOfPlain(before);
      assert last in s;
      if last == 0x5f {
        assert WithoutSeparators(s) == WithoutSeparators(before);
      } else {
        var plain := WithoutSeparators(s);
        assert plain == WithoutSeparators(before) + [last];
        assert plain[..|plain| - 1] == WithoutSeparators(before);
      }
    }
  }

  /** A run of digits is the number it spells, with zeros in front. */
  lemma {:induction false} PrintOfValue(s: bytes)
    requires s != [] && forall b :: b in s ==> IsDigit(b)
    ensures |s| >= |Print(Value(s))| && s == Zeros(|s| - |Print(Value(s))|) + Print(Value(s))
  {
    var before, last := s[..|s| - 1], s[|s| - 1];
    assert s == before + [last] && last in s;
    ValueSnoc(before, last);
    var v, d := Value(before), last - ZERO;
    PrintSnoc(v, d);
    hide Print, Value;
    if before == [] {
      assert Value(s) == d;
    } else {
      PrintOfValue(before);
      if v == 0 {
        assert before == Zeros(|before|);
      }
    }
  }

  lemma ValueSnoc(s: bytes, last: byte)
    requires IsDigit(last)
    ensures Value(s + [last]) == 10 * Value(s) + (last - ZERO)
    ensures Value([]) == 0
  {
    assert (s + [last])[..|s|] == s;
  }

  lemma PrintSnoc(v: nat, d: nat)
    requires d < 10
    ensures Print(d) == [0x30 + d] && Print(0) == [0x30]
    ensures v > 0 ==> Print(10 * v + d) == Print(v) + [0x30 + d]
  {
  }

  lemma {:induction false} ValueOfZeros(n: nat, s: bytes)
    ensures Value(Zeros(n) + s) == Value(s)
    decreases n + |s|
  {
    var all := Zeros(n) + s;
    if s != [] {
      assert all[..|all| - 1] == Zeros(n) + s[..|s| - 1];
      ValueOfZeros(n, s[..|s| - 1]);
    } else if n > 0 {
      assert all[..|all| - 1] == Zeros(n - 1) + s;
      ValueOfZeros(n - 1, s);
    }
  }

  lemma {:induction false} DigitsOfPlain(s: bytes)
    requires forall b :: b in WithoutSeparators(s) ==> IsDigit(b)
    ensures forall b :: b in s ==> b == 0x5f || IsDigit(b)
    ensures (forall b :: b in WithoutSeparators(s) ==> b == 0x30) ==> forall b :: b in s ==> b == 0x5f || b == 0x30
  {
    if s != [] {
      var before, last := s[..|s| - 1], s[|s| - 1];
      assert forall b :: b in WithoutSeparators(before) ==> b in WithoutSeparators(s);
      DigitsOfPlain(before);
      assert s == before + [last];
      assert last != 0x5f ==> last in WithoutSeparators(s);
    }
  }

  lemma SpellsMeans(digits: bytes, v: nat)
    ensures Spells(digits, v) <==>
            && digits != [] && digits[0] != 0x5f && digits[|digits| - 1] != 0x5f
            && (forall b :: b in digits ==> b == 0x5f || IsDigit(b)) && Value(digits) == v
  {
    hide Print, Value, WithoutSeparators;
    var plain := WithoutSeparators(digits);
    if Spells(digits, v) {
      ValueOfZeros(|plain| - |Print(v)|, Print(v));
      ValueOfPrint(v);
      DigitsOfPlain(digits);
      ValueOfPlain(digits);
    }
    if digits != [] && digits[0] != 0x5f && forall b :: b in digits ==> b == 0x5f || IsDigit(b) {
      ValueOfPlain(digits);
      PrintOfValue(plain);
    }
  }

  /**
   A name is read as `v` exactly when it spells `v`: digits with optional zeros in front and
   underscores between, perhaps behind a plus, or behind a minus when `v` is zero.
   */
  lemma ParseMeans(name: bytes, v: u32)
    ensures Parse(name) == Some(v) <==>
            || Spells(name, v)
            || (name != [] && name[0] == 0x2b && Spells(name[1..], v))
            || (name != [] && name[0] == 0x2d && v == 0 && Spells(name[1..], 0))
  {
    hide Spells, Value;
    SpellsMeans(name, v);
    assert name != [] ==> name[0] in name;
    if name != [] && (name[0] == PLUS || name[0] == MINUS) {
      SpellsMeans(name[1..], v);
      if forall b :: b in name[1..] ==> b == 0x5f || IsDigit(b) {
        NegativeMeans(name[1..]);
      }
    }
  }

  lemma {:induction false} NegativeMeans(digits: bytes)
    requires forall b :: b in digits ==> b == 0x5f || IsDigit(b)
    ensures Value(digits) == 0 <==> forall b :: b in digits ==> b == 0x5f || b == 0x30
  {
    if digits != [] {
      var before, last := digits[..|digits| - 1], digits[|digits| - 1];
      assert digits == before + [last] && last in digits;
      assert forall b :: b in before ==> b in digits;
      NegativeMeans(before);
      assert forall b :: b in digits <==> b in before || b == last;
      assert (forall b :: b in digits ==> b == 0x5f || b == 0x30) <==>
             (forall b :: b in before ==> b == 0x5f || b == 0x30) && (last == 0x5f || last == 0x30);
    }
  }
}
