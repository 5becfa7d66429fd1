/** The Java library conversions the ULID codec calls, in radix 32:
    Long.toUnsignedString(x, 32) and Long.parseUnsignedLong(s, 32), and the
    per-digit mappings Character.forDigit(d, 32) and Character.digit(c, 32)
    beneath them. */
module Radix32 {
  import opened JavaLong

  /** The characters Long.toUnsignedString(_, 32) writes: '0'..'9', then 'a'..'v'. */
  predicate IsCanonicalDigit(c: char) {
    '0' <= c <= '9' || 'a' <= c <= 'v'
  }

  /** The characters Character.digit(_, 32) accepts: upper-case 'A'..'V' as well. */
  predicate IsDigit(c: char) {
    IsCanonicalDigit(c) || 'A' <= c <= 'V'
  }

  /** Character.forDigit(d, 32) */
  function DigitChar(d: nat): (c: char)
    requires d < 32
    ensures IsCanonicalDigit(c) && DigitValue(c) == d
  {
    if d < 10 then ('0' as int + d) as char else ('a' as int + d - 10) as char
  }

  /** Character.digit(c, 32) */
  function DigitValue(c: char): (d: nat)
    requires IsDigit(c)
    ensures d < 32
  {
    if '0' <= c <= '9' then c as int - '0' as int
    else if 'a' <= c <= 'v' then c as int - 'a' as int + 10
    else c as int - 'A' as int + 10
  }

  lemma {:induction false} CanonicalDigitRoundTrip(c: char)
    requires IsCanonicalDigit(c)
    ensures DigitChar(DigitValue(c)) == c
  {
  }

  function Pow32(n: nat): (r: nat)
    ensures r >= 1
  {
    if n == 0 then 1 else 32 * Pow32(n - 1)
  }

  lemma {:induction false} Pow32Monotone(m: nat, n: nat)
    requires m <= n
    ensures Pow32(m) <= Pow32(n)
  {
    if m < n {
      Pow32Monotone(m, n - 1);
    }
  }

  /** The powers of 32 that fixed-width fields of 8 and 10 digits reach. */
  lemma Pow32Values()
    ensures Pow32(7) == 0x8_0000_0000
    ensures Pow32(8) == 0x100_0000_0000
    ensures Pow32(9) == 0x2000_0000_0000
    ensures Pow32(10) == 0x4_0000_0000_0000
    ensures Pow32(12) == 0x1000_0000_0000_0000
  {
    assert Pow32(4) == 0x10_0000;
    assert Pow32(7) == 0x8_0000_0000;
    assert Pow32(10) == 0x4_0000_0000_0000;
  }

  /** The powers of 32 that a whole 26-character text and its pieces reach. */
  lemma Pow32Wide()
    ensures Pow32(16) == 0x1_0000_0000_0000_0000_0000
    ensures Pow32(25) == 0x2000_0000_0000_0000_0000_0000_0000_0000
    ensures Pow32(26) == 0x4_0000_0000_0000_0000_0000_0000_0000_0000
  {
    Pow32Values();
    assert Pow32(16) == 0x1_0000_0000_0000_0000_0000;
    assert Pow32(20) == 0x10_0000_0000_0000_0000_0000_0000;
    assert Pow32(24) == 0x100_0000_0000_0000_0000_0000_0000_0000;
  }

  /** The value of a string of radix-32 digits, most significant first. */
  function DigitsValue(s: string): (v: nat)
    requires forall i :: 0 <= i < |s| ==> IsDigit(s[i])
    ensures v < Pow32(|s|)
  {
    if s == [] then 0 else 32 * DigitsValue(s[..|s| - 1]) + DigitValue(s[|s| - 1])
  }

  /** Long.toUnsignedString(x, 32): the shortest radix-32 numeral of x. */
  function ToUnsignedString(x: Long): (s: string)
    ensures 1 <= |s|
    ensures forall i :: 0 <= i < |s| ==> IsCanonicalDigit(s[i])
    ensures |s| == 1 || s[0] != '0'
    ensures DigitsValue(s) == x
    decreases x
  {
    if x < 32 then [DigitChar(x)]
    else
      var s := ToUnsignedString(x / 32) + [DigitChar(x % 32)];
      assert s[..|s| - 1] == ToUnsignedString(x / 32);
      s
  }

  /** Long.parseUnsignedLong(s, 32) on a numeral of at most 12 digits, which
      always fits in 64 bits (the library's own overflow check never fires). */
  function ParseUnsignedLong(s: string): (x: Long)
    requires 1 <= |s| <= 12
    requires forall i :: 0 <= i < |s| ==> IsDigit(s[i])
    ensures x < Pow32(|s|)
  {
    Pow32Monotone(|s|, 12);
    Pow32Values();
    DigitsValue(s)
  }

  /** The value of two numerals written one after the other. */
  lemma {:induction false} DigitsValueAppend(a: string, b: string)
    requires forall i :: 0 <= i < |a| ==> IsDigit(a[i])
    requires forall i :: 0 <= i < |b| ==> IsDigit(b[i])
    ensures DigitsValue(a + b) == DigitsValue(a) * Pow32(|b|) + DigitsValue(b)
  {
    if b == [] {
      assert a + b == a;
    } else {
      var q, dl := b[..|b| - 1], DigitValue(b[|b| - 1]);
      assert (a + b)[..|a + b| - 1] == a + q;
      assert DigitsValue(a + b) == 32 * DigitsValue(a + q) + dl;
      DigitsValueAppend(a, q);
      assert DigitsValue(b) == 32 * DigitsValue(q) + dl;
      MulShift(DigitsValue(a), Pow32(|q|));
    }
  }

  /** The w lowest radix-32 digits of x, most significant first, zeros included. */
  function FixedDigits(x: nat, w: nat): (s: string)
    ensures |s| == w
    ensures forall i :: 0 <= i < |s| ==> IsCanonicalDigit(s[i])
  {
    if w == 0 then [] else FixedDigits(x / 32, w - 1) + [DigitChar(x % 32)]
  }

  /** The shortest numeral has at most w digits exactly when x < 32^w. */
  lemma {:induction false} ToUnsignedStringLength(x: Long, w: nat)
    requires w >= 1
    ensures |ToUnsignedString(x)| <= w <==> x < Pow32(w)
    decreases x
  {
    if x >= 32 {
      if w == 1 {
        assert |ToUnsignedString(x)| >= 2;
      } else {
        ToUnsignedStringLength(x / 32, w - 1);
      }
    }
  }

  /** Reading back the w-digit rendering of x gives x modulo 32^w. */
  lemma {:induction false} FixedDigitsValue(x: nat, w: nat)
    ensures DigitsValue(FixedDigits(x, w)) == x % Pow32(w)
  {
    if w > 0 {
      var s := FixedDigits(x, w);
      assert s[..w - 1] == FixedDigits(x / 32, w - 1);
      FixedDigitsValue(x / 32, w - 1);
      SplitLowDigit(x, 32, Pow32(w - 1));
    }
  }

  /** n copies of the character c. */
  function Run(c: char, n: nat): (r: string)
    ensures |r| == n && forall i :: 0 <= i < n ==> r[i] == c
  {
    if n == 0 then [] else Run(c, n - 1) + [c]
  }

  /** Zero rendered in w digits is w zeros. */
  lemma {:induction false} FixedDigitsZero(w: nat)
    ensures FixedDigits(0, w) == Run('0', w)
  {
    if w > 0 {
      FixedDigitsZero(w - 1);
    }
  }

  /** A canonical numeral is the fixed-width rendering of its own value. */
  lemma {:induction false} FixedDigitsOfValue(s: string)
    requires forall i :: 0 <= i < |s| ==> IsCanonicalDigit(s[i])
    ensures FixedDigits(DigitsValue(s), |s|) == s
  {
    if s != [] {
      var p, c := s[..|s| - 1], s[|s| - 1];
      var v := DigitsValue(s);
      assert v / 32 == DigitsValue(p) && v % 32 == DigitValue(c);
      FixedDigitsOfValue(p);
      CanonicalDigitRoundTrip(c);
      assert s == p + [c];
    }
  }

  /** Two values below 32^w have the same w-digit rendering only if they are equal. */
  lemma {:induction false} FixedDigitsInjective(x: nat, y: nat, w: nat)
    requires x < Pow32(w) && y < Pow32(w)
    requires FixedDigits(x, w) == FixedDigits(y, w)
    ensures x == y
  {
    FixedDigitsValue(x, w);
    FixedDigitsValue(y, w);
    DivModUnique(x, Pow32(w), 0, x);
    DivModUnique(y, Pow32(w), 0, y);
  }

  lemma {:induction false} MulShift(a: int, b: int)
    ensures 32 * (a * b) == a * (32 * b)
  {
  }
}
