/** Java's 64-bit `long` as the ULID codec uses it.

    The codec only ever reads a long as an unsigned bit pattern (logical
    shifts, masks, unsigned parsing and printing), so a long is modelled by
    the integer 0 <= x < 2^64 that its 64 bits denote.  The functions below
    are Java's operators `>>>`, `<<`, `&` and `|` on that bit pattern. */
module JavaLong {

  const TWO_64: int := 0x1_0000_0000_0000_0000

  /** The 64-bit pattern of a Java long, read unsigned. */
  type Long = x: int | 0 <= x < TWO_64

  function Pow2(n: nat): (r: nat)
    ensures r >= 1
  {
    if n == 0 then 1 else 2 * Pow2(n - 1)
  }

  /** Bitwise AND of two naturals, one bit at a time from the lowest. */
  function BitAnd(x: nat, y: nat): (r: nat)
    ensures r <= x && r <= y
  {
    if x == 0 || y == 0 then 0
    else 2 * BitAnd(x / 2, y / 2) + (if x % 2 == 1 && y % 2 == 1 then 1 else 0)
  }

  /** Bitwise OR of two naturals, one bit at a time from the lowest. */
  function BitOr(x: nat, y: nat): (r: nat)
    ensures x <= r <= x + y
    decreases x + y
  {
    if x == 0 then y
    else if y == 0 then x
    else 2 * BitOr(x / 2, y / 2) + (if x % 2 == 1 || y % 2 == 1 then 1 else 0)
  }

  /** `x & y` */
  function And(x: Long, y: Long): (r: Long)
    ensures r <= x && r <= y
  {
    BitAnd(x, y)
  }

  /** `x | y` */
  function Or(x: Long, y: Long): (r: Long)
    ensures x <= r && y <= r
  {
    Pow2Values();
    BitOrBelow(x, y, 64);
    BitOrSymmetric(x, y);
    BitOr(x, y)
  }

  /** `x >>> n`: Java uses only the low six bits of the shift distance. */
  function Ushr(x: Long, n: nat): (r: Long)
    ensures r <= x
  {
    DivLe(x, Pow2(n % 64));
    x / Pow2(n % 64)
  }

  /** `x << n`: the bits pushed past bit 63 are lost. */
  function Shl(x: Long, n: nat): Long {
    (x * Pow2(n % 64)) % TWO_64
  }

  /** The powers of two that the codec's shifts and masks use. */
  lemma Pow2Values()
    ensures Pow2(16) == 0x1_0000
    ensures Pow2(24) == 0x100_0000
    ensures Pow2(40) == 0x100_0000_0000
    ensures Pow2(48) == 0x1_0000_0000_0000
    ensures Pow2(64) == TWO_64
  {
    assert Pow2(8) == 0x100;
    assert Pow2(16) == 0x1_0000;
    assert Pow2(24) == 0x100_0000;
    assert Pow2(32) == 0x1_0000_0000;
    assert Pow2(40) == 0x100_0000_0000;
    assert Pow2(48) == 0x1_0000_0000_0000;
    assert Pow2(56) == 0x100_0000_0000_0000;
  }

  lemma {:induction false} BitOrSymmetric(x: nat, y: nat)
    ensures BitOr(x, y) == BitOr(y, x)
    decreases x + y
  {
    if x != 0 && y != 0 {
      BitOrSymmetric(x / 2, y / 2);
    }
  }

  lemma {:induction false} BitOrBelow(x: nat, y: nat, n: nat)
    requires x < Pow2(n) && y < Pow2(n)
    ensures BitOr(x, y) < Pow2(n)
    decreases x + y
  {
    if x != 0 && y != 0 {
      BitOrBelow(x / 2, y / 2, n - 1);
    }
  }

  /** Euclidean division is determined by its quotient and remainder. */
  lemma {:induction false} DivModUnique(x: int, d: int, q: int, r: int)
    requires d > 0 && 0 <= r < d && x == q * d + r
    ensures x / d == q && x % d == r
  {
    var k := x / d - q;
    assert d * k == r - x % d;
  }

  lemma {:induction false} MulMonotone(a: int, b: int, c: int)
    requires a >= 0 && b <= c
    ensures a * b <= a * c
  {
    assert a * c - a * b == a * (c - b);
  }

  /** Dividing by a positive number does not make a natural larger. */
  lemma {:induction false} DivLe(x: nat, p: nat)
    requires p >= 1
    ensures 0 <= x / p <= x
  {
    var q := x / p;
    MulMonotone(q, 1, p);
    assert q * p <= x;
  }

  lemma {:induction false} MulDistribute(b: int, p: int, a: int, r: int)
    ensures b * (p * a + r) == a * (b * p) + b * r
  {
  }

  /** x % (b * p) rebuilt from the lowest base-b digit of x and the rest. */
  lemma {:induction false} SplitLowDigit(x: nat, b: nat, p: nat)
    requires b > 0 && p > 0
    ensures b * ((x / b) % p) + x % b == x % (b * p)
  {
    var q, d := x / b, x % b;
    var a, r := q / p, q % p;
    assert q == p * a + r;
    MulDistribute(b, p, a, r);
    MulMonotone(b, r, p - 1);
    MulDistribute(b, 1, p - 1, 0);
    assert x == a * (b * p) + (b * r + d);
    DivModUnique(x, b * p, a, b * r + d);
  }

  /** Masking with 2^k - 1 keeps the low k bits: `x & (2^k-1) == x % 2^k`. */
  lemma {:induction false} BitAndLowMask(x: nat, k: nat)
    ensures BitAnd(x, Pow2(k) - 1) == x % Pow2(k)
  {
    if k == 0 {
      assert Pow2(k) == 1;
    } else if x != 0 {
      var p := Pow2(k - 1);
      var m := Pow2(k) - 1;
      assert Pow2(k) == 2 * p;
      assert m / 2 == p - 1 && m % 2 == 1;
      assert BitAnd(x, m) == 2 * BitAnd(x / 2, p - 1) + x % 2;
      BitAndLowMask(x / 2, k - 1);
      SplitLowDigit(x, 2, p);
      assert BitAnd(x, m) == x % (2 * p);
    }
  }

  /** OR of two values whose set bits lie on either side of bit k is their sum. */
  lemma {:induction false} BitOrDisjoint(x: nat, y: nat, k: nat)
    requires x % Pow2(k) == 0 && y < Pow2(k)
    ensures BitOr(x, y) == x + y
    decreases k
  {
    if k > 0 && x != 0 && y != 0 {
      var p := Pow2(k - 1);
      SplitLowDigit(x, 2, p);
      BitOrDisjoint(x / 2, y / 2, k - 1);
    }
  }
}
