/** GF(256) with the polynomial x^8 + x^4 + x^3 + x^2 + 1: its element a has order 255, so the
    power and logarithm tables cover every nonzero byte. */
module GaloisField {

  /** Multiplication by a. */
  function Times(x: bv8): bv8 {
    (x << 1) ^ (if x & 0x80 != 0 then 0x1D else 0)
  }

  /** Multiplication by a^n. */
  function TimesPow(n: nat, x: bv8): bv8 {
    if n == 0 then x else Times(TimesPow(n - 1, x))
  }

  /** a^n. */
  function Power(n: nat): bv8 {
    TimesPow(n, 1)
  }

  /** Addition in the field. */
  function Plus(x: bv8, y: bv8): bv8 {
    x ^ y
  }

  lemma PlusLaws(x: bv8, y: bv8, z: bv8)
    ensures Plus(x, y) == Plus(y, x) && Plus(Plus(x, y), z) == Plus(x, Plus(y, z))
    ensures Plus(x, 0) == x && Plus(x, x) == 0 && (Plus(x, y) == 0 <==> x == y)
  {
    XorZero(x, y);
  }

  lemma XorZero(x: bv8, y: bv8)
    ensures x ^ y == 0 <==> x == y
  {
  }

  // ----- linearity

  lemma TimesXor(x: bv8, y: bv8)
    ensures Times(Plus(x, y)) == Plus(Times(x), Times(y))
  {
    ShiftXor(x, y);
    MaskXor(x, y);
    XorCases(x << 1, y << 1, x & 0x80, y & 0x80);
  }

  lemma ShiftXor(x: bv8, y: bv8)
    ensures (x ^ y) << 1 == (x << 1) ^ (y << 1)
  {
  }

  lemma MaskXor(x: bv8, y: bv8)
    ensures (x ^ y) & 0x80 == (x & 0x80) ^ (y & 0x80)
    ensures (x & 0x80 == 0 || x & 0x80 == 0x80) && (y & 0x80 == 0 || y & 0x80 == 0x80)
  {
  }

  lemma XorCases(a: bv8, b: bv8, p: bv8, q: bv8)
    requires (p == 0 || p == 0x80) && (q == 0 || q == 0x80)
    ensures (a ^ b) ^ (if p ^ q != 0 then 0x1D else 0)
         == (a ^ (if p != 0 then 0x1D else 0)) ^ (b ^ (if q != 0 then 0x1D else 0))
  {
  }

  lemma TimesZero(x: bv8)
    ensures Times(x) == 0 <==> x == 0
  {
  }

  lemma TimesInjective(x: bv8, y: bv8)
    requires Times(x) == Times(y)
    ensures x == y
  {
  }

  lemma {:induction false} PowXor(n: nat, x: bv8, y: bv8)
    ensures TimesPow(n, Plus(x, y)) == Plus(TimesPow(n, x), TimesPow(n, y))
  {
    hide Times, Plus;
    if n > 0 {
      PowXor(n - 1, x, y);
      TimesXor(TimesPow(n - 1, x), TimesPow(n - 1, y));
    }
  }

  lemma {:induction false} PowZero(n: nat, x: bv8)
    ensures TimesPow(n, x) == 0 <==> x == 0
  {
    if n > 0 {
      PowZero(n - 1, x);
      TimesZero(TimesPow(n - 1, x));
    }
  }

  lemma {:induction false} PowAdd(m: nat, n: nat, x: bv8)
    ensures TimesPow(m + n, x) == TimesPow(m, TimesPow(n, x))
  {
    if m > 0 {
      PowAdd(m - 1, n, x);
    }
  }

  lemma PowComm(m: nat, n: nat, x: bv8)
    ensures TimesPow(m, TimesPow(n, x)) == TimesPow(n, TimesPow(m, x))
  {
    PowAdd(m, n, x);
    PowAdd(n, m, x);
  }

  lemma {:induction false} PowInjective(n: nat, x: bv8, y: bv8)
    requires TimesPow(n, x) == TimesPow(n, y)
    ensures x == y
  {
    if n > 0 {
      TimesInjective(TimesPow(n - 1, x), TimesPow(n - 1, y));
      PowInjective(n - 1, x, y);
    }
  }

  // ----- the order of a

  /** Squaring, which is linear, by the squares of the powers of two. */
  function Square(x: bv8): bv8 {
    (if x & 0x1 != 0 then 0x1 else 0) ^ (if x & 0x2 != 0 then 0x4 else 0) ^
    (if x & 0x4 != 0 then 0x10 else 0) ^ (if x & 0x8 != 0 then 0x40 else 0) ^
    (if x & 0x10 != 0 then 0x1d else 0) ^ (if x & 0x20 != 0 then 0x74 else 0) ^
    (if x & 0x40 != 0 then 0xcd else 0) ^ (if x & 0x80 != 0 then 0x13 else 0)
  }

  lemma SquareTimes(x: bv8)
    ensures Square(Times(x)) == Times(Times(Square(x)))
  {
  }

  lemma TwoMore(n: nat)
    ensures Power(n + 2) == Times(Times(Power(n)))
  {
    hide Times;
    assert TimesPow(n + 2, 1) == Times(TimesPow(n + 1, 1));
  }

  lemma {:induction false} SquarePower(n: nat)
    ensures Square(Power(n)) == Power(2 * n)
  {
    if n > 0 {
      SquarePower(n - 1);
      SquareTimes(Power(n - 1));
      TwoMore(2 * (n - 1));
    }
  }

  lemma Doubling(n: nat, x: bv8, e: nat, y: bv8)
    requires Power(n) == x && e <= 1 && y == (if e == 0 then Square(x) else Times(Square(x)))
    ensures Power(2 * n + e) == y
  {
    SquarePower(n);
  }

  /** a^255 = 1, and a^15, a^51, a^85 are not 1. */
  lemma KeyPowers(n: nat)
    requires 0 < n < 2
    ensures Power(15 * n) != 1 && Power(51 * n) != 1 && Power(85 * n) != 1 && Power(255 * n) == 1
  {
    hide Power;
    PowerOne(n);
    Doubling(n, 0x2, n, 0x8);
    Doubling(3 * n, 0x8, n, 0x80);
    Doubling(7 * n, 0x80, n, 0x26);
    Doubling(3 * n, 0x8, 0, 0x40);
    Doubling(6 * n, 0x40, 0, 0xcd);
    Doubling(12 * n, 0xcd, n, 0x3);
    Doubling(25 * n, 0x3, n, 0xa);
    Doubling(n, 0x2, 0, 0x4);
    Doubling(2 * n, 0x4, n, 0x20);
    Doubling(5 * n, 0x20, 0, 0x74);
    Doubling(10 * n, 0x74, n, 0x75);
    Doubling(21 * n, 0x75, 0, 0xb5);
    Doubling(42 * n, 0xb5, n, 0xd6);
    Doubling(15 * n, 0x26, n, 0xc0);
    Doubling(31 * n, 0xc0, n, 0xa1);
    Doubling(63 * n, 0xa1, n, 0xcc);
    Doubling(127 * n, 0xcc, n, 0x1);
  }

  lemma PowerOne(n: nat)
    requires 0 < n < 2
    ensures Power(n) == 2
  {
    assert Power(n) == Times(TimesPow(n - 1, 1));
  }

  /** Exponents add up modulo a period. */
  lemma {:induction false} PeriodMultiple(d: nat, q: nat, r: nat)
    requires Power(d) == 1
    ensures Power(d * q + r) == Power(r)
    decreases q
  {
    if q > 0 {
      PeriodMultiple(d, q - 1, r);
      assert d * q + r == (d * (q - 1) + r) + d;
      assert d * (q - 1) >= 0;
      PowAdd(d * (q - 1) + r, d, 1);
    }
  }

  /** A proper divisor of 255 divides 15, 51 or 85. */
  lemma Divisors(d: nat, q: nat)
    requires d * q == 255 && q > 1
    ensures d == 1 || d == 3 || d == 5 || d == 15 || d == 17 || d == 51 || d == 85
  {
    if d > 15 {
      SmallCofactor(d, q);
    } else {
      SmallCofactor(q, d);
    }
  }

  lemma Large(d: nat, q: nat)
    requires d >= 16 && q >= 16
    ensures d * q >= 256
  {
    assert (d - 16) * (q - 16) >= 0;
  }

  lemma SmallCofactor(d: nat, q: nat)
    requires d * q == 255 && (d > 15 || q <= 15)
    ensures q == 1 || q == 3 || q == 5 || q == 15
  {
    if q >= 16 {
      Large(d, q);
      assert false;
    }
    if q == 2 {} else if q == 4 {} else if q == 6 {} else if q == 7 {} else if q == 8 {} else if q == 9 {}
    else if q == 10 {} else if q == 11 {} else if q == 12 {} else if q == 13 {} else if q == 14 {}
  }

  /** The order of a is exactly 255. */
  lemma OrderMinimal(d: nat)
    requires 0 < d < 255
    ensures Power(d) != 1
  {
    hide Power;
    if Power(d) == 1 {
      var m := SmallestPeriod(d);
      PeriodDivides(m);
      Divisors(m, 255 / m);
      PeriodOf(m, 15);
      PeriodOf(m, 51);
      PeriodOf(m, 85);
      NotPeriods();
      assert false;
    }
  }

  lemma NotPeriods()
    ensures Power(15) != 1 && Power(51) != 1 && Power(85) != 1
  {
    hide Power;
    var n: nat :| 0 < n < 2;
    KeyPowers(n);
    assert 15 * n == 15 && 51 * n == 51 && 85 * n == 85;
  }

  /** The smallest period divides 255. */
  lemma PeriodDivides(m: nat)
    requires 0 < m < 255 && Power(m) == 1 && forall k :: 0 < k < m ==> Power(k) != 1
    ensures m * (255 / m) == 255 && 255 / m > 1
  {
    hide Power;
    var n: nat :| 0 < n < 2;
    KeyPowers(n);
    PeriodMultiple(m, 255 / m, 255 % m);
    assert 255 * n == 255 == m * (255 / m) + 255 % m;
  }

  lemma PeriodOf(m: nat, k: nat)
    requires m > 0 && Power(m) == 1
    ensures k % m == 0 ==> Power(k) == 1
  {
    hide Power;
    if k % m == 0 {
      PowerZero();
      PeriodMultiple(m, k / m, 0);
      assert k == m * (k / m) + 0;
    }
  }

  lemma PowerZero()
    ensures Power(0) == 1
  {
  }

  lemma SmallestPeriod(d: nat) returns (m: nat)
    requires 0 < d && Power(d) == 1
    ensures 0 < m <= d && Power(m) == 1 && forall k :: 0 < k < m ==> Power(k) != 1
  {
    if k :| 0 < k < d && Power(k) == 1 {
      m := SmallestPeriod(k);
    } else {
      m := d;
    }
  }

  lemma PowersDistinct(i: nat, j: nat)
    requires i < j < 255
    ensures Power(i) != Power(j)
  {
    if Power(i) == Power(j) {
      PowAdd(i, j - i, 1);
      PowInjective(i, Power(j - i), 1);
      OrderMinimal(j - i);
    }
  }
}
