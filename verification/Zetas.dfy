/** The root table of the ML-KEM number-theoretic transform: zeta(i) = 17^rev7(i) mod 3329. */
module Zetas {
  import opened ModArith

  const N: nat := 256
  const Q: nat := 3329
  const ROOT_OF_UNITY: nat := 17
  const BRV_BITS: nat := 7

  /** The low `bits` bits of `n` in reverse order, appended to `acc`. */
  function RevFrom(n: nat, bits: nat, acc: nat): nat
    decreases bits, n, acc
  {
    if bits == 0 then acc else RevFrom(n / 2, bits - 1, 2 * acc + n % 2)
  }

  function Rev(n: nat, bits: nat): nat {
    RevFrom(n, bits, 0)
  }

  function Rev7(n: nat): nat {
    Rev(n, BRV_BITS)
  }

  method ReverseBits(n: nat, bits: nat) returns (reversed: nat)
    ensures reversed == Rev(n, bits)
  {
    reversed := 0;
    var x := n;
    for i := 0 to bits
      invariant RevFrom(x, bits - i, reversed) == Rev(n, bits)
    {
      reversed := 2 * reversed + x % 2;
      x := x / 2;
    }
  }

  function Zeta(i: nat): (z: int)
    ensures 0 <= z < Q
  {
    Pow(ROOT_OF_UNITY, Rev7(i)) % Q
  }

  method GetZetas() returns (out: array<int>)
    ensures fresh(out) && out.Length == N
    ensures forall i :: 0 <= i < N ==> out[i] == Zeta(i)
  {
    out := new int[N];
    for i := 0 to N
      invariant forall j :: 0 <= j < i ==> out[j] == Zeta(j)
    {
      var b := ReverseBits(i, BRV_BITS);
      out[i] := Pow(ROOT_OF_UNITY, b) % Q;
    }
  }

  // ----- bit reversal

  lemma Pow2Small(lvl: nat)
    requires lvl <= 7
    ensures Pow2(lvl) == [1, 2, 4, 8, 16, 32, 64, 128][lvl]
  {
    if lvl == 0 {} else if lvl == 1 {} else if lvl == 2 {} else if lvl == 3 {}
    else if lvl == 4 {} else if lvl == 5 {} else if lvl == 6 {} else {}
  }

  lemma {:induction false} RevFromAcc(n: nat, bits: nat, acc: nat)
    ensures RevFrom(n, bits, acc) == acc * Pow2(bits) + Rev(n, bits)
    decreases bits
  {
    if bits > 0 {
      RevFromAcc(n / 2, bits - 1, 2 * acc + n % 2);
      RevFromAcc(n / 2, bits - 1, n % 2);
      var p := Pow2(bits - 1);
      MulDist(2 * acc, n % 2, p);
      MulAssoc(2, acc, p);
    }
  }

  /** The lowest bit goes to the top. */
  lemma RevLow(x: nat, e: nat, bits: nat)
    requires e < 2
    ensures Rev(2 * x + e, bits + 1) == e * Pow2(bits) + Rev(x, bits)
  {
    assert (2 * x + e) / 2 == x && (2 * x + e) % 2 == e;
    RevFromAcc(x, bits, e);
  }

  /** A clear top bit becomes a clear lowest bit. */
  lemma {:induction false} RevHigh(x: nat, bits: nat)
    requires x < Pow2(bits)
    ensures Rev(x, bits + 1) == 2 * Rev(x, bits)
    decreases bits
  {
    var y, e := x / 2, x % 2;
    assert x == 2 * y + e;
    if bits == 0 {
      assert x == 0;
      RevLow(0, 0, 0);
    } else {
      RevLow(y, e, bits);
      RevLow(y, e, bits - 1);
      RevHigh(y, bits - 1);
    }
  }

  lemma Rev7Child(x: nat, e: nat)
    requires x < 64 && e < 2
    ensures 2 * Rev7(2 * x + e) == Rev7(x) + 128 * e
  {
    var six := BRV_BITS - 1;
    Pow2Small(six);
    RevLow(x, e, six);
    RevHigh(x, six);
  }

  /** Only the low seven bits matter. */
  lemma Rev7High(x: nat)
    requires x < 128
    ensures Rev7(x + 128) == Rev7(x)
  {
    Pow2Small(BRV_BITS);
    RevPeriod(x, BRV_BITS, 128);
  }

  lemma {:induction false} RevPeriod(x: nat, bits: nat, p: nat)
    requires p == Pow2(bits)
    ensures Rev(x + p, bits) == Rev(x, bits)
    decreases bits
  {
    if bits > 0 {
      var e := x % 2;
      var h := Pow2(bits - 1);
      assert x + p == 2 * (x / 2 + h) + e && x == 2 * (x / 2) + e;
      RevLow(x / 2 + h, e, bits - 1);
      RevLow(x / 2, e, bits - 1);
      RevPeriod(x / 2, bits - 1, h);
    }
  }

  lemma {:induction false} RevZero(bits: nat)
    ensures Rev(0, bits) == 0
  {
    if bits > 0 {
      RevZero(bits - 1);
    }
  }

  lemma Rev1()
    ensures Rev7(1) == 64
  {
    hide RevFrom;
    var six := BRV_BITS - 1;
    Pow2Small(six);
    RevLow(0, 1, six);
    RevZero(six);
  }

  /** Reversals of mirrored indices within one level of the butterfly tree add to 128. */
  lemma {:induction false} RevMirror(lvl: nat, b: nat)
    requires lvl <= 6 && b < Pow2(lvl)
    ensures Pow2(lvl) <= 64
    ensures Rev7(Pow2(lvl) + b) + Rev7(2 * Pow2(lvl) - 1 - b) == 128
    decreases lvl
  {
    hide RevFrom;
    Pow2Small(lvl);
    if lvl == 0 {
      Rev1();
    } else {
      var c, e, P := b / 2, b % 2, Pow2(lvl - 1);
      Pow2Small(lvl - 1);
      RevMirror(lvl - 1, c);
      Rev7Child(P + c, e);
      Rev7Child(2 * P - 1 - c, 1 - e);
      assert 2 * (P + c) + e == Pow2(lvl) + b;
      assert 2 * (2 * P - 1 - c) + (1 - e) == 2 * Pow2(lvl) - 1 - b;
    }
  }

  // ----- powers of 17

  function RootPow(e: nat): int {
    Pow(ROOT_OF_UNITY, e)
  }

  /** 17 is a primitive 256th root of unity modulo 3329. */
  lemma Root128(e: nat)
    requires 127 < e < 129
    ensures Cong(RootPow(e), -1, Q)
  {
    var e1 :| 0 < e1 < 2;
    assert RootPow(e1) == ROOT_OF_UNITY * RootPow(e1 - 1);
    SevenSquarings(e1);
    assert 128 * e1 == e;
  }

  lemma SevenSquarings(e: nat)
    requires Cong(RootPow(e), 17, Q)
    ensures Cong(RootPow(128 * e), -1, Q)
  {
    Squaring(e, 17, 289);
    Squaring(2 * e, 289, 296);
    Squaring(4 * e, 296, 1062);
    Squaring(8 * e, 1062, 2642);
    Squaring(16 * e, 2642, 2580);
    Squaring(32 * e, 2580, 1729);
    Squaring(64 * e, 1729, 3328);
  }

  lemma Squaring(e: nat, r: int, s: int)
    requires Cong(RootPow(e), r, Q) && Cong(r * r, s, Q)
    ensures Cong(RootPow(2 * e), s, Q)
  {
    PowAdd(ROOT_OF_UNITY, e, e);
    CongMul(RootPow(e), r, RootPow(e), r, Q);
  }

  /** The constant of the quotient ring that node `g` of the butterfly tree works in:
      node 1 works modulo X^256 + 1, and node g splits into X^h - zeta(g) and X^h + zeta(g). */
  function Gamma(g: nat): int {
    if g <= 1 then -1
    else if g % 2 == 0 then Zeta(g / 2)
    else -Zeta(g / 2)
  }

  lemma ZetaPow(i: nat)
    ensures Cong(Zeta(i), RootPow(Rev7(i)), Q)
  {
    CongMod(RootPow(Rev7(i)), Q);
  }

  /** The product of two table entries is the power of the summed exponents. */
  lemma ZetaProduct(i: nat, j: nat)
    ensures Cong(Zeta(i) * Zeta(j), RootPow(Rev7(i) + Rev7(j)), Q)
  {
    ZetaPow(i);
    ZetaPow(j);
    CongMul(Zeta(i), RootPow(Rev7(i)), Zeta(j), RootPow(Rev7(j)), Q);
    PowAdd(ROOT_OF_UNITY, Rev7(i), Rev7(j));
  }

  /** zeta(g) is a square root of the constant of node g. */
  lemma ZetaSquare(g: nat)
    requires 1 <= g < 128
    ensures Cong(Zeta(g) * Zeta(g), Gamma(g), Q)
  {
    hide Zeta, RevFrom, Pow;
    var e128 :| 127 < e128 < 129;
    Root128(e128);
    ZetaProduct(g, g);
    if g == 1 {
      Rev1();
    } else {
      var x := g / 2;
      Rev7Child(x, g % 2);
      ZetaPow(x);
      if g % 2 == 1 {
        PowAdd(ROOT_OF_UNITY, Rev7(x), e128);
        CongMul(RootPow(Rev7(x)), Zeta(x), RootPow(e128), -1, Q);
      }
    }
  }

  /** The root used by a decode butterfly is the negated inverse of the matching encode root. */
  lemma ZetaMirror(lvl: nat, b: nat)
    requires lvl <= 6 && b < Pow2(lvl)
    ensures Pow2(lvl) <= 64
    ensures Cong(Zeta(Pow2(lvl) + b) * Zeta(127 + 2 * Pow2(lvl) - b), -1, Q)
  {
    RevMirror(lvl, b);
    var i, j := Pow2(lvl) + b, 2 * Pow2(lvl) - 1 - b;
    Rev7High(j);
    ZetaProduct(i, j + 128);
    Root128(Rev7(i) + Rev7(j));
  }
}
