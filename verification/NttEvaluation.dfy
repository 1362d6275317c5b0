/** What the transform computes: the residues of a polynomial modulo 128 quadratic factors of X^256 + 1. */
module NttEvaluation {
  import opened ModArith
  import opened Poly
  import opened Zetas
  import opened NttSpec
  import opened NttMul

  function Coef(f: Vec, k: int): int {
    if 0 <= k < |f| then f[k] else 0
  }

  /** Coefficient j of the residue modulo X^n - c of the first m * n coefficients: the sum of f[i * n + j] * c^i. */
  function Residue(f: Vec, n: nat, j: nat, c: int, m: nat): int {
    if m == 0 then 0 else Residue(f, n, j, c, m - 1) + Coef(f, (m - 1) * n + j) * Pow(c, m - 1)
  }

  /** Two residues modulo X^2h - z^2 make one modulo X^h - z. */
  lemma {:induction false} ResidueFolds(f: Vec, h: nat, j: nat, c: int, z: int, m: nat)
    requires Cong(z * z, c, Q)
    ensures Cong(Residue(f, 2 * h, j, c, m) + z * Residue(f, 2 * h, j + h, c, m), Residue(f, h, j, z, 2 * m), Q)
    decreases m
  {
    hide Pow, Cong, Coef;
    if m == 0 {
      NoTerms(f, h, j, z);
      assert z * 0 == 0;
      CongRefl(0, Q);
    } else {
      var x, y := Coef(f, (2 * m - 2) * h + j), Coef(f, (2 * m - 1) * h + j);
      ResidueFolds(f, h, j, c, z, m - 1);
      TwoTerms(f, h, j, c, z, m, x, y);
      SquareTerms(x, y, c, z, m - 1);
      var l, r := Residue(f, 2 * h, j, c, m - 1), Residue(f, 2 * h, j + h, c, m - 1);
      MulDist(r, y * Pow(c, m - 1), z);
      CongAdd(l + z * r, Residue(f, h, j, z, 2 * (m - 1)), x * Pow(c, m - 1) + z * (y * Pow(c, m - 1)),
              x * Pow(z, 2 * (m - 1)) + y * Pow(z, 2 * m - 1), Q);
    }
  }

  lemma NoTerms(f: Vec, h: nat, j: nat, z: int)
    ensures Residue(f, h, j, z, 0) == 0
  {
  }

  lemma TwoTerms(f: Vec, h: nat, j: nat, c: int, z: int, m: nat, x: int, y: int)
    requires m > 0 && x == Coef(f, (2 * m - 2) * h + j) && y == Coef(f, (2 * m - 1) * h + j)
    ensures Residue(f, 2 * h, j, c, m) == Residue(f, 2 * h, j, c, m - 1) + x * Pow(c, m - 1)
    ensures Residue(f, 2 * h, j + h, c, m) == Residue(f, 2 * h, j + h, c, m - 1) + y * Pow(c, m - 1)
    ensures Residue(f, h, j, z, 2 * m)
         == Residue(f, h, j, z, 2 * (m - 1)) + x * Pow(z, 2 * (m - 1)) + y * Pow(z, 2 * m - 1)
  {
    hide Pow, Coef;
    MulAssoc(m - 1, 2, h);
    MulDist(2 * m - 2, 1, h);
    assert (m - 1) * (2 * h) == (2 * m - 2) * h;
    assert (m - 1) * (2 * h) + (j + h) == (2 * m - 1) * h + j;
    assert Residue(f, h, j, z, 2 * m) == Residue(f, h, j, z, 2 * m - 1) + y * Pow(z, 2 * m - 1);
  }

  lemma SquareTerms(x: int, y: int, c: int, z: int, k: nat)
    requires Cong(z * z, c, Q)
    ensures Cong(x * Pow(c, k) + z * (y * Pow(c, k)), x * Pow(z, 2 * k) + y * Pow(z, 2 * k + 1), Q)
  {
    hide Pow, Cong;
    CongPow(z * z, c, k, Q);
    PowOfProduct(z, z, k);
    PowAdd(z, k, k);
    PowStep(z, 2 * k);
    var p, q := Pow(c, k), Pow(z, 2 * k);
    assert Cong(q, p, Q);
    CongFlip(q, p);
    CongRefl(x, Q);
    CongRefl(z * y, Q);
    CongMul(x, x, p, q, Q);
    CongMul(z * y, z * y, p, q, Q);
    CongAdd(x * p, x * q, (z * y) * p, (z * y) * q, Q);
    MulAssoc(z, y, p);
    MulAssoc(y, z, q);
    assert (z * y) * q == y * (z * q);
  }

  lemma PowStep(z: int, e: nat)
    ensures Pow(z, e + 1) == z * Pow(z, e)
  {
  }

  lemma CongFlip(a: int, b: int)
    requires Cong(a, b, Q)
    ensures Cong(b, a, Q)
  {
  }

  lemma CongTrans(a: int, b: int, c: int)
    requires Cong(a, b, Q) && Cong(b, c, Q)
    ensures Cong(a, c, Q)
  {
  }

  /** After `lvl` stages, block b holds the residue modulo X^n - gamma of its node. */
  lemma {:induction false} StageResidues(f: Vec, lvl: nat, b: nat, j: nat)
    requires |f| == N && lvl <= 7 && b < Pow2(lvl) && j < Size(lvl)
    ensures Cong(At(Run(f, false, lvl), lvl, b)[j], Residue(f, Size(lvl), j, Gamma(Pow2(lvl) + b), Pow2(lvl)), Q)
    decreases lvl
  {
    hide Cong, Gamma, Residue, At, Stage, Fold;
    if lvl == 0 {
      FirstResidue(f, lvl, b, j);
    } else {
      var up, parent, e := lvl - 1, b / 2, b % 2;
      var h, node := Half(up), Pow2(up) + parent;
      Children(up, parent);
      Sizes(up, parent);
      var g := Run(f, false, up);
      StageFolds(g, up, parent, e);
      SignedSquare(node, e);
      assert 2 * parent + e == b && Pow2(lvl) + b == 2 * node + e;
      StageResidues(f, up, parent, j);
      StageResidues(f, up, parent, j + h);
      FoldedAt(At(g, up, parent), Signed(node, e), j);
      var z, c, m := Signed(node, e), Gamma(node), Pow2(up);
      var x, y := At(g, up, parent)[j], At(g, up, parent)[j + h];
      CongRefl(z, Q);
      CongMul(z, z, y, Residue(f, 2 * h, j + h, c, m), Q);
      CongAdd(x, Residue(f, 2 * h, j, c, m), z * y, z * Residue(f, 2 * h, j + h, c, m), Q);
      ResidueFolds(f, h, j, c, z, m);
      CongTrans(x + z * y, Residue(f, 2 * h, j, c, m) + z * Residue(f, 2 * h, j + h, c, m), Residue(f, h, j, z, 2 * m));
    }
  }

  lemma FoldedAt(f: Vec, z: int, j: nat)
    requires |f| % 2 == 0 && j < |f| / 2
    ensures Fold(f, z)[j] == f[j] + z * f[j + |f| / 2]
  {
  }

  lemma FirstResidue(f: Vec, lvl: nat, b: nat, j: nat)
    requires |f| == N && lvl == 0 && b == 0 && j < Size(lvl)
    ensures Cong(At(Run(f, false, lvl), lvl, b)[j], Residue(f, Size(lvl), j, Gamma(Pow2(lvl) + b), Pow2(lvl)), Q)
  {
    hide Gamma;
    Sizes(lvl, b);
    AtIndex(f, lvl, b, j);
    var c := Gamma(Pow2(lvl) + b);
    assert Residue(f, N, j, c, 1) == Residue(f, N, j, c, 0) + Coef(f, 0 * N + j) * Pow(c, 0);
  }

  lemma {:induction false} ResidueCong(f: Vec, n: nat, j: nat, c: int, d: int, m: nat)
    requires Cong(c, d, Q)
    ensures Cong(Residue(f, n, j, c, m), Residue(f, n, j, d, m), Q)
  {
    hide Cong, Pow, Coef;
    if m == 0 {
      NoTerms(f, n, j, c);
      NoTerms(f, n, j, d);
      CongRefl(0, Q);
    } else {
      ResidueCong(f, n, j, c, d, m - 1);
      CongPow(c, d, m - 1, Q);
      var x := Coef(f, (m - 1) * n + j);
      CongRefl(x, Q);
      CongMul(x, x, Pow(c, m - 1), Pow(d, m - 1), Q);
      CongAdd(Residue(f, n, j, c, m - 1), Residue(f, n, j, d, m - 1), x * Pow(c, m - 1), x * Pow(d, m - 1), Q);
    }
  }

  // ----- the constants of the 128 factors

  /** A set top bit becomes a set lowest bit. */
  lemma Rev7Top(x: nat)
    requires x < 64
    ensures Rev7(64 + x) == Rev7(x) + 1
  {
    hide RevFrom;
    var six := BRV_BITS - 1;
    Pow2Small(six);
    RevHigh(x, six);
    RevTop(x, six, 64);
  }

  lemma {:induction false} RevTop(x: nat, bits: nat, p: nat)
    requires x < p == Pow2(bits)
    ensures Rev(x + p, bits + 1) == 2 * Rev(x, bits) + 1
    decreases bits
  {
    hide RevFrom;
    var y, e := x / 2, x % 2;
    if bits == 0 {
      RevLow(0, 1, 0);
      RevZero(0);
    } else {
      var q := Pow2(bits - 1);
      assert x + p == 2 * (y + q) + e && x == 2 * y + e;
      RevLow(y + q, e, bits);
      RevLow(y, e, bits - 1);
      RevTop(y, bits - 1, q);
    }
  }

  /** The constant of leaf b is an odd power of 17: the reversed index, doubled, plus one. */
  lemma GammaPower(b: nat)
    requires b < 128
    ensures Cong(Gamma(128 + b), Pow(17, 2 * Rev7(b) + 1), Q)
  {
    hide RevFrom, Pow, Cong, Zeta;
    var x, e := b / 2, b % 2;
    assert b == 2 * x + e && (128 + b) / 2 == 64 + x && (128 + b) % 2 == e;
    Rev7Child(x, e);
    Rev7Top(x);
    ZetaPow(64 + x);
    if e == 1 {
      var e128 :| 127 < e128 < 129;
      Root128(e128);
      PowAdd(17, Rev7(x) + 1, e128);
      CongMul(Zeta(64 + x), RootPow(Rev7(x) + 1), -1, -1, Q) by {
        CongRefl(-1, Q);
      }
      CongRefl(RootPow(Rev7(x) + 1), Q);
      CongMul(RootPow(Rev7(x) + 1), RootPow(Rev7(x) + 1), RootPow(e128), -1, Q);
      CongFlip(RootPow(Rev7(x) + 1) * RootPow(e128), RootPow(Rev7(x) + 1) * -1);
      CongTrans(Zeta(64 + x) * -1, RootPow(Rev7(x) + 1) * -1, Pow(17, 2 * Rev7(b) + 1));
    }
  }

  /** Section 4.3 of FIPS 203: coefficients 2b and 2b + 1 of the transform are the residue of the polynomial modulo
      X^2 - 17^(2 rev7(b) + 1), for each b. */
  lemma EncodeEvaluates(f: Vec, b: nat, e: nat)
    requires |f| == N && b < 128 && e < 2
    ensures Encode(f)[2 * b + e] == Residue(f, 2, e, Pow(17, 2 * Rev7(b) + 1), 128) % Q
  {
    hide Run, Rev7, Residue, Pow, Gamma;
    var k :| 6 < k < 8;
    LeafIndex(Run(f, false, k), k, b);
    Sizes(k, b);
    StageResidues(f, k, b, e);
    GammaPower(b);
    ResidueCong(f, 2, e, Gamma(128 + b), Pow(17, 2 * Rev7(b) + 1), 128);
    CongTrans(Run(f, false, k)[2 * b + e], Residue(f, 2, e, Gamma(128 + b), 128),
              Residue(f, 2, e, Pow(17, 2 * Rev7(b) + 1), 128));
    SameRemainder(Run(f, false, k)[2 * b + e], Residue(f, 2, e, Pow(17, 2 * Rev7(b) + 1), 128));
  }

  lemma SameRemainder(a: int, b: int)
    requires Cong(a, b, Q)
    ensures a % Q == b % Q
  {
  }
}
