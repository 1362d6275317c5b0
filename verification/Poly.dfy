/** Integer vectors read as polynomials, and products in the rings Z[X]/(X^n - c). */
module Poly {
  import opened ModArith

  type Vec = seq<int>

  ghost predicate Eqv(f: Vec, g: Vec, m: int)
    requires m > 0
  {
    |f| == |g| && forall i :: 0 <= i < |f| ==> Cong(f[i], g[i], m)
  }

  function Zero(n: nat): (r: Vec)
    ensures |r| == n
  {
    seq(n, _ => 0)
  }

  function Add(f: Vec, g: Vec): (r: Vec)
    requires |f| == |g|
    ensures |r| == |f|
  {
    seq(|f|, i requires 0 <= i < |f| => f[i] + g[i])
  }

  function Sub(f: Vec, g: Vec): (r: Vec)
    requires |f| == |g|
    ensures |r| == |f|
  {
    seq(|f|, i requires 0 <= i < |f| => f[i] - g[i])
  }

  function Scale(c: int, f: Vec): (r: Vec)
    ensures |r| == |f|
  {
    seq(|f|, i requires 0 <= i < |f| => c * f[i])
  }

  /** The canonical representative of every coefficient. */
  function Reduce(f: Vec, m: int): (r: Vec)
    requires m > 0
    ensures |r| == |f|
  {
    seq(|f|, i requires 0 <= i < |f| => f[i] % m)
  }

  /** Multiplication by X in Z[X]/(X^n - c), where n is the length of `g`. */
  function Shift(g: Vec, c: int): (r: Vec)
    requires |g| > 0
    ensures |r| == |g|
  {
    [c * g[|g| - 1]] + g[..|g| - 1]
  }

  /** Multiplication by X^k. */
  function ShiftN(g: Vec, k: nat, c: int): (r: Vec)
    requires |g| > 0
    ensures |r| == |g|
    decreases k
  {
    if k == 0 then g else ShiftN(Shift(g, c), k - 1, c)
  }

  /** The product of `f` and `g` in Z[X]/(X^n - c), with n the length of `g`: the sum of f[i] * X^i * g. */
  function Mul(f: Vec, g: Vec, c: int): (r: Vec)
    requires |g| > 0
    ensures |r| == |g|
  {
    if |f| == 0 then Zero(|g|)
    else Add(Scale(f[0], g), Mul(f[1..], Shift(g, c), c))
  }

  /** The remainder modulo X^h - z of a polynomial of length 2h. */
  function Fold(f: Vec, z: int): (r: Vec)
    requires |f| % 2 == 0
    ensures |r| == |f| / 2
  {
    seq(|f| / 2, j requires 0 <= j < |f| / 2 => f[j] + z * f[j + |f| / 2])
  }

  /** The textbook coefficient of a product modulo X^n - c: terms i < n contribute f[i] * g[k-i],
      wrapped around with a factor c when i exceeds k. */
  function CoefSum(f: Vec, g: Vec, c: int, k: nat, n: nat): int
    requires n <= |f| == |g| && k < |g|
  {
    if n == 0 then 0
    else CoefSum(f, g, c, k, n - 1) + f[n - 1] * (if n - 1 <= k then g[k - (n - 1)] else c * g[|g| + k - (n - 1)])
  }

  // ----- shifting

  lemma ShiftAt(g: Vec, k: nat, c: int, j: nat)
    requires |g| > 0 && k <= |g| && j < |g|
    ensures ShiftN(g, k, c)[j] == if j >= k then g[j - k] else c * g[|g| + j - k]
    decreases k
  {
    if k > 0 {
      ShiftAt(Shift(g, c), k - 1, c, j);
    }
  }

  lemma ShiftAll(g: Vec, c: int)
    requires |g| > 0
    ensures ShiftN(g, |g|, c) == Scale(c, g)
  {
    forall j | 0 <= j < |g| ensures ShiftN(g, |g|, c)[j] == Scale(c, g)[j] {
      ShiftAt(g, |g|, c, j);
    }
  }

  // ----- algebra of products

  lemma {:induction false} MulAt(f: Vec, g: Vec, c: int, k: nat)
    requires |g| > 0 && |f| > 0 && k < |g|
    ensures Mul(f, g, c)[k] == f[0] * g[k] + Mul(f[1..], Shift(g, c), c)[k]
  {
  }

  lemma {:induction false} MulAppend(f: Vec, f': Vec, g: Vec, c: int)
    requires |g| > 0
    ensures Mul(f + f', g, c) == Add(Mul(f, g, c), Mul(f', ShiftN(g, |f|, c), c))
    decreases |f|
  {
    if |f| == 0 {
      assert f + f' == f';
    } else {
      assert (f + f')[1..] == f[1..] + f';
      MulAppend(f[1..], f', Shift(g, c), c);
    }
  }

  lemma {:induction false} MulAddLeft(f: Vec, f': Vec, g: Vec, c: int)
    requires |f| == |f'| && |g| > 0
    ensures Mul(Add(f, f'), g, c) == Add(Mul(f, g, c), Mul(f', g, c))
    decreases |f|
  {
    if |f| > 0 {
      assert Add(f, f')[1..] == Add(f[1..], f'[1..]);
      MulAddLeft(f[1..], f'[1..], Shift(g, c), c);
      forall k | 0 <= k < |g|
        ensures Mul(Add(f, f'), g, c)[k] == Add(Mul(f, g, c), Mul(f', g, c))[k]
      {
        assert (f[0] + f'[0]) * g[k] == f[0] * g[k] + f'[0] * g[k];
      }
    }
  }

  lemma {:induction false} MulScale(f: Vec, g: Vec, z: int, c: int)
    requires |g| > 0
    ensures Mul(f, Scale(z, g), c) == Mul(Scale(z, f), g, c)
    decreases |f|
  {
    if |f| > 0 {
      assert Scale(z, f)[1..] == Scale(z, f[1..]);
      assert Shift(Scale(z, g), c) == Scale(z, Shift(g, c)) by {
        assert c * (z * g[|g| - 1]) == z * (c * g[|g| - 1]);
      }
      MulScale(f[1..], Shift(g, c), z, c);
      forall k | 0 <= k < |g|
        ensures Mul(f, Scale(z, g), c)[k] == Mul(Scale(z, f), g, c)[k]
      {
        assert f[0] * (z * g[k]) == (z * f[0]) * g[k];
      }
    }
  }

  // ----- reduction modulo X^h - z is a ring homomorphism

  lemma FoldShift(g: Vec, z: int)
    requires |g| > 0 && |g| % 2 == 0
    ensures Fold(Shift(g, z * z), z) == Shift(Fold(g, z), z)
  {
    var h := |g| / 2;
    forall j | 0 <= j < h
      ensures Fold(Shift(g, z * z), z)[j] == Shift(Fold(g, z), z)[j]
    {
      if j == 0 {
        assert Shift(g, z * z)[0] == z * z * g[2 * h - 1];
        assert Shift(g, z * z)[h] == g[h - 1];
        assert Fold(g, z)[h - 1] == g[h - 1] + z * g[2 * h - 1];
        assert z * (g[h - 1] + z * g[2 * h - 1]) == z * g[h - 1] + z * z * g[2 * h - 1];
      }
    }
  }

  lemma FoldLinear(f: Vec, g: Vec, z: int, x: int)
    requires |f| == |g| && |f| % 2 == 0
    ensures Fold(Add(Scale(x, f), g), z) == Add(Scale(x, Fold(f, z)), Fold(g, z))
  {
    var h := |f| / 2;
    forall j | 0 <= j < h
      ensures Fold(Add(Scale(x, f), g), z)[j] == Add(Scale(x, Fold(f, z)), Fold(g, z))[j]
    {
      FoldTerm(x, z, f[j], f[j + h], g[j], g[j + h]);
    }
  }

  lemma FoldTerm(x: int, z: int, a: int, b: int, c: int, d: int)
    ensures x * a + c + z * (x * b + d) == x * (a + z * b) + (c + z * d)
  {
    MulDist(x * b, d, z);
    MulAssoc(z, x, b);
    MulDist(a, z * b, x);
    MulAssoc(x, z, b);
  }

  lemma {:induction false} FoldMulRight(f: Vec, g: Vec, z: int)
    requires |g| > 0 && |g| % 2 == 0
    ensures Fold(Mul(f, g, z * z), z) == Mul(f, Fold(g, z), z)
    decreases |f|
  {
    if |f| == 0 {
      assert Fold(Zero(|g|), z) == Zero(|g| / 2);
    } else {
      FoldShift(g, z);
      FoldMulRight(f[1..], Shift(g, z * z), z);
      FoldLinear(g, Mul(f[1..], Shift(g, z * z), z * z), z, f[0]);
    }
  }

  lemma FoldHalves(f: Vec, z: int)
    requires |f| % 2 == 0
    ensures Fold(f, z) == Add(f[..|f| / 2], Scale(z, f[|f| / 2..]))
  {
  }

  lemma MulFoldLeft(f: Vec, g: Vec, z: int)
    requires |g| > 0 && |f| == 2 * |g|
    ensures Mul(f, g, z) == Mul(Fold(f, z), g, z)
  {
    var h := |g|;
    var lo, hi := f[..h], f[h..];
    assert f == lo + hi;
    MulAppend(lo, hi, g, z);
    assert ShiftN(g, h, z) == Scale(z, g) by { ShiftAll(g, z); }
    assert Mul(hi, Scale(z, g), z) == Mul(Scale(z, hi), g, z) by { MulScale(hi, g, z, z); }
    assert Fold(f, z) == Add(lo, Scale(z, hi)) by { FoldHalves(f, z); }
    MulAddLeft(lo, Scale(z, hi), g, z);
  }

  /** Reduction from Z[X]/(X^2h - z^2) to Z[X]/(X^h - z) preserves products. */
  lemma FoldMul(f: Vec, g: Vec, z: int)
    requires |g| == |f| > 0 && |g| % 2 == 0
    ensures Fold(Mul(f, g, z * z), z) == Mul(Fold(f, z), Fold(g, z), z)
  {
    FoldMulRight(f, g, z);
    MulFoldLeft(f, Fold(g, z), z);
  }

  // ----- congruence

  lemma EqvTrans(f: Vec, g: Vec, h: Vec, m: int)
    requires m > 0 && Eqv(f, g, m) && Eqv(g, h, m)
    ensures Eqv(f, h, m)
  {
    forall i | 0 <= i < |f| ensures Cong(f[i], h[i], m) {
      assert Cong(f[i], g[i], m) && Cong(g[i], h[i], m);
    }
  }

  lemma EqvReduce(f: Vec, m: int)
    requires m > 0
    ensures Eqv(Reduce(f, m), f, m)
  {
    forall i | 0 <= i < |f| ensures Cong(Reduce(f, m)[i], f[i], m) {
      CongMod(f[i], m);
    }
  }

  lemma EqvAdd(f: Vec, f': Vec, g: Vec, g': Vec, m: int)
    requires m > 0 && Eqv(f, f', m) && Eqv(g, g', m) && |f| == |g|
    ensures Eqv(Add(f, g), Add(f', g'), m)
  {
    forall i | 0 <= i < |f| ensures Cong(Add(f, g)[i], Add(f', g')[i], m) {
      CongAdd(f[i], f'[i], g[i], g'[i], m);
    }
  }

  lemma EqvScale(c: int, c': int, f: Vec, f': Vec, m: int)
    requires m > 0 && Eqv(f, f', m) && Cong(c, c', m)
    ensures Eqv(Scale(c, f), Scale(c', f'), m)
  {
    forall i | 0 <= i < |f| ensures Cong(Scale(c, f)[i], Scale(c', f')[i], m) {
      CongMul(c, c', f[i], f'[i], m);
    }
  }

  lemma EqvShift(g: Vec, g': Vec, c: int, c': int, m: int)
    requires m > 0 && |g| > 0 && Eqv(g, g', m) && Cong(c, c', m)
    ensures Eqv(Shift(g, c), Shift(g', c'), m)
  {
    var n := |g|;
    forall i | 0 <= i < n ensures Cong(Shift(g, c)[i], Shift(g', c')[i], m) {
      if i == 0 {
        CongMul(c, c', g[n - 1], g'[n - 1], m);
      } else {
        assert Cong(g[i - 1], g'[i - 1], m);
      }
    }
  }

  lemma {:induction false} EqvMul(f: Vec, f': Vec, g: Vec, g': Vec, c: int, c': int, m: int)
    requires m > 0 && |g| > 0 && Eqv(f, f', m) && Eqv(g, g', m) && Cong(c, c', m)
    ensures Eqv(Mul(f, g, c), Mul(f', g', c'), m)
    decreases |f|
  {
    if |f| > 0 {
      assert Cong(f[0], f'[0], m);
      EqvShift(g, g', c, c', m);
      assert Eqv(f[1..], f'[1..], m) by {
        forall i | 0 <= i < |f[1..]| ensures Cong(f[1..][i], f'[1..][i], m) {
          assert Cong(f[i + 1], f'[i + 1], m);
        }
      }
      EqvMul(f[1..], f'[1..], Shift(g, c), Shift(g', c'), c, c', m);
      EqvScale(f[0], f'[0], g, g', m);
      EqvAdd(Scale(f[0], g), Scale(f'[0], g'),
             Mul(f[1..], Shift(g, c), c), Mul(f'[1..], Shift(g', c'), c'), m);
    }
  }

  /** A canonical vector is determined by its congruence class. */
  lemma EqvCanon(f: Vec, g: Vec, m: int)
    requires m > 0 && Eqv(f, g, m)
    ensures Reduce(f, m) == Reduce(g, m)
  {
    forall i | 0 <= i < |f| ensures f[i] % m == g[i] % m {
      assert Cong(f[i], g[i], m);
    }
  }

  // ----- the textbook form of the product

  lemma {:induction false} MulCoef(f: Vec, g: Vec, c: int, k: nat, n: nat)
    requires n <= |f| == |g| && |g| > 0 && k < |g|
    ensures Mul(f[..n], g, c)[k] == CoefSum(f, g, c, k, n)
    decreases n
  {
    if n > 0 {
      MulCoef(f, g, c, k, n - 1);
      assert f[..n] == f[..n - 1] + [f[n - 1]];
      MulAppend(f[..n - 1], [f[n - 1]], g, c);
      var s := ShiftN(g, n - 1, c);
      MulAt([f[n - 1]], s, c, k);
      assert Mul([f[n - 1]][1..], Shift(s, c), c) == Zero(|g|);
      ShiftAt(g, n - 1, c, k);
    }
  }

  /** `Mul` is the convolution modulo X^n - c. */
  lemma MulIsConvolution(f: Vec, g: Vec, c: int, k: nat)
    requires |f| == |g| && k < |g|
    ensures Mul(f, g, c)[k] == CoefSum(f, g, c, k, |f|)
  {
    assert f[..|f|] == f;
    MulCoef(f, g, c, k, |f|);
  }
}
