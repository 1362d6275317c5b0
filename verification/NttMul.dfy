/** Multiplication in the transform domain is multiplication in Z_3329[X]/(X^256 + 1). */
module NttMul {
  import opened ModArith
  import opened Poly
  import opened Zetas
  import opened NttSpec

  function Size(lvl: nat): (n: nat)
    requires lvl <= 7
    ensures n > 0 && n % 2 == 0
  {
    2 * Half(lvl)
  }

  lemma Sizes(lvl: nat, b: nat)
    requires lvl <= 7 && b < Pow2(lvl)
    ensures Pow2(lvl) * Size(lvl) == N && (b + 1) * Size(lvl) <= N && b < N
    ensures Pow2(lvl) <= 128
    ensures lvl == 7 ==> Size(lvl) == 2
  {
    Pow2Small(lvl);
    Pow2Small(7 - lvl);
    MulMono(b + 1, Pow2(lvl), Size(lvl));
  }

  /** The residue of a vector at node 2^lvl + b of the butterfly tree. */
  function At(f: Vec, lvl: nat, b: nat): (r: Vec)
    requires |f| == N && lvl <= 7 && b < Pow2(lvl)
    ensures |r| == Size(lvl)
  {
    Sizes(lvl, b);
    Block(f, b, Size(lvl))
  }

  lemma AtIndex(f: Vec, lvl: nat, b: nat, j: nat)
    requires |f| == N && lvl <= 7 && b < Pow2(lvl) && j < Size(lvl)
    ensures 0 <= b * Size(lvl) + j < N && At(f, lvl, b)[j] == f[b * Size(lvl) + j]
  {
    Sizes(lvl, b);
    var n := Size(lvl);
    assert (b + 1) * n == b * n + n;
    assert 0 <= b * n by { MulNonNeg(b, n); }
  }

  /** At node 2^lvl + b, `p` is the product of `f` and `g` in that node's ring. */
  ghost predicate NodeProduct(f: Vec, g: Vec, p: Vec, lvl: nat, b: nat)
    requires |f| == |g| == |p| == N && lvl <= 7 && b < Pow2(lvl)
  {
    Eqv(At(p, lvl, b), Mul(At(f, lvl, b), At(g, lvl, b), Gamma(Pow2(lvl) + b)), Q)
  }

  ghost predicate ProductAt(f: Vec, g: Vec, p: Vec, lvl: nat)
    requires |f| == |g| == |p| == N && lvl <= 7
  {
    forall b :: 0 <= b < Pow2(lvl) ==> NodeProduct(f, g, p, lvl, b)
  }

  /** The root of the factor X^h -/+ zeta that child `e` of a node reduces by. */
  function Signed(node: nat, e: nat): int {
    if e == 0 then Zeta(node) else -Zeta(node)
  }

  lemma Children(lvl: nat, b: nat)
    requires lvl <= 6 && b < Pow2(lvl)
    ensures Size(lvl + 1) == Half(lvl) && 2 * b + 1 < Pow2(lvl + 1)
    ensures (2 * b) * Size(lvl + 1) == b * Size(lvl) && (2 * b + 1) * Size(lvl + 1) == b * Size(lvl) + Half(lvl)
  {
    Geometry(lvl, 0);
    assert b * (2 * Half(lvl)) == (2 * b) * Half(lvl);
  }

  /** One encoding stage reduces every block modulo both of its factors. */
  lemma StageFolds(f: Vec, lvl: nat, b: nat, e: nat)
    requires |f| == N && lvl <= 6 && b < Pow2(lvl) && e < 2
    ensures 2 * b + e < Pow2(lvl + 1)
    ensures At(Stage(f, lvl, false), lvl + 1, 2 * b + e) == Fold(At(f, lvl, b), Signed(Pow2(lvl) + b, e))
  {
    hide Signed, Stage, At, Half, Pow2;
    Children(lvl, b);
    var L, R := At(Stage(f, lvl, false), lvl + 1, 2 * b + e), Fold(At(f, lvl, b), Signed(Pow2(lvl) + b, e));
    forall j: nat | j < Half(lvl) ensures L[j] == R[j] {
      StageFoldsAt(f, lvl, b, e, j);
    }
    assert L == R;
  }

  lemma StageFoldsAt(f: Vec, lvl: nat, b: nat, e: nat, j: nat)
    requires |f| == N && lvl <= 6 && b < Pow2(lvl) && e < 2 && j < Half(lvl)
    ensures 2 * b + e < Pow2(lvl + 1) && Size(lvl + 1) == Half(lvl)
    ensures At(Stage(f, lvl, false), lvl + 1, 2 * b + e)[j]
         == At(f, lvl, b)[j] + Signed(Pow2(lvl) + b, e) * At(f, lvl, b)[j + Half(lvl)]
  {
    hide Zeta, StageAt, Pow2;
    var s, h := Stage(f, lvl, false), Half(lvl);
    Children(lvl, b);
    var lo := b * Size(lvl) + j;
    AtIndex(f, lvl, b, j);
    AtIndex(f, lvl, b, j + h);
    StageOutput(f, lvl, b, e, j, lo);
    AtIndex(s, lvl + 1, 2 * b + e, j);
  }

  lemma StageOutput(f: Vec, lvl: nat, b: nat, e: nat, j: nat, lo: nat)
    requires |f| == N && lvl <= 6 && b < Pow2(lvl) && e < 2 && j < Half(lvl)
    requires lo == b * Size(lvl) + j
    ensures lo + Half(lvl) < N
    ensures StageAt(f, lvl, false, if e == 0 then lo else lo + Half(lvl))
         == f[lo] + Signed(Pow2(lvl) + b, e) * f[lo + Half(lvl)]
  {
    hide Zeta, Pow2, StageAt, Half;
    StagePair(f, lvl, false, b, j, lo, lo + Half(lvl));
    NegMul(Zeta(Pow2(lvl) + b), f[lo + Half(lvl)]);
  }

  lemma NegMul(x: int, y: int)
    ensures (-x) * y == -(x * y)
  {
  }

  lemma EqvFold(f: Vec, g: Vec, z: int)
    requires |f| % 2 == 0 && Eqv(f, g, Q)
    ensures Eqv(Fold(f, z), Fold(g, z), Q)
  {
    var h := |f| / 2;
    forall j | 0 <= j < h ensures Cong(Fold(f, z)[j], Fold(g, z)[j], Q) {
      CongMul(z, z, f[j + h], g[j + h], Q);
      CongAdd(f[j], g[j], z * f[j + h], z * g[j + h], Q);
    }
  }

  /** A product in one ring folds to a product in either factor ring. */
  lemma FoldProduct(f: Vec, g: Vec, p: Vec, c: int, z: int)
    requires |f| == |g| == |p| > 0 && |f| % 2 == 0
    requires Eqv(p, Mul(f, g, c), Q) && Cong(z * z, c, Q)
    ensures Eqv(Fold(p, z), Mul(Fold(f, z), Fold(g, z), z), Q)
  {
    assert Eqv(f, f, Q) && Eqv(g, g, Q);
    EqvMul(f, f, g, g, c, z * z, Q);
    EqvTrans(p, Mul(f, g, c), Mul(f, g, z * z), Q);
    EqvFold(p, Mul(f, g, z * z), z);
    FoldMul(f, g, z);
  }

  lemma ProductStage(f: Vec, g: Vec, p: Vec, lvl: nat)
    requires |f| == |g| == |p| == N && lvl <= 6 && ProductAt(f, g, p, lvl)
    ensures ProductAt(Stage(f, lvl, false), Stage(g, lvl, false), Stage(p, lvl, false), lvl + 1)
  {
    hide Zeta, Stage, NodeProduct;
    var f', g', p' := Stage(f, lvl, false), Stage(g, lvl, false), Stage(p, lvl, false);
    var next := lvl + 1;
    forall c: nat | c < Pow2(next)
      ensures NodeProduct(f', g', p', next, c)
    {
      assert c == 2 * (c / 2) + c % 2;
      assert NodeProduct(f, g, p, lvl, c / 2);
      ProductSplit(f, g, p, lvl, c / 2, c % 2);
    }
  }

  lemma SignedSquare(node: nat, e: nat)
    requires 1 <= node < 128 && e < 2
    ensures Cong(Signed(node, e) * Signed(node, e), Gamma(node), Q)
    ensures Gamma(2 * node + e) == Signed(node, e)
  {
    hide Zeta;
    ZetaSquare(node);
    SignSquare(Signed(node, e), Zeta(node), Gamma(node));
  }

  lemma SignSquare(s: int, z: int, c: int)
    requires (s == z || s == -z) && Cong(z * z, c, Q)
    ensures Cong(s * s, c, Q)
  {
    assert s * s == z * z;
  }

  lemma ProductSplit(f: Vec, g: Vec, p: Vec, lvl: nat, b: nat, e: nat)
    requires |f| == |g| == |p| == N && lvl <= 6 && b < Pow2(lvl) && e < 2 && NodeProduct(f, g, p, lvl, b)
    ensures 2 * b + e < Pow2(lvl + 1)
    ensures NodeProduct(Stage(f, lvl, false), Stage(g, lvl, false), Stage(p, lvl, false), lvl + 1, 2 * b + e)
  {
    hide Zeta, Stage, Mul, Fold, Half, Signed, Gamma, At;
    var node := Pow2(lvl) + b;
    var z := Signed(node, e);
    Sizes(lvl, b);
    Children(lvl, b);
    StageFolds(f, lvl, b, e);
    StageFolds(g, lvl, b, e);
    StageFolds(p, lvl, b, e);
    SignedSquare(node, e);
    FoldProduct(At(f, lvl, b), At(g, lvl, b), At(p, lvl, b), Gamma(node), z);
    assert Pow2(lvl + 1) + (2 * b + e) == 2 * node + e;
  }

  lemma {:induction false} ProductRun(f: Vec, g: Vec, p: Vec, k: nat)
    requires |f| == |g| == |p| == N && k <= 7 && ProductAt(f, g, p, 0)
    ensures ProductAt(Run(f, false, k), Run(g, false, k), Run(p, false, k), k)
  {
    if k > 0 {
      ProductRun(f, g, p, k - 1);
      ProductStage(Run(f, false, k - 1), Run(g, false, k - 1), Run(p, false, k - 1), k - 1);
    }
  }

  /** The product of the two ring elements that `f` and `g` are the transforms of, coefficient `p`:
      128 products of linear polynomials modulo X^2 - gamma. */
  function BaseAt(f: Vec, g: Vec, p: nat): int
    requires |f| == |g| == N && p < N
  {
    if p % 2 == 0 then f[p] * g[p] + Gamma(128 + p / 2) * (f[p + 1] * g[p + 1])
    else f[p - 1] * g[p] + f[p] * g[p - 1]
  }

  function Pointwise(f: Vec, g: Vec): (r: Vec)
    requires |f| == |g| == N
    ensures |r| == N
  {
    seq(N, p requires 0 <= p < N => BaseAt(f, g, p))
  }

  lemma BaseCase(f: Vec, g: Vec, c: int)
    requires |f| == |g| == 2
    ensures Mul(f, g, c)[0] == f[0] * g[0] + c * (f[1] * g[1])
    ensures Mul(f, g, c)[1] == f[0] * g[1] + f[1] * g[0]
  {
    var s := Shift(g, c);
    assert s == [c * g[1], g[0]];
    assert f[1..][1..] == [];
    MulAt(f, g, c, 0);
    MulAt(f, g, c, 1);
    MulAt(f[1..], s, c, 0);
    MulAt(f[1..], s, c, 1);
    assert f[1] * (c * g[1]) == c * (f[1] * g[1]);
  }

  /** At the leaves a node product is the pair of base-case coefficients. */
  lemma LeafProduct(f: Vec, g: Vec, p: Vec, lvl: nat)
    requires |f| == |g| == |p| == N && 6 < lvl < 8 && ProductAt(f, g, p, lvl)
    ensures Eqv(p, Pointwise(f, g), Q)
  {
    Pow2Small(lvl);
    forall i | 0 <= i < N ensures Cong(p[i], Pointwise(f, g)[i], Q) {
      assert NodeProduct(f, g, p, lvl, i / 2);
      LeafAt(f, g, p, lvl, i / 2, i % 2);
    }
  }

  lemma LeafIndex(f: Vec, lvl: nat, b: nat)
    requires |f| == N && 6 < lvl < 8 && b < Pow2(lvl)
    ensures Pow2(lvl) == 128 && At(f, lvl, b) == [f[2 * b], f[2 * b + 1]]
  {
    Pow2Small(lvl);
    Sizes(lvl, b);
    AtIndex(f, lvl, b, 0);
    AtIndex(f, lvl, b, 1);
  }

  lemma LeafAt(f: Vec, g: Vec, p: Vec, lvl: nat, b: nat, e: nat)
    requires |f| == |g| == |p| == N && 6 < lvl < 8 && b < Pow2(lvl) && e < 2 && NodeProduct(f, g, p, lvl, b)
    ensures 2 * b + e < N && Cong(p[2 * b + e], BaseAt(f, g, 2 * b + e), Q)
  {
    hide Gamma, Mul, Size, At, Pow2, Cong;
    LeafIndex(f, lvl, b);
    LeafIndex(g, lvl, b);
    LeafIndex(p, lvl, b);
    var c := Gamma(128 + b);
    BaseCase(At(f, lvl, b), At(g, lvl, b), c);
    assert Cong(At(p, lvl, b)[e], Mul(At(f, lvl, b), At(g, lvl, b), c)[e], Q);
    BaseAtPair(f, g, b);
  }

  lemma BaseAtPair(f: Vec, g: Vec, b: nat)
    requires |f| == |g| == N && b < 128
    ensures BaseAt(f, g, 2 * b) == f[2 * b] * g[2 * b] + Gamma(128 + b) * (f[2 * b + 1] * g[2 * b + 1])
    ensures BaseAt(f, g, 2 * b + 1) == f[2 * b] * g[2 * b + 1] + f[2 * b + 1] * g[2 * b]
  {
    hide Gamma;
    assert (2 * b) / 2 == b && (2 * b) % 2 == 0 && (2 * b + 1) % 2 == 1;
  }

  lemma RootProduct(f: Vec, g: Vec, lvl: nat)
    requires |f| == |g| == N && lvl <= 0
    ensures ProductAt(f, g, Mul(f, g, -1), lvl)
  {
    Pow2Small(lvl);
    Pow2Small(7 - lvl);
    forall b: nat | b < Pow2(lvl)
      ensures NodeProduct(f, g, Mul(f, g, -1), lvl, b)
    {
      assert At(f, lvl, b) == f && At(g, lvl, b) == g && At(Mul(f, g, -1), lvl, b) == Mul(f, g, -1);
    }
  }

  /** The transform of a ring product is the base-case product of the transforms. */
  lemma EncodeProduct(f: Vec, g: Vec)
    requires |f| == |g| == N
    ensures Encode(Mul(f, g, -1)) == Reduce(Pointwise(Encode(f), Encode(g)), Q)
  {
    var k, l :| 6 < k < 8 && l == k - 7;
    RootProduct(f, g, l);
    ProductRun(f, g, Mul(f, g, -1), k);
    var f', g', p' := Run(f, false, k), Run(g, false, k), Run(Mul(f, g, -1), false, k);
    LeafProduct(f', g', p', k);
    EqvReduce(f', Q);
    EqvReduce(g', Q);
    PointwiseEqv(Encode(f), f', Encode(g), g');
    EqvTrans(Pointwise(Encode(f), Encode(g)), Pointwise(f', g'), p', Q);
    EqvCanon(Pointwise(Encode(f), Encode(g)), p', Q);
  }

  lemma PointwiseEqv(f: Vec, f': Vec, g: Vec, g': Vec)
    requires |f| == |g| == N && Eqv(f, f', Q) && Eqv(g, g', Q)
    ensures Eqv(Pointwise(f, g), Pointwise(f', g'), Q)
  {
    forall p | 0 <= p < N ensures Cong(Pointwise(f, g)[p], Pointwise(f', g')[p], Q) {
      if p % 2 == 0 {
        var c := Gamma(128 + p / 2);
        CongMul(f[p], f'[p], g[p], g'[p], Q);
        CongMul(f[p + 1], f'[p + 1], g[p + 1], g'[p + 1], Q);
        CongMul(c, c, f[p + 1] * g[p + 1], f'[p + 1] * g'[p + 1], Q);
        CongAdd(f[p] * g[p], f'[p] * g'[p], c * (f[p + 1] * g[p + 1]), c * (f'[p + 1] * g'[p + 1]), Q);
      } else {
        CongMul(f[p - 1], f'[p - 1], g[p], g'[p], Q);
        CongMul(f[p], f'[p], g[p - 1], g'[p - 1], Q);
        CongAdd(f[p - 1] * g[p], f'[p - 1] * g'[p], f[p] * g[p - 1], f'[p] * g'[p - 1], Q);
      }
    }
  }

  /** Section 4.3 of FIPS 203: transforming, multiplying pair by pair and transforming back
      multiplies in the ring. */
  lemma NttMultiplies(f: Vec, g: Vec)
    requires |f| == |g| == N
    ensures Decode(Reduce(Pointwise(Encode(f), Encode(g)), Q)) == Reduce(Mul(f, g, -1), Q)
  {
    EncodeProduct(f, g);
    DecodeEncode(Mul(f, g, -1));
  }
}
