/** The K-PKE scheme of ML-KEM as functions on polynomials, and its decryption error. */
module KpkeSpec {
  import opened ModArith
  import opened Poly
  import opened Zetas
  import opened NttSpec
  import opened NttMul

  type Ring = f: Vec | |f| == N witness seq(N, _ => 0)

  /** The parameter sets differ in the rank and in the two compression widths. */
  datatype Params = Params(k: nat, eta1: nat, eta2: nat, du: nat, dv: nat) {
    predicate Valid() {
      1 <= du < 12 && 1 <= dv < 12
    }
  }

  // ----- sums of ring elements

  function Plus(f: Ring, g: Ring): Ring {
    Add(f, g)
  }

  function VSum(n: nat, t: nat -> Ring): Ring {
    if n == 0 then Zero(N) else Add(VSum(n - 1, t), t(n - 1))
  }

  lemma {:induction false} VSumSame(n: nat, t: nat -> Ring, t': nat -> Ring)
    requires forall i: nat :: i < n ==> t(i) == t'(i)
    ensures VSum(n, t) == VSum(n, t')
  {
    if n > 0 {
      VSumSame(n - 1, t, t');
    }
  }

  lemma {:induction false} VSumAdd(n: nat, t: nat -> Ring, t': nat -> Ring)
    ensures VSum(n, i => Plus(t(i), t'(i))) == Add(VSum(n, t), VSum(n, t'))
  {
    if n > 0 {
      VSumAdd(n - 1, t, t');
    } else {
      assert Add(Zero(N), Zero(N)) == Zero(N);
    }
  }

  function RowSum(m: nat, t: (nat, nat) -> Ring, i: nat): Ring {
    VSum(m, j => t(i, j))
  }

  function ColSum(n: nat, t: (nat, nat) -> Ring, j: nat): Ring {
    VSum(n, i => t(i, j))
  }

  lemma ColSumStep(n: nat, t: (nat, nat) -> Ring, j: nat)
    requires n > 0
    ensures ColSum(n, t, j) == Plus(ColSum(n - 1, t, j), t(n - 1, j))
  {
  }

  lemma {:induction false} VSumSwap(n: nat, m: nat, t: (nat, nat) -> Ring)
    ensures VSum(n, i => RowSum(m, t, i)) == VSum(m, j => ColSum(n, t, j))
  {
    if n == 0 {
      VSumZero(m);
      VSumSame(m, j => ColSum(0, t, j), _ => Zero(N));
    } else {
      VSumSwap(n - 1, m, t);
      var u: nat -> Ring, v: nat -> Ring := j => ColSum(n - 1, t, j), j => t(n - 1, j);
      VSumAdd(m, u, v);
      forall j: nat | j < m ensures ColSum(n, t, j) == Plus(u(j), v(j)) {
        ColSumStep(n, t, j);
      }
      VSumSame(m, j => ColSum(n, t, j), i => Plus(u(i), v(i)));
    }
  }

  lemma {:induction false} VSumZero(n: nat)
    ensures VSum(n, _ => Zero(N)) == Zero(N)
  {
    if n > 0 {
      VSumZero(n - 1);
    }
  }

  lemma {:induction false} VSumEqv(n: nat, t: nat -> Ring, t': nat -> Ring)
    requires forall i: nat :: i < n ==> Eqv(t(i), t'(i), Q)
    ensures Eqv(VSum(n, t), VSum(n, t'), Q)
  {
    if n > 0 {
      VSumEqv(n - 1, t, t');
      EqvAdd(VSum(n - 1, t), VSum(n - 1, t'), t(n - 1), t'(n - 1), Q);
    }
  }

  // ----- the base-case product is bilinear, commutative and associative

  lemma PointwiseAdd(f: Ring, f': Ring, g: Ring)
    ensures Pointwise(Add(f, f'), g) == Add(Pointwise(f, g), Pointwise(f', g))
  {
    hide Gamma;
    forall p: nat | p < N ensures BaseAt(Add(f, f'), g, p) == BaseAt(f, g, p) + BaseAt(f', g, p) {
      if p % 2 == 0 {
        BilinearEven(f[p], f[p + 1], f'[p], f'[p + 1], g[p], g[p + 1], Gamma(128 + p / 2));
      } else {
        MulDist(f[p - 1], f'[p - 1], g[p]);
        MulDist(f[p], f'[p], g[p - 1]);
      }
    }
  }

  lemma BilinearEven(a0: int, a1: int, b0: int, b1: int, c0: int, c1: int, z: int)
    ensures (a0 + b0) * c0 + z * ((a1 + b1) * c1) == (a0 * c0 + z * (a1 * c1)) + (b0 * c0 + z * (b1 * c1))
  {
    MulDist(a0, b0, c0);
    MulDist(a1, b1, c1);
    MulDist(a1 * c1, b1 * c1, z);
  }

  lemma PointwiseComm(f: Ring, g: Ring)
    ensures Pointwise(f, g) == Pointwise(g, f)
  {
    hide Gamma;
    forall p: nat | p < N ensures BaseAt(f, g, p) == BaseAt(g, f, p) {
    }
  }

  lemma PointwiseAssoc(f: Ring, g: Ring, h: Ring)
    ensures Pointwise(Pointwise(f, g), h) == Pointwise(f, Pointwise(g, h))
  {
    hide Gamma, BaseAt;
    var l, r := Pointwise(Pointwise(f, g), h), Pointwise(f, Pointwise(g, h));
    forall p: nat | p < N ensures l[p] == r[p] {
      var b := p / 2;
      PairOf(f, g, b);
      PairOf(g, h, b);
      PairOf(Pointwise(f, g), h, b);
      PairOf(f, Pointwise(g, h), b);
      BaseAssoc(f[2 * b], f[2 * b + 1], g[2 * b], g[2 * b + 1], h[2 * b], h[2 * b + 1], Gamma(128 + b));
      assert p == 2 * b || p == 2 * b + 1;
    }
    assert l == r;
  }

  lemma PairOf(f: Ring, g: Ring, b: nat)
    requires b < 128
    ensures Pointwise(f, g)[2 * b] == f[2 * b] * g[2 * b] + Gamma(128 + b) * (f[2 * b + 1] * g[2 * b + 1])
    ensures Pointwise(f, g)[2 * b + 1] == f[2 * b] * g[2 * b + 1] + f[2 * b + 1] * g[2 * b]
  {
    hide BaseAt, Gamma;
    BaseAtPair(f, g, b);
  }

  lemma BaseAssoc(a0: int, a1: int, b0: int, b1: int, c0: int, c1: int, z: int)
    ensures (a0 * b0 + z * (a1 * b1)) * c0 + z * ((a0 * b1 + a1 * b0) * c1)
         == a0 * (b0 * c0 + z * (b1 * c1)) + z * (a1 * (b0 * c1 + b1 * c0))
    ensures (a0 * b0 + z * (a1 * b1)) * c1 + (a0 * b1 + a1 * b0) * c0
         == a0 * (b0 * c1 + b1 * c0) + a1 * (b0 * c0 + z * (b1 * c1))
  {
    MulDist(a0 * b0, z * (a1 * b1), c0);
    MulDist(a0 * b1, a1 * b0, c1);
    MulDist((a0 * b1) * c1, (a1 * b0) * c1, z);
    MulDist(b0 * c0, z * (b1 * c1), a0);
    MulDist(b0 * c1, b1 * c0, a1);
    MulDist(a1 * (b0 * c1), a1 * (b1 * c0), z);
    MulAssoc(a0, b0, c0);
    MulAssoc(z, a1 * b1, c0);
    MulAssoc(a1, b1, c0);
    MulAssoc(a0, b1, c1);
    MulAssoc(a1, b0, c1);
    MulAssoc(z, a0, b1 * c1);
    BaseAssocOdd(a0, a1, b0, b1, c0, c1, z);
  }

  lemma BaseAssocOdd(a0: int, a1: int, b0: int, b1: int, c0: int, c1: int, z: int)
    ensures (a0 * b0 + z * (a1 * b1)) * c1 + (a0 * b1 + a1 * b0) * c0
         == a0 * (b0 * c1 + b1 * c0) + a1 * (b0 * c0 + z * (b1 * c1))
  {
    MulDist(a0 * b0, z * (a1 * b1), c1);
    MulDist(a0 * b1, a1 * b0, c0);
    MulDist(b0 * c1, b1 * c0, a0);
    MulDist(b0 * c0, z * (b1 * c1), a1);
    MulAssoc(a0, b0, c1);
    MulAssoc(a0, b1, c0);
    MulAssoc(a1, b0, c0);
    MulAssoc(z, a1 * b1, c1);
    MulAssoc(a1, b1, c1);
    MulAssoc(z, a1, b1 * c1);
  }

  // ----- families of ring elements and their inner products

  function Enc(f: Ring): Ring { Encode(f) }
  function Dec(f: Ring): Ring { Decode(f) }
  function Red(f: Ring): Ring { Reduce(f, Q) }
  function Prod(f: Ring, g: Ring): Ring { Pointwise(f, g) }

  /** The product in Z[X]/(X^256 + 1). */
  function RingMul(f: Ring, g: Ring): Ring { Mul(f, g, -1) }

  function Hat(f: nat -> Ring): nat -> Ring { (i: nat) => Enc(f(i)) }
  function Sums(f: nat -> Ring, g: nat -> Ring): nat -> Ring { (i: nat) => Plus(f(i), g(i)) }
  function RowOf(a: (nat, nat) -> Ring, i: nat): nat -> Ring { (j: nat) => a(i, j) }
  function ColOf(a: (nat, nat) -> Ring, i: nat): nat -> Ring { (j: nat) => a(j, i) }
  function Products(f: nat -> Ring, g: nat -> Ring): nat -> Ring { (i: nat) => Prod(f(i), g(i)) }
  function RingProducts(f: nat -> Ring, g: nat -> Ring): nat -> Ring { (i: nat) => RingMul(f(i), g(i)) }

  /** The inner product in the transform domain. */
  function Dot(k: nat, f: nat -> Ring, g: nat -> Ring): Ring {
    VSum(k, Products(f, g))
  }

  /** The inner product in the ring. */
  function RingDot(k: nat, f: nat -> Ring, g: nat -> Ring): Ring {
    VSum(k, RingProducts(f, g))
  }

  // ----- the scheme

  /** Row `i` of the public key: t = A s + e in the transform domain. */
  function PublicRow(k: nat, a: (nat, nat) -> Ring, s: nat -> Ring, e: nat -> Ring, i: nat): Ring {
    Red(Add(Enc(e(i)), Dot(k, ColOf(a, i), Hat(s))))
  }

  function PublicRows(k: nat, a: (nat, nat) -> Ring, s: nat -> Ring, e: nat -> Ring): nat -> Ring {
    (i: nat) => PublicRow(k, a, s, e, i)
  }

  /** Component `i` of u = A^T r + e1. */
  function CipherU(k: nat, a: (nat, nat) -> Ring, r: nat -> Ring, e1: nat -> Ring, i: nat): Ring {
    Red(Add(e1(i), Dec(Red(Dot(k, RowOf(a, i), Hat(r))))))
  }

  /** v = t^T r + e2 + mu. */
  function CipherV(k: nat, t: nat -> Ring, r: nat -> Ring, e2: Ring, mu: Ring): Ring {
    Red(Add(mu, Red(Add(e2, Dec(Red(Dot(k, t, Hat(r))))))))
  }

  /** w = v' - s^T u'. */
  function PlainW(k: nat, sHat: nat -> Ring, u: nat -> Ring, v: Ring): Ring {
    Red(Sub(v, Dec(Red(Dot(k, sHat, Hat(u))))))
  }

  /** The total noise e^T r - s^T (e1 + cu) + e2 + cv, where cu and cv are the compression errors. */
  function Noise(k: nat, s: nat -> Ring, e: nat -> Ring, r: nat -> Ring, e1: nat -> Ring, e2: Ring,
                 cu: nat -> Ring, cv: Ring): Ring
  {
    Add(Add(e2, cv), Sub(RingDot(k, e, r), RingDot(k, s, Sums(e1, cu))))
  }

  // ----- the transforms are linear modulo q

  lemma RedSame(f: Ring, g: Ring)
    requires Eqv(f, g, Q)
    ensures Red(f) == Red(g)
  {
    EqvCanon(f, g, Q);
  }

  lemma RedEqv(f: Ring)
    ensures Eqv(Red(f), f, Q) && Eqv(f, Red(f), Q)
  {
    EqvReduce(f, Q);
  }

  lemma DecSame(f: Ring, g: Ring)
    requires Eqv(f, g, Q)
    ensures Dec(f) == Dec(g)
  {
    RunEqv(f, g, true, 7);
    EqvScale(F, F, Run(f, true, 7), Run(g, true, 7), Q);
    EqvCanon(Scale(F, Run(f, true, 7)), Scale(F, Run(g, true, 7)), Q);
  }

  lemma DecPlus(f: Ring, g: Ring)
    ensures Eqv(Dec(Plus(f, g)), Plus(Dec(f), Dec(g)), Q)
  {
    hide Run;
    RunAdd(f, g, true, 7);
    var x, y := Run(f, true, 7), Run(g, true, 7);
    assert Scale(F, Add(x, y)) == Add(Scale(F, x), Scale(F, y)) by {
      forall i | 0 <= i < N ensures F * (x[i] + y[i]) == F * x[i] + F * y[i] {}
    }
    ReducePlus(Scale(F, x), Scale(F, y));
  }

  lemma ReducePlus(x: Ring, y: Ring)
    ensures Eqv(Reduce(Add(x, y), Q), Add(Reduce(x, Q), Reduce(y, Q)), Q)
  {
    EqvReduce(x, Q);
    EqvReduce(y, Q);
    EqvReduce(Add(x, y), Q);
    EqvAdd(Reduce(x, Q), x, Reduce(y, Q), y, Q);
    EqvTrans(Reduce(Add(x, y), Q), Add(x, y), Add(Reduce(x, Q), Reduce(y, Q)), Q);
  }

  lemma EncSame(f: Ring, g: Ring)
    requires Eqv(f, g, Q)
    ensures Enc(f) == Enc(g)
  {
    RunEqv(f, g, false, 7);
    EqvCanon(Run(f, false, 7), Run(g, false, 7), Q);
  }

  lemma EncPlus(f: Ring, g: Ring)
    ensures Eqv(Enc(Plus(f, g)), Plus(Enc(f), Enc(g)), Q)
  {
    hide Run;
    RunAdd(f, g, false, 7);
    ReducePlus(Run(f, false, 7), Run(g, false, 7));
  }

  // ----- inner products are bilinear

  lemma DotSumLeft(k: nat, f: nat -> Ring, f': nat -> Ring, g: nat -> Ring)
    ensures Dot(k, Sums(f, f'), g) == Plus(Dot(k, f, g), Dot(k, f', g))
  {
    var u, v := Products(f, g), Products(f', g);
    VSumAdd(k, u, v);
    forall i: nat | i < k ensures Products(Sums(f, f'), g)(i) == Plus(u(i), v(i)) {
      PointwiseAdd(f(i), f'(i), g(i));
    }
    VSumSame(k, Products(Sums(f, f'), g), i => Plus(u(i), v(i)));
  }

  lemma DotComm(k: nat, f: nat -> Ring, g: nat -> Ring)
    ensures Dot(k, f, g) == Dot(k, g, f)
  {
    forall i: nat | i < k ensures Products(f, g)(i) == Products(g, f)(i) {
      PointwiseComm(f(i), g(i));
    }
    VSumSame(k, Products(f, g), Products(g, f));
  }

  lemma DotEqv(k: nat, f: nat -> Ring, f': nat -> Ring, g: nat -> Ring)
    requires forall i: nat :: i < k ==> Eqv(f(i), f'(i), Q)
    ensures Eqv(Dot(k, f, g), Dot(k, f', g), Q)
  {
    forall i: nat | i < k ensures Eqv(Products(f, g)(i), Products(f', g)(i), Q) {
      EqvRefl(g(i));
      PointwiseEqv(f(i), f'(i), g(i), g(i));
    }
    VSumEqv(k, Products(f, g), Products(f', g));
  }

  lemma EqvRefl(f: Ring)
    ensures Eqv(f, f, Q)
  {
  }

  /** A product with a sum is the sum of the products. */
  lemma {:induction false} ProdSum(n: nat, t: nat -> Ring, h: Ring)
    ensures Prod(VSum(n, t), h) == VSum(n, (j: nat) => Prod(t(j), h))
  {
    hide Gamma, BaseAt;
    if n == 0 {
      ProdZero(h);
    } else {
      ProdSum(n - 1, t, h);
      PointwiseAdd(VSum(n - 1, t), t(n - 1), h);
    }
  }

  lemma ProdZero(h: Ring)
    ensures Prod(Zero(N), h) == Zero(N)
  {
    hide Gamma;
    forall p: nat | p < N ensures BaseAt(Zero(N), h, p) == 0 {
    }
  }

  function Triple(a: (nat, nat) -> Ring, s: nat -> Ring, r: nat -> Ring): (nat, nat) -> Ring {
    (i: nat, j: nat) => Prod(Prod(a(i, j), s(i)), r(j))
  }

  function ColDots(k: nat, a: (nat, nat) -> Ring, s: nat -> Ring): nat -> Ring {
    (i: nat) => Dot(k, ColOf(a, i), s)
  }

  function RowDots(k: nat, a: (nat, nat) -> Ring, r: nat -> Ring): nat -> Ring {
    (i: nat) => Dot(k, RowOf(a, i), r)
  }

  /** (A s)^T r = s^T (A^T r): the terms that cancel in decryption. */
  lemma CrossTerms(k: nat, a: (nat, nat) -> Ring, s: nat -> Ring, r: nat -> Ring)
    ensures Dot(k, ColDots(k, a, s), r) == Dot(k, s, RowDots(k, a, r))
  {
    hide Prod;
    var t := Triple(a, s, r);
    forall i: nat | i < k ensures Products(ColDots(k, a, s), r)(i) == ColSum(k, t, i) {
      var p := Products(ColOf(a, i), s);
      ProdSum(k, p, r(i));
      VSumSame(k, (j: nat) => Prod(p(j), r(i)), j => t(j, i));
    }
    VSumSame(k, Products(ColDots(k, a, s), r), i => ColSum(k, t, i));
    forall i: nat | i < k ensures Products(s, RowDots(k, a, r))(i) == RowSum(k, t, i) {
      var p := Products(RowOf(a, i), r);
      ProdComm(s(i), VSum(k, p));
      ProdSum(k, p, s(i));
      forall j: nat | j < k ensures Prod(p(j), s(i)) == t(i, j) {
        Rotate(a(i, j), r(j), s(i));
      }
      VSumSame(k, (j: nat) => Prod(p(j), s(i)), j => t(i, j));
    }
    VSumSame(k, Products(s, RowDots(k, a, r)), i => RowSum(k, t, i));
    VSumSwap(k, k, t);
  }

  lemma ProdComm(f: Ring, g: Ring)
    ensures Prod(f, g) == Prod(g, f)
  {
    PointwiseComm(f, g);
  }

  lemma Rotate(f: Ring, g: Ring, h: Ring)
    ensures Prod(Prod(f, g), h) == Prod(Prod(f, h), g)
  {
    PointwiseAssoc(f, g, h);
    PointwiseComm(g, h);
    PointwiseAssoc(f, h, g);
  }

  /** Transforming back an inner product of transforms gives the inner product in the ring. */
  lemma {:induction false} DotDecodes(k: nat, f: nat -> Ring, g: nat -> Ring)
    ensures Eqv(Dec(Dot(k, Hat(f), Hat(g))), RingDot(k, f, g), Q)
  {
    if k == 0 {
      DecZero();
    } else {
      DotDecodes(k - 1, f, g);
      var d, p := Dot(k - 1, Hat(f), Hat(g)), Prod(Enc(f(k - 1)), Enc(g(k - 1)));
      DecPlus(d, p);
      RedEqv(p);
      DecSame(p, Red(p));
      NttMultiplies(f(k - 1), g(k - 1));
      EqvReduce(RingMul(f(k - 1), g(k - 1)), Q);
      EqvAdd(Dec(d), RingDot(k - 1, f, g), Dec(p), RingMul(f(k - 1), g(k - 1)), Q);
      EqvTrans(Dec(Plus(d, p)), Plus(Dec(d), Dec(p)), RingDot(k, f, g), Q);
    }
  }

  lemma DecZero()
    ensures Dec(Zero(N)) == Zero(N)
  {
    hide Run;
    RunScale(Zero(N), 0, true, 7);
    assert Scale(0, Zero(N)) == Zero(N);
    var x := Run(Zero(N), true, 7);
    assert Scale(0, x) == Zero(N);
    assert Scale(F, Zero(N)) == Zero(N);
  }

  // ----- the decryption error

  /** What the receiver's value differs by from the sender's. */
  function Difference(f: Ring, g: Ring): Ring { Sub(f, g) }

  function CipherUs(k: nat, a: (nat, nat) -> Ring, r: nat -> Ring, e1: nat -> Ring): nat -> Ring {
    (i: nat) => CipherU(k, a, r, e1, i)
  }

  function Differences(f: nat -> Ring, g: nat -> Ring): nat -> Ring {
    (i: nat) => Difference(f(i), g(i))
  }

  /** t^T r decodes to e^T r plus the cross terms. */
  lemma SenderSide(k: nat, a: (nat, nat) -> Ring, s: nat -> Ring, e: nat -> Ring, r: nat -> Ring)
    ensures Eqv(Dec(Red(Dot(k, PublicRows(k, a, s, e), Hat(r)))),
                Plus(RingDot(k, e, r), Dec(Dot(k, ColDots(k, a, Hat(s)), Hat(r)))), Q)
  {
    hide Dec, Dot, Enc;
    var t, R, cd := PublicRows(k, a, s, e), Hat(r), ColDots(k, a, Hat(s));
    forall i: nat | i < k ensures Eqv(t(i), Sums(Hat(e), cd)(i), Q) {
      var c := Add(Enc(e(i)), Dot(k, ColOf(a, i), Hat(s)));
      RedEqv(c);
      assert t(i) == Red(c);
      assert cd(i) == Dot(k, ColOf(a, i), Hat(s));
      assert Hat(e)(i) == Enc(e(i));
      assert Sums(Hat(e), cd)(i) == Plus(Hat(e)(i), cd(i));
      assert Plus(Hat(e)(i), cd(i)) == c;
    }
    DotEqv(k, t, Sums(Hat(e), cd), R);
    DotSumLeft(k, Hat(e), cd, R);
    var d, x := Dot(k, Hat(e), R), Dot(k, cd, R);
    RedEqv(Dot(k, t, R));
    EqvTrans(Red(Dot(k, t, R)), Dot(k, t, R), Plus(d, x), Q);
    DecSame(Red(Dot(k, t, R)), Plus(d, x));
    DecPlus(d, x);
    DotDecodes(k, e, r);
    EqvRefl(Dec(x));
    EqvAdd(Dec(d), RingDot(k, e, r), Dec(x), Dec(x), Q);
    EqvTrans(Dec(Plus(d, x)), Plus(Dec(d), Dec(x)), Plus(RingDot(k, e, r), Dec(x)), Q);
  }

  /** The receiver's transform of component `i`, with the error in u made explicit. */
  lemma ReceivedRow(k: nat, a: (nat, nat) -> Ring, r: nat -> Ring, e1: nat -> Ring, u: nat -> Ring, i: nat)
    ensures Eqv(Enc(u(i)),
                Plus(Enc(Plus(e1(i), Differences(u, CipherUs(k, a, r, e1))(i))), Dot(k, RowOf(a, i), Hat(r))), Q)
  {
    hide Dec, Dot, Enc;
    var row := Dot(k, RowOf(a, i), Hat(r));
    var y := Plus(e1(i), Differences(u, CipherUs(k, a, r, e1))(i));
    RedEqv(row);
    DecSame(Red(row), row);
    var c := Add(e1(i), Dec(row));
    var d := Difference(u(i), Red(c));
    RedEqv(c);
    EqvRefl(d);
    EqvAdd(Red(c), c, d, d, Q);
    assert u(i) == Add(Red(c), d);
    assert Add(c, d) == Plus(y, Dec(row));
    EncSame(u(i), Plus(y, Dec(row)));
    EncPlus(y, Dec(row));
    EncDec(row);
    EqvRefl(Enc(y));
    EqvAdd(Enc(y), Enc(y), Enc(Dec(row)), row, Q);
    EqvTrans(Enc(u(i)), Plus(Enc(y), Enc(Dec(row))), Plus(Enc(y), row), Q);
  }

  lemma EncDec(f: Ring)
    ensures Eqv(Enc(Dec(f)), f, Q)
  {
    EncodeDecode(f);
    EqvReduce(f, Q);
  }

  /** s^T u' decodes to s^T (e1 + cu) plus the same cross terms. */
  lemma ReceiverSide(k: nat, a: (nat, nat) -> Ring, s: nat -> Ring, r: nat -> Ring, e1: nat -> Ring, u: nat -> Ring)
    ensures Eqv(Dec(Red(Dot(k, Hat(s), Hat(u)))),
                Plus(RingDot(k, s, Sums(e1, Differences(u, CipherUs(k, a, r, e1)))),
                     Dec(Dot(k, ColDots(k, a, Hat(s)), Hat(r)))), Q)
  {
    hide Dec, Dot, Enc;
    var S, R, rd := Hat(s), Hat(r), RowDots(k, a, Hat(r));
    var y := Sums(e1, Differences(u, CipherUs(k, a, r, e1)));
    forall i: nat | i < k ensures Eqv(Hat(u)(i), Sums(Hat(y), rd)(i), Q) {
      ReceivedRow(k, a, r, e1, u, i);
    }
    DotComm(k, S, Hat(u));
    DotEqv(k, Hat(u), Sums(Hat(y), rd), S);
    DotSumLeft(k, Hat(y), rd, S);
    DotComm(k, Hat(y), S);
    DotComm(k, rd, S);
    CrossTerms(k, a, S, R);
    var d, x := Dot(k, S, Hat(y)), Dot(k, ColDots(k, a, S), R);
    RedEqv(Dot(k, S, Hat(u)));
    EqvTrans(Red(Dot(k, S, Hat(u))), Dot(k, S, Hat(u)), Plus(d, x), Q);
    DecSame(Red(Dot(k, S, Hat(u))), Plus(d, x));
    DecPlus(d, x);
    DotDecodes(k, s, y);
    EqvRefl(Dec(x));
    EqvAdd(Dec(d), RingDot(k, s, y), Dec(x), Dec(x), Q);
    EqvTrans(Dec(Plus(d, x)), Plus(Dec(d), Dec(x)), Plus(RingDot(k, s, y), Dec(x)), Q);
  }

  /** Decryption recovers the message polynomial plus the noise, whatever the receiver's u and v are. */
  lemma DecryptionNoise(k: nat, a: (nat, nat) -> Ring, s: nat -> Ring, e: nat -> Ring, r: nat -> Ring,
                        e1: nat -> Ring, e2: Ring, mu: Ring, u: nat -> Ring, v: Ring)
    ensures PlainW(k, Hat(s), u, v) == Red(Add(mu, Noise(k, s, e, r, e1, e2,
              Differences(u, CipherUs(k, a, r, e1)),
              Difference(v, CipherV(k, PublicRows(k, a, s, e), r, e2, mu)))))
  {
    hide Dec, Dot, Enc, RingDot, Hat, PublicRows, CipherUs, Differences, ColDots, Sums;
    SenderSide(k, a, s, e, r);
    ReceiverSide(k, a, s, r, e1, u);
    var cu := Differences(u, CipherUs(k, a, r, e1));
    NoiseArithmetic(mu, e2, v, Dec(Red(Dot(k, PublicRows(k, a, s, e), Hat(r)))), Dec(Red(Dot(k, Hat(s), Hat(u)))),
                    RingDot(k, e, r), RingDot(k, s, Sums(e1, cu)), Dec(Dot(k, ColDots(k, a, Hat(s)), Hat(r))));
  }

  lemma NoiseArithmetic(mu: Ring, e2: Ring, v: Ring, sent: Ring, received: Ring, er: Ring, sy: Ring, x: Ring)
    requires Eqv(sent, Plus(er, x), Q) && Eqv(received, Plus(sy, x), Q)
    ensures Red(Sub(v, received))
         == Red(Add(mu, Add(Add(e2, Difference(v, Red(Add(mu, Red(Add(e2, sent)))))), Sub(er, sy))))
  {
    var c := Red(Add(mu, Red(Add(e2, sent))));
    var l, n := Sub(v, received), Add(mu, Add(Add(e2, Difference(v, c)), Sub(er, sy)));
    forall i | 0 <= i < N ensures Cong(l[i], n[i], Q) {
      assert Cong(sent[i], er[i] + x[i], Q) && Cong(received[i], sy[i] + x[i], Q);
      NoiseAt(mu[i], e2[i], v[i], sent[i], received[i], er[i], sy[i], x[i], c[i]);
    }
    RedSame(l, n);
  }

  lemma NoiseAt(mu: int, e2: int, v: int, sent: int, received: int, er: int, sy: int, x: int, c: int)
    requires Cong(sent, er + x, Q) && Cong(received, sy + x, Q)
    requires c == (mu + (e2 + sent) % Q) % Q
    ensures Cong(v - received, mu + ((e2 + (v - c)) + (er - sy)), Q)
  {
  }
}
