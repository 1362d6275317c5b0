/** The ML-KEM number-theoretic transform as a chain of seven linear butterfly stages over the integers. */
module NttSpec {
  import opened ModArith
  import opened Poly
  import opened Zetas

  const F: nat := 3303

  /** Butterfly level `lvl` has 2^lvl blocks, each split into two halves of this length. */
  function Half(lvl: nat): (h: nat)
    requires lvl <= 7
    ensures h >= 1
  {
    Pow2(7 - lvl)
  }

  function Block(f: Vec, b: nat, n: nat): (r: Vec)
    requires (b + 1) * n <= |f|
    ensures |r| == n
  {
    assert (b + 1) * n == b * n + n;
    f[b * n..(b + 1) * n]
  }

  /** Encoding walks the levels downward from the root, decoding back up. */
  function Level(dit: bool, i: nat): nat
    requires i <= 6
  {
    if dit then 6 - i else i
  }

  function Root(dit: bool, lvl: nat, b: nat): int
    requires lvl <= 6 && b < Pow2(lvl)
  {
    if dit then Zeta(127 + 2 * Pow2(lvl) - b) else Zeta(Pow2(lvl) + b)
  }

  /** One output of a butterfly on the pair (x, y): encoding multiplies before it adds,
      decoding adds before it multiplies. */
  function Butterfly(dit: bool, z: int, left: bool, x: int, y: int): int {
    if left then (if dit then x + y else x + z * y)
    else (if dit then z * (y - x) else x - z * y)
  }

  function IsLeft(lvl: nat, p: nat): bool
    requires lvl <= 6
  {
    p % (2 * Half(lvl)) < Half(lvl)
  }

  /** The left end of the butterfly that produces position `p`. */
  function Low(lvl: nat, p: nat): int
    requires lvl <= 6
  {
    if IsLeft(lvl, p) then p else p - Half(lvl)
  }

  lemma Geometry(lvl: nat, p: nat)
    requires lvl <= 6 && p < N
    ensures Pow2(lvl) * (2 * Half(lvl)) == N && Half(lvl) == 2 * Half(lvl + 1)
    ensures p / (2 * Half(lvl)) < Pow2(lvl)
    ensures 0 <= Low(lvl, p) && Low(lvl, p) + Half(lvl) < N
  {
    Pow2Small(lvl);
    Pow2Small(7 - lvl);
  }

  function StageAt(f: Vec, lvl: nat, dit: bool, p: nat): int
    requires |f| == N && lvl <= 6 && p < N
  {
    Geometry(lvl, p);
    Butterfly(dit, Root(dit, lvl, p / (2 * Half(lvl))), IsLeft(lvl, p),
              f[Low(lvl, p)], f[Low(lvl, p) + Half(lvl)])
  }

  function Stage(f: Vec, lvl: nat, dit: bool): (r: Vec)
    requires |f| == N && lvl <= 6
    ensures |r| == N
  {
    seq(N, p requires 0 <= p < N => StageAt(f, lvl, dit, p))
  }

  /** The first `k` stages of a transform. */
  function Run(f: Vec, dit: bool, k: nat): (r: Vec)
    requires |f| == N && k <= 7
    ensures |r| == N
  {
    if k == 0 then f else Stage(Run(f, dit, k - 1), Level(dit, k - 1), dit)
  }

  function Encode(f: Vec): (r: Vec)
    requires |f| == N
    ensures |r| == N
  {
    Reduce(Run(f, false, 7), Q)
  }

  function Decode(f: Vec): (r: Vec)
    requires |f| == N
    ensures |r| == N
  {
    Reduce(Scale(F, Run(f, true, 7)), Q)
  }

  // ----- stages are linear

  lemma ButterflyLinear(dit: bool, z: int, left: bool, c: int, x: int, y: int, x': int, y': int)
    ensures Butterfly(dit, z, left, c * x, c * y) == c * Butterfly(dit, z, left, x, y)
    ensures Butterfly(dit, z, left, x + x', y + y') == Butterfly(dit, z, left, x, y) + Butterfly(dit, z, left, x', y')
  {
    MulDistSub(y, x, c);
    MulAssoc(z, c, y - x);
    MulAssoc(z, c, y);
    MulDist(x, z * y, c);
    MulDistSub(x, z * y, c);
    MulDist(y - x, y' - x', z);
    MulDist(y, y', z);
  }

  lemma ButterflyCong(dit: bool, z: int, left: bool, x: int, x': int, y: int, y': int)
    requires Cong(x, x', Q) && Cong(y, y', Q)
    ensures Cong(Butterfly(dit, z, left, x, y), Butterfly(dit, z, left, x', y'), Q)
  {
    hide Cong;
    CongRefl(z, Q);
    CongMul(z, z, y, y', Q);
    CongAdd(x, x', y, y', Q);
    CongAdd(x, x', z * y, z * y', Q);
    CongSub(x, x', z * y, z * y', Q);
    CongSub(y, y', x, x', Q);
    CongMul(z, z, y - x, y' - x', Q);
  }

  lemma StageLinearAt(f: Vec, g: Vec, lvl: nat, dit: bool, c: int, p: nat)
    requires |f| == |g| == N && lvl <= 6 && p < N
    ensures StageAt(Scale(c, f), lvl, dit, p) == c * StageAt(f, lvl, dit, p)
    ensures StageAt(Add(f, g), lvl, dit, p) == StageAt(f, lvl, dit, p) + StageAt(g, lvl, dit, p)
  {
    hide Half, Pow2, Low, IsLeft, Butterfly, Root;
    Geometry(lvl, p);
    var lo := Low(lvl, p);
    var hi := lo + Half(lvl);
    ButterflyLinear(dit, Root(dit, lvl, p / (2 * Half(lvl))), IsLeft(lvl, p), c, f[lo], f[hi], g[lo], g[hi]);
  }

  lemma StageLinear(f: Vec, g: Vec, lvl: nat, dit: bool, c: int)
    requires |f| == |g| == N && lvl <= 6
    ensures Stage(Scale(c, f), lvl, dit) == Scale(c, Stage(f, lvl, dit))
    ensures Stage(Add(f, g), lvl, dit) == Add(Stage(f, lvl, dit), Stage(g, lvl, dit))
  {
    hide StageAt;
    forall p: nat | p < N
      ensures StageAt(Scale(c, f), lvl, dit, p) == c * StageAt(f, lvl, dit, p)
      ensures StageAt(Add(f, g), lvl, dit, p) == StageAt(f, lvl, dit, p) + StageAt(g, lvl, dit, p)
    {
      StageLinearAt(f, g, lvl, dit, c, p);
    }
  }

  lemma StageEqvAt(f: Vec, g: Vec, lvl: nat, dit: bool, p: nat)
    requires |f| == N && lvl <= 6 && p < N && Eqv(f, g, Q)
    ensures Cong(StageAt(f, lvl, dit, p), StageAt(g, lvl, dit, p), Q)
  {
    hide Half, Pow2, Low, IsLeft, Butterfly, Root, Cong;
    Geometry(lvl, p);
    var lo := Low(lvl, p);
    var hi := lo + Half(lvl);
    ButterflyCong(dit, Root(dit, lvl, p / (2 * Half(lvl))), IsLeft(lvl, p), f[lo], g[lo], f[hi], g[hi]);
  }

  lemma StageEqv(f: Vec, g: Vec, lvl: nat, dit: bool)
    requires |f| == N && lvl <= 6 && Eqv(f, g, Q)
    ensures Eqv(Stage(f, lvl, dit), Stage(g, lvl, dit), Q)
  {
    hide StageAt, Cong;
    forall p: nat | p < N
      ensures Cong(StageAt(f, lvl, dit, p), StageAt(g, lvl, dit, p), Q)
    {
      StageEqvAt(f, g, lvl, dit, p);
    }
  }

  lemma {:induction false} RunEqv(f: Vec, g: Vec, dit: bool, k: nat)
    requires |f| == N && k <= 7 && Eqv(f, g, Q)
    ensures Eqv(Run(f, dit, k), Run(g, dit, k), Q)
  {
    if k > 0 {
      RunEqv(f, g, dit, k - 1);
      StageEqv(Run(f, dit, k - 1), Run(g, dit, k - 1), Level(dit, k - 1), dit);
    }
  }

  lemma {:induction false} RunAdd(f: Vec, g: Vec, dit: bool, k: nat)
    requires |f| == |g| == N && k <= 7
    ensures Run(Add(f, g), dit, k) == Add(Run(f, dit, k), Run(g, dit, k))
  {
    if k > 0 {
      RunAdd(f, g, dit, k - 1);
      StageLinear(Run(f, dit, k - 1), Run(g, dit, k - 1), Level(dit, k - 1), dit, 1);
    }
  }

  lemma {:induction false} RunScale(f: Vec, c: int, dit: bool, k: nat)
    requires |f| == N && k <= 7
    ensures Run(Scale(c, f), dit, k) == Scale(c, Run(f, dit, k))
  {
    if k > 0 {
      RunScale(f, c, dit, k - 1);
      StageLinear(Run(f, dit, k - 1), f, Level(dit, k - 1), dit, c);
    }
  }

  // ----- a stage undoes the stage of the other direction, up to a factor 2

  /** Position `p` in terms of its block and its place in the block. */
  lemma Position(lvl: nat, b: nat, j: nat, p: nat)
    requires lvl <= 6 && b < Pow2(lvl) && j < 2 * Half(lvl) && p == b * (2 * Half(lvl)) + j
    ensures p < N && p / (2 * Half(lvl)) == b && p % (2 * Half(lvl)) == j
  {
    hide Pow2, Half;
    var n := 2 * Half(lvl);
    DivModUnique(p, n, b, j);
    Geometry(lvl, 0);
    MulMono(b + 1, Pow2(lvl), n);
    MulDist(b, 1, n);
  }

  lemma StageUndo(f: Vec, lvl: nat, dit: bool)
    requires |f| == N && lvl <= 6
    ensures Eqv(Stage(Stage(f, lvl, dit), lvl, !dit), Scale(2, f), Q)
  {
    forall p | 0 <= p < N
      ensures Cong(Stage(Stage(f, lvl, dit), lvl, !dit)[p], 2 * f[p], Q)
    {
      StageUndoAt(f, lvl, dit, p);
    }
  }

  /** The two outputs of one butterfly. */
  lemma StagePair(f: Vec, lvl: nat, dit: bool, b: nat, j: nat, lo: nat, hi: nat)
    requires |f| == N && lvl <= 6 && b < Pow2(lvl) && j < Half(lvl)
    requires lo == b * (2 * Half(lvl)) + j && hi == lo + Half(lvl)
    ensures hi < N
    ensures StageAt(f, lvl, dit, lo) == Butterfly(dit, Root(dit, lvl, b), true, f[lo], f[hi])
    ensures StageAt(f, lvl, dit, hi) == Butterfly(dit, Root(dit, lvl, b), false, f[lo], f[hi])
  {
    hide Zeta, Pow2, Half;
    Position(lvl, b, j, lo);
    Position(lvl, b, j + Half(lvl), hi);
  }

  /** Every position is one of the two ends of a butterfly. */
  lemma Ends(lvl: nat, p: nat) returns (b: nat, j: nat, lo: nat)
    requires lvl <= 6 && p < N
    ensures b < Pow2(lvl) && j < Half(lvl) && lo == b * (2 * Half(lvl)) + j
    ensures p == lo || p == lo + Half(lvl)
  {
    hide Pow2, Half;
    Geometry(lvl, p);
    var n := 2 * Half(lvl);
    b := p / n;
    DivMod(p, n);
    j := if p % n < Half(lvl) then p % n else p % n - Half(lvl);
    MulNonNeg(b, n);
    lo := b * n + j;
  }

  lemma StageUndoAt(f: Vec, lvl: nat, dit: bool, p: nat)
    requires |f| == N && lvl <= 6 && p < N
    ensures Cong(StageAt(Stage(f, lvl, dit), lvl, !dit, p), 2 * f[p], Q)
  {
    hide Zeta, Stage, StageAt, Pow2, Half;
    var b, j, lo := Ends(lvl, p);
    StageUndoPair(f, lvl, dit, b, j, lo, lo + Half(lvl));
  }

  lemma StageUndoPair(f: Vec, lvl: nat, dit: bool, b: nat, j: nat, lo: nat, hi: nat)
    requires |f| == N && lvl <= 6 && b < Pow2(lvl) && j < Half(lvl)
    requires lo == b * (2 * Half(lvl)) + j && hi == lo + Half(lvl)
    ensures hi < N
    ensures Cong(StageAt(Stage(f, lvl, dit), lvl, !dit, lo), 2 * f[lo], Q)
    ensures Cong(StageAt(Stage(f, lvl, dit), lvl, !dit, hi), 2 * f[hi], Q)
  {
    hide Zeta, Pow2, Half, Butterfly, StageAt;
    var s := Stage(f, lvl, dit);
    StagePair(f, lvl, dit, b, j, lo, hi);
    StagePair(s, lvl, !dit, b, j, lo, hi);
    ZetaMirror(lvl, b);
    Undo(dit, Root(dit, lvl, b), Root(!dit, lvl, b), f[lo], f[hi]);
  }

  /** The arithmetic of one butterfly followed by its mirror image. */
  lemma Undo(dit: bool, z: int, w: int, x: int, y: int)
    requires Cong(w * z, -1, Q) || Cong(z * w, -1, Q)
    ensures var s, t := Butterfly(dit, z, true, x, y), Butterfly(dit, z, false, x, y);
      && Cong(Butterfly(!dit, w, true, s, t), 2 * x, Q)
      && Cong(Butterfly(!dit, w, false, s, t), 2 * y, Q)
  {
    assert w * z == z * w;
    if dit {
      var s, t := x + y, z * (y - x);
      CongMul(w * z, -1, y - x, y - x, Q);
      MulAssoc(w, z, y - x);
      CongAdd(s, s, w * t, -1 * (y - x), Q);
      CongSub(s, s, w * t, -1 * (y - x), Q);
    } else {
      CongMul(w * z, -1, -2 * y, -2 * y, Q);
      MulAssoc(w, z, -2 * y);
      MulAssoc(z, -2, y);
    }
  }

  /** Undoing `k` of seven stages leaves the first 7 - k, scaled by 2^k. */
  lemma {:induction false} RunUndo(f: Vec, dit: bool, k: nat)
    requires |f| == N && k <= 7
    ensures Eqv(Run(Run(f, dit, 7), !dit, k), Scale(Pow2(k), Run(f, dit, 7 - k)), Q)
  {
    if k == 0 {
      assert Scale(1, Run(f, dit, 7)) == Run(f, dit, 7);
    } else {
      RunUndo(f, dit, k - 1);
      RunUndoStep(Run(Run(f, dit, 7), !dit, k - 1), Run(f, dit, 7 - k), Level(!dit, k - 1), dit, Pow2(k - 1));
    }
  }

  lemma RunUndoStep(e: Vec, g: Vec, lvl: nat, dit: bool, c: int)
    requires |e| == |g| == N && lvl <= 6
    requires Eqv(e, Scale(c, Stage(g, lvl, dit)), Q)
    ensures Eqv(Stage(e, lvl, !dit), Scale(2 * c, g), Q)
  {
    var s := Stage(g, lvl, dit);
    StageEqv(e, Scale(c, s), lvl, !dit);
    StageLinear(s, s, lvl, !dit, c);
    StageUndo(g, lvl, dit);
    EqvScale(c, c, Stage(s, lvl, !dit), Scale(2, g), Q);
    assert Scale(c, Scale(2, g)) == Scale(2 * c, g) by {
      forall i | 0 <= i < N ensures c * (2 * g[i]) == (2 * c) * g[i] {}
    }
    EqvTrans(Stage(e, lvl, !dit), Scale(c, Stage(s, lvl, !dit)), Scale(2 * c, g), Q);
  }

  /** 3303 is the inverse of 2^7. */
  lemma ScaleBack(f: Vec, k: nat)
    requires 6 < k < 8
    ensures Eqv(Scale(F, Scale(Pow2(k), f)), f, Q)
  {
    Pow2Small(k);
    forall i | 0 <= i < |f| ensures Cong(Scale(F, Scale(Pow2(k), f))[i], f[i], Q) {
      assert F * (128 * f[i]) == f[i] + (127 * f[i]) * Q;
      AddMultiple(f[i], 127 * f[i], Q);
    }
  }

  /** Decoding undoes encoding. */
  lemma DecodeEncode(f: Vec)
    requires |f| == N
    ensures Decode(Encode(f)) == Reduce(f, Q)
  {
    var k :| 6 < k < 8;
    var e := Run(f, false, 7);
    EqvReduce(e, Q);
    RunEqv(Encode(f), e, true, 7);
    RunUndo(f, false, k);
    EqvTrans(Run(Encode(f), true, 7), Run(e, true, 7), Scale(Pow2(k), f), Q);
    EqvScale(F, F, Run(Encode(f), true, 7), Scale(Pow2(k), f), Q);
    ScaleBack(f, k);
    EqvTrans(Scale(F, Run(Encode(f), true, 7)), Scale(F, Scale(Pow2(k), f)), f, Q);
    EqvCanon(Scale(F, Run(Encode(f), true, 7)), f, Q);
  }

  /** Encoding undoes decoding. */
  lemma EncodeDecode(f: Vec)
    requires |f| == N
    ensures Encode(Decode(f)) == Reduce(f, Q)
  {
    var k :| 6 < k < 8;
    var d := Run(f, true, 7);
    EqvReduce(Scale(F, d), Q);
    RunEqv(Decode(f), Scale(F, d), false, 7);
    RunScale(d, F, false, 7);
    RunUndo(f, true, k);
    EqvScale(F, F, Run(d, false, 7), Scale(Pow2(k), f), Q);
    EqvTrans(Run(Decode(f), false, 7), Scale(F, Run(d, false, 7)), Scale(F, Scale(Pow2(k), f)), Q);
    ScaleBack(f, k);
    EqvTrans(Run(Decode(f), false, 7), Scale(F, Scale(Pow2(k), f)), f, Q);
    EqvCanon(Run(Decode(f), false, 7), f, Q);
  }
}
