/** The in-place transforms and polynomial operations of ML-KEM on 256-element buffers. */
module Ntt {
  import opened ModArith
  import opened Poly
  import opened Zetas
  import opened NttSpec
  import opened NttMul

  ghost predicate Canonical(f: Vec) {
    |f| == N && forall i :: 0 <= i < N ==> 0 <= f[i] < Q
  }

  ghost predicate IsZetaTable(roots: Vec) {
    |roots| == N && forall i :: 0 <= i < N ==> roots[i] == Zeta(i)
  }

  // ----- field operations on canonical values

  function Mod(a: int): (r: int)
    ensures r == a % Q
  {
    var result := TruncRem(a, Q);
    if result >= 0 then result else Q + result
  }

  function FieldAdd(a: int, b: int): (r: int)
    requires 0 <= a < Q && 0 <= b < Q
    ensures r == (a + b) % Q
  {
    var s := a + b;
    if s >= Q then s - Q else s
  }

  function FieldSub(a: int, b: int): (r: int)
    requires 0 <= a < Q && 0 <= b < Q
    ensures r == (a - b) % Q
  {
    var s := a - b;
    if s < 0 then s + Q else s
  }

  function FieldMul(a: int, b: int): (r: int)
    ensures r == a * b % Q
  {
    Mod(a * b)
  }

  // ----- the butterfly network

  /** The group counter before stage `i`. */
  function GroupStart(dit: bool, i: nat): int
    requires i <= 7
  {
    if dit then 129 - Pow2(7 - i) else Pow2(i)
  }

  /** Blocks below `k` are finished, and in the block at `k` the first `j` butterflies. */
  ghost predicate Progress(v: Vec, prev: Vec, lvl: nat, dit: bool, k: nat, j: nat)
    requires |v| == |prev| == N && lvl <= 6
  {
    forall p :: 0 <= p < N ==>
      v[p] == if p < k + j || k + Half(lvl) <= p < k + Half(lvl) + j
              then StageAt(prev, lvl, dit, p) % Q else prev[p]
  }

  /** What the code computes from one pair of canonical values. */
  function FieldButterfly(dit: bool, omega: int, a: int, b: int): (r: (int, int))
    requires 0 <= a < Q && 0 <= b < Q
    ensures r.0 == Butterfly(dit, omega, true, a, b) % Q
    ensures r.1 == Butterfly(dit, omega, false, a, b) % Q
  {
    if !dit then
      var t := FieldMul(b, omega);
      CongMod(b * omega, Q);
      CongAdd(a, a, t, omega * b, Q);
      CongSub(a, a, t, omega * b, Q);
      (FieldAdd(a, t), FieldSub(a, t))
    else
      CongMod(b - a, Q);
      CongMul(FieldSub(b, a), b - a, omega, omega, Q);
      MulAssoc(omega, b - a, 1);
      (FieldAdd(b, a), FieldMul(FieldSub(b, a), omega))
  }

  lemma StageGeometry(dit: bool, i: nat, lvl: nat, b: nat)
    requires i <= 6 && lvl == Level(dit, i) && b < Pow2(lvl)
    ensures Pow2(if dit then i + 2 else 8 - i) == 2 * Half(lvl)
    ensures 1 <= GroupStart(dit, i) + b < N
    ensures Zeta(if dit then N - (GroupStart(dit, i) + b) else GroupStart(dit, i) + b) == Root(dit, lvl, b)
    ensures GroupStart(dit, i) + Pow2(lvl) == GroupStart(dit, i + 1)
  {
    hide Zeta;
    Pow2Small(lvl);
    Pow2Small(i);
    Pow2Small(7 - i);
    if dit {
      assert 7 - lvl == i + 1;
    }
  }

  lemma BlockRoom(lvl: nat, b: nat)
    requires lvl <= 6 && b <= Pow2(lvl)
    ensures b < Pow2(lvl) ==> b * (2 * Half(lvl)) + 2 * Half(lvl) <= N
    ensures b * (2 * Half(lvl)) <= N
    ensures b * (2 * Half(lvl)) < N ==> b < Pow2(lvl)
    ensures (b + 1) * (2 * Half(lvl)) == b * (2 * Half(lvl)) + 2 * Half(lvl)
  {
    hide Pow2, Half;
    Geometry(lvl, 0);
    MulMono(b, Pow2(lvl), 2 * Half(lvl));
    MulDist(b, 1, 2 * Half(lvl));
    if b < Pow2(lvl) {
      MulMono(b + 1, Pow2(lvl), 2 * Half(lvl));
    }
  }

  lemma ProgressNext(v: Vec, w: Vec, prev: Vec, lvl: nat, dit: bool, b: nat, k: nat, j: nat, ab: (int, int))
    requires |v| == |w| == N && Canonical(prev) && lvl <= 6 && b < Pow2(lvl) && j < Half(lvl)
    requires k == b * (2 * Half(lvl)) && k + 2 * Half(lvl) <= N
    requires Progress(v, prev, lvl, dit, k, j)
    requires ab == FieldButterfly(dit, Root(dit, lvl, b), prev[k + j], prev[k + j + Half(lvl)])
    requires w == v[k + j := ab.0][k + j + Half(lvl) := ab.1]
    ensures Progress(w, prev, lvl, dit, k, j + 1)
  {
    hide Half, StageAt, Root, Butterfly, FieldButterfly;
    StagePair(prev, lvl, dit, b, j, k + j, k + j + Half(lvl));
  }

  /** A stage on reduced values, reduced, continues the exact integer run. */
  lemma NextStage(f: Vec, dit: bool, i: nat)
    requires |f| == N && i <= 6
    ensures Reduce(Stage(Reduce(Run(f, dit, i), Q), Level(dit, i), dit), Q) == Reduce(Run(f, dit, i + 1), Q)
  {
    hide Stage;
    var r, lvl := Run(f, dit, i), Level(dit, i);
    EqvReduce(r, Q);
    StageEqv(Reduce(r, Q), r, lvl, dit);
    EqvCanon(Stage(Reduce(r, Q), lvl, dit), Stage(r, lvl, dit), Q);
  }

  lemma ProgressStart(prev: Vec, lvl: nat, dit: bool)
    requires |prev| == N && lvl <= 6
    ensures Progress(prev, prev, lvl, dit, 0, 0)
  {
    hide StageAt, Half;
  }

  lemma ProgressReads(v: Vec, prev: Vec, lvl: nat, dit: bool, k: nat, j: nat)
    requires |v| == |prev| == N && lvl <= 6 && j < Half(lvl) && k + 2 * Half(lvl) <= N
    requires Progress(v, prev, lvl, dit, k, j)
    ensures v[k + j] == prev[k + j] && v[k + j + Half(lvl)] == prev[k + j + Half(lvl)]
  {
    hide StageAt, Half;
  }

  /** The in-place transform: seven stages, one group counter running through all of them. */
  method FftCore(values: array<int>, roots: array<int>, dit: bool)
    requires values.Length == N && roots.Length == N && values != roots
    requires Canonical(values[..]) && IsZetaTable(roots[..])
    modifies values
    ensures values[..] == Reduce(Run(old(values[..]), dit, 7), Q)
  {
    hide Half, StageAt, Root, Butterfly, FieldButterfly, Zeta, GroupStart, Pow2, Progress, Stage, Run, Reduce;
    ghost var f := values[..];
    var bits := 8;
    var g := 1;
    CanonicalReduce(f);
    FirstGroup(dit);
    for i := 0 to bits - 1
      invariant values[..] == Reduce(Run(f, dit, i), Q) && Canonical(values[..])
      invariant g == GroupStart(dit, i)
    {
      var s := if dit then i + 2 else bits - i;
      var m := Pow2(s);
      var m2 := m / 2;
      ghost var lvl := Level(dit, i);
      ghost var prev := values[..];
      ghost var b := 0;
      ghost var start := g;
      BlockRoom(lvl, 0);
      StageGeometry(dit, i, lvl, 0);
      ProgressStart(prev, lvl, dit);
      var k := 0;
      while k < N
        invariant b <= Pow2(lvl) && k == b * (2 * Half(lvl))
        invariant g == start + b
        invariant Progress(values[..], prev, lvl, dit, k, 0)
        decreases N - k
      {
        var grp := g;
        g := g + 1;
        BlockRoom(lvl, b);
        StageGeometry(dit, i, lvl, b);
        var j := 0;
        while j < m2
          invariant j <= m2
          invariant Progress(values[..], prev, lvl, dit, k, j)
        {
          var rootPos := if dit then N - grp else grp;
          var i0 := k + j;
          var i1 := k + j + m2;
          var omega := roots[rootPos];
          ghost var before := values[..];
          ProgressReads(before, prev, lvl, dit, k, j);
          var ab := FieldButterfly(dit, omega, values[i0], values[i1]);
          values[i0] := ab.0;
          values[i1] := ab.1;
          ProgressNext(before, values[..], prev, lvl, dit, b, k, j, ab);
          j := j + 1;
        }
        ProgressBlock(values[..], prev, lvl, dit, k);
        k := k + m;
        b := b + 1;
      }
      StageDone(values[..], prev, lvl, dit, k);
      BlockRoom(lvl, b);
      BlockCount(lvl, b);
      StageGeometry(dit, i, lvl, 0);
      NextStage(f, dit, i);
      ReduceCanonical(Run(f, dit, i + 1));
    }
  }

  lemma CanonicalReduce(f: Vec)
    requires Canonical(f)
    ensures Reduce(Run(f, false, 0), Q) == Reduce(Run(f, true, 0), Q) == Reduce(f, Q) == f
  {
  }

  lemma ReduceCanonical(f: Vec)
    requires |f| == N
    ensures Canonical(Reduce(f, Q))
  {
  }

  lemma FirstGroup(dit: bool)
    ensures GroupStart(dit, 0) == 1
  {
    var seven := BRV_BITS;
    Pow2Small(seven);
    Pow2Small(0);
  }

  lemma BlockCount(lvl: nat, b: nat)
    requires lvl <= 6 && b <= Pow2(lvl) && b * (2 * Half(lvl)) >= N
    ensures b == Pow2(lvl)
  {
    BlockRoom(lvl, b);
    if b < Pow2(lvl) {
      assert false;
    }
  }

  lemma ProgressBlock(v: Vec, prev: Vec, lvl: nat, dit: bool, k: nat)
    requires |v| == |prev| == N && lvl <= 6 && Progress(v, prev, lvl, dit, k, Half(lvl))
    ensures Progress(v, prev, lvl, dit, k + 2 * Half(lvl), 0)
  {
    hide StageAt, Half;
  }

  lemma StageDone(v: Vec, prev: Vec, lvl: nat, dit: bool, k: nat)
    requires |v| == |prev| == N && lvl <= 6 && k >= N && Progress(v, prev, lvl, dit, k, 0)
    ensures v == Reduce(Stage(prev, lvl, dit), Q)
  {
    hide StageAt, Half;
  }

  method NttEncode(r: array<int>, roots: array<int>)
    requires r.Length == N && roots.Length == N && r != roots
    requires Canonical(r[..]) && IsZetaTable(roots[..])
    modifies r
    ensures r[..] == Encode(old(r[..]))
  {
    FftCore(r, roots, false);
  }

  method NttDecode(r: array<int>, roots: array<int>)
    requires r.Length == N && roots.Length == N && r != roots
    requires Canonical(r[..]) && IsZetaTable(roots[..])
    modifies r
    ensures r[..] == Decode(old(r[..]))
  {
    ghost var f := r[..];
    FftCore(r, roots, true);
    ghost var t := Run(f, true, 7);
    for i := 0 to N
      invariant forall p :: i <= p < N ==> r[p] == t[p] % Q
      invariant forall p :: 0 <= p < i ==> r[p] == Scale(F, t)[p] % Q
    {
      CongMod(t[i], Q);
      CongMul(F, F, t[i] % Q, t[i], Q);
      r[i] := Mod(F * r[i]);
    }
  }

  // ----- sums and products in place

  method PolyAdd(a: array<int>, b: array<int>)
    requires a.Length == b.Length == N && a != b && Canonical(a[..]) && Canonical(b[..])
    modifies a
    ensures a[..] == Reduce(Add(old(a[..]), b[..]), Q)
  {
    for i := 0 to N
      invariant forall p :: i <= p < N ==> a[p] == old(a[p])
      invariant forall p :: 0 <= p < i ==> a[p] == (old(a[p]) + b[p]) % Q
    {
      a[i] := FieldAdd(a[i], b[i]);
    }
  }

  method PolySub(a: array<int>, b: array<int>)
    requires a.Length == b.Length == N && a != b && Canonical(a[..]) && Canonical(b[..])
    modifies a
    ensures a[..] == Reduce(Sub(old(a[..]), b[..]), Q)
  {
    for i := 0 to N
      invariant forall p :: i <= p < N ==> a[p] == old(a[p])
      invariant forall p :: 0 <= p < i ==> a[p] == (old(a[p]) - b[p]) % Q
    {
      a[i] := FieldSub(a[i], b[i]);
    }
  }

  /** One product of linear polynomials modulo X^2 - zeta. */
  function BaseCaseMultiply(a0: int, a1: int, b0: int, b1: int, zeta: int): (c: (int, int))
    ensures c.0 == (a0 * b0 + zeta * (a1 * b1)) % Q
    ensures c.1 == (a0 * b1 + a1 * b0) % Q
  {
    CongMod(a1 * b1, Q);
    CongMul(Mod(a1 * b1), a1 * b1, zeta, zeta, Q);
    CongAdd(Mod(a1 * b1) * zeta, zeta * (a1 * b1), a0 * b0, a0 * b0, Q);
    (Mod(Mod(a1 * b1) * zeta + a0 * b0), Mod(a0 * b1 + a1 * b0))
  }

  lemma LeafGamma(i: nat)
    requires i < 128
    ensures (if i % 2 == 1 then -Zeta(64 + i / 2) else Zeta(64 + i / 2)) == Gamma(128 + i)
  {
    hide Zeta;
    assert (128 + i) / 2 == 64 + i / 2;
  }

  /** The product is written over `f`, pair by pair. */
  method MultiplyNtts(f: array<int>, g: array<int>, roots: array<int>)
    requires f.Length == g.Length == roots.Length == N && f != g && f != roots
    requires IsZetaTable(roots[..])
    modifies f
    ensures f[..] == Reduce(Pointwise(old(f[..]), g[..]), Q)
  {
    hide Zeta, Gamma;
    ghost var f0, g0 := f[..], g[..];
    for i := 0 to N / 2
      invariant forall p :: 2 * i <= p < N ==> f[p] == f0[p]
      invariant forall p :: 0 <= p < 2 * i ==> f[p] == BaseAt(f0, g0, p) % Q
    {
      var z := roots[64 + i / 2];
      if i % 2 == 1 {
        z := -z;
      }
      LeafGamma(i);
      BaseAtPair(f0, g0, i);
      var c := BaseCaseMultiply(f[2 * i], f[2 * i + 1], g[2 * i], g[2 * i + 1], z);
      f[2 * i] := c.0;
      f[2 * i + 1] := c.1;
    }
  }
}
