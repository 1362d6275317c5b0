/** The table-driven multiplications: odd multiples with interleaved digits, cached windows, flat window. */
module PointTables {
  import opened ModArith
  import opened Options
  import opened Groups
  import opened Recoding

  // ----- several points at once

  /** The plain sum of n[i] times p[i]. */
  ghost function Sum<P>(g: Group<P>, n: seq<int>, p: seq<P>): P
    requires |n| == |p|
  {
    if |n| == 0 then g.zero else
      var k := |n| - 1;
      g.add(Sum(g, n[..k], p[..k]), Mul(g, n[k], p[k]))
  }

  /** Raising one coefficient adds that multiple of its point. */
  lemma {:induction false} SumBump<P(!new)>(g: Group<P>, n: seq<int>, p: seq<P>, j: nat, w: int)
    requires Laws(g) && |n| == |p| && j < |n|
    ensures Sum(g, n[j := n[j] + w], p) == g.add(Sum(g, n, p), Mul(g, w, p[j]))
  {
    hide Laws, Mul;
    var k := |n| - 1;
    var n' := n[j := n[j] + w];
    var rest := Sum(g, n[..k], p[..k]);
    if j == k {
      assert n'[..k] == n[..k];
      MulAdd(g, n[k], w, p[k]);
      Assoc(g, rest, Mul(g, n[k], p[k]), Mul(g, w, p[k]));
    } else {
      SumBump(g, n[..k], p[..k], j, w);
      assert n'[..k] == n[..k][j := n[..k][j] + w];
      Swap(g, rest, Mul(g, w, p[j]), Mul(g, n[k], p[k]), g.zero);
      Unit(g, Mul(g, n[k], p[k]));
      Unit(g, Mul(g, w, p[j]));
    }
  }

  ghost function Doubled(n: seq<int>): (r: seq<int>)
    ensures |r| == |n|
  {
    seq(|n|, i requires 0 <= i < |n| => 2 * n[i])
  }

  lemma {:induction false} SumDouble<P(!new)>(g: Group<P>, n: seq<int>, p: seq<P>)
    requires Laws(g) && |n| == |p|
    ensures Sum(g, Doubled(n), p) == g.Double(Sum(g, n, p))
  {
    hide Laws, Mul;
    if |n| == 0 {
      Unit(g, g.zero);
    } else {
      var k := |n| - 1;
      SumDouble(g, n[..k], p[..k]);
      assert Doubled(n)[..k] == Doubled(n[..k]);
      MulDouble(g, n[k], p[k]);
      Swap(g, Sum(g, n[..k], p[..k]), Sum(g, n[..k], p[..k]), Mul(g, n[k], p[k]), Mul(g, n[k], p[k]));
    }
  }

  lemma {:induction false} SumOfZeros<P(!new)>(g: Group<P>, n: seq<int>, p: seq<P>)
    requires Laws(g) && |n| == |p| && forall i :: 0 <= i < |n| ==> n[i] == 0
    ensures Sum(g, n, p) == g.zero
  {
    hide Laws, Mul;
    if |n| > 0 {
      var k := |n| - 1;
      SumOfZeros(g, n[..k], p[..k]);
      NoTimes(g, p[k]);
      Unit(g, g.zero);
    }
  }

  /** The number written by the binary digits from a position on. */
  ghost function High(d: seq<int>, bit: nat): int {
    if bit < |d| then Value(d[bit..], 2) else 0
  }

  function DigitAt(d: seq<int>, bit: nat): int {
    if bit < |d| then d[bit] else 0
  }

  lemma HighStep(d: seq<int>, bit: nat)
    ensures High(d, bit) == DigitAt(d, bit) + 2 * High(d, bit + 1)
  {
    if bit < |d| {
      assert d[bit..][1..] == d[bit + 1..];
      assert Value(d[bit..], 2) == d[bit] + 2 * Value(d[bit + 1..], 2);
      EmptyValue(2);
      if bit + 1 == |d| {
        assert d[bit + 1..] == [];
      }
    }
  }

  /** High digits: the first i scalars from `bit` on, the others from `bit + 1` on and doubled. */
  ghost function Front(digits: seq<seq<int>>, bit: nat, i: nat): (r: seq<int>)
    ensures |r| == |digits|
  {
    seq(|digits|, k requires 0 <= k < |digits| =>
      if k < i then High(digits[k], bit) else 2 * High(digits[k], bit + 1))
  }

  ghost function Highs(digits: seq<seq<int>>, bit: nat): (r: seq<int>)
    ensures |r| == |digits|
  {
    seq(|digits|, k requires 0 <= k < |digits| => High(digits[k], bit))
  }

  /** Entry j of the table holds (2j + 1) times the point, up to the largest digit. */
  ghost predicate OddTable<P>(g: Group<P>, t: seq<P>, p: P) {
    forall j :: 0 <= j < |t| ==> t[j] == Mul(g, 2 * j + 1, p)
  }

  method OddMultiples<P(!new)>(g: Group<P>, p: P, size: nat) returns (t: seq<P>)
    requires Laws(g) && size > 0
    ensures |t| == size && OddTable(g, t, p)
  {
    hide Laws, Mul;
    var dbl := g.Double(p);
    MulOne(g, p);
    MulDouble(g, 1, p);
    t := [p];
    for j := 1 to size
      invariant |t| == j && OddTable(g, t, p)
    {
      MulAdd(g, 2 * (j - 1) + 1, 2, p);
      t := t + [g.add(t[j - 1], dbl)];
    }
  }

  ghost predicate TablesFit<P>(g: Group<P>, points: seq<P>, tables: seq<seq<P>>, digits: seq<seq<int>>) {
    && |points| == |tables| == |digits|
    && (forall i :: 0 <= i < |points| ==> OddTable(g, tables[i], points[i]))
    && (forall i, k :: 0 <= i < |digits| && 0 <= k < |digits[i]| ==> WnafDigit(digits[i][k], 2 * |tables[i]|))
  }

  /** The table entry for a digit, negated for a negative one. */
  lemma Picked<P(!new)>(g: Group<P>, t: seq<P>, p: P, w: int)
    requires Laws(g) && OddTable(g, t, p) && WnafDigit(w, 2 * |t|) && w != 0
    ensures var k := ((if w < 0 then -w else w) - 1) / 2;
      0 <= k < |t| && (if w < 0 then g.negate(t[k]) else t[k]) == Mul(g, w, p)
  {
    hide Laws, Mul;
    var a := if w < 0 then -w else w;
    assert 2 * ((a - 1) / 2) + 1 == a;
    MulNegate(g, a, p);
  }

  /** The additions of one bit position. */
  method WalkBit<P(!new)>(g: Group<P>, ghost points: seq<P>, tables: seq<seq<P>>, digits: seq<seq<int>>, bit: nat,
      start: P) returns (acc: P)
    requires Laws(g) && TablesFit(g, points, tables, digits)
    requires start == Sum(g, Doubled(Highs(digits, bit + 1)), points)
    ensures acc == Sum(g, Highs(digits, bit), points)
  {
    hide Laws, Mul, Sum, High;
    acc := start;
    assert Doubled(Highs(digits, bit + 1)) == Front(digits, bit, 0);
    for i := 0 to |digits|
      invariant acc == Sum(g, Front(digits, bit, i), points)
    {
      var w := DigitAt(digits[i], bit);
      HighStep(digits[i], bit);
      var f := Front(digits, bit, i);
      assert Front(digits, bit, i + 1) == f[i := f[i] + w];
      SumBump(g, f, points, i, w);
      if w != 0 {
        Picked(g, tables[i], points[i], w);
        var item := tables[i][((if w < 0 then -w else w) - 1) / 2];
        acc := g.add(acc, if w < 0 then g.negate(item) else item);
      } else {
        NoTimes(g, points[i]);
        Unit(g, acc);
      }
    }
    assert Front(digits, bit, |digits|) == Highs(digits, bit);
  }

  /** One double-and-add pass over all scalars computes the sum of all multiples. */
  method WnafWalk<P(!new)>(g: Group<P>, ghost points: seq<P>, tables: seq<seq<P>>, digits: seq<seq<int>>)
    returns (acc: P)
    requires Laws(g) && TablesFit(g, points, tables, digits)
    ensures acc == Sum(g, seq(|digits|, i requires 0 <= i < |digits| => Value(digits[i], 2)), points)
  {
    hide Laws, Mul, Sum;
    var max := 0;
    for i := 0 to |digits|
      invariant max >= 0 && forall k :: 0 <= k < i ==> |digits[k]| <= max
    {
      if |digits[i]| > max { max := |digits[i]|; }
    }
    acc := g.zero;
    SumOfZeros(g, Highs(digits, max), points);
    SumOfZeros(g, Doubled(Highs(digits, max)), points);
    var bit := max - 1;
    while bit >= 0
      invariant -1 <= bit <= max - 1
      invariant acc == Sum(g, Highs(digits, bit + 1), points)
    {
      SumDouble(g, Highs(digits, bit + 1), points);
      if bit != max - 1 {
        acc := g.Double(acc);
      }
      acc := WalkBit(g, points, tables, digits, bit, acc);
      bit := bit - 1;
    }
    assert Highs(digits, 0) == seq(|digits|, i requires 0 <= i < |digits| => Value(digits[i], 2)) by {
      forall i | 0 <= i < |digits| ensures High(digits[i], 0) == Value(digits[i], 2) {
        assert digits[i][0..] == digits[i];
      }
    }
  }

  // ----- cached signed windows

  datatype Precomputes<P> = Precomputes(W: nat, bits: nat, windows: nat, comp: seq<P>)

  /** Entry i of window w. */
  ghost predicate EntryIs<P>(g: Group<P>, comp: seq<P>, W: nat, w: nat, i: nat, point: P)
    requires W >= 1
  {
    var at := w * Pow2(W - 1) + i;
    0 <= at < |comp| && comp[at] == Mul(g, (i + 1) * Pow2(W * w), point)
  }

  ghost predicate WindowIs<P>(g: Group<P>, comp: seq<P>, W: nat, w: nat, point: P)
    requires W >= 1
  {
    forall i: nat :: i < Pow2(W - 1) ==> EntryIs(g, comp, W, w, i, point)
  }

  ghost predicate TableOf<P>(g: Group<P>, pre: Precomputes<P>, point: P) {
    && pre.W >= 1 && pre.windows == Windows(pre.bits, pre.W) + 1
    && forall w: nat :: w < pre.windows ==> WindowIs(g, pre.comp, pre.W, w, point)
  }

  lemma EntryKept<P>(g: Group<P>, comp: seq<P>, more: seq<P>, W: nat, w: nat, i: nat, point: P)
    requires W >= 1 && EntryIs(g, comp, W, w, i, point)
    ensures EntryIs(g, comp + more, W, w, i, point)
  {
  }

  lemma WindowKept<P>(g: Group<P>, comp: seq<P>, more: seq<P>, W: nat, w: nat, point: P)
    requires W >= 1 && WindowIs(g, comp, W, w, point)
    ensures WindowIs(g, comp + more, W, w, point)
  {
    hide EntryIs, Pow2;
    forall i: nat | i < Pow2(W - 1) ensures EntryIs(g, comp + more, W, w, i, point) {
      EntryKept(g, comp, more, W, w, i, point);
    }
  }

  /** Appends the multiples of one window. */
  method BuildWindow<P(!new)>(g: Group<P>, ghost point: P, W: nat, ghost w: nat, base: P, comp0: seq<P>)
    returns (comp: seq<P>)
    requires Laws(g) && W >= 1 && base == Mul(g, Pow2(W * w), point) && |comp0| == w * Pow2(W - 1)
    ensures comp0 <= comp && |comp| == |comp0| + Pow2(W - 1) && WindowIs(g, comp, W, w, point)
    ensures |comp| > 0 && comp[|comp| - 1] == Mul(g, Pow2(W - 1) * Pow2(W * w), point)
  {
    hide Laws, Mul, Pow2, EntryIs;
    comp := comp0;
    var acc := base;
    var half := Pow2(W - 1);
    assert 1 * Pow2(W * w) == Pow2(W * w);
    for i := 0 to half
      invariant comp0 <= comp && |comp| == |comp0| + i && acc == Mul(g, (i + 1) * Pow2(W * w), point)
      invariant forall k: nat :: k < i ==> EntryIs(g, comp, W, w, k, point)
      invariant i > 0 ==> comp[|comp| - 1] == Mul(g, i * Pow2(W * w), point)
    {
      forall k: nat | k < i ensures EntryIs(g, comp + [acc], W, w, k, point) {
        EntryKept(g, comp, [acc], W, w, k, point);
      }
      MulDist(i + 1, 1, Pow2(W * w));
      MulAdd(g, (i + 1) * Pow2(W * w), Pow2(W * w), point);
      comp := comp + [acc];
      NewEntry(g, comp, W, w, i, point);
      acc := g.add(acc, base);
    }
  }

  lemma NewEntry<P>(g: Group<P>, comp: seq<P>, W: nat, w: nat, i: nat, point: P)
    requires W >= 1 && |comp| == w * Pow2(W - 1) + i + 1 && comp[|comp| - 1] == Mul(g, (i + 1) * Pow2(W * w), point)
    ensures EntryIs(g, comp, W, w, i, point)
  {
  }

  method BuildWnafTable<P(!new)>(g: Group<P>, point: P, W: nat, bits: nat) returns (pre: Precomputes<P>)
    requires Laws(g) && W >= 1
    ensures TableOf(g, pre, point) && pre.W == W && pre.bits == bits
  {
    hide Laws, Mul, Pow2, WindowIs;
    var windows := Windows(bits, W) + 1;
    var half := Pow2(W - 1);
    var comp: seq<P> := [];
    var base := point;
    MulOne(g, point);
    FirstWindow(W);
    for w := 0 to windows
      invariant |comp| == w * half && base == Mul(g, Pow2(W * w), point)
      invariant forall k: nat :: k < w ==> WindowIs(g, comp, W, k, point)
    {
      var comp' := BuildWindow(g, point, W, w, base, comp);
      forall k: nat | k < w ensures WindowIs(g, comp', W, k, point) {
        WindowKept(g, comp, comp'[|comp|..], W, k, point);
        assert comp + comp'[|comp|..] == comp';
      }
      NextBase(W, w);
      MulDouble(g, half * Pow2(W * w), point);
      MulDist(w, 1, half);
      comp := comp';
      base := g.Double(comp[|comp| - 1]);
    }
    pre := Precomputes(W, bits, windows, comp);
  }

  lemma FirstWindow(W: nat)
    ensures W * 0 == 0 && Pow2(W * 0) == 1
  {
  }

  lemma NextBase(W: nat, w: nat)
    requires W >= 1
    ensures W * w >= 0 && W * (w + 1) == W * w + W
    ensures 2 * (Pow2(W - 1) * Pow2(W * w)) == Pow2(W * w + W)
  {
    hide Pow2;
    MulNonNeg(W, w);
    NextPower(W, W * w, W * w + W);
  }

  lemma NextPower(W: nat, e: nat, next: nat)
    requires W >= 1 && next == W + e
    ensures 2 * (Pow2(W - 1) * Pow2(e)) == Pow2(next)
  {
    hide Pow2;
    HalfWindow(W);
    Pow2Add(W, e);
    MulAssoc(2, Pow2(W - 1), Pow2(e));
  }

  /** The scan over a whole window keeps the wanted entry, or the first one for the digit 0. */
  method Select<P>(comp: seq<P>, start: nat, half: nat, idx: int) returns (sel: P)
    requires start + half <= |comp| && half > 0 && idx < half
    ensures sel == comp[start + (if idx < 0 then 0 else idx)]
  {
    sel := comp[start];
    for i := 1 to half
      invariant sel == if 1 <= idx < i then comp[start + idx] else comp[start]
    {
      sel := if i == idx then comp[start + i] else sel;
    }
  }

  /** Additions only: one table entry per signed digit. A scalar that does not fit the windows is refused. */
  method WnafCachedCT<P(!new)>(g: Group<P>, base: P, pre: Precomputes<P>, ghost point: P, n: nat)
    returns (r: Option<P>)
    requires Laws(g) && TableOf(g, pre, point)
    ensures r.Some? <==> n <= MaxSigned(pre.W, pre.windows)
    ensures r.Some? ==> r.value == Mul(g, n, point)
  {
    hide Laws, Mul, Pow2, EntryIs, BP.Value;
    var half := Pow2(pre.W - 1);
    var digits := SignedWindowDigits(n, pre.W, pre.windows);
    if digits.None? {
      return None;
    }
    var d := digits.value;
    var p := g.zero;
    var f := base;
    NoTimes(g, point);
    EmptyValue(Pow2(pre.W));
    for w := 0 to pre.windows
      invariant p == Mul(g, Value(d[..w], Pow2(pre.W)), point)
    {
      var digit := d[w];
      assert SignedDigit(digit, half) && WindowIs(g, pre.comp, pre.W, w, point);
      var start := w * half;
      var idx := (if digit < 0 then -digit else digit) - 1;
      EntryBounds(g, pre.comp, pre.W, w, point);
      var sel := Select(pre.comp, start, half, idx);
      var neg := g.negate(sel);
      assert d[..w + 1] == d[..w] + [digit];
      OneWindow(g, pre.W, d[..w], digit, point);
      if digit == 0 {
        f := g.add(f, pre.comp[start]);
      } else {
        EntryValue(g, pre.comp, pre.W, w, idx, point);
        MulNegate(g, (idx + 1) * Pow2(pre.W * w), point);
        NegatedProduct(idx + 1, Pow2(pre.W * w));
        p := g.add(p, if digit < 0 then neg else sel);
      }
    }
    assert d[..pre.windows] == d;
    r := Some(p);
  }

  lemma NegatedProduct(a: int, b: int)
    ensures -(a * b) == (-a) * b
  {
  }

  lemma EmptyValue(base: int)
    ensures Value([], base) == 0
  {
  }

  lemma EntryBounds<P>(g: Group<P>, comp: seq<P>, W: nat, w: nat, point: P)
    requires W >= 1 && WindowIs(g, comp, W, w, point)
    ensures 0 <= w * Pow2(W - 1) && w * Pow2(W - 1) + Pow2(W - 1) <= |comp|
  {
    hide Mul, Pow2;
    MulNonNeg(w, Pow2(W - 1));
    assert EntryIs(g, comp, W, w, Pow2(W - 1) - 1, point);
  }

  lemma EntryValue<P>(g: Group<P>, comp: seq<P>, W: nat, w: nat, i: nat, point: P)
    requires W >= 1 && WindowIs(g, comp, W, w, point) && i < Pow2(W - 1)
    ensures 0 <= w * Pow2(W - 1) + i < |comp| && comp[w * Pow2(W - 1) + i] == Mul(g, (i + 1) * Pow2(W * w), point)
  {
    hide Mul, Pow2;
    assert EntryIs(g, comp, W, w, i, point);
  }

  lemma OneWindow<P(!new)>(g: Group<P>, W: nat, d: seq<int>, digit: int, point: P)
    requires Laws(g)
    ensures Mul(g, Value(d + [digit], Pow2(W)), point)
         == g.add(Mul(g, Value(d, Pow2(W)), point), Mul(g, digit * Pow2(W * |d|), point))
    ensures digit == 0 ==> Mul(g, Value(d + [digit], Pow2(W)), point) == Mul(g, Value(d, Pow2(W)), point)
  {
    hide Laws, Mul, Pow2, Pow, BP.Value;
    BP.ValueAppend(d, digit, Pow2(W));
    BP.Pow2Pow(W, |d|);
    MulAssoc(digit, Pow2(W * |d|), 1);
    MulAdd(g, Value(d, Pow2(W)), digit * Pow2(W * |d|), point);
  }

  // ----- flat fixed window

  lemma ShiftSplit(n: nat, k: nat)
    ensures n / Pow2(5 * k) == 32 * (n / Pow2(5 * (k + 1))) + n / Pow2(5 * k) % 32
  {
    hide Pow2;
    Pow2Add(5, 5 * k);
    FiveBits();
    DivDiv(n, Pow2(5 * k), 32);
    DivMod(n / Pow2(5 * k), 32);
  }

  lemma FiveBits()
    ensures Pow2(5) == 32
  {
  }

  lemma DivDiv(n: int, a: int, b: int)
    requires a > 0 && b > 0
    ensures b * a > 0 && n / (b * a) == n / a / b
  {
    var q, r := n / a, n % a;
    var s, t := q / b, q % b;
    DivMod(n, a);
    DivMod(q, b);
    MulMono(1, b, a);
    MulDist(s * b, t, a);
    MulAssoc(s, b, a);
    MulMono(t, b - 1, a);
    MulDistSub(b, 1, a);
    MulNonNeg(t, a);
    DivModUnique(n, b * a, s, t * a + r);
  }

  lemma NoBitsLeft(n: nat, bits: nat, k: nat)
    requires n < Pow2(bits) && bits <= 5 * k
    ensures n / Pow2(5 * k) == 0
  {
    hide Pow2;
    Pow2Mono(bits, 5 * k);
    DivModUnique(n, Pow2(5 * k), 0, n);
  }

  /** Five doublings and one addition per window, over a table of 32 multiples. */
  method FixedWindowCT<P(!new)>(g: Group<P>, point: P, n: nat, bits: nat) returns (acc: P)
    requires Laws(g) && n < Pow2(bits)
    ensures acc == Mul(g, n, point)
  {
    hide Laws, Mul, Pow2;
    var table := [g.zero];
    NoTimes(g, point);
    for i := 1 to 32
      invariant |table| == i && forall k :: 0 <= k < i ==> table[k] == Mul(g, k, point)
    {
      MulNext(g, i - 1, point);
      table := table + [g.add(table[i - 1], point)];
    }
    var windows: int := Windows(bits, 5);
    acc := g.zero;
    NoBitsLeft(n, bits, windows);
    var window := windows - 1;
    while window >= 0
      invariant -1 <= window < windows && acc == Mul(g, n / Pow2(5 * (window + 1)), point)
    {
      var high := n / Pow2(5 * (window + 1));
      if window != windows - 1 {
        acc := FiveDoublings(g, acc, high, point);
      }
      var digit := n / Pow2(5 * window) % 32;
      ShiftSplit(n, window);
      var sel := Select(table, 0, 32, digit);
      MulAdd(g, 32 * high, digit, point);
      acc := g.add(acc, sel);
      window := window - 1;
    }
    assert 5 * 0 == 0;
    Pow2Zero();
  }

  method FiveDoublings<P(!new)>(g: Group<P>, acc0: P, ghost high: int, ghost point: P) returns (acc: P)
    requires Laws(g) && acc0 == Mul(g, high, point)
    ensures acc == Mul(g, 32 * high, point)
  {
    hide Laws, Mul;
    acc := acc0;
    ghost var m := high;
    for d := 0 to 5
      invariant m == [1, 2, 4, 8, 16, 32][d] * high && acc == Mul(g, m, point)
    {
      MulDouble(g, m, point);
      acc := g.Double(acc);
      m := 2 * m;
    }
  }
}
