/** The scalar multiplier: cached tables, blinding, and the choice between the multiplication paths. */
module ScalarMul {
  import opened Bytes
  import opened ModArith
  import opened Options
  import opened Groups
  import opened Recoding
  import opened PointTables

  const BLIND_BYTES := 16
  const BLIND_BITS := 128

  const TABLE_BYTES_MAX := 0x8000_0000

  /** The size of a cached table of points of four coordinates. */
  function TableBytes(bits: nat, W: nat, fpBytes: nat): int
    requires W >= 1
  {
    (Windows(bits, W) + 1) * Pow2(W - 1) * (4 * fpBytes + 128)
  }

  lemma {:induction false} NumberBound(b: seq<Byte>)
    ensures Number(b) < Pow2(8 * |b|)
  {
    hide Pow2;
    if b == [] {
      Pow2Zero();
    } else {
      NumberBound(b[..|b| - 1]);
      Pow2Add(8, 8 * (|b| - 1));
      EightBits();
    }
  }

  lemma EightBits()
    ensures Pow2(8) == 256
  {
    assert Pow2(4) == 16;
  }

  /** The random blind with its top bit set and the next one cleared. */
  function Blind(bytes: seq<Byte>): nat
    requires |bytes| == BLIND_BYTES
  {
    Number([bytes[0] % 64 + 128] + bytes[1..])
  }

  lemma {:induction false} NumberFront(x: Byte, rest: seq<Byte>)
    ensures Number([x] + rest) == x * Pow2(8 * |rest|) + Number(rest)
    decreases |rest|
  {
    hide Pow2;
    if rest == [] {
      Pow2Zero();
      assert [x] + rest == [x] && [x][..0] == [];
    } else {
      var k := |rest| - 1;
      assert ([x] + rest)[..k + 1] == [x] + rest[..k];
      NumberFront(x, rest[..k]);
      Pow2Add(8, 8 * k);
      EightBits();
      MulAssoc(256, x, Pow2(8 * k));
    }
  }

  /** The blind has 128 bits: its top bit is set and the next one clear, so it is never small. */
  lemma BlindRange(bytes: seq<Byte>, n: nat)
    requires |bytes| == BLIND_BYTES && n == BLIND_BITS
    ensures Pow2(n - 1) <= Blind(bytes) < Pow2(n - 1) + Pow2(n - 2)
  {
    hide Pow2, Number;
    var x, rest := bytes[0] % 64 + 128, bytes[1..];
    NumberFront(x, rest);
    NumberBound(rest);
    var p := Pow2(n - 8);
    Pow2Add(7, n - 8);
    Pow2Add(6, n - 8);
    SixAndSeven();
    MulMono(128, x, p);
    MulMono(x + 1, 192, p);
    MulDist(x, 1, p);
  }

  lemma SixAndSeven()
    ensures Pow2(6) == 64 && Pow2(7) == 128
  {
    assert Pow2(3) == 8;
  }

  /** Sum of multiples of several points; refused when a scalar is out of range or the lists do not match. */
  method MulAddUnsafe<P(!new)>(g: Group<P>, order: nat, points: seq<P>, scalars: seq<int>, allowOversized: bool)
    returns (r: Option<P>)
    requires Laws(g)
    ensures var limit := if allowOversized then Pow(order, 4) else order;
      r.Some? <==> |points| == |scalars| && forall i :: 0 <= i < |scalars| ==> 0 <= scalars[i] < limit
    ensures r.Some? ==> |points| == |scalars| && r.value == Sum(g, scalars, points)
  {
    hide Laws, Mul, Sum, Pow, OddTable, TablesFit;
    var limit := if allowOversized then Pow(order, 4) else order;
    for i := 0 to |scalars|
      invariant forall k :: 0 <= k < i ==> 0 <= scalars[k] < limit
    {
      if !(0 <= scalars[i] < limit) {
        return None;
      }
    }
    if |points| != |scalars| {
      return None;
    }
    var tables: seq<seq<P>> := [];
    var digits: seq<seq<int>> := [];
    EightHalf();
    for i := 0 to |points|
      invariant |tables| == |digits| == i
      invariant forall k :: 0 <= k < i ==> |tables[k]| == 4 && OddTable(g, tables[k], points[k])
      invariant forall k :: 0 <= k < i ==> Value(digits[k], 2) == scalars[k]
      invariant forall k, j :: 0 <= k < i && 0 <= j < |digits[k]| ==> WnafDigit(digits[k][j], 8)
    {
      var t := OddMultiples(g, points[i], 4);
      var d := WnafDigits(scalars[i], 4);
      tables, digits := tables + [t], digits + [d];
    }
    Fitting(g, points, tables, digits);
    var acc := WnafWalk(g, points, tables, digits);
    assert scalars == seq(|digits|, i requires 0 <= i < |digits| => Value(digits[i], 2));
    r := Some(acc);
  }

  lemma EightHalf()
    ensures Pow2(3) == 8
  {
  }

  lemma Fitting<P>(g: Group<P>, points: seq<P>, tables: seq<seq<P>>, digits: seq<seq<int>>)
    requires |points| == |tables| == |digits|
    requires forall k :: 0 <= k < |tables| ==> |tables[k]| == 4 && OddTable(g, tables[k], points[k])
    requires forall k, j :: 0 <= k < |digits| && 0 <= j < |digits[k]| ==> WnafDigit(digits[k][j], 8)
    ensures TablesFit(g, points, tables, digits)
  {
    hide OddTable, WnafDigit;
  }

  lemma SingleSum<P(!new)>(g: Group<P>, n: int, p: P)
    requires Laws(g)
    ensures Sum(g, [n], [p]) == Mul(g, n, p)
  {
    hide Laws, Mul;
    assert [n][..0] == [] && [p][..0] == [];
    assert Sum<P>(g, [], []) == g.zero;
    Unit(g, Mul(g, n, p));
  }

  /** A blinded scalar fits the wider table. */
  lemma BlindedFits(scalar: nat, order: nat, bits: nat, bytes: seq<Byte>)
    requires |bytes| == BLIND_BYTES && scalar < order < Pow2(bits)
    ensures Blind(bytes) * order >= 0 && scalar + Blind(bytes) * order < Pow2(bits + BLIND_BITS)
  {
    hide Pow2, Number;
    var b := Blind(bytes);
    NumberBound([bytes[0] % 64 + 128] + bytes[1..]);
    var top := Pow2(BLIND_BITS);
    MulNonNeg(b, order);
    MulMono(b + 1, top, order);
    MulDist(b, 1, order);
    MulMono(order, Pow2(bits), top);
    Pow2Add(bits, BLIND_BITS);
  }

  class ScalarMultiplier<P(==,!new)> {
    const g: Group<P>
    const base: P
    const order: nat
    const bits: nat
    const fpBytes: nat
    var windowSizes: map<P, nat>
    var precomputes: map<P, seq<Precomputes<P>>>
    var baseCanBeBlinded: Option<bool>

    /** The order has the public bit length, and every cached table belongs to its point. */
    ghost predicate Valid()
      reads this
    {
      && Laws(g)
      && 0 < order < Pow2(bits)
      && (forall p :: p in windowSizes ==> windowSizes[p] >= 1)
      && (forall p, i :: p in precomputes && 0 <= i < |precomputes[p]| ==> TableOf(g, precomputes[p][i], p))
      && (baseCanBeBlinded == Some(true) ==> Mul(g, order, base) == g.zero)
    }

    constructor (g: Group<P>, base: P, order: nat, bits: nat, fpBytes: nat)
      requires Laws(g) && 0 < order < Pow2(bits)
      ensures Valid() && this.g == g && this.base == base && this.order == order
      ensures this.bits == bits && this.fpBytes == fpBytes
    {
      this.g, this.base, this.order, this.bits, this.fpBytes := g, base, order, bits, fpBytes;
      windowSizes, precomputes, baseCanBeBlinded := map[], map[], None;
    }

    function WindowSize(point: P): nat
      reads this
    {
      if point in windowSizes then windowSizes[point] else 1
    }

    /** Sets the window size and drops the tables of the old one. */
    method SetWindowSize(point: P, W: int) returns (ok: bool)
      requires Valid()
      modifies `windowSizes, `precomputes
      ensures Valid() && (ok <==> 1 <= W <= bits && TableBytes(bits + BLIND_BITS, W, fpBytes) <= TABLE_BYTES_MAX)
      ensures ok ==> WindowSize(point) == W && point !in precomputes
      ensures !ok ==> windowSizes == old(windowSizes) && precomputes == old(precomputes)
    {
      hide Laws, Mul, Pow2, TableOf, TableBytes;
      ok := 1 <= W <= bits && TableBytes(bits + BLIND_BITS, W, fpBytes) <= TABLE_BYTES_MAX;
      if ok {
        windowSizes := windowSizes[point := W];
        precomputes := precomputes - {point};
      }
    }

    /** The cached table of this width and length, built on first use. */
    method GetWnafPrecomputes(W: nat, point: P, bits: nat) returns (pre: Precomputes<P>)
      requires Valid() && W >= 1
      modifies `precomputes
      ensures Valid() && TableOf(g, pre, point) && pre.W == W && pre.bits == bits
    {
      hide Laws, Mul, Pow2, TableOf;
      var entries := if point in precomputes then precomputes[point] else [];
      for i := 0 to |entries| {
        if entries[i].W == W && entries[i].bits == bits {
          return entries[i];
        }
      }
      pre := BuildWnafTable(g, point, W, bits);
      precomputes := precomputes[point := entries + [pre]];
    }

    /** Whichever path the window size selects, the result is n times the point. */
    method RunCT(point: P, n: nat, bits: nat) returns (r: P)
      requires Valid() && n < Pow2(bits)
      modifies `precomputes
      ensures Valid() && r == Mul(g, n, point)
    {
      hide Laws, Mul, Pow2, TableOf, MaxSigned;
      var W := WindowSize(point);
      if W == 1 {
        r := FixedWindowCT(g, point, n, bits);
      } else {
        var pre := GetWnafPrecomputes(W, point, bits);
        ExtraWindowSuffices(n, W, bits);
        TableWindows(g, pre, point);
        var result := WnafCachedCT(g, base, pre, point, n);
        r := result.value;
      }
    }

    method MulCT(point: P, scalar: int) returns (r: Option<P>)
      requires Valid()
      modifies `precomputes
      ensures Valid() && (r.Some? <==> 1 <= scalar < order)
      ensures r.Some? ==> r.value == Mul(g, scalar, point)
    {
      hide Laws, Mul, Pow2, TableOf;
      if !(1 <= scalar < order) {
        return None;
      }
      var p := RunCT(point, scalar, bits);
      r := Some(p);
    }

    /** Blinding by a multiple of the order changes nothing for a point of that order. */
    method MulCTBlinded(point: P, scalar: int, random: Option<seq<Byte>>) returns (r: Option<P>)
      requires Valid()
      modifies `precomputes
      ensures Valid() && (r.Some? <==> 1 <= scalar < order && random.Some? && |random.value| == BLIND_BYTES)
      ensures r.Some? ==> r.value == Mul(g, scalar + Blind(random.value) * order, point)
      ensures r.Some? && Mul(g, order, point) == g.zero ==> r.value == Mul(g, scalar, point)
    {
      hide Laws, Mul, Pow2, TableOf, Blind;
      if !(1 <= scalar < order) || random.None? || |random.value| != BLIND_BYTES {
        return None;
      }
      var n := scalar + Blind(random.value) * order;
      BlindedFits(scalar, order, bits, random.value);
      if Mul(g, order, point) == g.zero {
        MulAnnihilated(g, scalar, Blind(random.value), order, point);
      }
      var p := RunCT(point, n, bits + BLIND_BITS);
      r := Some(p);
    }

    /** Any non-negative scalar below the fourth power of the order, reduced or not. */
    method MulUnsafe(point: P, scalar: int) returns (r: Option<P>)
      requires Valid()
      modifies `precomputes
      ensures Valid() && (r.Some? <==> 0 <= scalar < Pow(order, 4))
      ensures r.Some? ==> r.value == Mul(g, scalar, point)
    {
      hide Laws, Mul, Pow2, Pow, TableOf, MaxSigned, Sum;
      if scalar < 0 {
        return None;
      }
      OrderBelow(order);
      var W := WindowSize(point);
      if W == 1 || scalar >= order {
        r := MulAddUnsafe(g, order, [point], [scalar], true);
        SingleSum(g, scalar, point);
        assert [scalar][0] == scalar;
      } else {
        var pre := GetWnafPrecomputes(W, point, bits);
        ExtraWindowSuffices(scalar, W, bits);
        TableWindows(g, pre, point);
        r := WnafCachedCT(g, base, pre, point, scalar);
      }
    }

    /** Blinding is used only where the order is known to annihilate the point. */
    method ShouldBlind(point: P, cofactor: nat, random: Option<seq<Byte>>) returns (blind: bool)
      requires Valid()
      requires cofactor == 1 ==> Mul(g, order, point) == g.zero
      modifies `precomputes, `baseCanBeBlinded
      ensures Valid() && (blind ==> random.Some? && Mul(g, order, point) == g.zero)
    {
      hide Laws, Mul, Pow2, TableOf, Pow;
      if random.None? {
        return false;
      }
      if cofactor == 1 {
        return true;
      }
      if point != base {
        return false;
      }
      if baseCanBeBlinded.None? {
        var p := MulUnsafe(base, order);
        baseCanBeBlinded := Some(p.Some? && p.value == g.zero);
      }
      blind := baseCanBeBlinded.value;
    }

    /** The secret multiplication agrees with the plain one, blinded or not. */
    method MulSecret(point: P, scalar: int, cofactor: nat, random: Option<seq<Byte>>) returns (r: Option<P>)
      requires Valid()
      requires cofactor == 1 ==> Mul(g, order, point) == g.zero
      requires random.Some? ==> |random.value| == BLIND_BYTES
      modifies `precomputes, `baseCanBeBlinded
      ensures Valid() && (r.Some? <==> 1 <= scalar < order)
      ensures r.Some? ==> r.value == Mul(g, scalar, point)
    {
      hide Laws, Mul, Pow2, TableOf;
      var blind := ShouldBlind(point, cofactor, random);
      if blind {
        r := MulCTBlinded(point, scalar, random);
      } else {
        r := MulCT(point, scalar);
      }
    }
  }

  lemma TableWindows<P>(g: Group<P>, pre: Precomputes<P>, point: P)
    requires TableOf(g, pre, point)
    ensures pre.W >= 1 && pre.windows == Windows(pre.bits, pre.W) + 1
  {
  }

  lemma OrderBelow(order: nat)
    requires order > 0
    ensures order <= Pow(order, 4)
  {
    hide Pow;
    PowPositive(order, 3);
    MulMono(1, Pow(order, 3), order);
    PowNext(order, 3);
  }

  lemma PowPositive(b: nat, e: nat)
    requires b > 0
    ensures Pow(b, e) >= 1
  {
    if e > 0 {
      PowPositive(b, e - 1);
      MulMono(1, b, Pow(b, e - 1));
    }
  }
}
