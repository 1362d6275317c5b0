/** The Montgomery ladder with arithmetic masks, and the ladder of section 5 of RFC 7748. */
module Ladder {
  import opened ModArith
  import opened Options

  // ----- bits

  function Bit(k: nat, t: nat): (b: nat)
    ensures b <= 1
    decreases t
  {
    if t == 0 then k % 2 else Bit(k / 2, t - 1)
  }

  function Shift(k: nat, t: nat): nat
    decreases t
  {
    if t == 0 then k else Shift(k / 2, t - 1)
  }

  function XorNat(a: nat, b: nat): nat {
    if a == 0 && b == 0 then 0 else (a % 2 + b % 2) % 2 + 2 * XorNat(a / 2, b / 2)
  }

  lemma {:induction false} ShiftBit(k: nat, t: nat)
    ensures Shift(k, t) % 2 == Bit(k, t) && Shift(k, t) == 2 * Shift(k, t + 1) + Bit(k, t)
    ensures Shift(k / 2, t) == Shift(k, t + 1) && Bit(k / 2, t) == Bit(k, t + 1)
    decreases t
  {
    if t > 0 {
      ShiftBit(k / 2, t - 1);
    } else {
      assert Shift(k, 1) == Shift(k / 2, 0);
    }
  }

  lemma {:induction false} XorBit(a: nat, b: nat, t: nat)
    ensures Bit(XorNat(a, b), t) == (Bit(a, t) + Bit(b, t)) % 2
    decreases t
  {
    XorStep(a, b);
    if t > 0 {
      XorBit(a / 2, b / 2, t - 1);
    }
  }

  lemma XorStep(a: nat, b: nat)
    ensures XorNat(a, b) % 2 == (a % 2 + b % 2) % 2 && XorNat(a, b) / 2 == XorNat(a / 2, b / 2)
  {
    var r := XorNat(a / 2, b / 2);
    var low := (a % 2 + b % 2) % 2;
    if a == 0 && b == 0 {
      assert a / 2 == a && b / 2 == b;
    } else {
      assert XorNat(a, b) == low + 2 * r;
    }
    HalfOf(low, r);
  }

  lemma HalfOf(low: nat, r: nat)
    requires low <= 1
    ensures (low + 2 * r) % 2 == low && (low + 2 * r) / 2 == r
  {
  }

  lemma {:induction false} NoHighBits(k: nat, t: nat)
    requires k < Pow2(t)
    ensures Shift(k, t) == 0 && Bit(k, t) == 0
    decreases t
  {
    if t > 0 {
      NoHighBits(k / 2, t - 1);
    }
  }

  // ----- the ladder of the standard

  /** The two projective points of the ladder. */
  datatype State = State(x2: int, z2: int, x3: int, z3: int) {
    function Swapped(): State {
      State(x3, z3, x2, z2)
    }
  }

  /** X25519 or X448, over the prime p. */
  datatype Curve = Curve(p: int, is25519: bool) {
    function A24(): int {
      if is25519 then 121665 else 39081
    }

    function Bits(): nat {
      if is25519 then 255 else 448
    }

    function MinScalar(): nat {
      Pow2(Bits() - 1)
    }

    /** One above the largest clamped scalar. */
    function MaxScalar(): int {
      MinScalar() + (if is25519 then 8 * (Pow2(251) - 1) else 4 * (Pow2(445) - 1)) + 1
    }
  }

  lemma ClampedFits(c: Curve, n: nat)
    requires n == c.Bits()
    ensures c.MaxScalar() <= Pow2(n)
  {
    hide Pow2;
    var low := if c.is25519 then 3 else 2;
    Pow2Add(low, n - 1 - low);
    Pow2Add(1, n - 1);
    SmallPowers();
  }

  /** The constants of section 4 of RFC 7748: A is 486662 and 156326; scalars have their top bit set and are a multiple
      of 8 below 2^255, or of 4 below 2^448. */
  lemma CurveConstants(c: Curve, k: nat, n: nat)
    requires n == (if c.is25519 then 255 else 448)
    ensures CurveA(c) == (if c.is25519 then 486662 else 156326)
    ensures c.Bits() == n && c.MinScalar() == Pow2(n - 1)
    ensures c.MaxScalar() == Pow2(n) - (if c.is25519 then 7 else 3)
    ensures k % (if c.is25519 then 8 else 4) == 0 && Pow2(n - 1) <= k < Pow2(n) ==> c.MinScalar() <= k < c.MaxScalar()
  {
    hide Pow2;
    var low := if c.is25519 then 3 else 2;
    Pow2Add(low, n - 1 - low);
    Pow2Add(low, n - low);
    Pow2Add(1, n - 1);
    SmallPowers();
    if c.is25519 {
      BelowMultiple(k, Pow2(n - low));
    } else {
      BelowMultipleOfFour(k, Pow2(n - low));
    }
  }

  lemma BelowMultiple(k: nat, q: nat)
    ensures k % 8 == 0 && k < 8 * q ==> k <= 8 * q - 8
  {
  }

  lemma BelowMultipleOfFour(k: nat, q: nat)
    ensures k % 4 == 0 && k < 4 * q ==> k <= 4 * q - 4
  {
  }

  lemma SmallPowers()
    ensures Pow2(1) == 2 && Pow2(2) == 4 && Pow2(3) == 8
  {
  }

  function CSwap(b: nat, s: State): State {
    if b % 2 == 1 then s.Swapped() else s
  }

  /** The formulas of one round as integer polynomials, reduced at the end. */
  function Step(c: Curve, x1: int, s: State): State
    requires c.p > 0
  {
    var aa := (s.x2 + s.z2) * (s.x2 + s.z2);
    var bb := (s.x2 - s.z2) * (s.x2 - s.z2);
    var e := aa - bb;
    var da := (s.x3 - s.z3) * (s.x2 + s.z2);
    var cb := (s.x3 + s.z3) * (s.x2 - s.z2);
    State(aa * bb % c.p, e * (aa + c.A24() * e) % c.p,
          (da + cb) * (da + cb) % c.p, x1 * ((da - cb) * (da - cb)) % c.p)
  }

  /** The coefficient A of the curve v^2 = u^3 + A u^2 + u. */
  function CurveA(c: Curve): int {
    4 * c.A24() + 2
  }

  /** A round is the doubling and the differential addition of Montgomery's formulas, up to a common factor 4. */
  lemma StepIsMontgomery(c: Curve, x1: int, s: State)
    requires c.p > 0
    ensures var (x, z, u, w) := (s.x2, s.z2, s.x3, s.z3);
      var r := Step(c, x1, s);
      && r.x2 == (x * x - z * z) * (x * x - z * z) % c.p
      && r.z2 == 4 * (x * z) * (x * x + CurveA(c) * (x * z) + z * z) % c.p
      && r.x3 == 4 * ((x * u - z * w) * (x * u - z * w)) % c.p
      && r.z3 == x1 * (4 * ((x * w - z * u) * (x * w - z * u))) % c.p
  {
    hide Step;
    StepFormulas(c, x1, s);
    DoublingIdentity(s.x2, s.z2, c.A24());
    AdditionIdentity(s.x2, s.z2, s.x3, s.z3);
  }

  lemma StepFormulas(c: Curve, x1: int, s: State)
    requires c.p > 0
    ensures var aa := (s.x2 + s.z2) * (s.x2 + s.z2);
      var bb := (s.x2 - s.z2) * (s.x2 - s.z2);
      var da, cb := (s.x3 - s.z3) * (s.x2 + s.z2), (s.x3 + s.z3) * (s.x2 - s.z2);
      var r := Step(c, x1, s);
      && r.x2 == aa * bb % c.p && r.z2 == (aa - bb) * (aa + c.A24() * (aa - bb)) % c.p
      && r.x3 == (da + cb) * (da + cb) % c.p && r.z3 == x1 * ((da - cb) * (da - cb)) % c.p
  {
  }

  lemma DoublingIdentity(x: int, z: int, a: int)
    ensures var aa, bb := (x + z) * (x + z), (x - z) * (x - z);
      && aa * bb == (x * x - z * z) * (x * x - z * z)
      && (aa - bb) * (aa + a * (aa - bb)) == 4 * (x * z) * (x * x + (4 * a + 2) * (x * z) + z * z)
  {
    var p, q := x * x + z * z, x * z;
    assert (x + z) * (x + z) == p + 2 * q && (x - z) * (x - z) == p - 2 * q;
    var d := (x - z) * (x + z);
    assert d == x * x - z * z;
    MulSwap(x + z, x + z, x - z, x - z);
    assert p + a * (4 * q) + 2 * q == x * x + (4 * a + 2) * q + z * z by {
      MulDist(4 * a, 2, q);
      MulAssoc(a, 4, q);
    }
  }

  lemma AdditionIdentity(x: int, z: int, u: int, w: int)
    ensures var da, cb := (u - w) * (x + z), (u + w) * (x - z);
      && (da + cb) * (da + cb) == 4 * ((x * u - z * w) * (x * u - z * w))
      && (da - cb) * (da - cb) == 4 * ((x * w - z * u) * (x * w - z * u))
  {
    var da, cb := (u - w) * (x + z), (u + w) * (x - z);
    var m, n := x * u - z * w, x * w - z * u;
    assert da + cb == 2 * m && da - cb == -2 * n;
    assert (2 * m) * (2 * m) == 4 * (m * m) && (-2 * n) * (-2 * n) == 4 * (n * n);
  }

  /** The rounds for the low t bits of k, with the deferred swap of the standard. */
  function Rfc(c: Curve, x1: int, k: nat, t: nat, swap: nat, s: State): State
    requires c.p > 0
    decreases t
  {
    if t == 0 then CSwap(swap, s) else
      var kt := Bit(k, t - 1);
      Rfc(c, x1, k, t - 1, kt, Step(c, x1, CSwap(swap + kt, s)))
  }

  /** The rounds without deferred swaps: each swaps before and after for a bit 1. */
  function Plain(c: Curve, x1: int, k: nat, t: nat, s: State): State
    requires c.p > 0
    decreases t
  {
    if t == 0 then s else
      var kt := Bit(k, t - 1);
      Plain(c, x1, k, t - 1, CSwap(kt, Step(c, x1, CSwap(kt, s))))
  }

  /** Deferring the swaps changes nothing. */
  lemma {:induction false} DeferredSwap(c: Curve, x1: int, k: nat, t: nat, swap: nat, s: State)
    requires c.p > 0
    ensures Rfc(c, x1, k, t, swap, s) == Plain(c, x1, k, t, CSwap(swap, s))
    decreases t
  {
    hide Step;
    if t > 0 {
      var kt := Bit(k, t - 1);
      DeferredSwap(c, x1, k, t - 1, kt, Step(c, x1, CSwap(swap + kt, s)));
      assert CSwap(swap + kt, s) == CSwap(kt, CSwap(swap, s));
    }
  }

  /** (x : z) is the u-coordinate of the m-th multiple of the base point. */
  type Multiple = (int, int, nat) -> bool

  /** What the formulas owe to the curve: a doubling and a differential addition. */
  ghost predicate RoundLaw(c: Curve, x1: int, rep: Multiple)
    requires c.p > 0
  {
    forall s: State, i: nat, j: nat :: rep(s.x2, s.z2, i) && rep(s.x3, s.z3, j) && (j == i + 1 || i == j + 1) ==>
      var r := Step(c, x1, s);
      rep(r.x2, r.z2, 2 * i) && rep(r.x3, r.z3, i + j)
  }

  lemma RoundAt(c: Curve, x1: int, rep: Multiple, s: State, i: nat, j: nat)
    requires c.p > 0 && RoundLaw(c, x1, rep) && rep(s.x2, s.z2, i) && rep(s.x3, s.z3, j) && (j == i + 1 || i == j + 1)
    ensures var r := Step(c, x1, s); rep(r.x2, r.z2, 2 * i) && rep(r.x3, r.z3, i + j)
  {
  }

  /** Then the rounds for the bits of k lead from the multiples m and m + 1 to k and k + 1. */
  lemma {:induction false} LadderMultiple(c: Curve, x1: int, rep: Multiple, k: nat, t: nat, s: State)
    requires c.p > 0 && RoundLaw(c, x1, rep)
    requires rep(s.x2, s.z2, Shift(k, t)) && rep(s.x3, s.z3, Shift(k, t) + 1)
    ensures var r := Plain(c, x1, k, t, s); rep(r.x2, r.z2, k) && rep(r.x3, r.z3, k + 1)
    decreases t
  {
    hide Step, RoundLaw;
    if t > 0 {
      var m := Shift(k, t);
      var kt := Bit(k, t - 1);
      ShiftBit(k, t - 1);
      var u := CSwap(kt, s);
      RoundAt(c, x1, rep, u, m + kt, m + 1 - kt);
      LadderMultiple(c, x1, rep, k, t - 1, CSwap(kt, Step(c, x1, u)));
    }
  }

  /** The start of the ladder: the point at infinity and the given point. */
  function Start(u: int): State {
    State(1, 0, u, 1)
  }

  /** The ladder of the standard ends with the k-th multiple of the given point. */
  lemma RfcMultiple(c: Curve, u: int, rep: Multiple, k: nat, t: nat)
    requires c.p > 0 && RoundLaw(c, u, rep) && k < Pow2(t) && rep(1, 0, 0) && rep(u, 1, 1)
    ensures var r := Rfc(c, u, k, t, 0, Start(u)); rep(r.x2, r.z2, k)
  {
    hide Step, RoundLaw, Pow2;
    NoHighBits(k, t);
    DeferredSwap(c, u, k, t, 0, Start(u));
    LadderMultiple(c, u, rep, k, t, Start(u));
  }

  // ----- the code

  /** P plus the low bit of the argument. */
  function CMask(p: int, swap: nat): int {
    p + swap - swap / 2 * 2
  }

  ghost predicate Reduced(p: int, s: State) {
    0 <= s.x2 < p && 0 <= s.z2 < p && 0 <= s.x3 < p && 0 <= s.z3 < p
  }

  /** The swap by multiplication: the dividend is never negative, so truncation does not matter. */
  method ArithmeticSwap(p: int, mask: int, x2: int, x3: int, ghost bit: nat) returns (y2: int, y3: int)
    requires 0 <= x2 < p && 0 <= x3 < p && mask == p + bit && bit <= 1
    ensures (6 * p + x3 - x2) * mask + x2 >= 0
    ensures 0 <= y2 < p && -p < y3 < 2 * p
    ensures y2 == (if bit == 1 then x3 else x2) && y3 == (if bit == 1 then x2 else x3)
  {
    var offset := 6 * p;
    var sum := x2 + x3;
    var d := offset + x3 - x2;
    SwapValue(p, mask, d, x2, x3, bit);
    var a := TruncRem(d * mask + x2, p);
    y2, y3 := a, sum - a;
  }

  lemma SwapValue(p: int, mask: int, d: int, x2: int, x3: int, bit: nat)
    requires 0 <= x2 < p && 0 <= x3 < p && mask == p + bit && bit <= 1 && d == 6 * p + x3 - x2
    ensures d * mask + x2 >= 0 && (d * mask + x2) % p == if bit == 1 then x3 else x2
  {
    MulDist(p, bit, d);
    MulNonNeg(d, mask);
    if bit == 1 {
      MulDist(d, 6, p);
      DivModUnique(d * mask + x2, p, d + 6, x3);
    } else {
      DivModUnique(d * mask + x2, p, d, x2);
    }
  }

  lemma ProductMod(p: int, a: int, b: int, x: int, y: int)
    requires p > 0 && Cong(a, x, p) && Cong(b, y, p)
    ensures Cong(a * b, x * y, p) && a * b % p == x * y % p && Cong(a * b % p, x * y, p)
  {
    CongMul(a, x, b, y, p);
    CongMod(a * b, p);
  }

  /** Reducing after every product gives the same round. */
  method Round(c: Curve, x1: int, s: State) returns (r: State)
    requires c.p > 0
    ensures r == Step(c, x1, s) && Reduced(c.p, r)
  {
    hide Cong;
    var p := c.p;
    var A := s.x2 + s.z2;
    var AA := A * A % p;
    var B := s.x2 - s.z2;
    var BB := B * B % p;
    var E := AA - BB;
    var C := s.x3 + s.z3;
    var D := s.x3 - s.z3;
    var DA := D * A % p;
    var CB := C * B % p;
    var sum := DA + CB;
    var diff := DA - CB;
    var x3 := sum * sum % p;
    var inner := diff * diff % p;
    var z3 := x1 * inner % p;
    var x2 := AA * BB % p;
    var scaled := c.A24() * E % p;
    var z2 := E * (AA + scaled) % p;
    SquaresAgree(p, A, B, AA, BB, c.A24(), scaled, z2);
    CrossAgree(p, D * A, C * B, DA, CB, x1, inner);
    Ranges(p, AA * BB, E * (AA + scaled), sum * sum, x1 * inner);
    r := State(x2, z2, x3, z3);
  }

  lemma Ranges(p: int, a: int, b: int, c: int, d: int)
    requires p > 0
    ensures 0 <= a % p < p && 0 <= b % p < p && 0 <= c % p < p && 0 <= d % p < p
  {
  }

  lemma SquaresAgree(p: int, A: int, B: int, AA: int, BB: int, a24: int, scaled: int, z2: int)
    requires p > 0 && AA == A * A % p && BB == B * B % p && scaled == a24 * (AA - BB) % p
    requires z2 == (AA - BB) * (AA + scaled) % p
    ensures AA * BB % p == (A * A) * (B * B) % p
    ensures var e := A * A - B * B; z2 == e * (A * A + a24 * e) % p
  {
    hide Cong;
    var aa, bb := A * A, B * B;
    var e := aa - bb;
    CongMod(aa, p);
    CongMod(bb, p);
    CongRefl(a24, p);
    ProductMod(p, AA, BB, aa, bb);
    CongSub(AA, aa, BB, bb, p);
    ProductMod(p, a24, AA - BB, a24, e);
    CongAdd(AA, aa, scaled, a24 * e, p);
    ProductMod(p, AA - BB, AA + scaled, e, aa + a24 * e);
  }

  lemma CrossAgree(p: int, da: int, cb: int, DA: int, CB: int, x1: int, inner: int)
    requires p > 0 && DA == da % p && CB == cb % p && inner == (DA - CB) * (DA - CB) % p
    ensures (DA + CB) * (DA + CB) % p == (da + cb) * (da + cb) % p
    ensures x1 * inner % p == x1 * ((da - cb) * (da - cb)) % p
  {
    hide Cong;
    CongMod(da, p);
    CongMod(cb, p);
    CongAdd(DA, da, CB, cb, p);
    CongSub(DA, da, CB, cb, p);
    CongRefl(x1, p);
    ProductMod(p, DA + CB, DA + CB, da + cb, da + cb);
    ProductMod(p, DA - CB, DA - CB, da - cb, da - cb);
    ProductMod(p, x1, inner, x1, (da - cb) * (da - cb));
  }

  lemma MaskBit(p: int, v: nat)
    ensures CMask(p, v) == p + v % 2
  {
  }

  /** Swaps both coordinates of the two points. */
  method SwapState(p: int, v: nat, s: State) returns (r: State)
    requires Reduced(p, s)
    ensures r == CSwap(v, s)
  {
    var mask := CMask(p, v);
    MaskBit(p, v);
    var x2, x3 := ArithmeticSwap(p, mask, s.x2, s.x3, v % 2);
    var z2, z3 := ArithmeticSwap(p, mask, s.z2, s.z3, v % 2);
    r := State(x2, z2, x3, z3);
  }

  /** The rounds and the last swap, for scalars of the prescribed range only. */
  method Rounds(c: Curve, u: int, scalar: int) returns (r: Option<State>)
    requires c.p > 1
    ensures r.Some? <==> 0 <= u < c.p && c.MinScalar() <= scalar < c.MaxScalar()
    ensures r.Some? ==> r.value == Rfc(c, u, scalar, c.Bits(), 0, Start(u)) && Reduced(c.p, r.value)
  {
    hide Step, Pow2, Shift, Bit, XorNat;
    if !(0 <= u < c.p && c.MinScalar() <= scalar < c.MaxScalar()) {
      return None;
    }
    var bits := c.Bits();
    ClampedFits(c, bits);
    var k: nat := scalar;
    var s := Start(u);
    var kx := XorNat(k, k / 2);
    NoHighBits(k, bits);
    var t: int := bits - 1;
    ghost var swap := 0;
    while t >= 0
      invariant -1 <= t < bits && Reduced(c.p, s) && swap == Bit(k, t + 1)
      invariant Rfc(c, u, k, t + 1, swap, s) == Rfc(c, u, k, bits, 0, Start(u))
    {
      XorBit(k, k / 2, t);
      ShiftBit(kx, t);
      ShiftBit(k, t);
      var v := Shift(kx, t);
      SwapParity(v, swap + Bit(k, t), s);
      s := SwapState(c.p, v, s);
      s := Round(c, u, s);
      swap := Bit(k, t);
      t := t - 1;
    }
    ShiftBit(k, 0);
    LowBit(k);
    SwapParity(k, swap, s);
    s := SwapState(c.p, k, s);
    r := Some(s);
  }

  /** The quotient at the end uses the inversion the curve comes with. */
  method MontgomeryLadder(c: Curve, invert: int -> int, u: int, scalar: int) returns (r: Option<int>)
    requires c.p > 1
    ensures r.Some? <==> 0 <= u < c.p && c.MinScalar() <= scalar < c.MaxScalar()
    ensures r.Some? ==> var s := Rfc(c, u, scalar, c.Bits(), 0, Start(u)); r.value == s.x2 * invert(s.z2) % c.p
  {
    var s := Rounds(c, u, scalar);
    r := if s.Some? then Some(s.value.x2 * invert(s.value.z2) % c.p) else None;
  }

  lemma LowBit(k: nat)
    ensures Bit(k, 0) == k % 2
  {
  }

  lemma SwapParity(a: nat, b: nat, s: State)
    requires a % 2 == b % 2
    ensures CSwap(a, s) == CSwap(b, s)
  {
  }
}
