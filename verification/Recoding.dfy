/** Signed-digit recodings of scalars. */
module Recoding {
  import opened ModArith
  import opened Options
  import BP = BitPacking

  function Value(d: seq<int>, base: int): int {
    BP.Value(d, base)
  }

  /** One more digit takes its share of what is left: n == w + base * rest. */
  lemma TakeDigit(d: seq<int>, base: int, n: int, w: int, rest: int)
    requires n == w + base * rest
    ensures Value(d + [w], base) + Pow(base, |d| + 1) * rest == Value(d, base) + Pow(base, |d|) * n
  {
    hide Pow;
    BP.ValueAppend(d, w, base);
    PowNext(base, |d|);
    MulAssoc(base, Pow(base, |d|), rest);
    MulDist(w, base * rest, Pow(base, |d|));
  }

  lemma PowNext(base: int, n: nat)
    ensures Pow(base, n + 1) == base * Pow(base, n)
  {
  }

  // ----- width-W non-adjacent form

  /** A nonzero digit is odd and below half the window size. */
  predicate WnafDigit(w: int, half: int) {
    w == 0 || (w % 2 == 1 && -half < w < half)
  }

  /** The digit taken off n, and what is left of n. */
  lemma WnafStep(n: nat, W: nat, w: int)
    requires n > 0 && W >= 2
    requires var size := Pow2(W); var low := n % size;
      w == if n % 2 == 0 then 0 else if low >= Pow2(W - 1) then low - size else low
    ensures WnafDigit(w, Pow2(W - 1)) && (n - w) % 2 == 0 && 0 <= (n - w) / 2 < n
  {
    hide Pow2;
    var half, quarter := Pow2(W - 1), Pow2(W - 2);
    HalfWindow(W);
    HalfWindow(W - 1);
    LowBits(n, half);
    WnafChoice(n, half, quarter, n % Pow2(W), w);
  }

  lemma WnafChoice(n: nat, half: nat, quarter: nat, low: nat, w: int)
    requires n > 0 && quarter >= 1 && half == 2 * quarter && low <= n && low < 2 * half && low % 2 == n % 2
    requires w == if n % 2 == 0 then 0 else if low >= half then low - 2 * half else low
    ensures WnafDigit(w, half) && (n - w) % 2 == 0 && 0 <= (n - w) / 2 < n
  {
  }

  lemma HalfWindow(W: nat)
    requires W >= 1
    ensures Pow2(W) == 2 * Pow2(W - 1)
  {
  }

  lemma LowBits(n: nat, half: nat)
    requires half > 0
    ensures 0 <= n % (2 * half) <= n && (n % (2 * half)) % 2 == n % 2
  {
    var size := 2 * half;
    var q, r := n / size, n % size;
    DivMod(n, size);
    MulAssoc(q, 2, half);
    if q < 0 {
      MulMono(q, -1, size);
    } else {
      MulMono(0, q, size);
    }
    assert n == 2 * (q * half) + r;
  }

  method WnafDigits(scalar: nat, W: nat) returns (d: seq<int>)
    requires W >= 2
    ensures Value(d, 2) == scalar
    ensures forall i :: 0 <= i < |d| ==> WnafDigit(d[i], Pow2(W - 1))
  {
    hide Pow2, Pow, BP.Value;
    var n: nat := scalar;
    var size := Pow2(W);
    var half := Pow2(W - 1);
    HalfWindow(W);
    d := [];
    NoDigits(2, n);
    while n > 0
      invariant Value(d, 2) + Pow(2, |d|) * n == scalar
      invariant forall i :: 0 <= i < |d| ==> WnafDigit(d[i], half)
    {
      var w := 0;
      if n % 2 == 1 {
        w := n % size;
        if w >= half {
          w := w - size;
        }
      }
      WnafStep(n, W, w);
      TakeDigit(d, 2, n, w, (n - w) / 2);
      d := d + [w];
      n := (n - w) / 2;
    }
    assert Pow(2, |d|) * 0 == 0;
  }

  lemma NoDigits(base: int, n: int)
    ensures Value([], base) + Pow(base, 0) * n == n
  {
  }

  /** With a window of one bit, the digit taken off 1 would be -1, and 1 would be left again. */
  lemma WindowOfOneSticks(n: nat)
    requires n == 1
    ensures var size, half := Pow2(1), Pow2(0); n % size >= half && (n - (n % size - size)) / 2 == n
  {
  }

  // ----- signed fixed windows

  /** The largest scalar that fits the windows. */
  function MaxSigned(W: nat, windows: nat): nat
    requires W >= 1
  {
    if windows == 0 then 0 else
      MulNonNeg(Pow2(W), MaxSigned(W, windows - 1));
      Pow2(W - 1) + Pow2(W) * MaxSigned(W, windows - 1)
  }

  predicate SignedDigit(v: int, half: int) {
    -half < v <= half
  }

  /** Taking off one signed digit leaves a number that fits one window less exactly if n fitted. */
  lemma SignedStep(n: nat, size: nat, half: nat, max: nat, v: int, rest: int)
    requires half >= 1 && size == 2 * half
    requires var low := n % size;
      if low > half then v == low - size && rest == n / size + 1 else v == low && rest == n / size
    ensures SignedDigit(v, half) && n == v + size * rest && rest >= 0
    ensures rest <= max <==> n <= half + size * max
  {
    DivMod(n, size);
    if rest < 0 {
      MulMono(rest, -1, size);
    }
    if rest <= max {
      MulMono(rest, max, size);
    } else {
      MulMono(max + 1, rest, size);
      MulDist(max, 1, size);
    }
  }

  /** Refused exactly when the scalar does not fit. */
  method SignedWindowDigits(scalar: nat, W: nat, windows: nat) returns (r: Option<seq<int>>)
    requires W >= 1
    ensures r.Some? <==> scalar <= MaxSigned(W, windows)
    ensures r.Some? ==> |r.value| == windows && Value(r.value, Pow2(W)) == scalar
    ensures r.Some? ==> forall i :: 0 <= i < windows ==> SignedDigit(r.value[i], Pow2(W - 1))
  {
    hide Pow2, Pow, BP.Value, MaxSigned;
    var n: nat := scalar;
    var size, half := Pow2(W), Pow2(W - 1);
    HalfWindow(W);
    var d := [];
    NoDigits(size, n);
    for w := 0 to windows
      invariant |d| == w && Value(d, size) + Pow(size, w) * n == scalar
      invariant forall i :: 0 <= i < w ==> SignedDigit(d[i], half)
      invariant n <= MaxSigned(W, windows - w) <==> scalar <= MaxSigned(W, windows)
    {
      var v := n % size;
      var rest := n / size;
      if v > half {
        v := v - size;
        rest := rest + 1;
      }
      MaxNext(W, windows - w);
      SignedStep(n, size, half, MaxSigned(W, windows - w - 1), v, rest);
      TakeDigit(d, size, n, v, rest);
      d := d + [v];
      n := rest;
    }
    MaxNone(W);
    if n != 0 {
      return None;
    }
    assert Pow(size, windows) * 0 == 0;
    return Some(d);
  }

  lemma MaxNext(W: nat, windows: nat)
    requires W >= 1 && windows > 0
    ensures MaxSigned(W, windows) == Pow2(W - 1) + Pow2(W) * MaxSigned(W, windows - 1)
  {
  }

  lemma MaxNone(W: nat)
    requires W >= 1
    ensures MaxSigned(W, 0) == 0
  {
  }

  /** The number of windows that cover a number of bits. */
  function Windows(bits: nat, W: nat): (k: nat)
    requires W >= 1
    ensures W * k >= bits
  {
    DivMod(bits + W - 1, W);
    (bits + W - 1) / W
  }

  lemma {:induction false} MaxIsLarge(W: nat, k: nat)
    requires W >= 1
    ensures W * k >= 0 && MaxSigned(W, k + 1) >= Pow2(W * k)
  {
    hide Pow2, MaxSigned;
    MaxNext(W, k + 1);
    MulNonNeg(Pow2(W), MaxSigned(W, k));
    if k == 0 {
      assert W * 0 == 0;
      Pow2Zero();
    } else {
      MaxIsLarge(W, k - 1);
      MulDist(1, k - 1, W);
      Pow2Add(W, W * (k - 1));
      MulMono(Pow2(W * (k - 1)), MaxSigned(W, k), Pow2(W));
    }
  }

  lemma Pow2Zero()
    ensures Pow2(0) == 1
  {
  }

  lemma {:induction false} Pow2Mono(a: nat, b: nat)
    requires a <= b
    ensures Pow2(a) <= Pow2(b)
    decreases b
  {
    if a < b {
      Pow2Mono(a, b - 1);
    }
  }

  /** The extra window absorbs the last carry: a scalar of the given bit length is never refused. */
  lemma ExtraWindowSuffices(n: nat, W: nat, bits: nat)
    requires W >= 1 && n < Pow2(bits)
    ensures n <= MaxSigned(W, Windows(bits, W) + 1)
  {
    hide Pow2, MaxSigned;
    var k := Windows(bits, W);
    MaxIsLarge(W, k);
    Pow2Mono(bits, W * k);
  }
}
