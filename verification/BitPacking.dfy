/** Little-endian repacking of d-bit fields into bytes and back, as the ML-KEM polynomial coder does it. */
module BitPacking {
  import opened ModArith

  /** The number whose little-endian digits in the given base are `xs`. */
  function Value(xs: seq<int>, base: int): int {
    if |xs| == 0 then 0 else xs[0] + base * Value(xs[1..], base)
  }

  function Digits(v: int, base: int, n: nat): (r: seq<int>)
    requires base > 0
    ensures |r| == n
    decreases n, v, base
  {
    if n == 0 then [] else [v % base] + Digits(v / base, base, n - 1)
  }

  ghost predicate InRange(xs: seq<int>, base: int) {
    forall i :: 0 <= i < |xs| ==> 0 <= xs[i] < base
  }

  // ----- positional notation

  lemma Quotient(x: int, m: int, k: int)
    requires m > 0 && 0 <= x < m * k
    ensures 0 <= x / m < k
  {
    DivMod(x, m);
    if x / m >= k {
      MulMono(k, x / m, m);
      assert false;
    }
    if x / m < 0 {
      MulMono(x / m, -1, m);
      assert false;
    }
  }

  lemma {:induction false} ValueAppend(xs: seq<int>, x: int, base: int)
    ensures Value(xs + [x], base) == Value(xs, base) + Pow(base, |xs|) * x
  {
    if |xs| == 0 {
      assert xs + [x] == [x];
      assert [x][1..] == [];
      assert Value([x], base) == x + base * Value([], base);
    } else {
      assert (xs + [x])[1..] == xs[1..] + [x];
      ValueAppend(xs[1..], x, base);
      var v, p := Value(xs[1..], base), Pow(base, |xs| - 1);
      MulDist(v, p * x, base);
      MulAssoc(base, p, x);
    }
  }

  lemma {:induction false} ValueBounds(xs: seq<int>, base: int)
    requires base > 0 && InRange(xs, base)
    ensures 0 <= Value(xs, base) < Pow(base, |xs|)
  {
    if |xs| > 0 {
      ValueBounds(xs[1..], base);
      var v, p := Value(xs[1..], base), Pow(base, |xs| - 1);
      MulMono(0, v, base);
      MulMono(v + 1, p, base);
      MulDist(v, 1, base);
    }
  }

  /** Reading the digits of a number written with digits in range gives those digits back. */
  lemma {:induction false} DigitsOfValue(xs: seq<int>, base: int)
    requires base > 0 && InRange(xs, base)
    ensures Digits(Value(xs, base), base, |xs|) == xs
  {
    if |xs| > 0 {
      var v := Value(xs[1..], base);
      DigitsOfValue(xs[1..], base);
      assert Value(xs, base) == v * base + xs[0];
      DivModUnique(Value(xs, base), base, v, xs[0]);
    }
  }

  lemma {:induction false} ValueOfDigits(v: int, base: int, n: nat)
    requires base > 0 && 0 <= v < Pow(base, n)
    ensures Value(Digits(v, base, n), base) == v
    ensures InRange(Digits(v, base, n), base)
    decreases n
  {
    if n > 0 {
      DivMod(v, base);
      var w := v / base;
      Quotient(v, base, Pow(base, n - 1));
      ValueOfDigits(w, base, n - 1);
      assert Digits(v, base, n)[1..] == Digits(w, base, n - 1);
    }
  }

  lemma {:induction false} Pow2Pow(d: nat, n: nat)
    ensures Pow(Pow2(d), n) == Pow2(d * n)
    decreases n
  {
    if n > 0 {
      Pow2Pow(d, n - 1);
      MulNonNeg(d, n - 1);
      MulDist(1, n - 1, d);
      Pow2Add(d, d * (n - 1));
    } else {
      assert d * 0 == 0;
    }
  }

  // ----- fields of a bits repacked into fields of b bits

  /** `n` fields of `a` bits occupy the same number of bits as the result's fields of `b` bits. */
  function Repack(xs: seq<int>, a: nat, b: nat, n: nat): (r: seq<int>)
    ensures |r| == n
  {
    Digits(Value(xs, Pow2(a)), Pow2(b), n)
  }

  /** Repacking loses nothing. */
  lemma RepackInverse(xs: seq<int>, a: nat, b: nat, n: nat)
    requires InRange(xs, Pow2(a)) && a * |xs| == b * n
    ensures InRange(Repack(xs, a, b, n), Pow2(b))
    ensures Repack(Repack(xs, a, b, n), b, a, |xs|) == xs
  {
    hide Digits, Value, Pow2;
    ValueBounds(xs, Pow2(a));
    Pow2Pow(a, |xs|);
    Pow2Pow(b, n);
    ValueOfDigits(Value(xs, Pow2(a)), Pow2(b), n);
    DigitsOfValue(xs, Pow2(a));
  }

  /** Bit o of field i is bit i * a + o of the whole string. */
  lemma {:induction false} FieldBit(xs: seq<int>, a: nat, i: nat, o: nat)
    requires InRange(xs, Pow2(a)) && i < |xs| && o < a
    ensures i * a + o >= 0 && Value(xs, Pow2(a)) / Pow2(i * a + o) % 2 == xs[i] / Pow2(o) % 2
    decreases i
  {
    hide Pow2, Value;
    ValueStep(xs, Pow2(a));
    var v := Value(xs[1..], Pow2(a));
    if i == 0 {
      assert 0 * a + o == o;
      LowBit(xs[0], v, o, a - o);
    } else {
      MulDist(i - 1, 1, a);
      MulNonNeg(i - 1, a);
      FieldBit(xs[1..], a, i - 1, o);
      assert i * a + o == ((i - 1) * a + o) + a;
      HighBit(xs[0], v, a, (i - 1) * a + o);
    }
  }

  lemma ValueStep(xs: seq<int>, base: int)
    requires |xs| > 0
    ensures Value(xs, base) == xs[0] + base * Value(xs[1..], base)
  {
  }

  lemma ValueBit(xs: seq<int>, a: nat, t: nat)
    requires a > 0 && InRange(xs, Pow2(a)) && t < a * |xs|
    ensures 0 <= t / a < |xs|
    ensures Value(xs, Pow2(a)) / Pow2(t) % 2 == xs[t / a] / Pow2(t % a) % 2
  {
    hide Pow2, Value, InRange;
    Quotient(t, a, |xs|);
    DivMod(t, a);
    FieldBit(xs, a, t / a, t % a);
  }

  lemma EvenAway(y: int, h: int)
    ensures (y + 2 * h) % 2 == y % 2
  {
  }

  lemma LowBit(x: int, v: int, t: nat, m: nat)
    requires m > 0
    ensures (x + Pow2(t + m) * v) / Pow2(t) % 2 == x / Pow2(t) % 2
  {
    hide Pow2;
    Pow2Add(t, m);
    var p, q := Pow2(t), Pow2(m);
    DivMod(x, p);
    MulAssoc(p, q, v);
    MulDist(x / p, q * v, p);
    DivModUnique(x + p * (q * v), p, x / p + q * v, x % p);
    TwiceHalf(m);
    var h := Pow2(m - 1) * v;
    MulAssoc(2, Pow2(m - 1), v);
    EvenAway(x / p, h);
  }

  lemma TwiceHalf(m: nat)
    requires m > 0
    ensures Pow2(m) == 2 * Pow2(m - 1)
  {
  }

  lemma HighBit(x: int, v: int, a: nat, t: nat)
    requires 0 <= x < Pow2(a)
    ensures (x + Pow2(a) * v) / Pow2(t + a) == v / Pow2(t)
  {
    hide Pow2;
    Pow2Add(a, t);
    var p, q := Pow2(a), Pow2(t);
    DivMod(v, q);
    var w, r := v / q, v % q;
    MulDist(w * q, r, p);
    MulAssoc(p, w, q);
    MulAssoc(w, p, q);
    MulNonNeg(p, r);
    MulMono(r, q - 1, p);
    MulDistSub(q, 1, p);
    DivModUnique(x + p * v, p * q, w, x + p * r);
  }

  /** Repacking keeps every bit in its place: bit t of the string is bit t % a of field t / a on one side, and bit
      t % b of field t / b on the other. */
  lemma RepackBits(xs: seq<int>, a: nat, b: nat, n: nat, t: nat)
    requires a > 0 && b > 0 && InRange(xs, Pow2(a)) && a * |xs| == b * n && t < b * n
    ensures 0 <= t / a < |xs| && 0 <= t / b < n
    ensures Repack(xs, a, b, n)[t / b] / Pow2(t % b) % 2 == xs[t / a] / Pow2(t % a) % 2
  {
    hide Digits, Value, Pow2, InRange;
    RepackInverse(xs, a, b, n);
    ValueBounds(xs, Pow2(a));
    Pow2Pow(a, |xs|);
    Pow2Pow(b, n);
    ValueOfDigits(Value(xs, Pow2(a)), Pow2(b), n);
    ValueBit(xs, a, t);
    ValueBit(Repack(xs, a, b, n), b, t);
  }

  /** The state of a repacking loop: the fields written so far and a buffer of `len` pending bits
      together hold the value of the fields read so far. */
  ghost predicate Packed(read: seq<int>, a: nat, written: seq<int>, b: nat, buf: int, len: nat) {
    && Value(written, Pow2(b)) + Pow(Pow2(b), |written|) * buf == Value(read, Pow2(a))
    && b * |written| + len == a * |read|
    && 0 <= buf < Pow2(len)
    && InRange(written, Pow2(b))
  }

  lemma PackedStart(a: nat, b: nat)
    ensures Packed([], a, [], b, 0, 0)
  {
  }

  /** Placing a field above the pending bits. */
  lemma Absorb(read: seq<int>, a: nat, written: seq<int>, b: nat, buf: int, len: nat, x: int)
    requires Packed(read, a, written, b, buf, len) && 0 <= x < Pow2(a)
    ensures Packed(read + [x], a, written, b, buf + x * Pow2(len), len + a)
  {
    hide Value, InRange, Pow2, Pow;
    ValueAppend(read, x, Pow2(a));
    Pow2Pow(a, |read|);
    Pow2Pow(b, |written|);
    Pow2Add(b * |written|, len);
    var p, q := Pow2(b * |written|), Pow2(len);
    MulDist(buf, x * q, p);
    MulAssoc(p, q, x);
    MulAssoc(p, x, q);
    MulDist(|read|, 1, a);
    Above(buf, len, x, a);
  }

  lemma Above(buf: int, len: nat, x: int, a: nat)
    requires 0 <= buf < Pow2(len) && 0 <= x < Pow2(a)
    ensures 0 <= buf + x * Pow2(len) < Pow2(len + a)
  {
    hide Pow2;
    Pow2Add(len, a);
    MulMono(x + 1, Pow2(a), Pow2(len));
    MulDist(x, 1, Pow2(len));
    MulNonNeg(x, Pow2(len));
  }

  /** Writing out the lowest `b` pending bits. */
  lemma Emit(read: seq<int>, a: nat, written: seq<int>, b: nat, buf: int, len: nat)
    requires Packed(read, a, written, b, buf, len) && len >= b
    ensures Packed(read, a, written + [buf % Pow2(b)], b, buf / Pow2(b), len - b)
  {
    hide Value, Pow2;
    var base := Pow2(b);
    var w := written + [buf % base];
    ValueAppend(written, buf % base, base);
    DivMod(buf, base);
    var p := Pow(base, |written|);
    MulDist((buf / base) * base, buf % base, p);
    assert Pow(base, |w|) == base * p;
    MulAssoc(base, p, buf / base);
    MulAssoc(p, buf / base, base);
    MulDist(|written|, 1, b);
    Pow2Add(b, len - b);
    Quotient(buf, base, Pow2(len - b));
  }

  /** While a whole field is pending the output is not full. */
  lemma Room(read: seq<int>, a: nat, written: seq<int>, b: nat, buf: int, len: nat, n: nat, m: nat)
    requires Packed(read, a, written, b, buf, len) && len >= b > 0
    requires |read| <= n && a * n == b * m
    ensures |written| < m
  {
    MulMono(|read|, n, a);
    if |written| >= m {
      MulMono(m, |written|, b);
      assert false;
    }
  }

  /** With no pending bits the written fields are the repacked ones. */
  lemma PackedEnd(read: seq<int>, a: nat, written: seq<int>, b: nat, buf: int, len: nat, m: nat)
    requires Packed(read, a, written, b, buf, len) && len < b && a * |read| == b * m
    ensures |written| == m && written == Repack(read, a, b, m)
  {
    hide Value, Digits;
    DivModUnique(a * |read|, b, |written|, len);
    DivModUnique(a * |read|, b, m, 0);
    DigitsOfValue(written, Pow2(b));
  }
}
