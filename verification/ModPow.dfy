/** Modular exponentiation: bit by bit for short exponents, four bits at a time through a table for long ones. */
module ModPow {
  import opened ModArith
  import opened Options
  import BP = BitPacking

  const POW_WINDOWED_MIN := 0x1_0000_0000_0000_0000

  lemma CongSquare(p: int, a: int, m: int)
    requires m > 0 && Cong(p, a, m)
    ensures Cong(p * p % m, a * a, m)
  {
    hide Cong;
    CongMul(p, a, p, a, m);
    CongMod(p * p, m);
    CongTrans(p * p % m, p * p, a * a, m);
  }

  lemma CongTimes(p: int, a: int, d: int, b: int, m: int)
    requires m > 0 && Cong(p, a, m) && Cong(d, b, m)
    ensures Cong(p * d % m, a * b, m)
  {
    hide Cong;
    CongMul(p, a, d, b, m);
    CongMod(p * d, m);
    CongTrans(p * d % m, p * d, a * b, m);
  }

  lemma ModRange(x: int, m: int)
    requires m > 0
    ensures 0 <= x % m < m
  {
  }

  /** Splitting off the lowest bit of the exponent. */
  lemma PowBit(d: int, e: nat)
    ensures Pow(d, e) == Pow(d * d, e / 2) * (if e % 2 == 1 then d else 1)
  {
    hide Pow;
    PowOfProduct(d, d, e / 2);
    PowAdd(d, e / 2, e / 2);
    if e % 2 == 1 {
      PowAdd(d, e / 2 + e / 2, 1);
      PowLow(d);
    }
  }

  lemma PowLow(d: int)
    ensures Pow(d, 0) == 1 && Pow(d, 1) == d
  {
    assert Pow(d, 1) == d * Pow(d, 0);
  }

  method PowBinary(d0: int, e0: nat, m: int) returns (p: int)
    requires m > 1
    ensures Cong(p, Pow(d0, e0), m) && 0 <= p < m
  {
    hide Pow, Cong;
    var d, e := d0, e0;
    p := 1;
    CongRefl(Pow(d0, e0), m);
    assert 1 * Pow(d0, e0) == Pow(d0, e0);
    while e > 0
      invariant 0 <= p < m && Cong(p * Pow(d, e), Pow(d0, e0), m)
    {
      ghost var q := if e % 2 == 1 then p * d % m else p;
      CongMod(p * d, m);
      CongMod(d * d, m);
      CongRefl(p, m);
      BitStep(p, d, e, if e % 2 == 1 then d else 1, q, d * d % m, m);
      CongTrans(q * Pow(d * d % m, e / 2), p * Pow(d, e), Pow(d0, e0), m);
      ModRange(p * d, m);
      if e % 2 == 1 {
        p := p * d % m;
      }
      d := d * d % m;
      e := e / 2;
    }
    PowLow(d);
  }

  lemma CongTrans(a: int, b: int, c: int, m: int)
    requires m > 0 && Cong(a, b, m) && Cong(b, c, m)
    ensures Cong(a, c, m) && Cong(c, a, m)
  {
  }

  lemma BitStep(p: int, d: int, e: nat, f: int, q: int, d2: int, m: int)
    requires m > 0 && f == (if e % 2 == 1 then d else 1) && Cong(q, p * f, m) && Cong(d2, d * d, m)
    ensures Cong(q * Pow(d2, e / 2), p * Pow(d, e), m)
  {
    hide Pow, Cong;
    PowBit(d, e);
    BitProduct(p, f, q, Pow(d2, e / 2), Pow(d * d, e / 2), m) by {
      CongPow(d2, d * d, e / 2, m);
    }
  }

  lemma BitProduct(p: int, f: int, q: int, u: int, r: int, m: int)
    requires m > 0 && Cong(q, p * f, m) && Cong(u, r, m)
    ensures Cong(q * u, p * (r * f), m)
  {
    hide Cong;
    CongMul(q, p * f, u, r, m);
    MulAssoc(p, f, r);
  }

  /** Four squarings and one table entry take in one more hexadecimal digit. */
  lemma DigitStep(p: int, d: int, high: int, digit: nat, t: int, m: int)
    requires m > 0 && high >= 0 && Cong(p, Pow(d, high), m) && Cong(t, Pow(d, digit), m)
    ensures var p1 := p * p % m; var p2 := p1 * p1 % m; var p3 := p2 * p2 % m; var p4 := p3 * p3 % m;
      Cong(p4 * t % m, Pow(d, digit + 16 * high), m) && Cong(p4, Pow(d, 16 * high), m)
  {
    hide Pow, Cong;
    var p1 := p * p % m;
    var p2 := p1 * p1 % m;
    var p3 := p2 * p2 % m;
    var p4 := p3 * p3 % m;
    CongSquare(p, Pow(d, high), m);
    PowAdd(d, high, high);
    CongSquare(p1, Pow(d, 2 * high), m);
    PowAdd(d, 2 * high, 2 * high);
    CongSquare(p2, Pow(d, 4 * high), m);
    PowAdd(d, 4 * high, 4 * high);
    CongSquare(p3, Pow(d, 8 * high), m);
    PowAdd(d, 8 * high, 8 * high);
    CongTimes(p4, Pow(d, 16 * high), t, Pow(d, digit), m);
    PowAdd(d, 16 * high, digit);
  }

  method HexDigits(power: nat) returns (digits: seq<int>)
    ensures BP.Value(digits, 16) == power && BP.InRange(digits, 16) && (power > 0 ==> |digits| > 0)
  {
    hide BP.Value, Pow;
    digits := [];
    var e := power;
    EmptyValue(e);
    while e > 0
      invariant e >= 0 && BP.Value(digits, 16) + Pow(16, |digits|) * e == power
      invariant BP.InRange(digits, 16) && (e < power ==> |digits| > 0)
    {
      BP.ValueAppend(digits, e % 16, 16);
      PowStep(16, |digits|, e % 16, e / 16, e);
      digits := digits + [e % 16];
      e := e / 16;
    }
    assert Pow(16, |digits|) * 0 == 0;
  }

  lemma EmptyValue(e: int)
    ensures BP.Value([], 16) == 0 && BP.Value([], 16) + Pow(16, 0) * e == e
  {
  }

  lemma PowStep(b: int, n: nat, low: int, high: int, e: int)
    requires e == low + b * high
    ensures Pow(b, n) * low + Pow(b, n + 1) * high == Pow(b, n) * e
  {
    var q := Pow(b, n);
    assert Pow(b, n + 1) == b * q;
    MulAssoc(b, q, high);
    MulDist(low, b * high, q);
  }

  method PowWindowed(d: int, e: nat, m: int) returns (p: int)
    requires m > 1 && 0 <= d < m && e > 0
    ensures Cong(p, Pow(d, e), m) && 0 <= p < m
  {
    hide Pow, Cong, BP.Value;
    var digits := HexDigits(e);
    var table := [1, d];
    PowLow(d);
    CongRefl(1, m);
    CongRefl(d, m);
    for i := 2 to 16
      invariant |table| == i && forall k: nat :: k < i ==> 0 <= table[k] < m && Cong(table[k], Pow(d, k), m)
    {
      CongTimes(table[i - 1], Pow(d, i - 1), d, d, m);
      PowAdd(d, i - 1, 1);
      ModRange(table[i - 1] * d, m);
      table := table + [table[i - 1] * d % m];
    }
    var w := |digits| - 2;
    p := table[digits[|digits| - 1]];
    LastDigit(digits);
    ghost var high: int := digits[|digits| - 1];
    while w >= 0
      invariant -1 <= w <= |digits| - 2 && high == BP.Value(digits[w + 1..], 16) && high >= 0
      invariant 0 <= p < m && Cong(p, Pow(d, high), m)
    {
      var digit := digits[w];
      DigitStep(p, d, high, digit, table[digit], m);
      NextDigit(digits, w);
      var q := Squared(p, m);
      q := Squared(q, m);
      q := Squared(q, m);
      q := Squared(q, m);
      p := if digit != 0 then q * table[digit] % m else q;
      ModRange(q * table[digit], m);
      high := digit + 16 * high;
      w := w - 1;
    }
    assert digits[0..] == digits;
  }

  method Squared(p: int, m: int) returns (q: int)
    requires m > 0
    ensures q == p * p % m && 0 <= q < m
  {
    q := p * p % m;
  }

  lemma LastDigit(digits: seq<int>)
    requires |digits| > 0
    ensures BP.Value(digits[|digits| - 1..], 16) == digits[|digits| - 1]
  {
    var s := digits[|digits| - 1..];
    assert s[1..] == [];
    EmptyValue(0);
  }

  lemma NextDigit(digits: seq<int>, w: nat)
    requires w < |digits|
    ensures BP.Value(digits[w..], 16) == digits[w] + 16 * BP.Value(digits[w + 1..], 16)
  {
    assert digits[w..][1..] == digits[w + 1..];
  }

  /** Refused for a modulus below 2 or a negative exponent. The exponent 1 gives the number back unreduced. */
  method PowMod(num: int, power: int, modulo: int) returns (r: Option<int>)
    ensures r.Some? <==> modulo > 1 && power >= 0
    ensures r.Some? ==> Cong(r.value, Pow(num, power), modulo)
    ensures r.Some? ==> if power == 1 then r.value == num else 0 <= r.value < modulo
  {
    hide Pow, Cong;
    if modulo <= 1 || power < 0 {
      return None;
    }
    PowLow(num);
    CongRefl(1, modulo);
    CongRefl(num, modulo);
    if power == 0 {
      return Some(1);
    }
    if power == 1 {
      return Some(num);
    }
    var d := Rem(num, modulo);
    if d < 0 {
      d := d + modulo;
    }
    TruncatedRemainder(num, modulo, d);
    CongMod(num, modulo);
    CongPow(d, num, power, modulo);
    var p;
    if power < POW_WINDOWED_MIN {
      p := PowBinary(d, power, modulo);
    } else {
      p := PowWindowed(d, power, modulo);
    }
    CongTrans(p, Pow(d, power), Pow(num, power), modulo);
    r := Some(p);
  }

  /** The truncating remainder. */
  function Rem(a: int, m: int): int
    requires m > 0
  {
    TruncRem(a, m)
  }

  lemma TruncatedRemainder(num: int, m: int, d: int)
    requires m > 0 && d == (if Rem(num, m) < 0 then Rem(num, m) + m else Rem(num, m))
    ensures d == num % m && 0 <= d < m
  {
    if num < 0 {
      var q, r := -num / m, -num % m;
      DivMod(-num, m);
      if r == 0 {
        DivModUnique(num, m, -q, 0);
      } else {
        MulDist(-q, -1, m);
        DivModUnique(num, m, -q - 1, m - r);
      }
    }
  }
}
