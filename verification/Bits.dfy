/** Little-endian bit strings, the least significant bit first. */
module Bits {

  import opened Bytes
  import opened ModArith

  /** The low n bits of v. */
  function BitsOf(v: nat, n: nat): (b: seq<bool>)
    ensures |b| == n
  {
    if n == 0 then [] else [v % 2 == 1] + BitsOf(v / 2, n - 1)
  }

  function ValueOf(b: seq<bool>): nat {
    if b == [] then 0 else (if b[0] then 1 else 0) + 2 * ValueOf(b[1..])
  }

  lemma {:induction false} ValueOfBits(v: nat, n: nat)
    requires v < Pow2(n)
    ensures ValueOf(BitsOf(v, n)) == v
  {
    if n > 0 {
      ValueOfBits(v / 2, n - 1);
      assert BitsOf(v, n)[1..] == BitsOf(v / 2, n - 1);
    }
  }

  /** A number below 2^m followed by another one. */
  lemma {:induction false} BitsJoin(low: nat, m: nat, high: nat, n: nat)
    requires low < Pow2(m)
    ensures high * Pow2(m) >= 0 && BitsOf(low, m) + BitsOf(high, n) == BitsOf(high * Pow2(m) + low, m + n)
  {
    hide Pow2;
    if m == 0 {
      NoBits();
      assert BitsOf(low, m) + BitsOf(high, n) == BitsOf(high, n);
    } else {
      Pow2Double(m);
      BitsJoin(low / 2, m - 1, high, n);
      var h := high * Pow2(m - 1);
      MulAssoc(high, 2, Pow2(m - 1));
      HalfJoin(low, h, 2 * h + low);
      assert BitsOf(low, m) + BitsOf(high, n) == [low % 2 == 1] + (BitsOf(low / 2, m - 1) + BitsOf(high, n));
    }
  }

  lemma Pow2Double(m: nat)
    requires m > 0
    ensures Pow2(m) == 2 * Pow2(m - 1)
  {
  }

  lemma HalfJoin(low: nat, h: nat, x: nat)
    requires x == 2 * h + low
    ensures x % 2 == low % 2 && x / 2 == h + low / 2
  {
  }

  lemma EightBits()
    ensures Pow2(8) == 256
  {
    assert Pow2(3) == 8;
    assert Pow2(6) == 64;
  }

  // ----- byte strings

  function BitsOfBytes(s: seq<Byte>): (b: seq<bool>)
    ensures |b| == 8 * |s|
  {
    if s == [] then [] else BitsOfBytes(s[..|s| - 1]) + BitsOf(s[|s| - 1], 8)
  }

  lemma BitsOfSnoc(s: seq<Byte>, b: Byte)
    ensures BitsOfBytes(s + [b]) == BitsOfBytes(s) + BitsOf(b, 8)
  {
    hide BitsOf;
    assert (s + [b])[..|s|] == s;
  }

  /** Bit i of a string of n bits is the bit of weight 2^i. */
  lemma {:induction false} BitOf(v: nat, n: nat, i: nat)
    requires i < n
    ensures BitsOf(v, n)[i] <==> v / Pow2(i) % 2 == 1
    decreases n
  {
    if i > 0 {
      BitOf(v / 2, n - 1, i - 1);
      DoubleDivision(v, Pow2(i - 1));
    }
  }

  lemma DoubleDivision(v: nat, p: nat)
    requires p > 0
    ensures v / (2 * p) == (v / 2) / p
  {
    var w, e := v / 2, v % 2;
    DivMod(w, p);
    var q, r := w / p, w % p;
    MulAssoc(q, 2, p);
    DivModUnique(v, 2 * p, q, 2 * r + e);
  }

  /** Bit i of byte k of a byte string is its bit 8k + i. */
  lemma {:induction false} BitOfByte(s: seq<Byte>, k: nat, i: nat)
    requires k < |s| && i < 8
    ensures BitsOfBytes(s)[8 * k + i] <==> s[k] / Pow2(i) % 2 == 1
    decreases |s|
  {
    hide BitsOf, Pow2;
    if k == |s| - 1 {
      BitOf(s[k], 8, i);
    } else {
      BitOfByte(s[..|s| - 1], k, i);
    }
  }

  /** The byte stream with its bits not yet written. */
  class BitOutputStream {
    var out: seq<Byte>
    var bitLength: nat
    var bitBuffer: nat

    ghost predicate Valid()
      reads this
    {
      bitLength < 8 && bitBuffer < Pow2(bitLength)
    }

    ghost function Contents(): seq<bool>
      reads this
    {
      BitsOfBytes(out) + BitsOf(bitBuffer, bitLength)
    }

    constructor ()
      ensures Valid() && Contents() == []
    {
      out, bitLength, bitBuffer := [], 0, 0;
    }

    /** Writes out one byte, and returns the data that is left. */
    method WriteByte(data: nat, length: nat) returns (rest: nat, restLength: nat)
      requires Valid() && data < Pow2(length) && bitLength + length >= 8
      modifies this
      ensures Valid() && bitLength == 0 && restLength == old(bitLength) + length - 8 && rest < Pow2(restLength)
      ensures Contents() + BitsOf(rest, restLength) == old(Contents()) + BitsOf(data, length)
    {
      hide BitsOf, Pow2, BitsOfBytes;
      ghost var was, low := BitsOfBytes(out), BitsOf(bitBuffer, bitLength);
      NoBits();
      var x := Shifted(data, bitLength, bitBuffer);
      rest := High(data, 8 - bitLength);
      restLength := length - (8 - bitLength);
      ByteStep(data, length, bitBuffer, bitLength, x, rest);
      BitsOfSnoc(out, x % 256);
      out := out + [x % 256];
      bitBuffer := 0;
      bitLength := 0;
      ghost var byte, high := BitsOf(x % 256, 8), BitsOf(rest, restLength);
      assert Contents() == (was + byte) + [] == was + byte;
      assert (was + low) + BitsOf(data, length) == was + (low + BitsOf(data, length));
      assert (was + byte) + high == was + (byte + high);
    }

    /** Codes that do not fit their length are refused. */
    method Write(data: nat, length: nat)
      requires Valid() && data < Pow2(length)
      modifies this
      ensures Valid() && Contents() == old(Contents()) + BitsOf(data, length)
    {
      hide BitsOf, Pow2, BitsOfBytes, Contents;
      var data: nat, length: nat := data, length;
      ghost var all := Contents() + BitsOf(data, length);
      while bitLength + length >= 8
        invariant Valid() && data < Pow2(length)
        invariant Contents() + BitsOf(data, length) == all
        decreases bitLength + length
      {
        data, length := WriteByte(data, length);
      }
      Append(data, length);
    }

    /** Keeps the rest for the next byte. */
    method Append(data: nat, length: nat)
      requires Valid() && data < Pow2(length) && bitLength + length < 8
      modifies this
      ensures Valid() && Contents() == old(Contents()) + BitsOf(data, length)
    {
      hide BitsOf, Pow2, BitsOfBytes;
      BitsJoin(bitBuffer, bitLength, data, length);
      BufferFits(data, length, bitBuffer, bitLength);
      ghost var was, low := BitsOfBytes(out), BitsOf(bitBuffer, bitLength);
      assert (was + low) + BitsOf(data, length) == was + (low + BitsOf(data, length));
      bitBuffer := Shifted(data, bitLength, bitBuffer);
      bitLength := bitLength + length;
    }

    /** Fills the last byte up with zero bits. */
    method Flush() returns (ghost pad: nat)
      requires Valid()
      modifies this
      ensures pad < 8 && BitsOfBytes(out) == old(Contents()) + BitsOf(0, pad)
    {
      hide BitsOf, Pow2, BitsOfBytes;
      NoBits();
      pad := 0;
      if bitLength > 0 {
        pad := 8 - bitLength;
        EightBits();
        Pow2Add(8 - bitLength, bitLength);
        MulOne(Pow2(8 - bitLength), Pow2(bitLength));
        BitsOfSnoc(out, bitBuffer);
        BitsJoin(bitBuffer, bitLength, 0, 8 - bitLength);
        ghost var was, low := BitsOfBytes(out), BitsOf(bitBuffer, bitLength);
        assert (was + low) + BitsOf(0, 8 - bitLength) == was + (low + BitsOf(0, 8 - bitLength));
        out := out + [bitBuffer];
      }
    }
  }

  /** The data above n pending bits, which do not overlap it. */
  function Shifted(data: nat, n: nat, low: nat): (x: nat)
    ensures x == data * Pow2(n) + low
  {
    MulNonNeg(data, Pow2(n));
    data * Pow2(n) + low
  }

  function High(data: nat, n: nat): (x: nat)
    ensures x == data / Pow2(n)
  {
    Floor(data, Pow2(n))
  }

  function Floor(data: nat, d: nat): (x: nat)
    requires d > 0
    ensures x == data / d
  {
    var q := data / d;
    DivMod(data, d);
    assert q >= 0 by {
      if q < 0 {
        MulMono(q, -1, d);
      }
    }
    q
  }

  lemma MulOne(x: nat, y: nat)
    requires x >= 1
    ensures x * y >= y
  {
  }

  lemma NoBits()
    ensures Pow2(0) == 1 && forall v: nat :: BitsOf(v, 0) == []
  {
  }

  lemma BufferFits(data: nat, n: nat, low: nat, m: nat)
    requires low < Pow2(m) && data < Pow2(n)
    ensures data * Pow2(m) + low < Pow2(m + n) && data * Pow2(m) >= 0
  {
    hide Pow2;
    Pow2Add(m, n);
    BelowProduct(data, Pow2(n), low, Pow2(m));
  }

  lemma BelowProduct(data: nat, top: nat, low: nat, base: nat)
    requires low < base && data < top
    ensures data * base + low < base * top && data * base >= 0
  {
    assert (top - 1 - data) * base >= 0;
    assert base * top == (top - 1 - data) * base + data * base + base;
  }

  /** One byte of output takes the pending bits and the low bits of the data. */
  lemma ByteStep(data: nat, length: nat, low: nat, m: nat, x: nat, high: nat)
    requires m < 8 && low < Pow2(m) && m + length >= 8 && data < Pow2(length)
    requires x == data * Pow2(m) + low && high == data / Pow2(8 - m)
    ensures high < Pow2(m + length - 8)
    ensures BitsOf(low, m) + BitsOf(data, length) == BitsOf(x % 256, 8) + BitsOf(high, m + length - 8)
  {
    hide BitsOf, Pow2;
    var rest := length - (8 - m);
    BitsJoin(low, m, data, length);
    EightBits();
    Pow2Add(8 - m, m);
    Pow2Add(8 - m, rest);
    MulAssoc(Pow2(8 - m), Pow2(m), 1);
    Quotient(data, Pow2(8 - m), low, Pow2(m), Pow2(rest));
    assert x == high * 256 + x % 256;
    BitsJoin(x % 256, 8, high, rest);
  }

  lemma Quotient(data: nat, a: nat, low: nat, b: nat, c: nat)
    requires a > 0 && low < b && data < a * c
    ensures a * b > 0 && (data * b + low) / (a * b) == data / a < c
  {
    var q, r := data / a, data % a;
    DivMod(data, a);
    MulDist(q * a, r, b);
    MulAssoc(q, a, b);
    MulMono(r, a - 1, b);
    MulDistSub(a, 1, b);
    MulNonNeg(r, b);
    DivModUnique(data * b + low, a * b, q, r * b + low);
    if q >= c {
      MulMono(c, q, a);
    }
  }
}
