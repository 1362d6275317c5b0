/** Compression and byte encoding of ML-KEM polynomials. */
module Coders {
  import opened ModArith
  import opened Poly
  import opened Zetas
  import opened Ntt
  import opened BitPacking

  // ----- one coefficient

  /** Field width 12 stores a coefficient as it is; a smaller width d scales it to d bits with
      rounding. The packing loop masks the result to d bits. */
  function CoefEncode(d: nat, x: int): int {
    if d >= 12 then x
    else (((x * Pow2(d)) as real + Q as real / 2.0) / Q as real).Floor
  }

  function CoefDecode(d: nat, y: int): int
    requires d >= 1
  {
    if d >= 12 then (if y >= Q then y - Q else y)
    else (y * Q + Pow2(d - 1)) / Pow2(d)
  }

  /** The field that the packing loop stores. */
  function Field(d: nat, x: int): (y: int)
    ensures 0 <= y < Pow2(d)
  {
    CoefEncode(d, x) % Pow2(d)
  }

  /** The rounding in exact integer form. */
  lemma CompressFloor(d: nat, x: int)
    requires d < 12 && x >= 0
    ensures CoefEncode(d, x) == (2 * (x * Pow2(d)) + Q) / (2 * Q)
  {
    var n := 2 * (x * Pow2(d)) + Q;
    var k := n / (2 * Q);
    var t := ((x * Pow2(d)) as real + Q as real / 2.0) / Q as real;
    assert t == n as real / (2 * Q) as real;
    assert k * (2 * Q) <= n < (k + 1) * (2 * Q);
    assert k as real <= t < (k + 1) as real;
  }

  lemma {:induction false} SmallPower(d: nat)
    requires d < 12
    ensures Pow2(d) <= 2048
  {
    Pow2Add(d, 11 - d);
    MulMono(1, Pow2(11 - d), Pow2(d));
    assert Pow2(11) == 2048;
  }

  /** Section 4.2.1 of FIPS 203: compressing and decompressing moves a coefficient by at most
      round(q / 2^(d+1)) modulo q. */
  lemma CompressError(d: nat, x: int) returns (err: int)
    requires 1 <= d < 12 && 0 <= x < Q
    ensures 0 <= CoefDecode(d, Field(d, x)) < Q
    ensures Cong(CoefDecode(d, Field(d, x)), x + err, Q)
    ensures -((Q + Pow2(d)) / Pow2(d + 1)) <= err <= (Q + Pow2(d)) / Pow2(d + 1)
  {
    CompressFloor(d, x);
    SmallPower(d);
    var p := Pow2(d);
    err := RoundTripError(p, Pow2(d - 1), x, (2 * (x * p) + Q) / (2 * Q));
  }

  /** `c` is x * p / Q rounded, and it is masked to p before it is scaled back. */
  lemma RoundTripError(p: int, h: int, x: int, c: int) returns (err: int)
    requires p == 2 * h && 0 < p < Q && 0 <= x < Q
    requires c == (2 * (x * p) + Q) / (2 * Q)
    ensures 0 <= ((c % p) * Q + h) / p < Q
    ensures Cong(((c % p) * Q + h) / p, x + err, Q)
    ensures -((Q + p) / (2 * p)) <= err <= (Q + p) / (2 * p)
  {
    MulNonNeg(x, p);
    MulMono(x, Q - 1, p);
    assert 0 <= c <= p;
    var y := (c * Q + h) / p;
    err := y - x;
    Rounded(c * Q, h, p, y);
    MulDistSub(y, x, p);
    assert -(Q + p) <= 2 * (err * p) <= Q + p;
    BoundQuotient(err, p, Q + p);
    if c < p {
      DivModUnique(c, p, 0, c);
      if y >= Q {
        MulMono(Q, y, p);
        assert false;
      }
    } else {
      DivModUnique(c, p, 1, 0);
      DivModUnique(c * Q + h, p, Q, h);
      DivModUnique(h, p, 0, h);
      AddMultiple(0, 1, Q);
    }
  }

  lemma Rounded(n: int, h: int, p: int, y: int)
    requires p == 2 * h && p > 0 && n >= 0 && y == (n + h) / p
    ensures -h <= y * p - n <= h && y >= 0
  {
    DivMod(n + h, p);
    if y < 0 {
      MulMono(y, -1, p);
      assert false;
    }
  }

  lemma BoundQuotient(e: int, p: int, n: int)
    requires p > 0 && n >= 0 && -n <= 2 * (e * p) <= n
    ensures -(n / (2 * p)) <= e <= n / (2 * p)
  {
    var k := n / (2 * p);
    DivMod(n, 2 * p);
    MulAssoc(k, 2, p);
    if e > k {
      MulMono(k + 1, e, p);
      MulDist(k, 1, p);
      assert false;
    }
    if e < -k {
      MulMono(e, -k - 1, p);
      MulDist(-k, -1, p);
      assert false;
    }
  }

  /** Stored values below q survive a 12-bit field exactly. */
  lemma Field12(x: int)
    requires 0 <= x < Q
    ensures CoefDecode(12, Field(12, x)) == x
  {
    Pow2of12();
  }

  lemma Pow2of12()
    ensures Pow2(12) == 4096
  {
  }

  // ----- whole polynomials

  function Fields(d: nat, f: Vec): (r: seq<int>)
    ensures |r| == |f| && InRange(r, Pow2(d))
  {
    seq(|f|, i requires 0 <= i < |f| => Field(d, f[i]))
  }

  function EncodePoly(d: nat, f: Vec): (bytes: seq<int>)
    ensures |bytes| == 32 * d
  {
    Repack(Fields(d, f), d, 8, 32 * d)
  }

  function Unpacked(d: nat, bytes: seq<int>): (r: seq<int>)
    ensures |r| == N
  {
    Repack(bytes, 8, d, N)
  }

  function DecodePoly(d: nat, bytes: seq<int>): (f: Vec)
    requires d >= 1
    ensures |f| == N
  {
    seq(N, i requires 0 <= i < N => CoefDecode(d, Unpacked(d, bytes)[i]))
  }

  lemma Byte()
    ensures Pow2(8) == 256
  {
  }

  /** Unpacking a packed polynomial gives its masked fields back. */
  lemma UnpackPack(d: nat, f: Vec)
    requires 1 <= d <= 12 && |f| == N
    ensures InRange(EncodePoly(d, f), 256) && Unpacked(d, EncodePoly(d, f)) == Fields(d, f)
  {
    Byte();
    RepackInverse(Fields(d, f), d, 8, 32 * d);
  }

  /** Algorithm 5 of FIPS 203: the bits of the bytes, the lowest one of each byte first, are the bits of the fields, the
      lowest one of each field first. */
  lemma PackedBits(d: nat, f: Vec, t: nat)
    requires 1 <= d <= 12 && |f| == N && t < 256 * d
    ensures 0 <= t / 8 < 32 * d && 0 <= t / d < N
    ensures EncodePoly(d, f)[t / 8] / Pow2(t % 8) % 2 == Field(d, f[t / d]) / Pow2(t % d) % 2
  {
    hide Repack, Field, Pow2;
    RepackBits(Fields(d, f), d, 8, 32 * d, t);
  }

  /** Section 4.2.1 of FIPS 203: 12-bit encoding round-trips on reduced polynomials. */
  lemma Decode12Encode12(f: Vec)
    requires Canonical(f)
    ensures DecodePoly(12, EncodePoly(12, f)) == f
  {
    UnpackPack(12, f);
    forall i | 0 <= i < N ensures DecodePoly(12, EncodePoly(12, f))[i] == f[i] {
      Field12(f[i]);
    }
  }

  /** The modulus check of section 7.2 of FIPS 203 on one polynomial: re-encoding the decoded
      bytes reproduces them exactly when every 12-bit field is below q. */
  lemma ModulusCheck(bytes: seq<int>)
    requires |bytes| == 384 && InRange(bytes, 256)
    ensures EncodePoly(12, DecodePoly(12, bytes)) == bytes <==> InRange(Unpacked(12, bytes), Q)
  {
    Byte();
    Pow2of12();
    var raw, f := Unpacked(12, bytes), DecodePoly(12, bytes);
    RepackInverse(bytes, 8, 12, N);
    UnpackPack(12, f);
    assert Repack(raw, 12, 8, 384) == bytes;
    if InRange(raw, Q) {
      assert Fields(12, f) == raw;
    } else {
      var i :| 0 <= i < N && !(0 <= raw[i] < Q);
      assert Fields(12, f)[i] == raw[i] - Q;
    }
  }

  // ----- the packing loops

  method BitsEncode(d: nat, poly: array<int>) returns (r: array<int>)
    requires 1 <= d <= 12 && poly.Length == N
    ensures fresh(r) && r[..] == EncodePoly(d, poly[..])
  {
    hide Packed, Repack, Pow2, Field;
    r := new int[32 * d](_ => 0);
    var buf := 0;
    var bufLen: nat, pos: nat := 0, 0;
    ghost var xs := Fields(d, poly[..]);
    ghost var out: seq<int> := [];
    Byte();
    PackedStart(d, 8);
    assert xs[..0] == [];
    for i := 0 to N
      invariant pos <= r.Length && bufLen < 8
      invariant |out| == pos && Packed(xs[..i], d, out, 8, buf, bufLen)
      invariant forall p :: 0 <= p < pos ==> r[p] == out[p]
    {
      Absorb(xs[..i], d, out, 8, buf, bufLen, xs[i]);
      assert xs[..i + 1] == xs[..i] + [xs[i]];
      buf := buf + Field(d, poly[i]) * Pow2(bufLen);
      bufLen := bufLen + d;
      while bufLen >= 8
        invariant pos <= r.Length
        invariant |out| == pos && Packed(xs[..i + 1], d, out, 8, buf, bufLen)
        invariant forall p :: 0 <= p < pos ==> r[p] == out[p]
      {
        Room(xs[..i + 1], d, out, 8, buf, bufLen, N, 32 * d);
        Emit(xs[..i + 1], d, out, 8, buf, bufLen);
        r[pos] := buf % 256;
        out := out + [buf % 256];
        pos := pos + 1;
        buf := buf / 256;
        bufLen := bufLen - 8;
      }
    }
    assert xs[..N] == xs;
    PackedEnd(xs, d, out, 8, buf, bufLen, 32 * d);
    assert r[..] == out;
  }

  method BitsDecode(d: nat, bytes: array<int>) returns (r: array<int>)
    requires 1 <= d <= 12 && bytes.Length == 32 * d && InRange(bytes[..], 256)
    ensures fresh(r) && r[..] == DecodePoly(d, bytes[..])
  {
    hide Packed, Repack, Pow2, CoefDecode;
    r := new int[N](_ => 0);
    var buf := 0;
    var bufLen: nat, pos: nat := 0, 0;
    ghost var xs := bytes[..];
    ghost var raw: seq<int> := [];
    Byte();
    PackedStart(8, d);
    assert xs[..0] == [];
    for i := 0 to bytes.Length
      invariant pos <= N && bufLen < d
      invariant |raw| == pos && Packed(xs[..i], 8, raw, d, buf, bufLen)
      invariant forall p :: 0 <= p < pos ==> r[p] == CoefDecode(d, raw[p])
    {
      Absorb(xs[..i], 8, raw, d, buf, bufLen, xs[i]);
      assert xs[..i + 1] == xs[..i] + [xs[i]];
      buf := buf + bytes[i] * Pow2(bufLen);
      bufLen := bufLen + 8;
      while bufLen >= d
        invariant pos <= N
        invariant |raw| == pos && Packed(xs[..i + 1], 8, raw, d, buf, bufLen)
        invariant forall p :: 0 <= p < pos ==> r[p] == CoefDecode(d, raw[p])
      {
        Room(xs[..i + 1], 8, raw, d, buf, bufLen, 32 * d, N);
        Emit(xs[..i + 1], 8, raw, d, buf, bufLen);
        r[pos] := CoefDecode(d, buf % Pow2(d));
        raw := raw + [buf % Pow2(d)];
        pos := pos + 1;
        buf := buf / Pow2(d);
        bufLen := bufLen - d;
      }
    }
    assert xs[..|xs|] == xs;
    PackedEnd(xs, 8, raw, d, buf, bufLen, N);
  }
}
