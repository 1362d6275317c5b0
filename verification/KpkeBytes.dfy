/** K-PKE key generation, encryption and decryption on byte strings, and their round trip. */
module KpkeBytes {
  import opened ModArith
  import opened Poly
  import opened Zetas
  import opened NttSpec
  import opened Ntt
  import opened BitPacking
  import opened Coders
  import opened KpkeSpec

  type Bytes = seq<int>
  type Sampled = f: Vec | Canonical(f) witness seq(N, _ => 0)

  /** The hash functions, as parameters: expanding a key seed into (rho, sigma), sampling an entry of
      the matrix from rho, and sampling noise of a given width from a seed and a nonce. */
  datatype Sampler = Sampler(
    expand: Bytes -> (Bytes, Bytes),
    matrix: (Bytes, nat, nat) -> Sampled,
    noise: (nat, Bytes, nat) -> Sampled)
  {
    function Noise(eta: nat, seed: Bytes, nonce: nat): Ring { noise(eta, seed, nonce) }
    function Entry(rho: Bytes, i: nat, j: nat): Ring { matrix(rho, i, j) }
  }

  lemma NoiseIs(s: Sampler, eta: nat, seed: Bytes, nonce: nat)
    ensures s.noise(eta, seed, nonce) == s.Noise(eta, seed, nonce)
  {
  }

  // ----- vectors of polynomials

  function EncodeVec(d: nat, k: nat, f: nat -> Ring): (r: Bytes)
    ensures |r| == k * (32 * d)
  {
    if k == 0 then []
    else
      assert (k - 1) * (32 * d) + 32 * d == k * (32 * d);
      EncodeVec(d, k - 1, f) + EncodePoly(d, f(k - 1))
  }

  /** Polynomial `i` of an encoded vector. */
  function VecPart(d: nat, bytes: Bytes, i: nat): (r: Bytes)
    requires (i + 1) * (32 * d) <= |bytes|
    ensures |r| == 32 * d
  {
    MulDist(i, 1, 32 * d);
    MulNonNeg(i, 32 * d);
    bytes[i * (32 * d)..(i + 1) * (32 * d)]
  }

  function DecodeAt(d: nat, bytes: Bytes, i: nat): Ring
    requires d >= 1
  {
    if (i + 1) * (32 * d) <= |bytes| then DecodePoly(d, VecPart(d, bytes, i)) else Zero(N)
  }

  function DecodeVec(d: nat, bytes: Bytes): nat -> Ring
    requires d >= 1
  {
    (i: nat) => DecodeAt(d, bytes, i)
  }

  lemma {:induction false} PartOfVec(d: nat, k: nat, f: nat -> Ring, rest: Bytes, i: nat)
    requires i < k
    ensures (i + 1) * (32 * d) <= |EncodeVec(d, k, f) + rest|
    ensures VecPart(d, EncodeVec(d, k, f) + rest, i) == EncodePoly(d, f(i))
  {
    var n := 32 * d;
    MulMono(i + 1, k, n);
    var last := EncodePoly(d, f(k - 1));
    assert EncodeVec(d, k, f) + rest == EncodeVec(d, k - 1, f) + (last + rest);
    if i == k - 1 {
      MulDist(i, 1, n);
    } else {
      PartOfVec(d, k - 1, f, last + rest, i);
    }
  }

  // ----- the scheme

  function NoiseVec(s: Sampler, eta: nat, seed: Bytes, from: nat): nat -> Ring {
    (i: nat) => s.Noise(eta, seed, from + i)
  }

  function Matrix(s: Sampler, rho: Bytes): (nat, nat) -> Ring {
    (i: nat, j: nat) => s.Entry(rho, i, j)
  }

  function KeySeeds(p: Params, s: Sampler, seed: Bytes): (Bytes, Bytes) {
    s.expand(seed + [p.k])
  }

  function PublicKey(p: Params, s: Sampler, seed: Bytes): Bytes {
    var (rho, sigma) := KeySeeds(p, s, seed);
    EncodeVec(12, p.k, PublicRows(p.k, Matrix(s, rho), NoiseVec(s, p.eta1, sigma, 0), NoiseVec(s, p.eta1, sigma, p.k))) + rho
  }

  function SecretKey(p: Params, s: Sampler, seed: Bytes): Bytes {
    EncodeVec(12, p.k, Hat(NoiseVec(s, p.eta1, KeySeeds(p, s, seed).1, 0)))
  }

  function Message(msg: Bytes): Ring {
    DecodePoly(1, msg)
  }

  function Encrypt(p: Params, s: Sampler, pk: Bytes, msg: Bytes, coins: Bytes): Bytes
    requires |pk| >= p.k * 384
  {
    var t := DecodeVec(12, pk);
    var a := Matrix(s, pk[p.k * 384..]);
    var r := NoiseVec(s, p.eta1, coins, 0);
    EncodeVec(p.du, p.k, CipherUs(p.k, a, r, NoiseVec(s, p.eta2, coins, p.k)))
      + EncodePoly(p.dv, CipherV(p.k, t, r, s.Noise(p.eta2, coins, 2 * p.k), Message(msg)))
  }

  function Decrypt(p: Params, ct: Bytes, sk: Bytes): Bytes
    requires p.Valid() && |ct| == p.k * (32 * p.du) + 32 * p.dv
  {
    var v := DecodePoly(p.dv, ct[p.k * (32 * p.du)..]);
    EncodePoly(1, PlainW(p.k, DecodeVec(12, sk), DecodeVec(p.du, ct), v))
  }

  // ----- a message bit survives exactly the centred noise in a window

  /** The centred representative, between -1664 and 1664. */
  function Centred(x: int): int {
    var r := x % Q;
    if r > Q / 2 then r - Q else r
  }

  lemma BitOf(w: int)
    requires 0 <= w < Q
    ensures Field(1, w) == if 833 <= w <= 2496 then 1 else 0
  {
    var d := 1;
    CompressFloor(d, w);
    assert Pow2(d) == 2;
  }

  lemma MessageBit(b: int, noise: int, w: int)
    requires b == 0 || b == 1
    requires w == (CoefDecode(1, b) + noise) % Q
    ensures Field(1, w) == b <==> -832 <= Centred(noise) <= 832 - b
  {
    hide Field;
    BitOf(w);
    assert CoefDecode(1, b) == 1665 * b;
    var c := 1665 * b + Centred(noise);
    assert w == c % Q && -1664 <= c <= 3329;
    assert w == if c < 0 then c + Q else if c >= Q then c - Q else c;
  }

  /** Every noise coefficient lies where rounding recovers the message bit under it. */
  ghost predicate NoiseFits(noise: Ring, msg: Bytes) {
    forall i :: 0 <= i < N ==> -832 <= Centred(noise[i]) <= 832 - Unpacked(1, msg)[i]
  }

  /** Rounding the noisy message polynomial to bits gives the message back exactly when the noise fits. */
  lemma MessageRecovered(msg: Bytes, noise: Ring)
    requires |msg| == 32 && InRange(msg, 256)
    ensures EncodePoly(1, Red(Add(Message(msg), noise))) == msg <==> NoiseFits(noise, msg)
  {
    hide Repack, CoefEncode, CoefDecode, Centred;
    Byte();
    RepackInverse(msg, 8, 1, N);
    var bits, w := Unpacked(1, msg), Red(Add(Message(msg), noise));
    assert Pow2(1) == 2;
    UnpackPack(1, w);
    forall i | 0 <= i < N
      ensures Fields(1, w)[i] == bits[i] <==> -832 <= Centred(noise[i]) <= 832 - bits[i]
    {
      assert 0 <= bits[i] < 2;
      MessageBit(bits[i], noise[i], w[i]);
    }
    if NoiseFits(noise, msg) {
      assert Fields(1, w) == bits;
    } else {
      var i :| 0 <= i < N && !(-832 <= Centred(noise[i]) <= 832 - bits[i]);
      assert Fields(1, w)[i] != bits[i];
    }
  }

  // ----- the round trip

  /** What the receiver reads back for a polynomial that was sent in d-bit fields. */
  function Received(d: nat, f: Ring): Ring
    requires d >= 1
  {
    DecodePoly(d, EncodePoly(d, f))
  }

  /** The compression errors of an encryption and the total noise they are part of. */
  function TotalNoise(p: Params, s: Sampler, seed: Bytes, msg: Bytes, coins: Bytes): Ring
    requires p.Valid()
  {
    var (rho, sigma) := KeySeeds(p, s, seed);
    var a := Matrix(s, rho);
    var sv, e := NoiseVec(s, p.eta1, sigma, 0), NoiseVec(s, p.eta1, sigma, p.k);
    var r, e1, e2 := NoiseVec(s, p.eta1, coins, 0), NoiseVec(s, p.eta2, coins, p.k), s.Noise(p.eta2, coins, 2 * p.k);
    var us, v := CipherUs(p.k, a, r, e1), CipherV(p.k, PublicRows(p.k, a, sv, e), r, e2, Message(msg));
    Noise(p.k, sv, e, r, e1, e2,
          Differences((i: nat) => Received(p.du, us(i)), us),
          Difference(Received(p.dv, v), v))
  }

  lemma DotSame(k: nat, f: nat -> Ring, f': nat -> Ring, g: nat -> Ring, g': nat -> Ring)
    requires forall i: nat :: i < k ==> f(i) == f'(i) && g(i) == g'(i)
    ensures Dot(k, f, g) == Dot(k, f', g')
  {
    VSumSame(k, Products(f, g), Products(f', g'));
  }

  lemma RedCanonical(f: Ring)
    ensures Canonical(Red(f))
  {
  }

  lemma EncCanonical(f: Ring)
    ensures Canonical(Enc(f))
  {
    hide Run;
  }

  /** The rows of an encoded vector of reduced polynomials decode to those polynomials. */
  lemma DecodeVec12(k: nat, f: nat -> Ring, rest: Bytes, i: nat)
    requires i < k && Canonical(f(i))
    ensures DecodeVec(12, EncodeVec(12, k, f) + rest)(i) == f(i)
  {
    PartOfVec(12, k, f, rest, i);
    Decode12Encode12(f(i));
  }

  /** Key and ciphertext bytes carry the polynomials they were made from. */
  lemma DecodedKeys(p: Params, s: Sampler, seed: Bytes, i: nat)
    requires i < p.k
    ensures var (rho, sigma) := KeySeeds(p, s, seed);
      var sv, e := NoiseVec(s, p.eta1, sigma, 0), NoiseVec(s, p.eta1, sigma, p.k);
      && DecodeVec(12, PublicKey(p, s, seed))(i) == PublicRows(p.k, Matrix(s, rho), sv, e)(i)
      && DecodeVec(12, SecretKey(p, s, seed))(i) == Hat(sv)(i)
  {
    hide EncodeVec, DecodeVec, PublicRow, Enc;
    var (rho, sigma) := KeySeeds(p, s, seed);
    var sv, e := NoiseVec(s, p.eta1, sigma, 0), NoiseVec(s, p.eta1, sigma, p.k);
    var rows := PublicRows(p.k, Matrix(s, rho), sv, e);
    PublicRowCanonical(p.k, Matrix(s, rho), sv, e, i);
    DecodeVec12(p.k, rows, rho, i);
    EncCanonical(sv(i));
    DecodeVec12(p.k, Hat(sv), [], i);
    assert SecretKey(p, s, seed) + [] == SecretKey(p, s, seed);
  }

  lemma PublicRowCanonical(k: nat, a: (nat, nat) -> Ring, s: nat -> Ring, e: nat -> Ring, i: nat)
    ensures Canonical(PublicRow(k, a, s, e, i))
  {
    hide Dot, Enc;
    RedCanonical(Add(Enc(e(i)), Dot(k, ColOf(a, i), Hat(s))));
  }

  lemma CipherVSame(k: nat, t: nat -> Ring, t': nat -> Ring, r: nat -> Ring, e2: Ring, mu: Ring)
    requires forall i: nat :: i < k ==> t(i) == t'(i)
    ensures CipherV(k, t, r, e2, mu) == CipherV(k, t', r, e2, mu)
  {
    hide Dec;
    DotSame(k, t, t', Hat(r), Hat(r));
  }

  lemma PlainWSame(k: nat, f: nat -> Ring, f': nat -> Ring, u: nat -> Ring, u': nat -> Ring, v: Ring)
    requires forall i: nat :: i < k ==> f(i) == f'(i) && u(i) == u'(i)
    ensures PlainW(k, f, u, v) == PlainW(k, f', u', v)
  {
    hide Dec, Enc;
    DotSame(k, f, f', Hat(u), Hat(u'));
  }

  /** Section 5 of FIPS 203: decrypting an encryption gives the message back exactly when every
      coefficient of the total noise, compression errors included, fits under its message bit. */
  lemma KpkeRoundTrip(p: Params, s: Sampler, seed: Bytes, msg: Bytes, coins: Bytes)
    requires p.Valid() && |msg| == 32 && InRange(msg, 256)
    ensures Decrypt(p, Encrypt(p, s, PublicKey(p, s, seed), msg, coins), SecretKey(p, s, seed)) == msg
       <==> NoiseFits(TotalNoise(p, s, seed, msg, coins), msg)
  {
    hide EncodeVec, DecodeVec, NoiseFits, CipherU, CipherV, PlainW, PublicRow, Hat, Noise;
    var (rho, sigma) := KeySeeds(p, s, seed);
    var k, a, pk := p.k, Matrix(s, rho), PublicKey(p, s, seed);
    var sv, e := NoiseVec(s, p.eta1, sigma, 0), NoiseVec(s, p.eta1, sigma, k);
    var r, e1, e2 := NoiseVec(s, p.eta1, coins, 0), NoiseVec(s, p.eta2, coins, k), s.Noise(p.eta2, coins, 2 * k);
    var t := PublicRows(k, a, sv, e);
    assert pk[k * 384..] == rho;
    var us := CipherUs(k, a, r, e1);
    var v := CipherV(k, t, r, e2, Message(msg));
    forall i: nat | i < k
      ensures DecodeVec(12, pk)(i) == t(i) && DecodeVec(12, SecretKey(p, s, seed))(i) == Hat(sv)(i)
    {
      DecodedKeys(p, s, seed, i);
    }
    CipherVSame(k, DecodeVec(12, pk), t, r, e2, Message(msg));
    var ct := Encrypt(p, s, pk, msg, coins);
    assert ct == EncodeVec(p.du, k, us) + EncodePoly(p.dv, v);
    var u': nat -> Ring := (i: nat) => Received(p.du, us(i));
    forall i: nat | i < k ensures DecodeVec(p.du, ct)(i) == u'(i) {
      ReceivedPart(p.du, k, us, EncodePoly(p.dv, v), i);
    }
    assert ct[k * (32 * p.du)..] == EncodePoly(p.dv, v);
    PlainWSame(k, DecodeVec(12, SecretKey(p, s, seed)), Hat(sv), DecodeVec(p.du, ct), u', Received(p.dv, v));
    DecryptionNoise(k, a, sv, e, r, e1, e2, Message(msg), u', Received(p.dv, v));
    MessageRecovered(msg, TotalNoise(p, s, seed, msg, coins));
  }

  lemma ReceivedPart(d: nat, k: nat, f: nat -> Ring, rest: Bytes, i: nat)
    requires i < k && d >= 1
    ensures DecodeVec(d, EncodeVec(d, k, f) + rest)(i) == Received(d, f(i))
  {
    PartOfVec(d, k, f, rest, i);
  }

  /** In particular noise of absolute value at most 831 never harms a message. */
  lemma SmallNoiseFits(p: Params, s: Sampler, seed: Bytes, msg: Bytes, coins: Bytes)
    requires p.Valid() && |msg| == 32 && InRange(msg, 256)
    requires forall i :: 0 <= i < N ==> -831 <= Centred(TotalNoise(p, s, seed, msg, coins)[i]) <= 831
    ensures Decrypt(p, Encrypt(p, s, PublicKey(p, s, seed), msg, coins), SecretKey(p, s, seed)) == msg
  {
    hide TotalNoise, Decrypt, Encrypt, PublicKey, SecretKey, Centred, Repack;
    Byte();
    assert Pow2(1) == 2;
    RepackInverse(msg, 8, 1, N);
    KpkeRoundTrip(p, s, seed, msg, coins);
  }

  /** Each coefficient of a compression error in the total noise is congruent to a number no larger
      than round(q / 2^(d+1)). */
  lemma CompressionNoise(d: nat, f: Ring, i: nat) returns (err: int)
    requires 1 <= d < 12 && Canonical(f) && i < N
    ensures Cong(Difference(Received(d, f), f)[i], err, Q)
    ensures -((Q + Pow2(d)) / Pow2(d + 1)) <= err <= (Q + Pow2(d)) / Pow2(d + 1)
  {
    hide Repack, CoefDecode, Field;
    UnpackPack(d, f);
    err := CompressError(d, f[i]);
    var y := CoefDecode(d, Field(d, f[i]));
    assert Received(d, f)[i] == y;
    CongSub(y, f[i] + err, f[i], f[i], Q);
  }
}
