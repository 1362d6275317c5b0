/** The key encapsulation of ML-KEM around K-PKE: re-encryption decides between the shared key and the rejection key. */
module Kem {
  import opened Options
  import opened Poly
  import opened Zetas
  import opened Ntt
  import opened BitPacking
  import opened Coders
  import opened KpkeSpec
  import opened KpkeBytes
  import opened KpkeCode

  function Blank(n: nat): Bytes {
    seq(n, _ => 0)
  }

  type Digest = b: Bytes | |b| == 32 && InRange(b, 256) witness Blank(32)
  type Wide = b: Bytes | |b| == 64 && InRange(b, 256) witness Blank(64)

  /** The hash functions around the scheme. */
  datatype Hashes = Hashes(h256: Bytes -> Digest, h512: Bytes -> Wide, kdf: Bytes -> Digest)

  /** The seed expansion yields a 32-byte rho. */
  ghost predicate SeedsSized(p: Params, s: Sampler, seed: Bytes) {
    |KeySeeds(p, s, seed).0| == 32 && InRange(KeySeeds(p, s, seed).0, 256)
  }

  ghost predicate IsBytes(b: Bytes, n: nat) {
    |b| == n && InRange(b, 256)
  }

  function CipherLen(p: Params): nat {
    p.k * (32 * p.du) + 32 * p.dv
  }

  // ----- the scheme

  function KemSecret(p: Params, s: Sampler, hs: Hashes, seed: Bytes, z: Bytes): Bytes {
    SecretKey(p, s, seed) + PublicKey(p, s, seed) + hs.h256(PublicKey(p, s, seed)) + z
  }

  /** Every 12-bit field of the key rows is below the modulus. */
  ghost predicate ModulusOk(p: Params, pk: Bytes) {
    forall i: nat, j: nat :: i < p.k && j < N ==>
      (i + 1) * 384 <= |pk| && Unpacked(12, VecPart(12, pk, i))[j] < Q
  }

  /** The shared key and the coins for a message under a public key with this hash. */
  function KeyAndCoins(hs: Hashes, m: Bytes, h: Bytes): (Bytes, Bytes) {
    var kr := hs.h512(m + h);
    (kr[..32], kr[32..64])
  }

  /** The ciphertext and the shared key. */
  function Encapsulated(p: Params, s: Sampler, hs: Hashes, pk: Bytes, m: Bytes): (Bytes, Bytes)
    requires |pk| >= p.k * 384
  {
    var (key, coins) := KeyAndCoins(hs, m, hs.h256(pk));
    (Encrypt(p, s, pk, m, coins), key)
  }

  function Decapsulated(p: Params, s: Sampler, hs: Hashes, ct: Bytes, dk: Bytes): Option<Bytes>
    requires p.Valid() && |ct| == CipherLen(p) && |dk| == 768 * p.k + 96
  {
    var n := 384 * p.k;
    var sk, pk, h, z := dk[..n], dk[n..2 * n + 32], dk[2 * n + 32..2 * n + 64], dk[2 * n + 64..];
    if hs.h256(pk) != h then None
    else
      var m := Decrypt(p, ct, sk);
      var (key, coins) := KeyAndCoins(hs, m, h);
      Some(if ct == Encrypt(p, s, pk, m, coins) then key else hs.kdf(z + ct))
  }

  // ----- byte ranges

  lemma EncodedInRange(d: nat, f: Vec)
    requires |f| == N
    ensures InRange(EncodePoly(d, f), 256)
  {
    hide Repack;
    Byte();
    RepackInverse(Fields(d, f), d, 8, 32 * d);
  }

  lemma {:induction false} VecInRange(d: nat, k: nat, f: nat -> Ring)
    ensures InRange(EncodeVec(d, k, f), 256)
  {
    hide EncodePoly;
    if k > 0 {
      VecInRange(d, k - 1, f);
      EncodedInRange(d, f(k - 1));
    }
  }

  lemma {:induction false} VecSame(d: nat, k: nat, f: nat -> Ring, g: nat -> Ring)
    requires forall i: nat :: i < k ==> f(i) == g(i)
    ensures EncodeVec(d, k, f) == EncodeVec(d, k, g)
  {
    hide EncodePoly;
    if k > 0 {
      VecSame(d, k - 1, f, g);
    }
  }

  lemma KeyBytes(p: Params, s: Sampler, seed: Bytes)
    requires SeedsSized(p, s, seed)
    ensures IsBytes(PublicKey(p, s, seed), p.k * 384 + 32) && IsBytes(SecretKey(p, s, seed), p.k * 384)
  {
    hide EncodeVec, PublicRows, Hat;
    var (rho, sigma) := KeySeeds(p, s, seed);
    VecInRange(12, p.k, PublicRows(p.k, Matrix(s, rho), NoiseVec(s, p.eta1, sigma, 0), NoiseVec(s, p.eta1, sigma, p.k)));
    VecInRange(12, p.k, Hat(NoiseVec(s, p.eta1, sigma, 0)));
  }

  lemma CipherBytes(p: Params, s: Sampler, pk: Bytes, m: Bytes, coins: Bytes)
    requires |pk| >= p.k * 384
    ensures IsBytes(Encrypt(p, s, pk, m, coins), CipherLen(p))
  {
    hide EncodeVec, CipherUs, CipherV, EncodePoly;
    var t, a, r := DecodeVec(12, pk), Matrix(s, pk[p.k * 384..]), NoiseVec(s, p.eta1, coins, 0);
    VecInRange(p.du, p.k, CipherUs(p.k, a, r, NoiseVec(s, p.eta2, coins, p.k)));
    EncodedInRange(p.dv, CipherV(p.k, t, r, s.Noise(p.eta2, coins, 2 * p.k), Message(m)));
  }

  lemma MessageBytes(p: Params, ct: Bytes, sk: Bytes)
    requires p.Valid() && |ct| == CipherLen(p)
    ensures IsBytes(Decrypt(p, ct, sk), 32)
  {
    hide PlainW, EncodePoly;
    var v := DecodePoly(p.dv, ct[p.k * (32 * p.du)..]);
    EncodedInRange(1, PlainW(p.k, DecodeVec(12, sk), DecodeVec(p.du, ct), v));
  }

  // ----- properties

  /** A generated public key always passes the modulus check of encapsulation. */
  lemma OwnKeyAccepted(p: Params, s: Sampler, seed: Bytes)
    requires SeedsSized(p, s, seed)
    ensures ModulusOk(p, PublicKey(p, s, seed))
  {
    hide EncodeVec, DecodeVec, PublicRows, Unpacked, VecPart;
    var (rho, sigma) := KeySeeds(p, s, seed);
    var rows := PublicRows(p.k, Matrix(s, rho), NoiseVec(s, p.eta1, sigma, 0), NoiseVec(s, p.eta1, sigma, p.k));
    var pk := PublicKey(p, s, seed);
    forall i: nat | i < p.k ensures DecodeVec(12, pk)(i) == rows(i) {
      DecodedKeys(p, s, seed, i);
    }
    VecSame(12, p.k, DecodeVec(12, pk), rows);
    KeyBytes(p, s, seed);
    assert pk[..p.k * 384] == EncodeVec(12, p.k, rows);
    ModulusRows(p.k, pk);
  }

  /** The parts of the secret key come apart again. */
  lemma SecretParts(p: Params, s: Sampler, hs: Hashes, seed: Bytes, z: Bytes)
    requires SeedsSized(p, s, seed) && |z| == 32
    ensures var dk, n := KemSecret(p, s, hs, seed, z), 384 * p.k;
      && |dk| == 768 * p.k + 96 && dk[..n] == SecretKey(p, s, seed) && dk[n..2 * n + 32] == PublicKey(p, s, seed)
      && dk[2 * n + 32..2 * n + 64] == hs.h256(PublicKey(p, s, seed)) && dk[2 * n + 64..] == z
  {
    hide PublicKey, SecretKey;
    KeyBytes(p, s, seed);
    Four(SecretKey(p, s, seed), PublicKey(p, s, seed), hs.h256(PublicKey(p, s, seed)), z);
  }

  lemma Four(a: Bytes, b: Bytes, c: Bytes, d: Bytes)
    ensures var t := a + b + c + d;
      && t[..|a|] == a && t[|a|..|a| + |b|] == b && t[|a| + |b|..|a| + |b| + |c|] == c && t[|a| + |b| + |c|..] == d
  {
  }

  /** Section 6 of FIPS 203: decapsulating an encapsulation gives the shared key whenever the noise fits. Otherwise it
      gives the rejection key, unless another message encapsulates to the very same ciphertext. */
  lemma KemRoundTrip(p: Params, s: Sampler, hs: Hashes, seed: Bytes, z: Bytes, m: Bytes)
    requires p.Valid() && SeedsSized(p, s, seed) && |z| == 32 && IsBytes(m, 32)
    ensures |KemSecret(p, s, hs, seed, z)| == 768 * p.k + 96 && |PublicKey(p, s, seed)| >= p.k * 384
    ensures var pk := PublicKey(p, s, seed);
      var (ct, key) := Encapsulated(p, s, hs, pk, m);
      && |ct| == CipherLen(p)
      && var r := Decapsulated(p, s, hs, ct, KemSecret(p, s, hs, seed, z));
         if NoiseFits(TotalNoise(p, s, seed, m, KeyAndCoins(hs, m, hs.h256(pk)).1), m) then r == Some(key)
         else r == Some(hs.kdf(z + ct)) ||
              exists m' :: m' != m && Encapsulated(p, s, hs, pk, m').0 == ct && r == Some(Encapsulated(p, s, hs, pk, m').1)
  {
    hide PublicKey, SecretKey, Encrypt, Decrypt, TotalNoise, NoiseFits, KemSecret;
    KeyBytes(p, s, seed);
    SecretParts(p, s, hs, seed, z);
    var pk := PublicKey(p, s, seed);
    var (ct, key) := Encapsulated(p, s, hs, pk, m);
    var coins := KeyAndCoins(hs, m, hs.h256(pk)).1;
    CipherBytes(p, s, pk, m, coins);
    KpkeRoundTrip(p, s, seed, m, coins);
    var m' := Decrypt(p, ct, SecretKey(p, s, seed));
    assert m' != m ==> Encapsulated(p, s, hs, pk, m').0 == Encrypt(p, s, pk, m', KeyAndCoins(hs, m', hs.h256(pk)).1);
  }

  // ----- the code

  method KemKeyGen(p: Params, s: Sampler, hs: Hashes, seed: Bytes, z: Bytes, roots: Buffer)
    returns (publicKey: Bytes, secretKey: Bytes)
    requires roots.Length == N && IsZetaTable(roots[..])
    ensures publicKey == PublicKey(p, s, seed) && secretKey == KemSecret(p, s, hs, seed, z)
    ensures secretKey == SecretKey(p, s, seed) + publicKey + hs.h256(publicKey) + z
  {
    hide IsZetaTable, PublicKey, SecretKey;
    var pk, sk := KeyGen(p, s, seed, roots);
    publicKey := pk;
    secretKey := sk + pk + hs.h256(pk) + z;
  }

  /** Refused for a public key with a field that is not below the modulus. The digest of the message and the hashed key
      is the shared key followed by the coins. */
  method Encapsulate(p: Params, s: Sampler, hs: Hashes, publicKey: Bytes, m: Bytes, roots: Buffer)
    returns (r: Option<(Bytes, Bytes)>)
    requires p.Valid() && roots.Length == N && IsZetaTable(roots[..])
    requires IsBytes(publicKey, p.k * 384 + 32) && IsBytes(m, 32)
    ensures r.Some? <==> ModulusOk(p, publicKey)
    ensures r.Some? ==> r.value == Encapsulated(p, s, hs, publicKey, m)
    ensures r.Some? ==> var kr := hs.h512(m + hs.h256(publicKey));
      r.value.0 == Encrypt(p, s, publicKey, m, kr[32..64]) && r.value.1 == kr[..32]
  {
    hide IsZetaTable, Encrypt, Unpacked, VecPart;
    var ok := ValidateModulus(p, publicKey, roots);
    if !ok {
      return None;
    }
    var kr := hs.h512(m + hs.h256(publicKey));
    var cipherText := EncryptBytes(p, s, publicKey, m, kr[32..64], roots);
    r := Some((cipherText, kr[..32]));
  }

  /** Refused for a secret key whose embedded public key does not match its hash. The shared key is returned exactly if
      the decrypted message encrypts to the ciphertext again, and the rejection key otherwise. */
  method Decapsulate(p: Params, s: Sampler, hs: Hashes, cipherText: Bytes, secretKey: Bytes, roots: Buffer)
    returns (r: Option<Bytes>)
    requires p.Valid() && roots.Length == N && IsZetaTable(roots[..])
    requires IsBytes(cipherText, CipherLen(p)) && IsBytes(secretKey, 768 * p.k + 96)
    ensures r == Decapsulated(p, s, hs, cipherText, secretKey)
    ensures var n := 384 * p.k;
      var pk, h, z := secretKey[n..2 * n + 32], secretKey[2 * n + 32..2 * n + 64], secretKey[2 * n + 64..];
      var m := Decrypt(p, cipherText, secretKey[..n]);
      var kr := hs.h512(m + h);
      && (r.Some? <==> hs.h256(pk) == h)
      && (r.Some? && cipherText == Encrypt(p, s, pk, m, kr[32..64]) ==> r.value == kr[..32])
      && (r.Some? && cipherText != Encrypt(p, s, pk, m, kr[32..64]) ==> r.value == hs.kdf(z + cipherText))
  {
    hide IsZetaTable, Encrypt, Decrypt;
    var k768 := |secretKey| - 96;
    var start := k768 + 32;
    var n := 384 * p.k;
    assert k768 / 2 == n && start == 2 * n + 32;
    var sk, publicKey, z := secretKey[..n], secretKey[n..start], secretKey[start + 32..];
    var publicKeyHash := secretKey[start..start + 32];
    if hs.h256(publicKey) != publicKeyHash {
      return None;
    }
    var msg := DecryptBytes(p, cipherText, sk, roots);
    MessageBytes(p, cipherText, sk);
    var kr := hs.h512(msg + publicKeyHash);
    var cipherText2 := EncryptBytes(p, s, publicKey, msg, kr[32..64], roots);
    var kBar := hs.kdf(z + cipherText);
    r := Some(if cipherText == cipherText2 then kr[..32] else kBar);
  }
}
