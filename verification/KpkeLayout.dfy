/** What the bytes of K-PKE keys and ciphertexts hold, in terms of the sampled polynomials themselves. */
module KpkeLayout {
  import opened ModArith
  import opened Poly
  import opened Zetas
  import opened NttSpec
  import opened NttMul
  import opened BitPacking
  import opened Coders
  import opened KpkeSpec
  import opened KpkeBytes

  /** x(0) + ... + x(n - 1). */
  function Sum(n: nat, x: nat -> int): int {
    if n == 0 then 0 else Sum(n - 1, x) + x(n - 1)
  }

  /** The sums of the three standard ranks, written out. */
  lemma SumOfRank(n: nat, x: nat -> int)
    ensures n == 2 ==> Sum(n, x) == x(0) + x(1)
    ensures n == 3 ==> Sum(n, x) == x(0) + x(1) + x(2)
    ensures n == 4 ==> Sum(n, x) == x(0) + x(1) + x(2) + x(3)
  {
    if n == 4 {
      assert Sum(n, x) == Sum(n - 1, x) + x(3) && Sum(n - 1, x) == Sum(n - 2, x) + x(2);
    }
    if n == 3 {
      assert Sum(n, x) == Sum(n - 1, x) + x(2);
    }
  }

  lemma {:induction false} SumSame(n: nat, x: nat -> int, y: nat -> int)
    requires forall j: nat :: j < n ==> x(j) == y(j)
    ensures Sum(n, x) == Sum(n, y)
  {
    if n > 0 {
      SumSame(n - 1, x, y);
    }
  }

  /** A coefficient of a sum of polynomials is the sum of their coefficients. */
  lemma {:induction false} VSumAt(n: nat, t: nat -> Ring, q: nat, x: nat -> int)
    requires q < N && forall j: nat :: j < n ==> x(j) == t(j)[q]
    ensures VSum(n, t)[q] == Sum(n, x)
  {
    if n > 0 {
      VSumAt(n - 1, t, q, x);
    }
  }

  lemma DotAt(k: nat, f: nat -> Ring, g: nat -> Ring, q: nat, x: nat -> int)
    requires q < N && forall j: nat :: j < k ==> x(j) == Pointwise(f(j), g(j))[q]
    ensures Dot(k, f, g)[q] == Sum(k, x)
  {
    hide Pointwise;
    VSumAt(k, Products(f, g), q, x);
  }

  lemma HatOfNoise(s: Sampler, eta: nat, seed: Bytes, j: nat)
    ensures Hat(NoiseVec(s, eta, seed, 0))(j) == Encode(s.noise(eta, seed, j))
  {
    hide Encode;
    assert NoiseVec(s, eta, seed, 0)(j) == s.Noise(eta, seed, 0 + j);
  }

  lemma EntryOf(s: Sampler, rho: Bytes, i: nat, j: nat)
    ensures RowOf(Matrix(s, rho), i)(j) == s.matrix(rho, i, j) && ColOf(Matrix(s, rho), i)(j) == s.matrix(rho, j, i)
  {
  }

  // ----- keys

  lemma VecIsRows(d: nat, k: nat, f: nat -> Ring, rest: Bytes, i: nat)
    requires i < k
    ensures 0 <= i * (32 * d) <= (i + 1) * (32 * d) <= |EncodeVec(d, k, f) + rest|
    ensures (EncodeVec(d, k, f) + rest)[i * (32 * d)..(i + 1) * (32 * d)] == EncodePoly(d, f(i))
  {
    hide EncodePoly;
    PartOfVec(d, k, f, rest, i);
    MulDist(i, 1, 32 * d);
    MulNonNeg(i, 32 * d);
  }

  /** Row i of the secret key is the transform of the noise with nonce i. */
  lemma SecretRow(p: Params, s: Sampler, seed: Bytes, i: nat)
    requires i < p.k
    ensures |SecretKey(p, s, seed)| == 384 * p.k
    ensures SecretKey(p, s, seed)[384 * i..384 * (i + 1)]
         == EncodePoly(12, Encode(s.noise(p.eta1, s.expand(seed + [p.k]).1, i)))
  {
    hide EncodePoly, Encode;
    var sigma := s.expand(seed + [p.k]).1;
    var sk := SecretKey(p, s, seed);
    var f := Hat(NoiseVec(s, p.eta1, sigma, 0));
    HatOfNoise(s, p.eta1, sigma, i);
    VecIsRows(12, p.k, f, [], i);
    assert sk + [] == sk;
  }

  /** Row i of the public key: the transform of the noise with nonce k + i, plus column i of the matrix times the
      transforms of the noise with nonces 0 to k - 1. The seed of the matrix follows the rows. */
  lemma PublicRowAt(p: Params, s: Sampler, seed: Bytes, i: nat, q: nat)
    requires i < p.k && q < N
    ensures var (rho, sigma) := s.expand(seed + [p.k]);
      var pk := PublicKey(p, s, seed);
      && |pk| == 384 * p.k + |rho| && pk[384 * p.k..] == rho
      && DecodePoly(12, pk[384 * i..384 * (i + 1)])[q]
      == (Encode(s.noise(p.eta1, sigma, p.k + i))[q]
          + Sum(p.k, (j: nat) => Pointwise(s.matrix(rho, j, i), Encode(s.noise(p.eta1, sigma, j)))[q])) % Q
  {
    hide EncodePoly, DecodePoly, Encode, Pointwise, EncodeVec;
    var (rho, sigma) := s.expand(seed + [p.k]);
    var pk := PublicKey(p, s, seed);
    var a, sv, e := Matrix(s, rho), NoiseVec(s, p.eta1, sigma, 0), NoiseVec(s, p.eta1, sigma, p.k);
    DecodedKeys(p, s, seed, i);
    DecodedRow(p, pk, i);
    forall j: nat | j < p.k
      ensures Hat(sv)(j) == Encode(s.noise(p.eta1, sigma, j)) && ColOf(a, i)(j) == s.matrix(rho, j, i)
    {
      HatOfNoise(s, p.eta1, sigma, j);
      EntryOf(s, rho, i, j);
    }
    DotAt(p.k, ColOf(a, i), Hat(sv), q,
          (j: nat) => Pointwise(s.matrix(rho, j, i), Encode(s.noise(p.eta1, sigma, j)))[q]);
    PublicRowCoefficient(p.k, a, sv, e, i, q);
  }

  lemma DecodedRow(p: Params, pk: Bytes, i: nat)
    requires i < p.k && |pk| >= 384 * p.k
    ensures DecodeVec(12, pk)(i) == DecodePoly(12, pk[384 * i..384 * (i + 1)])
  {
    hide DecodePoly;
  }

  lemma PublicRowCoefficient(k: nat, a: (nat, nat) -> Ring, s: nat -> Ring, e: nat -> Ring, i: nat, q: nat)
    requires q < N
    ensures PublicRow(k, a, s, e, i)[q] == (Encode(e(i))[q] + Dot(k, ColOf(a, i), Hat(s))[q]) % Q
  {
    hide Encode, Dot;
  }

  // ----- ciphertexts

  lemma DecReduced(w: Ring, d: Ring)
    requires w == d
    ensures Dec(Red(d)) == Decode(w)
  {
    hide Dec, Decode;
    RedEqv(d);
    DecSame(Red(d), d);
    DecIsDecode(d);
  }

  lemma DecIsDecode(d: Ring)
    ensures Dec(d) == Decode(d)
  {
  }

  /** Part i of u: the noise with nonce k + i, plus row i of the matrix times the transforms of the noise with nonces
      0 to k - 1, transformed back. */
  lemma CipherRowIs(p: Params, s: Sampler, pk: Bytes, msg: Bytes, coins: Bytes, i: nat, w: Ring)
    requires i < p.k && |pk| >= 384 * p.k
    requires forall q: nat :: q < N ==>
      w[q] == Sum(p.k, (j: nat) => Pointwise(s.matrix(pk[384 * p.k..], i, j), Encode(s.noise(p.eta1, coins, j)))[q])
    ensures 0 <= i * (32 * p.du) <= (i + 1) * (32 * p.du) <= |Encrypt(p, s, pk, msg, coins)|
    ensures Encrypt(p, s, pk, msg, coins)[i * (32 * p.du)..(i + 1) * (32 * p.du)]
         == EncodePoly(p.du, Reduce(Add(s.noise(p.eta2, coins, p.k + i), Decode(w)), Q))
  {
    hide EncodePoly, DecodePoly, Encode, Decode, Pointwise, EncodeVec, CipherV, Dot;
    var rho := pk[384 * p.k..];
    var a, r, e1 := Matrix(s, rho), NoiseVec(s, p.eta1, coins, 0), NoiseVec(s, p.eta2, coins, p.k);
    RowInner(p, s, rho, coins, i, w);
    DecReduced(w, Dot(p.k, RowOf(a, i), Hat(r)));
    var f := CipherUs(p.k, a, r, e1);
    PartOfU(p.k, a, r, e1, i);
    assert e1(i) == s.Noise(p.eta2, coins, p.k + i);
    VecIsRows(p.du, p.k, f,
              EncodePoly(p.dv, CipherV(p.k, DecodeVec(12, pk), r, s.Noise(p.eta2, coins, 2 * p.k), Message(msg))), i);
  }

  lemma PartOfU(k: nat, a: (nat, nat) -> Ring, r: nat -> Ring, e1: nat -> Ring, i: nat)
    ensures CipherUs(k, a, r, e1)(i) == Reduce(Add(e1(i), Dec(Red(Dot(k, RowOf(a, i), Hat(r))))), Q)
  {
    hide Dec, Dot;
  }

  lemma RowInner(p: Params, s: Sampler, rho: Bytes, coins: Bytes, i: nat, w: Ring)
    requires forall q: nat :: q < N ==>
      w[q] == Sum(p.k, (j: nat) => Pointwise(s.matrix(rho, i, j), Encode(s.noise(p.eta1, coins, j)))[q])
    ensures w == Dot(p.k, RowOf(Matrix(s, rho), i), Hat(NoiseVec(s, p.eta1, coins, 0)))
  {
    hide NoiseVec, Matrix, RowOf, Hat, Encode, Pointwise, Dot, Sum;
    var f, g := RowOf(Matrix(s, rho), i), Hat(NoiseVec(s, p.eta1, coins, 0));
    forall j: nat ensures f(j) == s.matrix(rho, i, j) {
      EntryOf(s, rho, i, j);
    }
    forall j: nat ensures g(j) == Encode(s.noise(p.eta1, coins, j)) {
      HatOfNoise(s, p.eta1, coins, j);
    }
    forall q: nat | q < N ensures w[q] == Dot(p.k, f, g)[q] {
      DotAt(p.k, f, g, q, (j: nat) => Pointwise(s.matrix(rho, i, j), Encode(s.noise(p.eta1, coins, j)))[q]);
    }
  }

  /** The last part: the message, the noise with nonce 2k, and the rows of the public key times the transforms of the
      noise with nonces 0 to k - 1, transformed back. */
  lemma CipherTailIs(p: Params, s: Sampler, pk: Bytes, msg: Bytes, coins: Bytes, w: Ring)
    requires |pk| >= 384 * p.k
    requires forall q: nat :: q < N ==>
      w[q] == Sum(p.k, (j: nat) => if j >= p.k then 0 else
        Pointwise(DecodePoly(12, pk[384 * j..384 * (j + 1)]), Encode(s.noise(p.eta1, coins, j)))[q])
    ensures |Encrypt(p, s, pk, msg, coins)| == p.k * (32 * p.du) + 32 * p.dv && p.k * (32 * p.du) >= 0
    ensures Encrypt(p, s, pk, msg, coins)[p.k * (32 * p.du)..]
         == EncodePoly(p.dv, Reduce(Add(Add(DecodePoly(1, msg), s.noise(p.eta2, coins, 2 * p.k)), Decode(w)), Q))
  {
    hide EncodePoly, DecodePoly, Encode, Decode, Pointwise, EncodeVec, CipherUs, Dot;
    var r, t := NoiseVec(s, p.eta1, coins, 0), DecodeVec(12, pk);
    TailInner(p, s, pk, coins, w);
    DecReduced(w, Dot(p.k, t, Hat(r)));
    MulNonNeg(p.k, 32 * p.du);
    TwoReductions(DecodePoly(1, msg), s.Noise(p.eta2, coins, 2 * p.k), Dec(Red(Dot(p.k, t, Hat(r)))));
  }

  lemma TailInner(p: Params, s: Sampler, pk: Bytes, coins: Bytes, w: Ring)
    requires |pk| >= 384 * p.k
    requires forall q: nat :: q < N ==>
      w[q] == Sum(p.k, (j: nat) => if j >= p.k then 0 else
        Pointwise(DecodePoly(12, pk[384 * j..384 * (j + 1)]), Encode(s.noise(p.eta1, coins, j)))[q])
    ensures w == Dot(p.k, DecodeVec(12, pk), Hat(NoiseVec(s, p.eta1, coins, 0)))
  {
    hide NoiseVec, Hat, DecodePoly, DecodeVec, Encode, Pointwise, Dot, Sum;
    var f, g := DecodeVec(12, pk), Hat(NoiseVec(s, p.eta1, coins, 0));
    forall j: nat | j < p.k ensures f(j) == DecodePoly(12, pk[384 * j..384 * (j + 1)]) {
      DecodedRow(p, pk, j);
    }
    forall j: nat ensures g(j) == Encode(s.noise(p.eta1, coins, j)) {
      HatOfNoise(s, p.eta1, coins, j);
    }
    forall q: nat | q < N ensures w[q] == Dot(p.k, f, g)[q] {
      DotAt(p.k, f, g, q, (j: nat) => if j >= p.k then 0 else
        Pointwise(DecodePoly(12, pk[384 * j..384 * (j + 1)]), Encode(s.noise(p.eta1, coins, j)))[q]);
    }
  }

  lemma TwoReductions(mu: Ring, e: Ring, x: Ring)
    ensures Red(Add(mu, Red(Add(e, x)))) == Reduce(Add(Add(mu, e), x), Q)
  {
    forall i | 0 <= i < N ensures (mu[i] + (e[i] + x[i]) % Q) % Q == (mu[i] + e[i] + x[i]) % Q {
    }
  }

  // ----- decryption

  /** The i-th piece of n bytes, if it is there. */
  function Piece(bytes: Bytes, n: nat, i: nat): Bytes {
    if 0 <= i * n <= (i + 1) * n <= |bytes| then bytes[i * n..(i + 1) * n] else []
  }

  lemma DecodedPart(d: nat, k: nat, bytes: Bytes, i: nat)
    requires i < k && d >= 1 && |bytes| >= k * (32 * d)
    ensures |Piece(bytes, 32 * d, i)| == 32 * d && DecodeVec(d, bytes)(i) == DecodePoly(d, Piece(bytes, 32 * d, i))
  {
    hide DecodePoly;
    MulMono(i + 1, k, 32 * d);
    MulDist(i, 1, 32 * d);
    MulNonNeg(i, 32 * d);
  }

  /** The message bits are those of v minus the rows of the secret key times the transforms of the parts of u. */
  lemma DecryptIs(p: Params, ct: Bytes, sk: Bytes, u: nat -> Ring, w: Ring)
    requires p.Valid() && |ct| == p.k * (32 * p.du) + 32 * p.dv && |sk| == 384 * p.k && p.k * (32 * p.du) >= 0
    requires forall i: nat :: i < p.k ==> u(i) == DecodePoly(p.du, Piece(ct, 32 * p.du, i))
    requires forall q: nat :: q < N ==>
      w[q] == Sum(p.k, (i: nat) => if i >= p.k then 0 else
        Pointwise(DecodePoly(12, sk[384 * i..384 * (i + 1)]), Encode(u(i)))[q])
    ensures Decrypt(p, ct, sk) == EncodePoly(1, Reduce(Sub(DecodePoly(p.dv, ct[p.k * (32 * p.du)..]), Decode(w)), Q))
  {
    hide EncodePoly, DecodePoly, DecodeVec, Encode, Decode, Pointwise, Dot, Sum;
    var f, c := DecodeVec(12, sk), DecodeVec(p.du, ct);
    forall i: nat | i < p.k ensures f(i) == DecodePoly(12, sk[384 * i..384 * (i + 1)]) && c(i) == u(i) {
      DecodedRow(p, sk, i);
      DecodedPart(p.du, p.k, ct, i);
    }
    var v := DecodePoly(p.dv, ct[p.k * (32 * p.du)..]);
    PlainWSame(p.k, f, f, c, u, v);
    HatAt(u);
    forall q: nat | q < N ensures w[q] == Dot(p.k, f, Hat(u))[q] {
      DotAt(p.k, f, Hat(u), q, (i: nat) => if i >= p.k then 0 else
        Pointwise(DecodePoly(12, sk[384 * i..384 * (i + 1)]), Encode(u(i)))[q]);
    }
    DecReduced(w, Dot(p.k, f, Hat(u)));
    PlainWIs(p.k, f, u, v);
  }

  lemma HatAt(u: nat -> Ring)
    ensures forall i: nat :: Hat(u)(i) == Encode(u(i))
  {
    hide Encode;
  }

  lemma PlainWIs(k: nat, f: nat -> Ring, u: nat -> Ring, v: Ring)
    ensures PlainW(k, f, u, v) == Reduce(Sub(v, Dec(Red(Dot(k, f, Hat(u))))), Q)
  {
    hide Dec, Dot;
  }
}
