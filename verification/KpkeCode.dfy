/** K-PKE as the code runs it: polynomials live in buffers that sums, products and transforms
    overwrite, and finished buffers are cleared while others are still in use. */
module KpkeCode {
  import opened ModArith
  import opened Poly
  import opened Zetas
  import opened NttSpec
  import opened NttMul
  import opened Ntt
  import opened BitPacking
  import opened Coders
  import opened KpkeSpec
  import opened KpkeBytes

  type Buffer = array<int>

  /** A freshly allocated sample. */
  method Sample(f: Sampled) returns (a: Buffer)
    ensures fresh(a) && a.Length == N && a[..] == f && Canonical(a[..])
  {
    a := new int[N](i requires 0 <= i < N => f[i]);
  }

  method ZeroPoly() returns (a: Buffer)
    ensures fresh(a) && a.Length == N && a[..] == Zero(N) && Canonical(a[..])
  {
    a := new int[N](_ => 0);
  }

  method FromBytes(bytes: Bytes) returns (a: Buffer)
    ensures fresh(a) && a[..] == bytes
  {
    a := new int[|bytes|](i requires 0 <= i < |bytes| => bytes[i]);
  }

  method Clean(a: Buffer)
    modifies a
  {
    for i := 0 to a.Length {
      a[i] := 0;
    }
  }

  method CleanAll(xs: seq<Buffer>)
    modifies xs
  {
    for i := 0 to |xs| {
      Clean(xs[i]);
    }
  }

  /** Distinct buffers of the right size, none of them the root table. */
  ghost predicate Buffers(xs: seq<Buffer>, roots: Buffer) {
    && (forall i :: 0 <= i < |xs| ==> xs[i].Length == N && xs[i] != roots)
    && (forall i, j :: 0 <= i < j < |xs| ==> xs[i] != xs[j])
  }

  /** Buffer `i` holds `f(i)`, from index `from` on. */
  ghost predicate Holds(xs: seq<Buffer>, f: nat -> Ring, from: nat)
    reads xs
  {
    forall i: nat :: from <= i < |xs| ==> xs[i][..] == f(i) && Canonical(xs[i][..])
  }

  /** Accumulating reduced products keeps the reduced exact sum. */
  lemma Accumulate(n: nat, f: nat -> Ring, g: nat -> Ring)
    ensures Red(Add(Red(Dot(n, f, g)), Red(Prod(f(n), g(n))))) == Red(Dot(n + 1, f, g))
  {
    hide Prod;
    var d, q := Dot(n, f, g), Prod(f(n), g(n));
    RedEqv(d);
    RedEqv(q);
    EqvAdd(Red(d), d, Red(q), q, Q);
    RedSame(Add(Red(d), Red(q)), Add(d, q));
  }

  lemma EmptyDot(f: nat -> Ring, g: nat -> Ring)
    ensures Red(Dot(0, f, g)) == Zero(N)
  {
  }

  lemma AddRedLeft(x: Ring, y: Ring)
    ensures Red(Add(Red(x), y)) == Red(Add(x, y)) && Red(Add(x, Red(y))) == Red(Add(x, y))
  {
    RedEqv(x);
    RedEqv(y);
    EqvRefl(x);
    EqvRefl(y);
    EqvAdd(Red(x), x, y, y, Q);
    EqvAdd(x, x, Red(y), y, Q);
    RedSame(Add(Red(x), y), Add(x, y));
    RedSame(Add(x, Red(y)), Add(x, y));
  }

  /** The transforms of `k` noise samples, each in its own buffer. */
  method SampleHats(k: nat, s: Sampler, eta: nat, seed: Bytes, roots: Buffer) returns (hats: seq<Buffer>)
    requires IsZetaTable(roots[..])
    ensures |hats| == k && fresh(hats) && Buffers(hats, roots)
    ensures Holds(hats, Hat(NoiseVec(s, eta, seed, 0)), 0)
  {
    hide Enc, IsZetaTable;
    hats := [];
    ghost var f := Hat(NoiseVec(s, eta, seed, 0));
    for i := 0 to k
      invariant |hats| == i && fresh(hats) && Buffers(hats, roots) && Holds(hats, f, 0)
      invariant IsZetaTable(roots[..])
    {
      var b := Sample(s.noise(eta, seed, i));
      NoiseIs(s, eta, seed, i);
      assert b[..] == NoiseVec(s, eta, seed, 0)(i);
      TableSize(roots[..]);
      NttEncode(b, roots);
      EncCanonical(NoiseVec(s, eta, seed, 0)(i));
      EncIs(NoiseVec(s, eta, seed, 0)(i));
      hats := hats + [b];
    }
  }

  lemma EncIs(f: Ring)
    ensures Enc(f) == Encode(f)
  {
  }

  lemma TableSize(roots: Vec)
    requires IsZetaTable(roots)
    ensures |roots| == N
  {
  }

  /** One row times the transformed vector: every product overwrites the matrix entry it was made from. */
  method RowTimes(k: nat, a: (nat, nat) -> Ring, s: Sampler, rho: Bytes, i: nat, transpose: bool,
                  hats: seq<Buffer>, ghost h: nat -> Ring, acc: Buffer, roots: Buffer)
    requires a == Matrix(s, rho)
    requires roots.Length == N && IsZetaTable(roots[..]) && |hats| == k && Buffers(hats, roots) && Holds(hats, h, 0)
    requires acc.Length == N && acc !in hats && acc != roots && Canonical(acc[..])
    modifies acc
    ensures acc[..] == Red(Add(old(acc[..]), Dot(k, if transpose then ColOf(a, i) else RowOf(a, i), h)))
  {
    hide Prod, IsZetaTable, Matrix, Pointwise, Canonical;
    ghost var x := acc[..];
    ghost var f := if transpose then ColOf(a, i) else RowOf(a, i);
    StartRow(x, f, h);
    for j := 0 to k
      invariant Holds(hats, h, 0) && IsZetaTable(roots[..])
      invariant acc[..] == Red(Add(x, Dot(j, f, h))) && Canonical(acc[..])
    {
      var aij := Sample(if transpose then s.matrix(rho, j, i) else s.matrix(rho, i, j));
      EntryIs(s, rho, i, j, transpose);
      assert aij[..] == f(j);
      MultiplyNtts(aij, hats[j], roots);
      ProductIs(f(j), h(j));
      PolyAdd(acc, aij);
      RowStep(x, j, f, h);
    }
  }

  lemma EntryIs(s: Sampler, rho: Bytes, i: nat, j: nat, transpose: bool)
    ensures (if transpose then s.matrix(rho, j, i) else s.matrix(rho, i, j))
         == (if transpose then ColOf(Matrix(s, rho), i) else RowOf(Matrix(s, rho), i))(j)
  {
  }

  lemma ProductIs(f: Ring, g: Ring)
    ensures Reduce(Pointwise(f, g), Q) == Red(Prod(f, g)) && Canonical(Red(Prod(f, g)))
  {
    RedCanonical(Prod(f, g));
  }

  lemma StartRow(x: Ring, f: nat -> Ring, h: nat -> Ring)
    requires Canonical(x)
    ensures x == Red(Add(x, Dot(0, f, h)))
  {
    assert Add(x, Zero(N)) == x;
  }

  lemma RowStep(x: Ring, j: nat, f: nat -> Ring, h: nat -> Ring)
    ensures Red(Add(Red(Add(x, Dot(j, f, h))), Red(Prod(f(j), h(j))))) == Red(Add(x, Dot(j + 1, f, h)))
    ensures Canonical(Red(Add(x, Dot(j + 1, f, h))))
  {
    hide Prod;
    var d, q := Dot(j, f, h), Prod(f(j), h(j));
    AddRedLeft(Add(x, d), Red(q));
    AddRedLeft(Add(x, d), q);
    assert Add(Add(x, d), q) == Add(x, Add(d, q));
    RedCanonical(Add(x, Dot(j + 1, f, h)));
  }

  lemma TwoVecs(d: nat, k: nat, f: nat -> Ring)
    ensures EncodeVec(d, k + 1, f) == EncodeVec(d, k, f) + EncodePoly(d, f(k))
  {
  }

  /** Encodes a vector of buffers polynomial by polynomial. */
  method EncodeBuffers(d: nat, k: nat, xs: seq<Buffer>, ghost f: nat -> Ring, roots: Buffer) returns (r: Bytes)
    requires 1 <= d <= 12 && |xs| == k && Buffers(xs, roots) && Holds(xs, f, 0)
    ensures r == EncodeVec(d, k, f)
  {
    hide EncodePoly;
    r := [];
    for i := 0 to k
      invariant r == EncodeVec(d, i, f)
    {
      var b := BitsEncode(d, xs[i]);
      r := r + b[..];
      TwoVecs(d, i, f);
    }
  }

  /** Row `i` of the public key, built in the buffer of the transformed error. */
  method KeyRow(p: Params, s: Sampler, rho: Bytes, sigma: Bytes, i: nat, sHat: seq<Buffer>, roots: Buffer)
    returns (b: Buffer)
    requires roots.Length == N && IsZetaTable(roots[..])
    requires |sHat| == p.k && Buffers(sHat, roots) && Holds(sHat, Hat(NoiseVec(s, p.eta1, sigma, 0)), 0)
    ensures fresh(b) && b.Length == N && Canonical(b[..])
    ensures b[..] == PublicRow(p.k, Matrix(s, rho), NoiseVec(s, p.eta1, sigma, 0), NoiseVec(s, p.eta1, sigma, p.k), i)
  {
    hide Enc, IsZetaTable, Dot, Buffers, Canonical;
    var k := p.k;
    ghost var e := NoiseVec(s, p.eta1, sigma, k);
    b := Sample(s.noise(p.eta1, sigma, k + i));
    NoiseIs(s, p.eta1, sigma, k + i);
    assert b[..] == e(i);
    NttEncode(b, roots);
    EncIs(e(i));
    EncCanonical(e(i));
    RowTimes(k, Matrix(s, rho), s, rho, i, true, sHat, Hat(NoiseVec(s, p.eta1, sigma, 0)), b, roots);
    PublicRowCanonical(k, Matrix(s, rho), NoiseVec(s, p.eta1, sigma, 0), e, i);
  }

  method KeyGen(p: Params, s: Sampler, seed: Bytes, roots: Buffer) returns (publicKey: Bytes, secretKey: Bytes)
    requires roots.Length == N && IsZetaTable(roots[..])
    ensures publicKey == PublicKey(p, s, seed) && secretKey == SecretKey(p, s, seed)
  {
    hide Enc, IsZetaTable, EncodeVec, Buffers, Canonical, PublicRow;
    var k := p.k;
    var (rho, sigma) := s.expand(seed + [k]);
    var sHat := SampleHats(k, s, p.eta1, sigma, roots);
    ghost var h := Hat(NoiseVec(s, p.eta1, sigma, 0));
    ghost var t := PublicRows(k, Matrix(s, rho), NoiseVec(s, p.eta1, sigma, 0), NoiseVec(s, p.eta1, sigma, k));
    var tHat: seq<Buffer> := [];
    NoBuffers(roots);
    for i := 0 to k
      invariant |tHat| == i && fresh(tHat) && Buffers(tHat, roots) && Holds(tHat, t, 0)
      invariant Buffers(sHat, roots) && Holds(sHat, h, 0) && fresh(sHat) && IsZetaTable(roots[..])
    {
      var b := KeyRow(p, s, rho, sigma, i, sHat, roots);
      MoreBuffers(tHat, b, roots);
      tHat := tHat + [b];
    }
    publicKey := EncodeBuffers(12, k, tHat, t, roots);
    publicKey := publicKey + rho;
    secretKey := EncodeBuffers(12, k, sHat, h, roots);
    CleanAll(sHat);
    CleanAll(tHat);
  }

  lemma NoBuffers(roots: Buffer)
    ensures Buffers([], roots)
  {
  }

  lemma MoreBuffers(xs: seq<Buffer>, b: Buffer, roots: Buffer)
    requires Buffers(xs, roots) && b !in xs && b != roots && b.Length == N
    ensures Buffers(xs + [b], roots)
  {
  }

  /** Component `i` of u, built in the sampled error buffer. */
  method CipherRow(p: Params, s: Sampler, rho: Bytes, coins: Bytes, i: nat, rHat: seq<Buffer>, roots: Buffer)
    returns (e1: Buffer)
    requires roots.Length == N && IsZetaTable(roots[..])
    requires |rHat| == p.k && Buffers(rHat, roots) && Holds(rHat, Hat(NoiseVec(s, p.eta1, coins, 0)), 0)
    ensures fresh(e1) && e1.Length == N && Canonical(e1[..])
    ensures e1[..] == CipherU(p.k, Matrix(s, rho), NoiseVec(s, p.eta1, coins, 0), NoiseVec(s, p.eta2, coins, p.k), i)
  {
    hide Enc, Dec, IsZetaTable, Dot, Buffers;
    var k := p.k;
    var a := Matrix(s, rho);
    ghost var h := Hat(NoiseVec(s, p.eta1, coins, 0));
    ghost var d := Dot(k, RowOf(a, i), h);
    e1 := Sample(s.noise(p.eta2, coins, k + i));
    ghost var e := NoiseVec(s, p.eta2, coins, k)(i);
    NoiseIs(s, p.eta2, coins, k + i);
    assert e1[..] == e;
    var tmp := ZeroPoly();
    RowTimes(k, a, s, rho, i, false, rHat, h, tmp, roots);
    ZeroPlus(d);
    RedCanonical(d);
    NttDecode(tmp, roots);
    DecIs(Red(d));
    PolyAdd(e1, tmp);
    RedCanonical(Add(e, Dec(Red(d))));
    Clean(tmp);
  }

  /** v, built in the buffer of the decoded message. */
  method CipherTail(p: Params, s: Sampler, msg: Bytes, coins: Bytes, ghost d: Ring, tmp2: Buffer, roots: Buffer)
    returns (v: Buffer)
    requires roots.Length == N && IsZetaTable(roots[..]) && tmp2.Length == N && tmp2 != roots
    requires tmp2[..] == Red(d) && Canonical(tmp2[..]) && |msg| == 32 && InRange(msg, 256)
    modifies tmp2
    ensures fresh(v) && v.Length == N
    ensures v[..] == Red(Add(Message(msg), Red(Add(s.Noise(p.eta2, coins, 2 * p.k), Dec(Red(d))))))
  {
    hide Dec, IsZetaTable, DecodePoly;
    var e2 := Sample(s.noise(p.eta2, coins, 2 * p.k));
    ghost var e := s.Noise(p.eta2, coins, 2 * p.k);
    NoiseIs(s, p.eta2, coins, 2 * p.k);
    NttDecode(tmp2, roots);
    DecIs(Red(d));
    PolyAdd(e2, tmp2);
    RedCanonical(Add(e, Dec(Red(d))));
    var m := FromBytes(msg);
    v := BitsDecode(1, m);
    MessageCanonical(msg);
    PolyAdd(v, e2);
    Clean(tmp2);
    Clean(e2);
  }

  /** The components of u and the sum of the products of t and r. */
  method CipherRows(p: Params, s: Sampler, tHat: seq<Buffer>, ghost t: nat -> Ring, rho: Bytes, coins: Bytes,
                    rHat: seq<Buffer>, roots: Buffer) returns (u: seq<Buffer>, tmp2: Buffer)
    requires roots.Length == N && IsZetaTable(roots[..])
    requires |tHat| == p.k && Buffers(tHat, roots) && Holds(tHat, t, 0)
    requires |rHat| == p.k && Buffers(rHat, roots) && Holds(rHat, Hat(NoiseVec(s, p.eta1, coins, 0)), 0)
    requires forall x, y :: 0 <= x < |tHat| && 0 <= y < |rHat| ==> tHat[x] != rHat[y]
    modifies tHat
    ensures |u| == p.k && fresh(u) && Buffers(u, roots) && fresh(tmp2) && tmp2 !in u && tmp2.Length == N
    ensures Holds(u, CipherUs(p.k, Matrix(s, rho), NoiseVec(s, p.eta1, coins, 0), NoiseVec(s, p.eta2, coins, p.k)), 0)
    ensures tmp2[..] == Red(Dot(p.k, t, Hat(NoiseVec(s, p.eta1, coins, 0)))) && Canonical(tmp2[..])
  {
    hide IsZetaTable, Dot, Buffers, CipherU, Canonical, NoiseVec, Matrix, Hat;
    var k := p.k;
    ghost var h := Hat(NoiseVec(s, p.eta1, coins, 0));
    ghost var us := CipherUs(k, Matrix(s, rho), NoiseVec(s, p.eta1, coins, 0), NoiseVec(s, p.eta2, coins, k));
    tmp2 := ZeroPoly();
    u := [];
    NoBuffers(roots);
    EmptyDot(t, h);
    NotRoots(tHat, roots);
    for i := 0 to k
      invariant |u| == i && fresh(u) && Buffers(u, roots) && Holds(u, us, 0) && tmp2 !in u
      invariant Buffers(rHat, roots) && Holds(rHat, h, 0)
      invariant Holds(tHat, t, i) && IsZetaTable(roots[..])
      invariant tmp2[..] == Red(Dot(i, t, h)) && Canonical(tmp2[..])
    {
      var e1 := CipherRow(p, s, rho, coins, i, rHat, roots);
      MoreBuffers(u, e1, roots);
      u := u + [e1];
      ProductInto(tHat, rHat, i, t, h, tmp2, roots);
    }
  }

  /** Encryption under decoded rows, which it uses up as product buffers. */
  method EncryptCore(p: Params, s: Sampler, tHat: seq<Buffer>, ghost t: nat -> Ring, rho: Bytes, msg: Bytes, coins: Bytes,
                     roots: Buffer) returns (ct: Bytes)
    requires p.Valid() && roots.Length == N && IsZetaTable(roots[..])
    requires |tHat| == p.k && Buffers(tHat, roots) && Holds(tHat, t, 0)
    requires |msg| == 32 && InRange(msg, 256)
    modifies tHat
    ensures var r := NoiseVec(s, p.eta1, coins, 0);
      ct == EncodeVec(p.du, p.k, CipherUs(p.k, Matrix(s, rho), r, NoiseVec(s, p.eta2, coins, p.k)))
          + EncodePoly(p.dv, CipherV(p.k, t, r, s.Noise(p.eta2, coins, 2 * p.k), Message(msg)))
  {
    hide Enc, Dec, IsZetaTable, EncodeVec, Dot, Buffers, EncodePoly, CipherU, DecodePoly;
    var k := p.k;
    ghost var h := Hat(NoiseVec(s, p.eta1, coins, 0));
    ghost var us := CipherUs(k, Matrix(s, rho), NoiseVec(s, p.eta1, coins, 0), NoiseVec(s, p.eta2, coins, k));
    NotRoots(tHat, roots);
    var rHat := SampleHats(k, s, p.eta1, coins, roots);
    var u, tmp2 := CipherRows(p, s, tHat, t, rho, coins, rHat, roots);
    var v := CipherTail(p, s, msg, coins, Dot(k, t, h), tmp2, roots);
    var done := tHat + rHat;
    assert forall i: nat :: i < |u| ==> u[i] in u && u[i] !in done;
    CleanAll(done);
    ct := EncodeBuffers(p.du, k, u, us, roots);
    var bv := BitsEncode(p.dv, v);
    ct := ct + bv[..];
  }

  lemma NotRoots(xs: seq<Buffer>, roots: Buffer)
    requires Buffers(xs, roots)
    ensures roots !in xs
  {
  }

  /** Adds one product of t and r to the sum, overwriting the row of t it used. */
  method ProductInto(tHat: seq<Buffer>, rHat: seq<Buffer>, i: nat, ghost t: nat -> Ring, ghost h: nat -> Ring,
                     tmp2: Buffer, roots: Buffer)
    requires roots.Length == N && IsZetaTable(roots[..]) && i < |tHat| && |rHat| == |tHat|
    requires Buffers(tHat, roots) && Buffers(rHat, roots) && Holds(tHat, t, i) && Holds(rHat, h, 0)
    requires forall x, y :: 0 <= x < |tHat| && 0 <= y < |rHat| ==> tHat[x] != rHat[y]
    requires tmp2.Length == N && tmp2 !in tHat && tmp2 !in rHat && tmp2 != roots
    requires tmp2[..] == Red(Dot(i, t, h)) && Canonical(tmp2[..])
    modifies tHat[i], tmp2
    ensures tmp2[..] == Red(Dot(i + 1, t, h)) && Canonical(tmp2[..])
    ensures Holds(tHat, t, i + 1)
  {
    hide IsZetaTable, Dot, Pointwise;
    MultiplyNtts(tHat[i], rHat[i], roots);
    ProductIs(t(i), h(i));
    PolyAdd(tmp2, tHat[i]);
    Accumulate(i, t, h);
    RedCanonical(Dot(i + 1, t, h));
  }

  lemma ZeroPlus(f: Ring)
    ensures Red(Add(Zero(N), f)) == Red(f)
  {
    assert Add(Zero(N), f) == f;
  }

  lemma DecIs(f: Ring)
    ensures Dec(f) == Decode(f) && Canonical(Dec(f))
  {
    hide Run;
  }

  lemma MessageCanonical(msg: Bytes)
    requires |msg| == 32 && InRange(msg, 256)
    ensures Canonical(Message(msg))
  {
    hide Repack;
    Byte();
    RepackInverse(msg, 8, 1, N);
    assert Pow2(1) == 2;
  }

  lemma FieldDecodes(d: nat, y: int)
    requires 1 <= d <= 12 && 0 <= y < Pow2(d)
    ensures 0 <= CoefDecode(d, y) < Q
  {
    if d == 12 {
      Pow2of12();
    } else {
      var p, h := Pow2(d), Pow2(d - 1);
      SmallPower(d);
      MulMono(y, p - 1, Q);
      Quotient(y * Q + h, p, Q);
    }
  }

  lemma DecodeCanonical(d: nat, bytes: Bytes)
    requires 1 <= d <= 12 && |bytes| == 32 * d && InRange(bytes, 256)
    ensures Canonical(DecodePoly(d, bytes))
  {
    hide CoefDecode, Repack;
    Byte();
    RepackInverse(bytes, 8, d, N);
    forall i | 0 <= i < N ensures 0 <= DecodePoly(d, bytes)[i] < Q {
      FieldDecodes(d, Unpacked(d, bytes)[i]);
    }
  }

  lemma PartInRange(d: nat, k: nat, bytes: Bytes, i: nat)
    requires i < k && |bytes| >= k * (32 * d) && InRange(bytes, 256) && d >= 1
    ensures (i + 1) * (32 * d) <= |bytes| && InRange(VecPart(d, bytes, i), 256)
    ensures DecodeVec(d, bytes)(i) == DecodePoly(d, VecPart(d, bytes, i))
  {
    hide DecodePoly;
    MulMono(i + 1, k, 32 * d);
    MulNonNeg(i, 32 * d);
  }

  /** The polynomials of an encoded vector, each in its own buffer. */
  method DecodeBuffers(d: nat, k: nat, bytes: Bytes, roots: Buffer) returns (xs: seq<Buffer>)
    requires 1 <= d <= 12 && |bytes| >= k * (32 * d) && InRange(bytes, 256)
    ensures |xs| == k && fresh(xs) && Buffers(xs, roots) && Holds(xs, DecodeVec(d, bytes), 0)
  {
    hide DecodePoly, DecodeVec, Buffers, VecPart, Canonical;
    xs := [];
    NoBuffers(roots);
    for i := 0 to k
      invariant |xs| == i && fresh(xs) && Buffers(xs, roots) && Holds(xs, DecodeVec(d, bytes), 0)
    {
      PartInRange(d, k, bytes, i);
      DecodeCanonical(d, VecPart(d, bytes, i));
      var b := FromBytes(VecPart(d, bytes, i));
      var x := BitsDecode(d, b);
      MoreBuffers(xs, x, roots);
      xs := xs + [x];
    }
  }

  method EncryptBytes(p: Params, s: Sampler, publicKey: Bytes, msg: Bytes, coins: Bytes, roots: Buffer) returns (ct: Bytes)
    requires p.Valid() && roots.Length == N && IsZetaTable(roots[..])
    requires |publicKey| >= p.k * 384 && InRange(publicKey, 256) && |msg| == 32 && InRange(msg, 256)
    ensures ct == Encrypt(p, s, publicKey, msg, coins)
  {
    hide DecodeVec, Buffers, CipherV, CipherU, EncodeVec, EncodePoly, IsZetaTable;
    var tHat := DecodeBuffers(12, p.k, publicKey, roots);
    ct := EncryptCore(p, s, tHat, DecodeVec(12, publicKey), publicKey[p.k * 384..], msg, coins, roots);
  }

  /** The buffer of u[i] is transformed in place, and the product overwrites the key row. */
  method ReceiverProduct(sk: seq<Buffer>, u: seq<Buffer>, i: nat, ghost f: nat -> Ring, ghost g: nat -> Ring,
                         tmp: Buffer, roots: Buffer)
    requires roots.Length == N && IsZetaTable(roots[..]) && i < |sk| && |u| == |sk|
    requires Buffers(sk, roots) && Buffers(u, roots) && Holds(sk, f, i) && Holds(u, g, i)
    requires forall x, y :: 0 <= x < |sk| && 0 <= y < |u| ==> sk[x] != u[y]
    requires tmp.Length == N && tmp !in sk && tmp !in u && tmp != roots
    requires tmp[..] == Red(Dot(i, f, Hat(g))) && Canonical(tmp[..])
    modifies sk[i], u[i], tmp
    ensures tmp[..] == Red(Dot(i + 1, f, Hat(g))) && Canonical(tmp[..])
    ensures Holds(sk, f, i + 1) && Holds(u, g, i + 1)
  {
    hide IsZetaTable, Dot, Pointwise, Canonical;
    NttEncode(u[i], roots);
    EncIs(g(i));
    MultiplyNtts(sk[i], u[i], roots);
    ProductIs(f(i), Enc(g(i)));
    PolyAdd(tmp, sk[i]);
    Accumulate(i, f, Hat(g));
    RedCanonical(Dot(i + 1, f, Hat(g)));
  }

  method DecryptBytes(p: Params, ct: Bytes, secretKey: Bytes, roots: Buffer) returns (msg: Bytes)
    requires p.Valid() && roots.Length == N && IsZetaTable(roots[..])
    requires |ct| == p.k * (32 * p.du) + 32 * p.dv && InRange(ct, 256)
    requires |secretKey| == p.k * 384 && InRange(secretKey, 256)
    ensures msg == Decrypt(p, ct, secretKey)
  {
    hide IsZetaTable, Dot, Buffers, DecodeVec, DecodePoly, Dec, EncodePoly, Canonical;
    var k := p.k;
    ghost var f, g := DecodeVec(12, secretKey), DecodeVec(p.du, ct);
    var u := DecodeBuffers(p.du, k, ct, roots);
    var vBytes := ct[k * (32 * p.du)..];
    DecodeCanonical(p.dv, vBytes);
    var b := FromBytes(vBytes);
    var v := BitsDecode(p.dv, b);
    var sk := DecodeBuffers(12, k, secretKey, roots);
    var tmp := ZeroPoly();
    EmptyDot(f, Hat(g));
    NotRoots(sk, roots);
    NotRoots(u, roots);
    for i := 0 to k
      invariant Holds(sk, f, i) && Holds(u, g, i) && IsZetaTable(roots[..])
      invariant tmp[..] == Red(Dot(i, f, Hat(g))) && Canonical(tmp[..])
      invariant v[..] == DecodePoly(p.dv, vBytes)
    {
      ReceiverProduct(sk, u, i, f, g, tmp, roots);
    }
    ghost var d := Dot(k, f, Hat(g));
    NttDecode(tmp, roots);
    DecIs(Red(d));
    PolySub(v, tmp);
    var res := BitsEncode(1, v);
    msg := res[..];
    CleanAll([tmp, v] + sk + u);
  }

  /** The key-format check of section 7.2 of FIPS 203: decode the rows of the public key and encode them again. */
  method ValidateModulus(p: Params, publicKey: Bytes, roots: Buffer) returns (ok: bool)
    requires |publicKey| >= p.k * 384 && InRange(publicKey, 256)
    ensures ok <==> forall i: nat, j: nat :: i < p.k && j < N ==>
        (i + 1) * 384 <= |publicKey| && Unpacked(12, VecPart(12, publicKey, i))[j] < Q
  {
    hide Buffers, DecodePoly, EncodePoly, Repack, VecPart, DecodeVec;
    var eke := publicKey[..p.k * 384];
    var xs := DecodeBuffers(12, p.k, publicKey, roots);
    var ek := EncodeBuffers(12, p.k, xs, DecodeVec(12, publicKey), roots);
    ok := ek == eke;
    ModulusRows(p.k, publicKey);
  }

  /** Re-encoding all rows reproduces the bytes exactly when it does so row by row. */
  lemma {:induction false} ReencodeRows(k: nat, bytes: Bytes, m: nat)
    requires m <= k && |bytes| >= k * 384
    ensures m * 384 <= |bytes|
    ensures EncodeVec(12, m, DecodeVec(12, bytes)) == bytes[..m * 384] <==>
      forall i: nat :: i < m ==> EncodePoly(12, DecodeVec(12, bytes)(i)) == bytes[i * 384..(i + 1) * 384]
  {
    hide EncodePoly, DecodeVec;
    if m > 0 {
      ReencodeRows(k, bytes, m - 1);
      var f := DecodeVec(12, bytes);
      assert bytes[..m * 384] == bytes[..(m - 1) * 384] + bytes[(m - 1) * 384..m * 384];
      var x, y := EncodeVec(12, m - 1, f), EncodePoly(12, f(m - 1));
      assert EncodeVec(12, m, f) == x + y;
      assert (x + y)[..|x|] == x && (x + y)[|x|..] == y;
      var z := bytes[..m * 384];
      assert z[..|x|] == bytes[..(m - 1) * 384] && z[|x|..] == bytes[(m - 1) * 384..m * 384];
    }
  }

  lemma ModulusRows(k: nat, bytes: Bytes)
    requires |bytes| >= k * 384 && InRange(bytes, 256)
    ensures EncodeVec(12, k, DecodeVec(12, bytes)) == bytes[..k * 384] <==>
      forall i: nat, j: nat :: i < k && j < N ==>
        (i + 1) * 384 <= |bytes| && Unpacked(12, VecPart(12, bytes, i))[j] < Q
  {
    hide EncodePoly, DecodePoly, EncodeVec, DecodeVec, Repack;
    ReencodeRows(k, bytes, k);
    Byte();
    forall i: nat | i < k
      ensures (i + 1) * 384 <= |bytes|
      ensures EncodePoly(12, DecodeVec(12, bytes)(i)) == bytes[i * 384..(i + 1) * 384]
         <==> forall j: nat :: j < N ==> Unpacked(12, VecPart(12, bytes, i))[j] < Q
    {
      PartInRange(12, k, bytes, i);
      var part := VecPart(12, bytes, i);
      ModulusCheck(part);
      RepackInverse(part, 8, 12, N);
    }
  }
}
