/** The ladder over the field of 2^255 - 19 elements, with its inversion by an addition chain. */
module X25519 {
  import opened ModArith
  import opened Options
  import opened Ladder
  import opened ModPow
  import opened Primes

  const P: int := 0x7fffffffffffffffffffffffffffffffffffffffffffffffffffffffffffffed

  /** The modulus is 19 below a power of two, which the chain relies on. */
  lemma PrimeShape(n: nat)
    requires n == 255
    ensures Pow2(n) - 19 == P
  {
    hide Pow2;
    var e: nat := n / 51;
    Five(e);
    Pow2Add(e, e);
    Pow2Add(2 * e, e);
    Pow2Add(3 * e, 3 * e);
    Pow2Add(6 * e, 6 * e);
    Pow2Add(12 * e, 12 * e);
    Pow2Add(24 * e, 24 * e);
    Pow2Add(48 * e, 3 * e);
  }

  lemma Five(e: nat)
    requires e == 5
    ensures Pow2(e) == 32
  {
    assert Pow2(e - 2) == 2 * Pow2(e - 3);
  }

  // ----- repeated squaring

  lemma {:induction false} SquareMore(x: int, e: nat)
    ensures Pow(x, Pow2(e + 1)) == Pow(x, Pow2(e)) * Pow(x, Pow2(e))
  {
    assert Pow2(e + 1) == Pow2(e) + Pow2(e);
    PowAdd(x, Pow2(e), Pow2(e));
  }

  /** Squares `power` times; the argument may be negative, the remainder truncates. */
  method Squarings(x: int, power: int, modulo: int) returns (r: Option<int>)
    ensures r.Some? <==> modulo > 1 && power >= 0
    ensures r.Some? ==> Cong(r.value, Pow(x, Pow2(power)), modulo) && (power > 0 ==> 0 <= r.value < modulo)
  {
    hide Pow, Pow2, Cong;
    if modulo <= 1 || power < 0 {
      return None;
    }
    var res, left := x, power;
    FirstPower(x, modulo);
    while left > 0
      invariant 0 <= left <= power && Cong(res, Pow(x, Pow2(power - left)), modulo)
      invariant left < power ==> 0 <= res < modulo
    {
      SquareMore(x, power - left);
      CongSquare(res, Pow(x, Pow2(power - left)), modulo);
      ModRange(res * res, modulo);
      res := res * res % modulo;
      left := left - 1;
    }
    r := Some(res);
  }

  lemma FirstPower(x: int, m: int)
    requires m > 0
    ensures Cong(x, Pow(x, Pow2(0)), m)
  {
    assert Pow(x, 1) == x * Pow(x, 0);
  }

  // ----- the chain

  /** r is z to a power of n one bits. */
  ghost predicate Ones(r: int, z: int, n: nat) {
    Cong(r, Pow(z, Pow2(n) - 1), P)
  }

  lemma TruncCong(a: int, m: int)
    requires m > 0
    ensures Cong(TruncRem(a, m), a, m)
  {
    if a < 0 {
      DivMod(-a, m);
      AddMultiple(TruncRem(a, m), -((-a) / m), m);
      assert -((-a) / m) * m == a - TruncRem(a, m);
    }
  }

  /** b squared k times, times c: the exponent e moves up by k places and f is added. */
  lemma Shifted(b: int, z: int, e: nat, sq: int, k: nat, c: int, f: nat, r: int)
    requires Cong(b, Pow(z, e), P) && Cong(sq, Pow(b, Pow2(k)), P) && Cong(c, Pow(z, f), P) && r == TruncRem(sq * c, P)
    ensures e * Pow2(k) >= 0 && Cong(r, Pow(z, e * Pow2(k) + f), P)
  {
    hide Pow, Pow2, Cong, TruncRem;
    MulNonNeg(e, Pow2(k));
    CongPow(b, Pow(z, e), Pow2(k), P);
    PowMul(z, e, Pow2(k));
    CongTrans(sq, Pow(b, Pow2(k)), Pow(z, e * Pow2(k)), P);
    CongMul(sq, Pow(z, e * Pow2(k)), c, Pow(z, f), P);
    PowAdd(z, e * Pow2(k), f);
    TruncCong(sq * c, P);
    CongTrans(r, sq * c, Pow(z, e * Pow2(k) + f), P);
  }

  /** A run of n ones, moved up by k places, takes a run of k ones behind it. */
  lemma JoinOnes(b: int, z: int, n: nat, sq: int, k: nat, c: int, r: int)
    requires Ones(b, z, n) && Cong(sq, Pow(b, Pow2(k)), P) && Ones(c, z, k) && r == TruncRem(sq * c, P)
    ensures Ones(r, z, n + k)
  {
    hide Pow, Pow2, Cong, TruncRem;
    Shifted(b, z, Pow2(n) - 1, sq, k, c, Pow2(k) - 1, r);
    MulDistSub(Pow2(n), 1, Pow2(k));
    Pow2Add(n, k);
  }

  lemma OneBit(z: int, n: nat)
    requires n == 1
    ensures Ones(z, z, n) && Cong(z * z % P, Pow(z, Pow2(n)), P)
  {
    assert Pow2(n) == 2 * Pow2(n - 1);
    assert Pow(z, 2) == z * Pow(z, 1) && Pow(z, 1) == z * Pow(z, 0);
    CongMod(z * z, P);
  }

  lemma SmallShift(k: nat)
    requires k == 1 || k == 2 || k == 3
    ensures Pow2(k) == if k == 1 then 2 else if k == 2 then 4 else 8
  {
    assert Pow2(k) == 2 * Pow2(k - 1);
  }

  /** The exponent (p - 5) / 8 = 2^252 - 3, and on the way 3. */
  method Chain(x: int) returns (root: int, b2: int)
    ensures Cong(root, Pow(x, (P - 5) / 8), P)
    ensures Cong(b2, Pow(x, 3), P)
  {
    hide Pow, Pow2, Cong, Ones, TruncRem;
    OneBit(x, 1);
    var x2 := x * x % P;
    b2 := TruncRem(x2 * x, P);
    JoinOnes(x, x, 1, x2, 1, x, b2);
    var s := Squarings(b2, 2, P);
    var b4 := TruncRem(s.value * b2, P);
    JoinOnes(b2, x, 2, s.value, 2, b2, b4);
    s := Squarings(b4, 1, P);
    var b5 := TruncRem(s.value * x, P);
    JoinOnes(b4, x, 4, s.value, 1, x, b5);
    s := Squarings(b5, 5, P);
    var b10 := TruncRem(s.value * b5, P);
    JoinOnes(b5, x, 5, s.value, 5, b5, b10);
    s := Squarings(b10, 10, P);
    var b20 := TruncRem(s.value * b10, P);
    JoinOnes(b10, x, 10, s.value, 10, b10, b20);
    s := Squarings(b20, 20, P);
    var b40 := TruncRem(s.value * b20, P);
    JoinOnes(b20, x, 20, s.value, 20, b20, b40);
    s := Squarings(b40, 40, P);
    var b80 := TruncRem(s.value * b40, P);
    JoinOnes(b40, x, 40, s.value, 40, b40, b80);
    s := Squarings(b80, 80, P);
    var b160 := TruncRem(s.value * b80, P);
    JoinOnes(b80, x, 80, s.value, 80, b80, b160);
    s := Squarings(b160, 80, P);
    var b240 := TruncRem(s.value * b80, P);
    JoinOnes(b160, x, 160, s.value, 80, b80, b240);
    s := Squarings(b240, 10, P);
    var b250 := TruncRem(s.value * b10, P);
    JoinOnes(b240, x, 240, s.value, 10, b10, b250);
    s := Squarings(b250, 2, P);
    root := TruncRem(s.value * x, P);
    LastOnes(x, 250, b250, s.value, 2, root);
    ThreeOnes(x, b2, 2);
  }

  lemma LastOnes(x: int, n: nat, b: int, sq: int, k: nat, r: int)
    requires Ones(b, x, n) && Cong(sq, Pow(b, Pow2(k)), P) && n == 250 && k == 2 && r == TruncRem(sq * x, P)
    ensures Cong(r, Pow(x, (P - 5) / 8), P)
  {
    hide Pow, Pow2, Cong, TruncRem;
    PowLow(x);
    CongRefl(x, P);
    Shifted(b, x, Pow2(n) - 1, sq, k, x, 1, r);
    SmallShift(k);
    Pow2Add(n, k);
    var m: nat := n / 50 - k;
    SmallShift(m);
    Pow2Add(n + k, m);
    PrimeShape(n + k + m);
  }

  lemma ThreeOnes(x: int, b2: int, k: nat)
    requires Ones(b2, x, k) && k == 2
    ensures Cong(b2, Pow(x, 3), P)
  {
    hide Pow, Pow2, Cong;
    SmallShift(k);
  }

  /** The inverse by Fermat's theorem: the power with exponent p - 2. */
  method PowPminus2(x: int) returns (r: int)
    ensures r == Pow(x, P - 2) % P
  {
    hide Pow, Pow2, Cong;
    var root, b2 := Chain(x);
    var s := Squarings(root, 3, P);
    ChainEnds(x, root, b2, s.value, 3);
    r := s.value * b2 % P;
  }

  lemma ChainEnds(x: int, root: int, b2: int, sq: int, k: nat)
    requires k == 3 && Cong(sq, Pow(root, Pow2(k)), P)
    requires Cong(root, Pow(x, (P - 5) / 8), P) && Cong(b2, Pow(x, 3), P)
    ensures sq * b2 % P == Pow(x, P - 2) % P
  {
    hide Pow, Pow2, Cong, TruncRem;
    Shifted(root, x, (P - 5) / 8, sq, k, b2, 3, TruncRem(sq * b2, P));
    SmallShift(k);
    TruncCong(sq * b2, P);
    Remainders(TruncRem(sq * b2, P), sq * b2, Pow(x, P - 2));
  }

  lemma Remainders(r: int, a: int, b: int)
    requires Cong(r, a, P) && Cong(r, b, P)
    ensures a % P == b % P
  {
  }

  // ----- the function of the standard

  function Curve25519(): Curve {
    Curve(P, true)
  }

  /** The ladder of the standard, and its quotient x_2 * z_2^(p - 2). */
  method Multiply(u: int, scalar: int) returns (r: Option<int>)
    ensures var c := Curve25519(); r.Some? <==> 0 <= u < P && c.MinScalar() <= scalar < c.MaxScalar()
    ensures r.Some? ==> var c := Curve25519(); var s := Rfc(c, u, scalar, c.Bits(), 0, Start(u));
      r.value == s.x2 * Pow(s.z2, P - 2) % P
  {
    hide Pow, Rfc;
    var s := Rounds(Curve25519(), u, scalar);
    if s.None? {
      return None;
    }
    var z2 := PowPminus2(s.value.z2);
    var x2 := s.value.x2;
    CongMod(Pow(s.value.z2, P - 2), P);
    ProductMod(P, x2, z2, x2, Pow(s.value.z2, P - 2));
    r := Some(x2 * z2 % P);
  }

  /** In the field that quotient is x / z, and 0 for the point at infinity. */
  lemma QuotientIsDivision(x: int, z: int)
    requires Prime(P)
    ensures var r := x * Pow(z, P - 2) % P;
      if Divides(P, z) then r == 0 else Cong(r * z, x, P)
  {
    hide Pow, Cong, Prime;
    var y := Pow(z, P - 2);
    var e: nat := P - 2;
    PowAdd(z, 1, e);
    PowLow(z);
    CongMod(x * y, P);
    CongRefl(z, P);
    CongMul(x * y % P, x * y, z, z, P);
    MulAssoc(x, y, z);
    if Divides(P, z) {
      ZeroPower(x, z, e);
    } else {
      Fermat(z, P);
      CongRefl(x, P);
      CongMul(x, x, y * z, 1, P);
      CongTrans(x * y % P * z, x * y * z, x, P);
    }
  }

  lemma ZeroPower(x: int, z: int, e: nat)
    requires e > 0 && z % P == 0
    ensures x * Pow(z, e) % P == 0
  {
    var q := z / P;
    var rest := Pow(z, e - 1);
    assert z == q * P;
    assert x * (z * rest) == (x * q * rest) * P;
    DivModUnique(x * Pow(z, e), P, x * q * rest, 0);
  }
}
