/** Square roots modulo an odd prime by the algorithm of Tonelli and Shanks. */
module TonelliShanks {
  import opened ModArith
  import opened Options
  import opened Primes
  import opened ModPow

  ghost predicate Square(n: int, p: int)
    requires p > 0
  {
    exists x :: Cong(x * x, n, p)
  }

  /** Euler's criterion is necessary for a square that p does not divide. */
  lemma SquareIsResidue(n: int, x: int, p: int)
    requires Prime(p) && p % 2 == 1 && Cong(x * x, n, p) && !Divides(p, n)
    ensures Residue(n, p)
  {
    hide Pow, Divides, Cong;
    var h := (p - 1) / 2;
    if Divides(p, x) {
      DividesMultiple(p, x, x);
      DividesCong(p, x * x, n);
    }
    Fermat(x, p);
    PowAdd(x, h, h);
    PowOfProduct(x, x, h);
    CongPow(x * x, n, h, p);
    CongTrans(Pow(n, h), Pow(x * x, h), 1, p) by {
      CongSym(Pow(x * x, h), Pow(n, h), p);
    }
  }

  lemma DividesCong(p: int, a: int, b: int)
    requires p > 0 && Cong(a, b, p)
    ensures Divides(p, a) <==> Divides(p, b)
  {
  }

  // ----- field operations on reduced elements

  method FieldPow(x: int, e: nat, p: int) returns (r: int)
    requires p > 1 && 0 <= x < p
    ensures 0 <= r < p && Cong(r, Pow(x, e), p)
  {
    hide Pow, Cong;
    var v := PowMod(x, e, p);
    r := v.value;
  }

  lemma ReducedEqual(a: int, b: int, p: int)
    requires p > 0 && 0 <= a < p && 0 <= b < p
    ensures Cong(a, b, p) <==> a == b
  {
  }

  /** 1 for a residue, 0 for a multiple of p, -1 otherwise; never refused for a prime. */
  method Legendre(n: int, p: int) returns (r: Option<int>)
    requires Prime(p) && p % 2 == 1 && 0 <= n < p
    ensures r.Some? && r.value in {1, 0, -1}
    ensures r.value == 1 <==> Residue(n, p)
    ensures r.value == 0 <==> n == 0
    ensures r.value == -1 ==> Cong(Pow(n, (p - 1) / 2), -1, p)
  {
    hide Pow, Divides, Cong;
    var h := (p - 1) / 2;
    var powered := FieldPow(n, h, p);
    LegendreCases(n, p, powered);
    var yes, zero, no := powered == 1, powered == 0, powered == p - 1;
    if !yes && !zero && !no {
      return None;
    }
    r := Some(if yes then 1 else if zero then 0 else -1);
  }

  lemma LegendreCases(n: int, p: int, v: int)
    requires Prime(p) && p % 2 == 1 && 0 <= n < p && 0 <= v < p && Cong(v, Pow(n, (p - 1) / 2), p)
    ensures v == 1 || v == 0 || v == p - 1
    ensures (v == 1 <==> Residue(n, p)) && (v == 0 <==> n == 0)
    ensures v == p - 1 ==> Cong(Pow(n, (p - 1) / 2), -1, p)
  {
    hide Pow, Divides, Cong;
    var h := (p - 1) / 2;
    var w := Pow(n, h);
    CongSym(v, w, p);
    ReducedEqual(v, 1, p);
    ReducedEqual(v, 0, p);
    ReducedEqual(v, p - 1, p);
    MinusOne(p);
    if n == 0 {
      PowOfZero(h);
    } else {
      Below(p, n);
      Fermat(n, p);
      PowAdd(n, h, h);
      RootsOfOne(w, p);
      if Cong(w, 1, p) {
        CongTrans(v, w, 1, p);
        CongTrans(w, v, 1, p);
      } else {
        CongTrans(v, w, -1, p);
        CongTrans(v, -1, p - 1, p);
      }
    }
    if v == 1 {
      CongTrans(w, v, 1, p);
    }
    if Cong(w, 1, p) {
      CongTrans(v, w, 1, p);
    }
    if v == p - 1 {
      CongTrans(w, v, -1, p);
    }
  }

  lemma MinusOne(p: int)
    requires p > 0
    ensures Cong(-1, p - 1, p) && Cong(p - 1, -1, p)
  {
    AddMultiple(-1, 1, p);
  }

  lemma PowOfZero(h: nat)
    requires h > 0
    ensures Pow(0, h) == 0
  {
  }

  lemma Below(p: int, n: int)
    requires 0 < n < p
    ensures !Divides(p, n)
  {
  }

  // ----- the setup

  /** p - 1 is Q times 2^S with Q odd, and cc has order 2^S. */
  datatype Setup = Setup(Q: nat, S: nat, cc: int) {
    ghost predicate For(p: int) {
      && p > 1 && Q % 2 == 1 && S >= 1 && Q * Pow2(S) == p - 1 && 0 <= cc < p
      && Cong(Pow(cc, Pow2(S - 1)), -1, p)
    }
  }

  method OddPart(p: int) returns (Q: nat, S: nat)
    requires p >= 3 && p % 2 == 1
    ensures Q % 2 == 1 && S >= 1 && Q * Pow2(S) == p - 1
  {
    Q, S := p - 1, 0;
    while Q % 2 == 0
      invariant Q > 0 && Q * Pow2(S) == p - 1 && (S == 0 ==> Q % 2 == 0)
      decreases Q
    {
      MulAssoc(2, Q / 2, Pow2(S));
      Q := Q / 2;
      S := S + 1;
    }
  }

  /** Refused for 2, or when all numbers up to 1001 are residues. */
  method Prepare(p: int) returns (r: Option<Setup>)
    requires Prime(p)
    ensures r.Some? <==> p % 2 == 1 && p >= 3 && exists z :: 2 <= z <= 1001 && !Residue(z, p)
    ensures r.Some? ==> r.value.For(p)
  {
    hide Pow, Pow2, Divides, Cong, Residue;
    if p < 3 || p % 2 == 0 {
      EvenPrime(p);
      return None;
    }
    var Q, S := OddPart(p);
    var Z := 2;
    NonResidueExists(p);
    var symbol := Legendre(Z, p);
    while symbol.value == 1
      invariant 2 <= Z < p && Z <= 1001 && (forall y :: 2 <= y < Z ==> Residue(y, p))
      invariant symbol.Some? && (symbol.value == 1 <==> Residue(Z, p))
      invariant symbol.value != 1 ==> Cong(Pow(Z, (p - 1) / 2), -1, p)
      decreases p - Z, symbol.value
    {
      if Z > 1000 {
        return None;
      }
      Z := Z + 1;
      symbol := Legendre(Z, p);
    }
    var cc := FieldPow(Z, Q, p);
    GeneratorOrder(Z, Q, S, cc, p);
    r := Some(Setup(Q, S, cc));
  }

  lemma EvenPrime(p: int)
    requires Prime(p)
    ensures p < 3 || p % 2 == 1
  {
  }

  lemma GeneratorOrder(z: int, Q: nat, S: nat, cc: int, p: int)
    requires p > 1 && S >= 1 && Q * Pow2(S) == p - 1 && Cong(cc, Pow(z, Q), p)
    requires Cong(Pow(z, (p - 1) / 2), -1, p)
    ensures Cong(Pow(cc, Pow2(S - 1)), -1, p)
  {
    hide Pow, Cong, Pow2;
    HalfOrder(Q, S, p);
    CongPow(cc, Pow(z, Q), Pow2(S - 1), p);
    PowMul(z, Q, Pow2(S - 1));
    CongTrans(Pow(cc, Pow2(S - 1)), Pow(Pow(z, Q), Pow2(S - 1)), -1, p);
  }

  lemma HalfOrder(Q: nat, S: nat, p: int)
    requires S >= 1 && Q * Pow2(S) == p - 1
    ensures Q * Pow2(S - 1) == (p - 1) / 2
  {
    MulAssoc(Q, 2, Pow2(S - 1));
  }

  // ----- the loop

  /** R is a square root up to t; t has an order below that of c, which is 2^M. */
  ghost predicate Loop(p: int, n: int, M: int, c: int, t: int, R: int) {
    && p > 1 && M >= 1 && 0 <= c < p && 0 <= t < p && 0 <= R < p
    && Cong(R * R, t * n, p) && Cong(Pow(t, Pow2(M - 1)), 1, p) && Cong(Pow(c, Pow2(M - 1)), -1, p)
  }

  lemma SquareOfPower(x: int, i: nat)
    ensures Pow(x, Pow2(i + 1)) == Pow(x, Pow2(i)) * Pow(x, Pow2(i))
  {
    hide Pow;
    PowAdd(x, Pow2(i), Pow2(i));
  }

  lemma Pow2Zero(t: int)
    ensures Pow2(0) == 1 && Pow(t, 1) == t
  {
    PowLow(t);
  }

  /** The least i with t^(2^i) = 1, found by repeated squaring; it stays below M. */
  method LeastExponent(t: int, M: int, p: int) returns (r: Option<int>)
    requires Prime(p) && 0 <= t < p && t != 1 && M >= 1 && Cong(Pow(t, Pow2(M - 1)), 1, p)
    ensures r.Some? && 1 <= r.value < M
    ensures Cong(Pow(t, Pow2(r.value)), 1, p) && !Cong(Pow(t, Pow2(r.value - 1)), 1, p)
  {
    hide Pow, Pow2, Cong;
    var i := 1;
    Pow2Zero(t);
    ReducedEqual(t, 1, p);
    SquareOfPower(t, 0);
    var tTmp := t * t % p;
    CongMod(t * t, p);
    ModRange(t * t, p);
    while tTmp != 1
      invariant 1 <= i < M && 0 <= tTmp < p && Cong(tTmp, Pow(t, Pow2(i)), p)
      invariant !Cong(Pow(t, Pow2(i - 1)), 1, p)
      decreases M - i
    {
      NotYet(tTmp, Pow(t, Pow2(i)), p);
      i := i + 1;
      CongSquare(tTmp, Pow(t, Pow2(i - 1)), p);
      SquareOfPower(t, i - 1);
      ModRange(tTmp * tTmp, p);
      tTmp := tTmp * tTmp % p;
      if i == M {
        return None;
      }
    }
    CongSym(tTmp, Pow(t, Pow2(i)), p);
    r := Some(i);
  }

  lemma NotYet(v: int, w: int, p: int)
    requires p > 1 && 0 <= v < p && v != 1 && Cong(v, w, p)
    ensures !Cong(w, 1, p)
  {
  }

  /** One round: M falls to i, and the loop relation is kept. */
  lemma Round(p: int, n: int, M: int, c: int, t: int, R: int, i: int, b: int)
    requires Prime(p) && Loop(p, n, M, c, t, R) && 1 <= i < M && 0 <= b < p
    requires Cong(Pow(t, Pow2(i)), 1, p) && !Cong(Pow(t, Pow2(i - 1)), 1, p)
    requires Cong(b, Pow(c, Pow2(M - i - 1)), p)
    ensures Loop(p, n, i, b * b % p, t * (b * b % p) % p, R * b % p)
  {
    hide Pow, Pow2, Cong;
    var c', t', R' := b * b % p, t * (b * b % p) % p, R * b % p;
    ModRange(b * b, p);
    ModRange(t * c', p);
    ModRange(R * b, p);
    NewOrder(p, M, c, i, b, c');
    HalfRoot(p, t, i);
    CongMod(t * c', p);
    CongPow(t', t * c', Pow2(i - 1), p);
    PowOfProduct(t, c', Pow2(i - 1));
    CongMul(Pow(t, Pow2(i - 1)), -1, Pow(c', Pow2(i - 1)), -1, p);
    CongTrans(Pow(t', Pow2(i - 1)), Pow(t * c', Pow2(i - 1)), 1, p);
    RootKept(p, n, t, R, b, c', t', R');
  }

  /** The new c has order 2^i. */
  lemma NewOrder(p: int, M: int, c: int, i: int, b: int, c': int)
    requires p > 1 && 1 <= i < M && Cong(Pow(c, Pow2(M - 1)), -1, p)
    requires Cong(b, Pow(c, Pow2(M - i - 1)), p) && c' == b * b % p
    ensures Cong(Pow(c', Pow2(i - 1)), -1, p)
  {
    hide Pow, Pow2, Cong;
    var e := Pow2(M - i);
    SquareOfPower(c, M - i - 1);
    CongSquare(b, Pow(c, Pow2(M - i - 1)), p);
    CongPow(c', Pow(c, e), Pow2(i - 1), p);
    PowMul(c, e, Pow2(i - 1));
    Pow2Add(M - i, i - 1);
    CongTrans(Pow(c', Pow2(i - 1)), Pow(Pow(c, e), Pow2(i - 1)), -1, p);
  }

  /** Just below its order, t is the other root of 1. */
  lemma HalfRoot(p: int, t: int, i: int)
    requires Prime(p) && i >= 1 && Cong(Pow(t, Pow2(i)), 1, p) && !Cong(Pow(t, Pow2(i - 1)), 1, p)
    ensures Cong(Pow(t, Pow2(i - 1)), -1, p)
  {
    hide Pow, Pow2, Cong;
    SquareOfPower(t, i - 1);
    RootsOfOne(Pow(t, Pow2(i - 1)), p);
  }

  lemma RootKept(p: int, n: int, t: int, R: int, b: int, c': int, t': int, R': int)
    requires p > 1 && Cong(R * R, t * n, p) && c' == b * b % p && t' == t * c' % p && R' == R * b % p
    ensures Cong(R' * R', t' * n, p)
  {
    hide Cong;
    CongMod(R * b, p);
    CongMul(R', R * b, R', R * b, p);
    MulSwap(R, b, R, b);
    CongMod(b * b, p);
    CongSym(c', b * b, p);
    CongMul(R * R, t * n, b * b, c', p);
    MulAssoc(t, n, c');
    MulAssoc(t, c', n);
    CongMod(t * c', p);
    CongSym(t', t * c', p);
    CongRefl(n, p);
    CongMul(t * c', t', n, n, p);
    CongTrans(R' * R', (R * b) * (R * b), (t * c') * n, p);
    CongTrans(R' * R', (t * c') * n, t' * n, p);
  }

  lemma LoopStarts(p: int, n: int, s: Setup, t: int, R: int)
    requires p > 1 && s.For(p) && Residue(n, p) && 0 <= t < p && 0 <= R < p
    requires Cong(t, Pow(n, s.Q), p) && Cong(R, Pow(n, (s.Q + 1) / 2), p)
    ensures Loop(p, n, s.S, s.cc, t, R)
  {
    hide Pow, Pow2, Cong;
    var k := (s.Q + 1) / 2;
    CongMul(R, Pow(n, k), R, Pow(n, k), p);
    PowAdd(n, k, k);
    PowAdd(n, s.Q, 1);
    PowLow(n);
    CongSym(t, Pow(n, s.Q), p);
    CongRefl(n, p);
    CongMul(Pow(n, s.Q), t, n, n, p);
    CongTrans(R * R, Pow(n, s.Q) * n, t * n, p);
    HalfOrder(s.Q, s.S, p);
    CongPow(t, Pow(n, s.Q), Pow2(s.S - 1), p);
    PowMul(n, s.Q, Pow2(s.S - 1));
    CongTrans(Pow(t, Pow2(s.S - 1)), Pow(Pow(n, s.Q), Pow2(s.S - 1)), 1, p);
  }

  lemma LoopNotZero(p: int, n: int, M: int, c: int, R: int)
    ensures !Loop(p, n, M, c, 0, R)
  {
    if Loop(p, n, M, c, 0, R) {
      PowOfZero(Pow2(M - 1));
    }
  }

  lemma LoopEnds(p: int, n: int, M: int, c: int, R: int)
    requires Loop(p, n, M, c, 1, R)
    ensures Cong(R * R, n, p)
  {
    assert 1 * n == n;
  }

  /** Finds a root of every residue, and refuses every other number but 0. */
  method TonelliSlow(p: int, s: Setup, n: int) returns (r: Option<int>)
    requires Prime(p) && p % 2 == 1 && s.For(p) && 0 <= n < p
    ensures r.Some? <==> n == 0 || Residue(n, p)
    ensures r.Some? ==> 0 <= r.value < p && Cong(r.value * r.value, n, p)
  {
    hide Pow, Pow2, Cong, Residue, Loop;
    if n == 0 {
      CongRefl(0, p);
      return Some(n);
    }
    var symbol := Legendre(n, p);
    if symbol.value != 1 {
      return None;
    }
    var M, c := s.S, 1 * s.cc % p;
    OneTimes(s.cc, p);
    var t := FieldPow(n, s.Q, p);
    var R := FieldPow(n, (s.Q + 1) / 2, p);
    LoopStarts(p, n, s, t, R);
    while t != 1
      invariant Loop(p, n, M, c, t, R) && Residue(n, p)
      decreases M
    {
      LoopNotZero(p, n, M, c, R);
      if t == 0 {
        return None;
      }
      LoopFacts(p, n, M, c, t, R);
      var i := LeastExponent(t, M, p);
      var b := FieldPow(c, Pow2(M - i.value - 1), p);
      Round(p, n, M, c, t, R, i.value, b);
      M := i.value;
      c := b * b % p;
      t := t * c % p;
      R := R * b % p;
    }
    LoopEnds(p, n, M, c, R);
    LoopFacts(p, n, M, c, t, R);
    r := Some(R);
  }

  lemma OneTimes(c: int, p: int)
    requires 0 <= c < p
    ensures 1 * c % p == c
  {
  }

  lemma LoopFacts(p: int, n: int, M: int, c: int, t: int, R: int)
    requires Loop(p, n, M, c, t, R)
    ensures M >= 1 && 0 <= c < p && 0 <= t < p && 0 <= R < p && Cong(Pow(t, Pow2(M - 1)), 1, p)
  {
  }

  // ----- the modulus 3 mod 4

  /** A single power, checked by squaring it. */
  method Sqrt3Mod4(p: int, n: int) returns (r: Option<int>)
    requires Prime(p) && p % 4 == 3 && 0 <= n < p
    ensures r.Some? ==> 0 <= r.value < p && Cong(r.value * r.value, n, p)
    ensures n == 0 || Residue(n, p) ==> r.Some?
  {
    hide Pow, Cong, Residue;
    var root := FieldPow(n, (p + 1) / 4, p);
    ModRange(root * root, p);
    CongMod(root * root, p);
    ReducedEqual(root * root % p, n, p);
    if Cong(root * root, n, p) {
      CongTrans(root * root % p, root * root, n, p);
    }
    if n == 0 || Residue(n, p) {
      QuarterPower(p, n, root);
    }
    if root * root % p != n {
      return None;
    }
    CongSym(root * root % p, root * root, p);
    r := Some(root);
  }

  lemma QuarterPower(p: int, n: int, root: int)
    requires p > 1 && p % 4 == 3 && Cong(root, Pow(n, (p + 1) / 4), p) && (n == 0 || Residue(n, p))
    ensures Cong(root * root, n, p)
  {
    hide Pow, Cong;
    var k, h := (p + 1) / 4, (p - 1) / 2;
    CongMul(root, Pow(n, k), root, Pow(n, k), p);
    PowAdd(n, k, k);
    assert k + k == h + 1;
    PowAdd(n, h, 1);
    PowLow(n);
    CongRefl(n, p);
    if n == 0 {
      assert Pow(n, h) * n == 0;
    } else {
      CongMul(Pow(n, h), 1, n, n, p);
      CongTrans(root * root, Pow(n, h) * n, n, p);
    }
  }

  /** Every root returned is one; and as soon as the search for a non-residue succeeds, every square has one. */
  method SquareRoot(p: int, n: int) returns (r: Option<int>)
    requires Prime(p) && 0 <= n < p
    ensures r.Some? ==> p >= 3 && 0 <= r.value < p && Cong(r.value * r.value, n, p)
    ensures p >= 3 && (exists z :: 2 <= z <= 1001 && !Residue(z, p)) ==> (r.Some? <==> Square(n, p))
  {
    hide Pow, Pow2, Cong, Residue, Divides;
    EvenPrime(p);
    var setup := Prepare(p);
    if setup.None? {
      return None;
    }
    if setup.value.S == 1 {
      QuarterModulus(p, setup.value);
      r := Sqrt3Mod4(p, n);
    } else {
      r := TonelliSlow(p, setup.value, n);
    }
    if Square(n, p) && n != 0 {
      var x :| Cong(x * x, n, p);
      Below(p, n);
      SquareIsResidue(n, x, p);
    }
  }

  lemma QuarterModulus(p: int, s: Setup)
    requires s.For(p) && s.S == 1
    ensures p % 4 == 3
  {
    Pow2Zero(1);
    assert Pow2(1) == 2 * Pow2(0);
    assert p - 1 == s.Q * 2;
  }
}
