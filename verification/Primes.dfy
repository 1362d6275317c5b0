/** Prime moduli: Euclid's lemma, Fermat's theorem, square roots of 1 and the existence of a non-residue. */
module Primes {
  import opened ModArith
  import opened Sets

  ghost predicate Prime(p: int) {
    p >= 2 && forall d :: 1 < d < p ==> p % d != 0
  }

  ghost predicate Divides(p: int, x: int)
    requires p > 0
  {
    x % p == 0
  }

  lemma CongDivides(a: int, b: int, p: int)
    requires p > 0
    ensures Cong(a, b, p) <==> Divides(p, a - b)
  {
    if Cong(a, b, p) {
      var k := CongDiff(a, b, p);
      DivModUnique(a - b, p, k, 0);
    } else if Divides(p, a - b) {
      DivMod(a - b, p);
      AddMultiple(b, (a - b) / p, p);
    }
  }

  lemma DividesMultiple(p: int, x: int, k: int)
    requires p > 0 && Divides(p, x)
    ensures Divides(p, k * x) && Divides(p, x * k)
  {
    DivMod(x, p);
    MulAssoc(k, x / p, p);
    DivModUnique(k * x, p, k * (x / p), 0);
  }

  lemma DividesSub(p: int, x: int, y: int)
    requires p > 0 && Divides(p, x) && Divides(p, y)
    ensures Divides(p, x - y)
  {
    DivMod(x, p);
    DivMod(y, p);
    MulDistSub(x / p, y / p, p);
    DivModUnique(x - y, p, x / p - y / p, 0);
  }

  lemma Least(p: int, b: int, k: int) returns (m: int)
    requires p > 0 && k > 0 && Divides(p, k * b)
    ensures 0 < m <= k && Divides(p, m * b) && forall i :: 0 < i < m ==> !Divides(p, i * b)
  {
    if i :| 0 < i < k && Divides(p, i * b) {
      m := Least(p, b, i);
    } else {
      m := k;
    }
  }

  /** Euclid's lemma. */
  lemma PrimeDividesFactor(p: int, a: int, b: int)
    requires Prime(p) && Divides(p, a * b)
    ensures Divides(p, a) || Divides(p, b)
  {
    hide Divides;
    if !Divides(p, a) && !Divides(p, b) {
      var k := a % p;
      DividesReduced(p, a, b);
      var m := Least(p, b, k);
      LeastDivides(p, b, m);
      NotTheDivisor(p, m, b);
    }
  }

  lemma NotTheDivisor(p: int, m: int, b: int)
    requires Prime(p) && 0 < m < p && p % m == 0
    ensures m * b == b
  {
    assert m == 1;
  }

  /** The least multiplier m with p | m b divides p. */
  lemma LeastDivides(p: int, b: int, m: int)
    requires p > 0 && m > 0 && Divides(p, m * b) && forall i :: 0 < i < m ==> !Divides(p, i * b)
    ensures p % m == 0
  {
    hide Divides;
    var q, r := p / m, p % m;
    DivMod(p, m);
    DividesSelf(p, b);
    DividesMultiple(p, m * b, q);
    DividesSub(p, p * b, q * (m * b));
    RemainderTimes(p, q, m, r, b);
  }

  lemma RemainderTimes(p: int, q: int, m: int, r: int, b: int)
    requires p == q * m + r
    ensures p * b - q * (m * b) == r * b
  {
    MulAssoc(q, m, b);
    MulDist(q * m, r, b);
  }

  lemma DividesReduced(p: int, a: int, b: int)
    requires p > 0 && Divides(p, a * b)
    ensures Divides(p, a % p * b) && (!Divides(p, a) ==> 0 < a % p < p)
  {
    hide Cong;
    DivMod(a, p);
    MulDist(a / p * p, a % p, b);
    MulAssoc(a / p, p, b);
    MulAssoc(a / p, b, p);
    DivModUnique(a / p * b * p, p, a / p * b, 0);
    DividesSub(p, a * b, a / p * b * p);
  }

  lemma DividesSelf(p: int, b: int)
    requires p > 0
    ensures Divides(p, p * b)
  {
    DivModUnique(p * b, p, b, 0);
  }

  // ----- Fermat

  function Prod(s: seq<int>): int {
    if s == [] then 1 else Prod(s[..|s| - 1]) * s[|s| - 1]
  }

  lemma {:induction false} ProdRemove(s: seq<int>, j: nat)
    requires j < |s|
    ensures Prod(s) == Prod(s[..j] + s[j + 1..]) * s[j]
  {
    var n := |s| - 1;
    if j == n {
      assert s[..j] + s[j + 1..] == s[..n];
    } else {
      ProdRemove(s[..n], j);
      var t := s[..j] + s[j + 1..];
      assert t[..|t| - 1] == s[..n][..j] + s[..n][j + 1..];
      MulAssoc(Prod(t[..|t| - 1]), s[j], s[n]);
      MulAssoc(Prod(t[..|t| - 1]), s[n], s[j]);
    }
  }

  /** The product does not depend on the order. */
  lemma {:induction false} ProdOfPermutation(s: seq<int>, t: seq<int>)
    requires multiset(s) == multiset(t)
    ensures Prod(s) == Prod(t)
  {
    if s == [] {
      assert |multiset(t)| == 0;
    } else {
      var n := |s| - 1;
      assert s[n] in multiset(t);
      var j :| 0 <= j < |t| && t[j] == s[n];
      assert s == s[..n] + [s[n]];
      assert t == t[..j] + [t[j]] + t[j + 1..];
      assert multiset(s[..n]) == multiset(s) - multiset{s[n]};
      assert multiset(t[..j] + t[j + 1..]) == multiset(t) - multiset{t[j]};
      ProdRemove(t, j);
      ProdOfPermutation(s[..n], t[..j] + t[j + 1..]);
    }
  }

  function Ids(n: nat): (s: seq<int>)
    ensures |s| == n
  {
    seq(n, k => k + 1)
  }

  function Scaled(a: int, n: nat, p: int): (s: seq<int>)
    requires p > 0
    ensures |s| == n
  {
    seq(n, k => a * (k + 1) % p)
  }

  lemma {:induction false} ProdScaled(a: int, n: nat, p: int)
    requires p > 0
    ensures Cong(Prod(Scaled(a, n, p)), Pow(a, n) * Prod(Ids(n)), p)
  {
    hide Cong;
    if n == 0 {
      CongRefl(1, p);
    } else {
      ProdScaled(a, n - 1, p);
      assert Scaled(a, n, p)[..n - 1] == Scaled(a, n - 1, p);
      assert Ids(n)[..n - 1] == Ids(n - 1);
      CongMod(a * n, p);
      CongMul(Prod(Scaled(a, n - 1, p)), Pow(a, n - 1) * Prod(Ids(n - 1)), a * n % p, a * n, p);
      MulSwap(Pow(a, n - 1), Prod(Ids(n - 1)), a, n);
    }
  }

  /** Distinct numbers from 1 to n, n of them, are all of them. */
  lemma {:induction false} DistinctAreAll(s: seq<int>, n: nat)
    requires |s| == n && forall i :: 0 <= i < n ==> 1 <= s[i] <= n
    requires forall i, j :: 0 <= i < j < n ==> s[i] != s[j]
    ensures multiset(s) == multiset(Ids(n))
  {
    SetIsAll(s, n);
    SetIsAll(Ids(n), n);
    SetOfDistinct(s);
    SetOfDistinct(Ids(n));
  }

  lemma SetIsAll(s: seq<int>, n: nat)
    requires |s| == n && forall i :: 0 <= i < n ==> 1 <= s[i] <= n
    requires forall i, j :: 0 <= i < j < n ==> s[i] != s[j]
    ensures Elements(s) == UpTo(n)
  {
    UpToSize(n);
    SetOfDistinct(s);
    assert Elements(s) <= UpTo(n);
    if Elements(s) != UpTo(n) {
      ProperSubsetSmaller(Elements(s), UpTo(n));
    }
  }

  ghost function Elements(s: seq<int>): set<int> {
    set x | x in s
  }

  lemma {:induction false} SetOfDistinct(s: seq<int>)
    requires forall i, j :: 0 <= i < j < |s| ==> s[i] != s[j]
    ensures |Elements(s)| == |s| && multiset(s) == multiset(Elements(s))
  {
    if s != [] {
      var n := |s| - 1;
      SetOfDistinct(s[..n]);
      assert s == s[..n] + [s[n]];
      assert Elements(s) == Elements(s[..n]) + {s[n]};
    }
  }

  lemma ScaledDistinct(a: int, p: int)
    requires Prime(p) && !Divides(p, a)
    ensures multiset(Scaled(a, p - 1, p)) == multiset(Ids(p - 1))
  {
    hide Divides;
    var s := Scaled(a, p - 1, p);
    forall i | 0 <= i < p - 1 ensures 1 <= s[i] <= p - 1 {
      NotScaledToZero(a, i + 1, p);
    }
    forall i, j | 0 <= i < j < p - 1 ensures s[i] != s[j] {
      NotScaledToZero(a, j - i, p);
      MulDistSub(j + 1, i + 1, a);
      CongDivides(a * (j + 1), a * (i + 1), p);
    }
    DistinctAreAll(s, p - 1);
  }

  lemma NotScaledToZero(a: int, k: int, p: int)
    requires Prime(p) && !Divides(p, a) && 0 < k < p
    ensures !Divides(p, a * k) && 1 <= a * k % p <= p - 1
  {
    if Divides(p, a * k) {
      PrimeDividesFactor(p, a, k);
    }
  }

  lemma {:induction false} FactorialCoprime(n: nat, p: int)
    requires Prime(p) && n < p
    ensures !Divides(p, Prod(Ids(n)))
  {
    hide Divides;
    if n == 0 {
      NotOne(p);
    } else {
      FactorialCoprime(n - 1, p);
      assert Ids(n)[..n - 1] == Ids(n - 1);
      NotScaledToZero(Prod(Ids(n - 1)), n, p);
    }
  }

  lemma NotOne(p: int)
    requires p >= 2
    ensures !Divides(p, 1)
  {
  }

  /** Fermat's little theorem. */
  lemma Fermat(a: int, p: int)
    requires Prime(p) && !Divides(p, a)
    ensures Cong(Pow(a, p - 1), 1, p)
  {
    hide Divides, Cong;
    var f := Prod(Ids(p - 1));
    ScaledDistinct(a, p);
    ProdOfPermutation(Scaled(a, p - 1, p), Ids(p - 1));
    ProdScaled(a, p - 1, p);
    CongDivides(f, Pow(a, p - 1) * f, p);
    MulDistSub(1, Pow(a, p - 1), f);
    PrimeDividesFactor(p, 1 - Pow(a, p - 1), f);
    FactorialCoprime(p - 1, p);
    CongDivides(1, Pow(a, p - 1), p);
    CongSym(1, Pow(a, p - 1), p);
  }

  lemma CongSym(a: int, b: int, p: int)
    requires p > 0 && Cong(a, b, p)
    ensures Cong(b, a, p)
  {
  }

  /** 1 has no other square roots than 1 and -1. */
  lemma RootsOfOne(x: int, p: int)
    requires Prime(p) && Cong(x * x, 1, p)
    ensures Cong(x, 1, p) || Cong(x, -1, p)
  {
    hide Divides, Cong;
    CongDivides(x * x, 1, p);
    assert x * x - 1 == (x - 1) * (x + 1);
    PrimeDividesFactor(p, x - 1, x + 1);
    CongDivides(x, 1, p);
    CongDivides(x, -1, p);
  }

  // ----- a polynomial has no more roots than its degree

  /** Horner's rule, highest coefficient first. */
  function Eval(x: int, p: seq<int>): int {
    if p == [] then 0 else Eval(x, p[..|p| - 1]) * x + p[|p| - 1]
  }

  function Quotient(r: int, c: seq<int>): (q: seq<int>)
    requires |c| > 0
    ensures |q| == |c| - 1
  {
    seq(|c| - 1, k requires 0 <= k < |c| - 1 => Eval(r, c[..k + 1]))
  }

  lemma {:induction false} Division(x: int, r: int, c: seq<int>)
    requires |c| > 0
    ensures Eval(x, c) == (x - r) * Eval(x, Quotient(r, c)) + Eval(r, c)
  {
    var n := |c| - 1;
    if n == 0 {
      assert c[..0] == [];
      assert Eval(x, []) == 0 && Eval(r, []) == 0;
      assert (x - r) * 0 == 0;
    } else {
      Division(x, r, c[..n]);
      var q := Quotient(r, c);
      var q' := Quotient(r, c[..n]);
      assert q[..n - 1] == q' by {
        forall k | 0 <= k < n - 1 ensures q[k] == q'[k] {
          assert c[..n][..k + 1] == c[..k + 1];
        }
      }
      assert q[n - 1] == Eval(r, c[..n]);
      DivisionStep(x, r, Eval(x, q'), Eval(r, c[..n]), c[n]);
    }
  }

  lemma DivisionStep(x: int, r: int, e: int, v: int, last: int)
    ensures ((x - r) * e + v) * x + last == (x - r) * (e * x + v) + (v * r + last)
  {
  }

  lemma {:induction false} FewRoots(c: seq<int>, k: nat, p: int)
    requires Prime(p) && k < p && |c| > 0 && c[0] == 1
    requires forall x :: 1 <= x <= k ==> Divides(p, Eval(x, c))
    ensures k < |c|
    decreases |c|
  {
    hide Divides, Eval;
    if k > 0 {
      if |c| == 1 {
        ConstantValue(k, c);
        NotOne(p);
        assert false;
      }
      var q := Quotient(k, c);
      ConstantValue(k, c[..1]);
      forall x | 1 <= x <= k - 1 ensures Divides(p, Eval(x, q)) {
        Division(x, k, c);
        DividesSub(p, Eval(x, c), Eval(k, c));
        PrimeDividesFactor(p, x - k, Eval(x, q));
        SmallNotDivisible(p, x - k);
      }
      FewRoots(q, k - 1, p);
    }
  }

  lemma SmallNotDivisible(p: int, d: int)
    requires -p < d < 0
    ensures !Divides(p, d)
  {
    DivModUnique(d, p, -1, d + p);
  }

  lemma ConstantValue(x: int, c: seq<int>)
    requires |c| == 1
    ensures Eval(x, c) == c[0]
  {
    assert Eval(x, c[..0]) == 0;
  }

  /** x^h - 1, for h > 0. */
  function UnityPoly(h: nat): (c: seq<int>)
    requires h > 0
    ensures |c| == h + 1 && c[0] == 1
  {
    seq(h + 1, k => if k == 0 then 1 else if k == h then -1 else 0)
  }

  lemma {:induction false} PowerValue(x: int, h: nat)
    ensures Eval(x, seq(h + 1, k => if k == 0 then 1 else 0)) == Pow(x, h)
  {
    var c := seq(h + 1, k => if k == 0 then 1 else 0);
    if h == 0 {
      ConstantValue(x, c);
    } else {
      PowerValue(x, h - 1);
      assert c[..h] == seq(h, k => if k == 0 then 1 else 0);
    }
  }

  lemma UnityValue(x: int, h: nat)
    requires h > 0
    ensures Eval(x, UnityPoly(h)) == Pow(x, h) - 1
  {
    PowerValue(x, h - 1);
    assert UnityPoly(h)[..h] == seq(h, k => if k == 0 then 1 else 0);
  }

  /** Euler's criterion for a square modulo p. */
  ghost predicate Residue(a: int, p: int)
    requires p >= 2
  {
    Cong(Pow(a, (p - 1) / 2), 1, p)
  }

  /** Not every number below an odd prime meets the criterion. */
  lemma NonResidueExists(p: int)
    requires Prime(p) && p >= 3
    ensures exists a :: 2 <= a < p && !Residue(a, p)
  {
    hide Divides, Cong, Eval;
    var h := (p - 1) / 2;
    if forall a :: 2 <= a < p ==> Residue(a, p) {
      forall x | 1 <= x <= p - 1 ensures Divides(p, Eval(x, UnityPoly(h))) {
        if x == 1 {
          PowOne(h);
          CongRefl(1, p);
        } else {
          assert Residue(x, p);
        }
        UnityValue(x, h);
        CongDivides(Pow(x, h), 1, p);
      }
      FewRoots(UnityPoly(h), p - 1, p);
    }
  }

  lemma {:induction false} PowOne(h: nat)
    ensures Pow(1, h) == 1
  {
    if h > 0 {
      PowOne(h - 1);
    }
  }
}
