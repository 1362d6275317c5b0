/** The error correction codewords of a block and the interleaving of all blocks. */
module QrCodewords {
  import opened GaloisField
  import opened ReedSolomon

  // ----- what the roots say about a polynomial

  /** All n syndromes of a received block vanish. */
  ghost predicate Clean(n: nat, p: Poly) {
    forall i: nat :: i < n ==> Eval(i, p) == 0
  }

  /** The sum of the first n terms. */
  function TermSum(n: nat, t: nat -> bv8): bv8 {
    if n == 0 then 0 else Plus(TermSum(n - 1, t), t(n - 1))
  }

  lemma {:induction false} TermsTimes(i: nat, n: nat, t: nat -> bv8, u: nat -> bv8)
    requires forall k: nat :: k < n ==> u(k) == TimesPow(i, t(k))
    ensures TermSum(n, u) == TimesPow(i, TermSum(n, t))
  {
    hide Plus, TimesPow;
    if n == 0 {
      PowZero(i, 0);
    } else {
      TermsTimes(i, n - 1, t, u);
      PowXor(i, TermSum(n - 1, t), t(n - 1));
    }
  }

  /** The codeword at place k of n, times the power of a^i that its place from the end gives. */
  function Term(i: nat, p: Poly, n: nat): nat -> bv8
    requires n <= |p|
  {
    (k: nat) => if k < n && i * (n - 1 - k) >= 0 then TimesPow(i * (n - 1 - k), p[k]) else 0
  }

  /** Syndrome i is the sum of these. */
  lemma {:induction false} SyndromeSum(i: nat, p: Poly, n: nat)
    requires n <= |p|
    ensures Eval(i, p[..n]) == TermSum(n, Term(i, p, n))
    decreases n
  {
    hide Plus, TimesPow, TermSum, Term;
    if n == 0 {
      NoTerms(i, p, Term(i, p, n));
    } else {
      SyndromeSum(i, p, n - 1);
      forall k: nat | k < n - 1 ensures Term(i, p, n)(k) == TimesPow(i, Term(i, p, n - 1)(k)) {
        TermMoves(i, p, n, k);
      }
      TermsTimes(i, n - 1, Term(i, p, n - 1), Term(i, p, n));
      LastTerm(i, p, n);
      HornerStep(i, p, n - 1);
      OneMoreTerm(n, Term(i, p, n));
    }
  }

  lemma NoTerms(i: nat, p: Poly, t: nat -> bv8)
    ensures Eval(i, p[..0]) == TermSum(0, t)
  {
  }

  lemma OneMoreTerm(n: nat, t: nat -> bv8)
    requires n > 0
    ensures TermSum(n, t) == Plus(TermSum(n - 1, t), t(n - 1))
  {
  }

  lemma TermMoves(i: nat, p: Poly, n: nat, k: nat)
    requires 0 < n <= |p| && k < n - 1
    ensures Term(i, p, n)(k) == TimesPow(i, Term(i, p, n - 1)(k))
  {
    hide TimesPow;
    Nonnegative(i, n - 2 - k);
    assert i * (n - 1 - k) == i + i * (n - 2 - k);
    PowAdd(i, i * (n - 2 - k), p[k]);
  }

  lemma LastTerm(i: nat, p: Poly, n: nat)
    requires 0 < n <= |p|
    ensures Term(i, p, n)(n - 1) == p[n - 1]
  {
    hide TimesPow;
    assert i * 0 == 0;
    ZeroPow(p[n - 1]);
  }

  lemma Nonnegative(i: nat, j: nat)
    ensures i * j >= 0
  {
  }

  /** The codewords of a clean block add up to 0: the first root is a^0 = 1. */
  lemma CleanSum(n: nat, p: Poly)
    requires n > 0 && Clean(n, p)
    ensures TermSum(|p|, (k: nat) => if k < |p| then p[k] else 0) == 0
  {
    hide Plus, TimesPow, Eval, TermSum;
    var t: nat -> bv8 := (k: nat) => if k < |p| then p[k] else 0;
    SyndromeSum(0, p, |p|);
    assert p[..|p|] == p;
    forall k: nat | k < |p| ensures Term(0, p, |p|)(k) == t(k) {
      assert 0 * (|p| - 1 - k) == 0;
      ZeroPow(p[k]);
    }
    TermsSame(|p|, Term(0, p, |p|), t);
  }

  lemma {:induction false} TermsSame(n: nat, t: nat -> bv8, u: nat -> bv8)
    requires forall k: nat :: k < n ==> t(k) == u(k)
    ensures TermSum(n, t) == TermSum(n, u)
  {
    if n > 0 {
      TermsSame(n - 1, t, u);
    }
  }

  /** The product of q and the generator with n roots. */
  function Encode(n: nat, q: Poly): (p: Poly)
    ensures |p| == |q| + n
  {
    if n == 0 then q else TimesRoot(n - 1, Encode(n - 1, q))
  }

  lemma EvalTimesRoot(i: nat, n: nat, q: Poly)
    ensures Eval(i, TimesRoot(n, q)) == Plus(TimesPow(i, Eval(i, q)), TimesPow(n, Eval(i, q)))
  {
    hide TimesRoot, Plus, TimesPow, Eval;
    TimesRootShifts(n, q);
    EvalXor(i, q + Zeros(1), Zeros(1) + Scale(n, q));
    EvalShift(i, q);
    EvalLeadingZeros(i, 1, Scale(n, q));
    EvalScale(i, n, q);
  }

  /** The quotient by (x + a^n), whose coefficients are the partial values at a^n. */
  function Quotient(n: nat, p: Poly): (q: Poly)
    requires |p| > 0
    ensures |q| == |p| - 1
  {
    seq(|p| - 1, k requires 0 <= k < |p| - 1 => Eval(n, p[..k + 1]))
  }

  lemma Factor(n: nat, p: Poly)
    requires |p| > 0 && Eval(n, p) == 0
    ensures p == TimesRoot(n, Quotient(n, p))
  {
    hide Plus, TimesPow, Eval;
    forall m | 0 <= m < |p| ensures p[m] == TimesRoot(n, Quotient(n, p))[m] {
      FactorAt(n, p, m);
    }
  }

  lemma FactorAt(n: nat, p: Poly, m: nat)
    requires m < |p| && Eval(n, p) == 0
    ensures p[m] == Plus(At(Quotient(n, p), m), TimesPow(n, At(Quotient(n, p), m - 1)))
  {
    hide Plus, TimesPow, Eval;
    HornerStep(n, p, m);
    var now, before := Eval(n, p[..m + 1]), Eval(n, p[..m]);
    if m == |p| - 1 {
      assert p[..m + 1] == p;
    }
    assert At(Quotient(n, p), m) == now;
    if m == 0 {
      EmptyValue(n);
      assert p[..0] == [];
    }
    assert At(Quotient(n, p), m - 1) == before;
    var t := TimesPow(n, before);
    PlusLaws(Plus(t, p[m]), t, 0);
    PlusLaws(t, p[m], t);
    PlusLaws(p[m], t, t);
    PlusLaws(t, t, 0);
    PlusLaws(p[m], 0, 0);
  }

  lemma EmptyValue(n: nat)
    ensures Eval(n, []) == 0
  {
  }

  lemma HornerStep(n: nat, p: Poly, m: nat)
    requires m < |p|
    ensures Eval(n, p[..m + 1]) == Plus(TimesPow(n, Eval(n, p[..m])), p[m])
  {
    hide Plus, TimesPow;
    assert p[..m + 1][..m] == p[..m];
  }

  /** Dividing out one root keeps the others. */
  lemma QuotientClean(n: nat, p: Poly)
    requires 0 < n <= 255 && |p| > 0 && Clean(n, p)
    ensures Clean(n - 1, Quotient(n - 1, p)) && p == TimesRoot(n - 1, Quotient(n - 1, p))
  {
    hide Quotient, TimesRoot, Plus, TimesPow, Eval;
    var q := Quotient(n - 1, p);
    Factor(n - 1, p);
    forall i: nat | i < n - 1 ensures Eval(i, q) == 0 {
      var v := Eval(i, q);
      EvalTimesRoot(i, n - 1, q);
      PlusLaws(TimesPow(i, v), TimesPow(n - 1, v), 0);
      PowAdd(i, n - 1 - i, v);
      PowInjective(i, v, TimesPow(n - 1 - i, v));
      if v != 0 {
        NoFixedPoint(n - 1 - i, v);
      }
    }
  }

  /** A block is clean exactly if it is a multiple of the generator. */
  lemma {:induction false} CleanIffMultiple(n: nat, p: Poly)
    requires n <= 255 && n <= |p|
    ensures Clean(n, p) <==> exists q: Poly :: p == Encode(n, q)
  {
    hide Quotient, TimesRoot, Eval;
    if q: Poly :| p == Encode(n, q) {
      MultipleIsClean(n, q);
    }
    if n == 0 {
      assert p == Encode(0, p);
    } else if Clean(n, p) {
      QuotientClean(n, p);
      CleanIffMultiple(n - 1, Quotient(n - 1, p));
      var q: Poly :| Quotient(n - 1, p) == Encode(n - 1, q);
      assert p == Encode(n, q);
    }
  }

  lemma {:induction false} MultipleIsClean(n: nat, q: Poly)
    ensures Clean(n, Encode(n, q))
  {
    hide TimesRoot, Plus, TimesPow, Eval;
    if n > 0 {
      MultipleIsClean(n - 1, q);
      var p := Encode(n - 1, q);
      forall i: nat | i < n ensures Eval(i, Encode(n, q)) == 0 {
        EvalTimesRoot(i, n - 1, p);
        PlusLaws(TimesPow(i, Eval(i, p)), TimesPow(n - 1, Eval(i, p)), 0);
        if i < n - 1 {
          PowZero(i, 0);
          PowZero(n - 1, 0);
        }
      }
    }
  }

  /** The generator is the multiple by 1. */
  lemma {:induction false} GeneratorEncodesOne(n: nat)
    ensures Generator(n) == Encode(n, [1])
  {
    hide TimesRoot;
    if n > 0 {
      GeneratorEncodesOne(n - 1);
    }
  }

  /** No nonzero polynomial of n coefficients has n of the roots. */
  lemma {:induction false} TooManyRoots(n: nat, p: Poly)
    requires n <= 255 && |p| <= n && Clean(n, p)
    ensures p == Zeros(|p|)
  {
    hide Quotient, TimesRoot, Eval;
    if |p| > 0 {
      QuotientClean(n, p);
      TooManyRoots(n - 1, Quotient(n - 1, p));
      ZeroTimesRoot(n - 1, |p| - 1);
    }
  }

  lemma ZeroTimesRoot(n: nat, k: nat)
    ensures TimesRoot(n, Zeros(k)) == Zeros(k + 1)
  {
    hide Plus, TimesPow;
    PowZero(n, 0);
    PlusLaws(0, 0, 0);
  }

  /** The data determines the error codewords: no other ones make the block clean. */
  lemma ParityUnique(n: nat, data: Poly, ec: Poly, other: Poly)
    requires n <= 255 && |ec| == |other| == n
    requires Clean(n, data + ec) && Clean(n, data + other)
    ensures ec == other
  {
    hide Plus, TimesPow, Eval;
    var d := Xor(ec, other);
    forall i: nat | i < n ensures Eval(i, d) == 0 {
      EvalXor(i, ec, other);
      EvalAppend(i, data, ec);
      EvalAppend(i, data, other);
      var t := TimesPow(i * n, Eval(i, data));
      PlusLaws(t, Eval(i, ec), 0);
      PlusLaws(t, Eval(i, other), 0);
      PlusLaws(t, t, 0);
    }
    TooManyRoots(n, d);
    forall k | 0 <= k < n ensures ec[k] == other[k] {
      assert d[k] == 0;
      PlusLaws(ec[k], other[k], 0);
    }
  }

  // ----- polynomial objects

  ghost predicate NoZero(p: Poly) {
    forall k :: 0 <= k < |p| ==> p[k] != 0
  }

  /** The product of two field elements. */
  ghost function Times2(x: bv8, y: bv8): bv8 {
    if y == 0 then 0 else TimesPow(Log(y), x)
  }

  /** Coefficient k of the product, as far as the first i coefficients of p contribute. */
  ghost function Product(p: Poly, e: Poly, i: nat, k: int): bv8
    requires i <= |p|
  {
    if i == 0 then 0 else Plus(Product(p, e, i - 1, k), Times2(p[i - 1], At(e, k - (i - 1))))
  }

  lemma LogOfPower(i: nat)
    requires i < 255
    ensures Power(i) != 0 && Log(Power(i)) == i
  {
    hide Power, Log;
    NonzeroPower(i);
    var j := Log(Power(i));
    if j < i {
      PowersDistinct(j, i);
    } else if i < j {
      PowersDistinct(i, j);
    }
  }

  lemma TableProduct(x: bv8, y: bv8)
    requires x != 0 && y != 0
    ensures Exp(Log(x) + Log(y)) == Times2(x, y)
  {
    hide Power, Log, Exp;
    ExpOfLog(x, Log(y));
  }

  lemma ProductBeyond(p: Poly, e: Poly, i: nat, k: int)
    requires i < |p| && (k < i || k >= i + |e|)
    ensures Product(p, e, i + 1, k) == Product(p, e, i, k)
  {
    hide Plus, Product;
    ProductNext(p, e, i, k);
    PlusLaws(Product(p, e, i, k), 0, 0);
  }

  lemma ProductNext(p: Poly, e: Poly, i: nat, k: int)
    requires i < |p|
    ensures Product(p, e, i + 1, k) == Plus(Product(p, e, i, k), Times2(p[i], At(e, k - i)))
  {
  }

  /** One row of the product, into `num`. */
  method MultiplyRow(m: QrMath, num: array<bv8>, p: Poly, e: Poly, i: nat)
    requires m.Valid() && {num as object} !! {m.expTable as object, m.logTable as object}
    requires i < |p| && |e| > 0 && NoZero(p) && NoZero(e)
    requires num.Length == |p| + |e| - 1
    requires forall k :: 0 <= k < num.Length ==> num[k] == Product(p, e, i, k)
    modifies num
    ensures m.Valid()
    ensures forall k :: 0 <= k < num.Length ==> num[k] == Product(p, e, i + 1, k)
  {
    hide Power, Log, Exp, Times2, Plus, Product;
    forall k | 0 <= k < i ensures Product(p, e, i + 1, k) == Product(p, e, i, k) {
      ProductBeyond(p, e, i, k);
    }
    for j := 0 to |e|
      invariant m.Valid()
      invariant forall k :: 0 <= k < i + j ==> num[k] == Product(p, e, i + 1, k)
      invariant forall k :: i + j <= k < num.Length ==> num[k] == Product(p, e, i, k)
    {
      var x := m.Glog(p[i]);
      var y := m.Glog(e[j]);
      var z := m.Gexp(x + y);
      TableProduct(p[i], e[j]);
      ProductNext(p, e, i, i + j);
      num[i + j] := Plus(num[i + j], z);
    }
    forall k | i + |e| <= k < num.Length ensures Product(p, e, i + 1, k) == Product(p, e, i, k) {
      ProductBeyond(p, e, i, k);
    }
  }

  /** Every factor must be free of zero coefficients, because the logarithm of 0 is refused. */
  method Multiply(m: QrMath, p: Poly, e: Poly) returns (r: Poly)
    requires m.Valid() && |p| > 0 && |e| > 0 && NoZero(p) && NoZero(e)
    ensures r == Strip(seq(|p| + |e| - 1, k => Product(p, e, |p|, k)))
  {
    hide Power, Log, Exp, Times2, Plus, Product, Strip;
    var num := new bv8[|p| + |e| - 1](_ => 0);
    EmptyProduct(p, e);
    for i := 0 to |p|
      invariant m.Valid()
      invariant forall k :: 0 <= k < num.Length ==> num[k] == Product(p, e, i, k)
    {
      MultiplyRow(m, num, p, e, i);
    }
    assert num[..] == seq(|p| + |e| - 1, k => Product(p, e, |p|, k));
    r := MakePoly(num[..], 0);
  }

  lemma EmptyProduct(p: Poly, e: Poly)
    ensures forall k :: Product(p, e, 0, k) == 0
  {
  }

  /** A new polynomial object: leading zeros are dropped and `shift` zero coefficients are added below. */
  method MakePoly(num: Poly, shift: nat) returns (r: Poly)
    ensures r == Strip(num) + Zeros(shift)
  {
    var offset := 0;
    while offset < |num| && num[offset] == 0
      invariant offset <= |num| && Strip(num) == Strip(num[offset..])
    {
      offset := offset + 1;
    }
    r := num[offset..] + seq(shift, _ => 0);
  }

  /** Multiplying by (x + a^n) through the product of two polynomials. */
  lemma {:induction false} LinearProduct(g: Poly, n: nat, i: nat, k: int)
    requires n < 255 && i <= |g|
    ensures Product(g, [1, Power(n)], i, k)
         == Plus(if 0 <= k < i then g[k] else 0, if 0 <= k - 1 < i then TimesPow(n, g[k - 1]) else 0)
  {
    hide Power, Log, Plus, TimesPow;
    if i == 0 {
      PlusLaws(0, 0, 0);
    } else {
      LinearProduct(g, n, i - 1, k);
      ByRoot(g[i - 1], n);
      var x, y := g[i - 1], TimesPow(n, g[i - 1]);
      if k == i - 1 {
        PlusLaws(0, if k > 0 then TimesPow(n, g[k - 1]) else 0, x);
        PlusLaws(if k > 0 then TimesPow(n, g[k - 1]) else 0, 0, 0);
        PlusLaws(if k > 0 then TimesPow(n, g[k - 1]) else 0, x, 0);
      } else if k == i {
        PlusLaws(0, 0, 0);
        PlusLaws(0, y, 0);
      } else {
        PlusLaws(Product(g, [1, Power(n)], i - 1, k), 0, 0);
      }
    }
  }

  lemma ByRoot(x: bv8, n: nat)
    requires n < 255
    ensures Times2(x, 1) == x && Times2(x, Power(n)) == TimesPow(n, x) && Times2(x, 0) == 0
  {
    hide Power, Log, TimesPow;
    PowerZero();
    LogOfPower(0);
    LogOfPower(n);
    ZeroPow(x);
  }

  lemma ProductIsTimesRoot(g: Poly, n: nat)
    requires n < 255
    ensures seq(|g| + 1, k => Product(g, [1, Power(n)], |g|, k)) == TimesRoot(n, g)
  {
    hide Power, Product, Plus, TimesPow;
    forall k | 0 <= k <= |g| ensures Product(g, [1, Power(n)], |g|, k) == TimesRoot(n, g)[k] {
      LinearProduct(g, n, |g|, k);
      PowZero(n, 0);
    }
  }

  /** The polynomial built factor by factor is the generator. */
  method ErrorCorrectPolynomial(m: QrMath, length: nat) returns (a: Poly)
    requires m.Valid() && length < 255
    ensures a == Generator(length) && NoZero(a)
  {
    hide Power, Log, Exp, Product, Plus, TimesPow, TimesRoot;
    a := MakePoly([1], 0);
    assert a == [1];
    for i := 0 to length
      invariant m.Valid() && a == Generator(i) && NoZero(a)
    {
      var x := m.Gexp(i);
      ExpSmall(i);
      NonzeroPower(i);
      assert NoZero([1, x]);
      var factor := MakePoly([1, x], 0);
      assert factor == [1, x];
      ProductIsTimesRoot(a, i);
      GeneratorMonic(i + 1);
      var g := Generator(i + 1);
      forall k | 0 <= k < |g| ensures g[k] != 0 {
        GeneratorNonzero(i + 1, k);
      }
      a := Multiply(m, a, factor);
    }
  }

  lemma ExpSmall(i: nat)
    requires i < 255
    ensures Exp(i) == Power(i)
  {
    hide Power;
  }

  // ----- remainder

  /** One subtraction step of the long division cancels the leading coefficient. */
  lemma LeadingCancels(x: bv8, y: bv8, ratio: int)
    requires x != 0 && y != 0 && ratio == Log(x) - Log(y)
    ensures Plus(x, TimesPow(ratio % 255, y)) == 0
  {
    hide Power, Log, Exp, Plus, TimesPow;
    ExpOfLog(y, ratio);
    ExpOfLog(x, 0);
    ZeroPow(x);
    PlusLaws(x, x, 0);
  }

  /** Subtracting a multiple of e keeps the value at the roots of e. */
  lemma RootsKept(i: nat, p: Poly, e: Poly, n: nat)
    requires |e| <= |p| && Eval(i, e) == 0
    ensures Eval(i, Xor(p, Scale(n, e) + Zeros(|p| - |e|))) == Eval(i, p)
  {
    hide Plus, TimesPow, Eval;
    var z := |p| - |e|;
    EvalXor(i, p, Scale(n, e) + Zeros(z));
    EvalAppend(i, Scale(n, e), Zeros(z));
    EvalScale(i, n, e);
    EvalZeros(i, z);
    PowZero(n, 0);
    PowZero(i * z, 0);
    PlusLaws(0, 0, 0);
    PlusLaws(Eval(i, p), 0, 0);
  }

  /** The recursive remainder ends, is shorter than the divisor, and keeps the value at every root of it. */
  method Mod(m: QrMath, p: Poly, e: Poly) returns (r: Poly)
    requires m.Valid() && |e| > 0 && NoZero(e) && (|p| >= |e| ==> p[0] != 0)
    ensures |r| < |e|
    ensures forall i: nat :: Eval(i, e) == 0 ==> Eval(i, r) == Eval(i, p)
    decreases |p|
  {
    hide Power, Log, Exp, Plus, TimesPow, Eval, Strip;
    if |p| - |e| < 0 {
      return p;
    }
    var x := m.Glog(p[0]);
    var y := m.Glog(e[0]);
    var ratio := x - y;
    var num := new bv8[|p|](k requires 0 <= k < |p| => p[k]);
    var n := ratio % 255;
    for i := 0 to |e|
      invariant m.Valid()
      invariant forall k :: 0 <= k < i ==> num[k] == Plus(p[k], TimesPow(n, e[k]))
      invariant forall k :: i <= k < |p| ==> num[k] == p[k]
    {
      var z := m.Glog(e[i]);
      var w := m.Gexp(z + ratio);
      ExpOfLog(e[i], ratio);
      num[i] := Plus(num[i], w);
    }
    var q := num[..];
    ghost var padded := Scale(n, e) + Zeros(|p| - |e|);
    forall k | 0 <= k < |p| ensures q[k] == Plus(p[k], padded[k]) {
      PlusLaws(p[k], 0, 0);
    }
    assert q == Xor(p, padded);
    LeadingCancels(p[0], e[0], ratio);
    var s := MakePoly(q, 0);
    assert s == Strip(q);
    forall i: nat | Eval(i, e) == 0 ensures Eval(i, s) == Eval(i, p) {
      EvalStrip(i, q);
      RootsKept(i, p, e, n);
    }
    r := Mod(m, s, e);
  }

  // ----- one block

  /** The error codewords of a block make it clean. */
  method BlockParity(m: QrMath, data: Poly, ecCount: nat) returns (ec: Poly)
    requires m.Valid() && ecCount < 255
    ensures |ec| == ecCount && Clean(ecCount, data + ec)
  {
    hide Power, Log, Exp, Plus, TimesPow, Eval, Strip, Generator;
    var rsPoly := ErrorCorrectPolynomial(m, ecCount);
    var rawPoly := MakePoly(data, |rsPoly| - 1);
    var modPoly := Mod(m, rawPoly, rsPoly);
    ec := seq(|rsPoly| - 1, i requires 0 <= i < |rsPoly| - 1 =>
      var modIndex := i + |modPoly| - (|rsPoly| - 1);
      if modIndex >= 0 then modPoly[modIndex] else 0);
    assert ec == Zeros(ecCount - |modPoly|) + modPoly;
    GeneratorEncodesOne(ecCount);
    MultipleIsClean(ecCount, [1]);
    forall i: nat | i < ecCount ensures Eval(i, data + ec) == 0 {
      ParityValue(i, data, modPoly, ecCount);
    }
  }

  lemma ParityValue(i: nat, data: Poly, r: Poly, n: nat)
    requires |r| <= n && Eval(i, r) == Eval(i, Strip(data) + Zeros(n))
    ensures Eval(i, data + (Zeros(n - |r|) + r)) == 0
  {
    hide Plus, TimesPow, Eval, Strip;
    var ec := Zeros(n - |r|) + r;
    EvalAppend(i, data, ec);
    EvalLeadingZeros(i, n - |r|, r);
    EvalAppend(i, Strip(data), Zeros(n));
    EvalStrip(i, data);
    EvalZeros(i, n);
    var t := TimesPow(i * n, Eval(i, data));
    PlusLaws(t, 0, 0);
    PlusLaws(t, t, 0);
  }
}
