/** Reed-Solomon error correction of QR codes: tables, generator, polynomial remainder, blocks. */
module ReedSolomon {
  import opened GaloisField
  import opened Sets

  type Poly = seq<bv8>

  // ----- every nonzero byte is a power of a

  function Code(i: nat): int {
    Power(i) as int
  }

  function PowerSet(n: nat): set<int> {
    set i: nat | i < n :: Code(i)
  }

  lemma CodesDistinct(i: nat, j: nat)
    requires i < j < 255
    ensures Code(i) != Code(j)
  {
    hide Power;
    PowersDistinct(i, j);
    if Code(i) == Code(j) {
      SameByte(Power(i), Power(j));
    }
  }

  lemma {:induction false} PowerSetSize(n: nat)
    requires n <= 255
    ensures |PowerSet(n)| == n
  {
    hide Code;
    if n > 0 {
      PowerSetSize(n - 1);
      var x := Code(n - 1);
      forall i: nat | i < n - 1 ensures Code(i) != x {
        CodesDistinct(i, n - 1);
      }
      assert PowerSet(n) == PowerSet(n - 1) + {x};
    }
  }

  lemma ByteRange(x: bv8)
    requires x != 0
    ensures 1 <= x as int <= 255
  {
    if x as int == 0 {
      SameByte(x, 0);
    }
  }

  lemma PowersCover(x: bv8)
    requires x != 0
    ensures exists i: nat :: i < 255 && Power(i) == x
  {
    hide Power;
    var n: nat :| 254 < n < 256;
    var all := UpTo(n);
    PowerSetSize(n);
    UpToSize(n);
    forall i: nat | i < n ensures Code(i) in all {
      NonzeroPower(i);
      ByteRange(Power(i));
    }
    assert PowerSet(n) <= all;
    ByteRange(x);
    if x as int !in PowerSet(n) {
      assert PowerSet(n) < all;
      ProperSubsetSmaller(PowerSet(n), all);
      assert false;
    }
    var i: nat :| i < n && Code(i) == x as int;
    assert (Power(i) as int) as bv8 == (x as int) as bv8;
  }

  lemma NonzeroPower(i: nat)
    ensures Power(i) != 0
  {
    PowZero(i, 1);
  }

  /** The logarithm table: the exponent below 255 of a nonzero byte. */
  ghost function Log(x: bv8): (i: nat)
    requires x != 0
    ensures i < 255 && Power(i) == x
  {
    PowersCover(x);
    var i: nat :| i < 255 && Power(i) == x;
    i
  }

  /** The exponential of any integer, positive or negative. */
  function Exp(n: int): bv8 {
    Power(n % 255)
  }

  // ----- tables

  /** The first eight powers are shifts of 1. */
  lemma FirstPowers()
    ensures forall i: nat :: i < 8 ==> Power(i) == [1, 2, 4, 8, 16, 32, 64, 128][i]
  {
    hide Power;
    PowerZero();
    NextPower(0); NextPower(1); NextPower(2); NextPower(3); NextPower(4); NextPower(5); NextPower(6);
  }

  lemma NextPower(n: nat)
    ensures Power(n + 1) == Times(Power(n))
  {
  }

  /** The recurrence of the field polynomial. */
  lemma Recurrence(n: nat)
    requires n >= 8
    ensures Power(n) == Power(n - 4) ^ Power(n - 5) ^ Power(n - 6) ^ Power(n - 8)
  {
    hide Power, Times;
    var x := Power(n - 8);
    NextPower(n - 8); NextPower(n - 7); NextPower(n - 6); NextPower(n - 5);
    NextPower(n - 4); NextPower(n - 3); NextPower(n - 2); NextPower(n - 1);
    EightTimes(x);
  }

  lemma EightTimes(x: bv8)
    ensures Times(Times(Times(Times(Times(Times(Times(Times(x))))))))
         == Times(Times(Times(Times(x)))) ^ Times(Times(Times(x))) ^ Times(Times(x)) ^ x
  {
    var x1 := Times(x);
    var x2 := Times(x1);
    var x3 := Times(x2);
    var x4 := Times(x3);
    var x8 := Times(Times(Times(Times(x4))));
    assert x8 == x4 ^ x3 ^ x2 ^ x;
  }

  method InitTables() returns (expTable: array<bv8>, logTable: array<int>)
    ensures fresh(expTable) && fresh(logTable) && expTable.Length == logTable.Length == 256
    ensures forall i: nat :: i < 256 ==> expTable[i] == Power(i)
    ensures forall x: bv8 :: x != 0 ==> logTable[x as int] == Log(x)
  {
    hide Power, Log;
    expTable := new bv8[256];
    logTable := new int[256](_ => 0);
    FirstPowers();
    for i := 0 to 8
      invariant forall j: nat :: j < i ==> expTable[j] == Power(j)
    {
      expTable[i] := (1 as bv8) << i;
      assert expTable[i] == [1, 2, 4, 8, 16, 32, 64, 128][i];
    }
    for i := 8 to 256
      invariant forall j: nat :: j < i ==> expTable[j] == Power(j)
    {
      Recurrence(i);
      expTable[i] := expTable[i - 4] ^ expTable[i - 5] ^ expTable[i - 6] ^ expTable[i - 8];
    }
    for i := 0 to 255
      invariant forall j: nat :: j < 256 ==> expTable[j] == Power(j)
      invariant forall j: nat :: j < i ==> Logged(logTable, Power(j), j)
    {
      forall j: nat | j < i ensures Power(j) as int != Power(i) as int {
        PowersDistinct(j, i);
        if Power(j) as int == Power(i) as int {
          SameByte(Power(j), Power(i));
        }
      }
      logTable[expTable[i] as int] := i;
    }
    forall x: bv8 | x != 0 ensures logTable[x as int] == Log(x) {
      assert Logged(logTable, Power(Log(x)), Log(x));
    }
  }

  ghost predicate Logged(logTable: array<int>, x: bv8, i: nat)
    requires logTable.Length == 256
    reads logTable
  {
    logTable[x as int] == i
  }

  lemma SameByte(x: bv8, y: bv8)
    requires x as int == y as int
    ensures x == y
  {
    assert (x as int) as bv8 == (y as int) as bv8;
  }

  lemma PeriodAny(n: nat, n255: nat)
    requires 254 < n255 < 256
    ensures Power(n) == Power(n % n255)
  {
    hide Power;
    var one: nat :| 0 < one < 2;
    KeyPowers(one);
    assert 255 * one == n255;
    PeriodMultiple(n255, n / n255, n % n255);
    assert n255 * (n / n255) + n % n255 == n;
  }

  /** Multiplying by a^ratio through the tables, for a ratio of either sign. */
  lemma ExpOfLog(x: bv8, ratio: int)
    requires x != 0
    ensures Exp(Log(x) + ratio) == TimesPow(ratio % 255, x)
  {
    hide Power, Log;
    var r := ratio % 255;
    var n255: nat :| 254 < n255 < 256;
    PeriodAny(Log(x) + r, n255);
    assert (Log(x) + ratio) % 255 == (Log(x) + r) % 255;
    PowerSplit(r, Log(x));
  }

  lemma PowerSplit(m: nat, n: nat)
    ensures Power(m + n) == TimesPow(m, Power(n))
  {
    PowAdd(m, n, 1);
  }

  /** The table object of the encoder. */
  class QrMath {
    const expTable: array<bv8>
    const logTable: array<int>

    ghost predicate Valid()
      reads expTable, logTable
    {
      && expTable.Length == logTable.Length == 256
      && (forall i: nat :: i < 256 ==> expTable[i] == Power(i))
      && (forall x: bv8 :: x != 0 ==> logTable[x as int] == Log(x))
    }

    constructor ()
      ensures Valid()
    {
      var e, l := InitTables();
      expTable, logTable := e, l;
    }

    /** Defined for nonzero bytes only. */
    method Glog(n: bv8) returns (r: int)
      requires Valid() && n != 0
      ensures r == Log(n)
    {
      r := logTable[n as int];
    }

    method Gexp(n: int) returns (r: bv8)
      requires Valid()
      ensures r == Exp(n)
    {
      hide Power, Exp;
      var k := n;
      while k < 0
        invariant Exp(k) == Exp(n)
        decreases -k
      {
        ExpShift(k);
        k := k + 255;
      }
      while k >= 256
        invariant k >= 0 && Exp(k) == Exp(n)
      {
        ExpShift(k - 255);
        k := k - 255;
      }
      ExpOfNat(k);
      r := expTable[k];
    }
  }

  lemma ExpShift(k: int)
    ensures Exp(k + 255) == Exp(k)
  {
    hide Power;
    assert (k + 255) % 255 == k % 255;
  }

  lemma ExpOfNat(k: nat)
    ensures Exp(k) == Power(k)
  {
    hide Power;
    var n255: nat :| 254 < n255 < 256;
    PeriodAny(k, n255);
  }

  // ----- polynomials, highest coefficient first

  function Zeros(n: nat): (r: Poly)
    ensures |r| == n
  {
    seq(n, _ => 0)
  }

  /** Leading zeros removed. */
  function Strip(p: Poly): (r: Poly)
    ensures |r| <= |p| && (|r| > 0 ==> r[0] != 0)
    ensures |p| > 0 && p[0] == 0 ==> |r| < |p|
  {
    if |p| > 0 && p[0] == 0 then Strip(p[1..]) else p
  }

  function Xor(p: Poly, q: Poly): (r: Poly)
    requires |p| == |q|
    ensures |r| == |p|
  {
    seq(|p|, k requires 0 <= k < |p| => Plus(p[k], q[k]))
  }

  /** Every coefficient times a^n. */
  function Scale(n: nat, p: Poly): (r: Poly)
    ensures |r| == |p|
  {
    seq(|p|, k requires 0 <= k < |p| => TimesPow(n, p[k]))
  }

  /** The value at a^i, by Horner's rule. */
  function Eval(i: nat, p: Poly): bv8 {
    if |p| == 0 then 0 else Plus(TimesPow(i, Eval(i, p[..|p| - 1])), p[|p| - 1])
  }

  lemma {:induction false} EvalAppend(i: nat, p: Poly, q: Poly)
    ensures Eval(i, p + q) == Plus(TimesPow(i * |q|, Eval(i, p)), Eval(i, q))
    decreases |q|
  {
    hide Plus, TimesPow;
    if |q| == 0 {
      assert p + q == p;
      assert i * 0 == 0;
      ZeroPow(Eval(i, p));
      PlusLaws(Eval(i, p), 0, 0);
    } else {
      var q' := q[..|q| - 1];
      assert (p + q)[..|p + q| - 1] == p + q';
      EvalAppend(i, p, q');
      PowXor(i, TimesPow(i * |q'|, Eval(i, p)), Eval(i, q'));
      assert i * |q| == i + i * |q'|;
      PowAdd(i, i * |q'|, Eval(i, p));
      PlusLaws(TimesPow(i * |q|, Eval(i, p)), TimesPow(i, Eval(i, q')), q[|q| - 1]);
    }
  }

  lemma ZeroPow(y: bv8)
    ensures TimesPow(0, y) == y
  {
  }

  lemma PlusSwap(x: bv8, y: bv8, u: bv8, v: bv8)
    ensures Plus(Plus(x, y), Plus(u, v)) == Plus(Plus(x, u), Plus(y, v))
  {
    hide Plus;
    PlusLaws(x, y, Plus(u, v));
    PlusLaws(y, u, v);
    PlusLaws(u, y, v);
    PlusLaws(x, u, Plus(y, v));
  }

  lemma {:induction false} EvalZeros(i: nat, n: nat)
    ensures Eval(i, Zeros(n)) == 0
  {
    if n > 0 {
      EvalZeros(i, n - 1);
      assert Zeros(n)[..n - 1] == Zeros(n - 1);
      PowZero(i, 0);
    }
  }

  lemma {:induction false} EvalXor(i: nat, p: Poly, q: Poly)
    requires |p| == |q|
    ensures Eval(i, Xor(p, q)) == Plus(Eval(i, p), Eval(i, q))
  {
    hide Plus, TimesPow;
    if |p| == 0 {
      PlusLaws(0, 0, 0);
    } else {
      var n := |p| - 1;
      assert Xor(p, q)[..n] == Xor(p[..n], q[..n]);
      EvalXor(i, p[..n], q[..n]);
      PowXor(i, Eval(i, p[..n]), Eval(i, q[..n]));
      PlusSwap(TimesPow(i, Eval(i, p[..n])), TimesPow(i, Eval(i, q[..n])), p[n], q[n]);
    }
  }

  lemma {:induction false} EvalScale(i: nat, n: nat, p: Poly)
    ensures Eval(i, Scale(n, p)) == TimesPow(n, Eval(i, p))
  {
    hide Plus, TimesPow;
    if |p| == 0 {
      PowZero(n, 0);
    } else {
      var k := |p| - 1;
      assert Scale(n, p)[..k] == Scale(n, p[..k]);
      EvalScale(i, n, p[..k]);
      PowComm(i, n, Eval(i, p[..k]));
      PowXor(n, TimesPow(i, Eval(i, p[..k])), p[k]);
    }
  }

  lemma {:induction false} EvalStrip(i: nat, p: Poly)
    ensures Eval(i, Strip(p)) == Eval(i, p)
  {
    hide Plus, TimesPow, Eval;
    if |p| > 0 && p[0] == 0 {
      EvalStrip(i, p[1..]);
      assert p == Zeros(1) + p[1..];
      EvalAppend(i, Zeros(1), p[1..]);
      EvalZeros(i, 1);
      PowZero(i * |p[1..]|, 0);
      PlusLaws(Eval(i, p[1..]), 0, 0);
    }
  }

  lemma EvalShift(i: nat, p: Poly)
    ensures Eval(i, p + Zeros(1)) == TimesPow(i, Eval(i, p))
  {
    hide Plus, TimesPow, Eval;
    EvalAppend(i, p, Zeros(1));
    EvalZeros(i, 1);
    assert i * 1 == i;
    PlusLaws(TimesPow(i, Eval(i, p)), 0, 0);
  }

  lemma EvalLeadingZeros(i: nat, n: nat, p: Poly)
    ensures Eval(i, Zeros(n) + p) == Eval(i, p)
  {
    hide Plus, TimesPow, Eval;
    EvalAppend(i, Zeros(n), p);
    EvalZeros(i, n);
    PowZero(i * |p|, 0);
    PlusLaws(0, Eval(i, p), 0);
    PlusLaws(Eval(i, p), 0, 0);
  }

  // ----- the generator

  /** Coefficient `m` from the top, zero outside the polynomial. */
  function At(p: Poly, m: int): bv8 {
    if 0 <= m < |p| then p[m] else 0
  }

  /** The product with (x + a^n), coefficient by coefficient. */
  function TimesRoot(n: nat, g: Poly): (r: Poly)
    ensures |r| == |g| + 1
  {
    seq(|g| + 1, m requires 0 <= m <= |g| => Plus(At(g, m), TimesPow(n, At(g, m - 1))))
  }

  /** The product of (x + a^i) for i < n. */
  function Generator(n: nat): (g: Poly)
    ensures |g| == n + 1
  {
    if n == 0 then [1] else TimesRoot(n - 1, Generator(n - 1))
  }

  /** Multiplying by (x + a^n) is shifting and adding the scaled polynomial. */
  lemma TimesRootShifts(n: nat, g: Poly)
    ensures TimesRoot(n, g) == Xor(g + Zeros(1), Zeros(1) + Scale(n, g))
  {
    hide Plus, TimesPow;
    PowZero(n, 0);
    var p, q := g + Zeros(1), Zeros(1) + Scale(n, g);
    forall m | 0 <= m <= |g| ensures TimesRoot(n, g)[m] == Plus(p[m], q[m]) {
    }
  }

  /** Neighbouring coefficients c of the generator are tied by (a^n + a^m) c[m] = (a^(m+1) + 1) c[m+1]. */
  ghost predicate Tied(n: nat, m: nat) {
    var c := Generator(n);
    Plus(TimesPow(n, At(c, m)), TimesPow(m, At(c, m))) == Plus(TimesPow(m + 1, At(c, m + 1)), At(c, m + 1))
  }

  lemma PlusFinish(a: bv8, b: bv8, c: bv8, d: bv8, e: bv8, f: bv8, g: bv8, h: bv8)
    requires Plus(h, c) == Plus(e, g) && Plus(b, d) == Plus(f, a)
    ensures Plus(Plus(a, b), Plus(c, d)) == Plus(Plus(e, f), Plus(g, h))
  {
  }

  /** The relation survives one more factor: x, y, z are neighbouring coefficients before it. */
  lemma TiedStep(n: nat, m: nat, x: bv8, y: bv8, z: bv8)
    requires Plus(TimesPow(n, y), TimesPow(m, y)) == Plus(TimesPow(m + 1, z), z)
    requires m == 0 ==> x == 0
    requires m > 0 ==> Plus(TimesPow(n, x), TimesPow(m - 1, x)) == Plus(TimesPow(m, y), y)
    ensures var c, c' := Plus(y, TimesPow(n, x)), Plus(z, TimesPow(n, y));
      Plus(TimesPow(n + 1, c), TimesPow(m, c)) == Plus(TimesPow(m + 1, c'), c')
  {
    hide TimesPow, Plus;
    var tx, ty := TimesPow(n, x), TimesPow(n, y);
    PowXor(n + 1, y, tx);
    PowXor(m, y, tx);
    PowXor(m + 1, z, ty);
    TiedCross(n, m, x, y);
    PlusFinish(TimesPow(n + 1, y), TimesPow(n + 1, tx), TimesPow(m, y), TimesPow(m, tx),
               TimesPow(m + 1, z), TimesPow(m + 1, ty), z, ty);
  }

  lemma TiedCross(n: nat, m: nat, x: bv8, y: bv8)
    requires m == 0 ==> x == 0
    requires m > 0 ==> Plus(TimesPow(n, x), TimesPow(m - 1, x)) == Plus(TimesPow(m, y), y)
    ensures Plus(TimesPow(n + 1, TimesPow(n, x)), TimesPow(m, TimesPow(n, x)))
         == Plus(TimesPow(m + 1, TimesPow(n, y)), TimesPow(n + 1, y))
  {
    hide TimesPow, Plus;
    var tx := TimesPow(n, x);
    PowAdd(n + 1, m, y);
    PowAdd(m + 1, n, y);
    if m == 0 {
      PowZero(n, x);
      PowZero(n + 1, tx);
      PowZero(m, tx);
      PlusLaws(0, 0, 0);
      ZeroPow(y);
      PlusLaws(TimesPow(n + 1, y), 0, 0);
    } else {
      var u := TimesPow(m - 1, x);
      PowXor(n + 1, tx, u);
      PowXor(n + 1, TimesPow(m, y), y);
      PowAdd(n + 1, m - 1, x);
      PowAdd(m, n, x);
    }
  }

  lemma {:induction false} GeneratorTied(n: nat, m: nat)
    requires m <= n
    ensures Tied(n, m)
    decreases n
  {
    hide TimesPow, Plus, Generator;
    if n == 0 {
      TiedBase();
    } else {
      var g := Generator(n - 1);
      NextCoefficient(n, m);
      NextCoefficient(n, m + 1);
      if m < n {
        GeneratorTied(n - 1, m);
      } else {
        PowZero(n - 1, 0);
        PowZero(m, 0);
        PowZero(m + 1, 0);
      }
      if m > 0 {
        GeneratorTied(n - 1, m - 1);
      }
      TiedStep(n - 1, m, At(g, m - 1), At(g, m), At(g, m + 1));
    }
  }

  lemma TiedBase()
    ensures Tied(0, 0)
  {
    hide Plus;
    ZeroPow(1);
    PowZero(1, 0);
    PlusLaws(1, 1, 0);
    PlusLaws(0, 0, 0);
  }

  lemma NextCoefficient(n: nat, m: nat)
    requires n > 0
    ensures At(Generator(n), m) == Plus(At(Generator(n - 1), m), TimesPow(n - 1, At(Generator(n - 1), m - 1)))
  {
    hide TimesRoot;
    TimesRootAt(n - 1, Generator(n - 1), m);
  }

  lemma TimesRootAt(n: nat, g: Poly, m: nat)
    ensures At(TimesRoot(n, g), m) == Plus(At(g, m), TimesPow(n, At(g, m - 1)))
  {
    hide TimesPow, Plus;
    if m > |g| {
      PowZero(n, 0);
      PlusLaws(0, 0, 0);
    }
  }

  /** A nonzero byte is no fixed point of a power of a below its order. */
  lemma NoFixedPoint(k: nat, x: bv8)
    requires 0 < k < 255 && x != 0
    ensures TimesPow(k, x) != x
  {
    hide TimesPow;
    PowersCover(x);
    var i: nat :| i < 255 && Power(i) == x;
    if TimesPow(k, x) == x {
      PowComm(k, i, 1);
      PowInjective(i, Power(k), 1);
      OrderMinimal(k);
    }
  }

  /** Below 255 error codewords, no coefficient of the generator is zero: the logarithm is never taken of 0. */
  lemma {:induction false} GeneratorNonzero(n: nat, m: nat)
    requires n < 255 && m <= n
    ensures Generator(n)[m] != 0
    decreases m
  {
    hide TimesPow, Plus, Generator;
    if m == 0 {
      GeneratorMonic(n);
    } else {
      GeneratorNonzero(n, m - 1);
      var x, y := Generator(n)[m - 1], Generator(n)[m];
      GeneratorTied(n, m - 1);
      NoFixedPoint(n - (m - 1), x);
      PowAdd(m - 1, n - (m - 1), x);
      if TimesPow(n, x) == TimesPow(m - 1, x) {
        PowInjective(m - 1, TimesPow(n - (m - 1), x), x);
      }
      PlusLaws(TimesPow(n, x), TimesPow(m - 1, x), 0);
      PowZero(m, 0);
      PlusLaws(TimesPow(m, y), y, 0);
    }
  }

  lemma {:induction false} GeneratorMonic(n: nat)
    ensures Generator(n)[0] == 1
  {
    hide Plus, TimesPow, TimesRoot;
    if n > 0 {
      GeneratorMonic(n - 1);
      TimesRootAt(n - 1, Generator(n - 1), 0);
      PowZero(n - 1, 0);
      PlusLaws(1, 0, 0);
    }
  }
}
