/** An arbitrary commutative group of points and integer multiples in it. */
module Groups {
  import opened ModArith

  datatype Group<!P> = Group(zero: P, add: (P, P) -> P, negate: P -> P) {
    function Double(x: P): P {
      add(x, x)
    }
  }

  ghost predicate Laws<P(!new)>(g: Group<P>) {
    && (forall x, y, z :: g.add(g.add(x, y), z) == g.add(x, g.add(y, z)))
    && (forall x, y :: g.add(x, y) == g.add(y, x))
    && (forall x :: g.add(x, g.zero) == x)
    && (forall x :: g.add(x, g.negate(x)) == g.zero)
  }

  lemma Assoc<P(!new)>(g: Group<P>, x: P, y: P, z: P)
    requires Laws(g)
    ensures g.add(g.add(x, y), z) == g.add(x, g.add(y, z))
  {
  }

  lemma Comm<P(!new)>(g: Group<P>, x: P, y: P)
    requires Laws(g)
    ensures g.add(x, y) == g.add(y, x)
  {
  }

  lemma Unit<P(!new)>(g: Group<P>, x: P)
    requires Laws(g)
    ensures g.add(x, g.zero) == x && g.add(g.zero, x) == x
  {
  }

  lemma Inverse<P(!new)>(g: Group<P>, x: P)
    requires Laws(g)
    ensures g.add(x, g.negate(x)) == g.zero
  {
  }

  lemma Swap<P(!new)>(g: Group<P>, a: P, b: P, c: P, d: P)
    requires Laws(g)
    ensures g.add(g.add(a, b), g.add(c, d)) == g.add(g.add(a, c), g.add(b, d))
  {
    hide Laws;
    Assoc(g, a, b, g.add(c, d));
    Assoc(g, b, c, d);
    Comm(g, b, c);
    Assoc(g, c, b, d);
    Assoc(g, a, c, g.add(b, d));
  }

  lemma InverseUnique<P(!new)>(g: Group<P>, x: P, y: P)
    requires Laws(g) && g.add(x, y) == g.zero
    ensures y == g.negate(x)
  {
    hide Laws;
    var n := g.negate(x);
    Inverse(g, x);
    Comm(g, x, n);
    Unit(g, n);
    Unit(g, y);
    Assoc(g, n, x, y);
  }

  /** n times x, for any integer n. */
  ghost function Mul<P>(g: Group<P>, n: int, x: P): P
    decreases if n < 0 then 1 - n else n
  {
    if n == 0 then g.zero
    else if n > 0 then g.add(Mul(g, n - 1, x), x)
    else g.negate(Mul(g, -n, x))
  }

  lemma MulNext<P(!new)>(g: Group<P>, n: int, x: P)
    requires Laws(g)
    ensures Mul(g, n + 1, x) == g.add(Mul(g, n, x), x)
  {
    hide Laws;
    if n < 0 {
      var a := Mul(g, -n - 1, x);
      var ax := g.add(a, x);
      assert Mul(g, -n, x) == ax;
      var m := g.negate(ax);
      Assoc(g, a, x, m);
      Comm(g, x, m);
      Inverse(g, ax);
      InverseUnique(g, a, g.add(m, x));
      if n == -1 {
        Unit(g, m);
        Unit(g, x);
        Comm(g, x, m);
      }
    }
  }

  lemma {:induction false} MulAdd<P(!new)>(g: Group<P>, m: int, n: int, x: P)
    requires Laws(g)
    ensures Mul(g, m + n, x) == g.add(Mul(g, m, x), Mul(g, n, x))
    decreases if n < 0 then -n else n
  {
    hide Laws, Mul;
    if n == 0 {
      NoTimes(g, x);
      Unit(g, Mul(g, m, x));
    } else if n > 0 {
      MulAdd(g, m, n - 1, x);
      MulNext(g, m + n - 1, x);
      MulNext(g, n - 1, x);
      Assoc(g, Mul(g, m, x), Mul(g, n - 1, x), x);
    } else {
      MulAdd(g, m, n + 1, x);
      MulNext(g, m + n, x);
      MulNext(g, n, x);
      Assoc(g, Mul(g, m, x), Mul(g, n, x), x);
      Cancel(g, Mul(g, m + n, x), g.add(Mul(g, m, x), Mul(g, n, x)), x);
    }
  }

  lemma Cancel<P(!new)>(g: Group<P>, a: P, b: P, x: P)
    requires Laws(g) && g.add(a, x) == g.add(b, x)
    ensures a == b
  {
    hide Laws;
    Inverse(g, x);
    Assoc(g, a, x, g.negate(x));
    Assoc(g, b, x, g.negate(x));
    Unit(g, a);
    Unit(g, b);
  }

  lemma NoTimes<P>(g: Group<P>, x: P)
    ensures Mul(g, 0, x) == g.zero
  {
  }

  lemma MulOne<P(!new)>(g: Group<P>, x: P)
    requires Laws(g)
    ensures Mul(g, 1, x) == x
  {
    Unit(g, x);
    assert Mul(g, 1, x) == g.add(Mul(g, 0, x), x);
  }

  lemma MulDouble<P(!new)>(g: Group<P>, n: int, x: P)
    requires Laws(g)
    ensures Mul(g, 2 * n, x) == g.Double(Mul(g, n, x))
  {
    hide Laws, Mul;
    MulAdd(g, n, n, x);
  }

  lemma MulNegate<P(!new)>(g: Group<P>, n: int, x: P)
    requires Laws(g)
    ensures Mul(g, -n, x) == g.negate(Mul(g, n, x))
  {
    hide Laws, Mul;
    MulAdd(g, n, -n, x);
    NoTimes(g, x);
    InverseUnique(g, Mul(g, n, x), Mul(g, -n, x));
  }

  lemma {:induction false} MulMul<P(!new)>(g: Group<P>, m: nat, n: int, x: P)
    requires Laws(g)
    ensures Mul(g, m, Mul(g, n, x)) == Mul(g, m * n, x)
  {
    hide Laws, Mul;
    if m == 0 {
      NoTimes(g, x);
      NoTimes(g, Mul(g, n, x));
    } else {
      MulMul(g, m - 1, n, x);
      MulNext(g, m - 1, Mul(g, n, x));
      MulDist(m - 1, 1, n);
      MulAdd(g, (m - 1) * n, n, x);
    }
  }

  /** A multiple of an annihilator vanishes. */
  lemma MulAnnihilated<P(!new)>(g: Group<P>, n: int, k: nat, order: int, x: P)
    requires Laws(g) && Mul(g, order, x) == g.zero
    ensures Mul(g, n + k * order, x) == Mul(g, n, x)
  {
    hide Laws, Mul;
    MulMul(g, k, order, x);
    MulOfZero(g, k);
    MulAdd(g, n, k * order, x);
    Unit(g, Mul(g, n, x));
  }

  lemma {:induction false} MulOfZero<P(!new)>(g: Group<P>, k: nat)
    requires Laws(g)
    ensures Mul(g, k, g.zero) == g.zero
  {
    hide Laws;
    if k > 0 {
      MulOfZero(g, k - 1);
      Unit(g, g.zero);
    }
  }
}
