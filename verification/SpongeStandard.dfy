/** The sponge as FIPS 202 describes it: the padded bit string, one state after another, and the output bytes. */
module SpongeStandard {
  import opened ModArith
  import opened Sponge

  // ----- bytes of the state

  /** Input that does not fill a block is added byte by byte to the front of the state. */
  lemma AbsorbedByte(f: Permutation, r: nat, s: State, p: seq<bv8>, i: nat)
    requires |p| < r < 200 && i < 200
    ensures Absorb(f, r, s, p)[i] == if i < |p| then s[i] ^ p[i] else s[i]
  {
  }

  /** One step of the absorbing phase: block j is added to the first r bytes, and the permutation is applied. */
  ghost predicate Absorbs(f: Permutation, r: nat, p: seq<bv8>, j: nat, s: State, s': State)
    requires 0 < r < 200
  {
    && 0 <= j * r <= j * r + r <= |p|
    && exists t: State :: s' == f(t) && forall i: nat :: i < 200 ==> t[i] == if i < r then s[i] ^ p[j * r + i] else s[i]
  }

  lemma NextBlock(f: Permutation, r: nat, p: seq<bv8>, j: nat, s: State, s': State)
    requires 0 < r < 200 && r <= |p| && Absorbs(f, r, p, j + 1, s, s')
    ensures Absorbs(f, r, p[r..], j, s, s')
  {
    MulDist(j, 1, r);
    MulNonNeg(j, r);
    assert (j + 1) * r == j * r + r;
    var t: State :| s' == f(t) &&
      forall i: nat :: i < 200 ==> t[i] == if i < r then s[i] ^ p[(j + 1) * r + i] else s[i];
    forall i: nat | i < 200 ensures t[i] == if i < r then s[i] ^ p[r..][j * r + i] else s[i] {
      if i < r {
        assert p[r..][j * r + i] == p[(j + 1) * r + i];
      }
    }
  }

  lemma FirstBlock(f: Permutation, r: nat, p: seq<bv8>, s: State, s': State)
    requires 0 < r < 200 && Absorbs(f, r, p, 0, s, s')
    ensures r <= |p| && Absorb(f, r, s, p) == Absorb(f, r, s', p[r..])
  {
    assert 0 * r == 0;
    var t: State :| s' == f(t) && forall i: nat :: i < 200 ==> t[i] == if i < r then s[i] ^ p[0 * r + i] else s[i];
    assert t == XorAt(s, 0, p[..r]);
  }

  /** Absorbing m whole blocks leads through m such steps. */
  lemma {:induction false} AbsorbStates(f: Permutation, r: nat, p: seq<bv8>, m: nat, states: nat -> State)
    requires 0 < r < 200 && |p| == m * r
    requires forall j: nat :: j < m ==> Absorbs(f, r, p, j, states(j), states(j + 1))
    ensures Absorb(f, r, states(0), p) == states(m)
    decreases m
  {
    hide Absorb, Absorbs, XorAt;
    if m == 0 {
      NothingAbsorbed(f, r, states(0), p);
    } else {
      MulDist(m - 1, 1, r);
      FirstBlock(f, r, p, states(0), states(1));
      var later := (j: nat) => states(j + 1);
      forall j: nat | j < m - 1 ensures Absorbs(f, r, p[r..], j, later(j), later(j + 1)) {
        NextBlock(f, r, p, j, states(j + 1), states(j + 2));
      }
      AbsorbStates(f, r, p[r..], m - 1, later);
    }
  }

  lemma NothingAbsorbed(f: Permutation, r: nat, s: State, p: seq<bv8>)
    requires 0 < r < 200 && |p| == 0
    ensures Absorb(f, r, s, p) == s
  {
    assert p == [];
    XorNothing(s, 0);
  }

  /** Byte i of the output stands at i % r in the state i / r permutations later. */
  lemma {:induction false} OutputStates(f: Permutation, r: nat, m: nat, states: nat -> State, i: nat)
    requires 0 < r < 200 && forall j: nat :: j >= m ==> states(j + 1) == f(states(j))
    ensures 0 <= i / r && 0 <= i % r < r && OutByte(f, r, states(m), i) == states(m + i / r)[i % r]
    decreases i
  {
    if i < r {
      DivModUnique(i, r, 0, i);
    } else {
      OutputStates(f, r, m + 1, states, i - r);
      DivMod(i - r, r);
      MulDist((i - r) / r, 1, r);
      DivModUnique(i, r, (i - r) / r + 1, (i - r) % r);
    }
  }

  // ----- padding

  lemma {:induction false} RestIsRemainder(n: nat, r: nat)
    requires 0 < r
    ensures Rest(n, r) == n % r
  {
    if n < r {
      DivModUnique(n, r, 0, n);
    } else {
      RestIsRemainder(n - r, r);
      DivMod(n - r, r);
      MulDist((n - r) / r, 1, r);
      DivModUnique(n, r, (n - r) / r + 1, (n - r) % r);
    }
  }

  /** Bit i of a byte, the lowest one first. */
  predicate HasBit(b: bv8, i: nat)
    requires i < 8
  {
    b & [0x01, 0x02, 0x04, 0x08, 0x10, 0x20, 0x40, 0x80][i] != 0
  }

  lemma BitsOfBytes(b: bv8, i: nat)
    requires i < 8
    ensures !HasBit(0, i) && (HasBit(0x80, i) <==> i == 7)
    ensures b & 0x80 == 0 ==> (HasBit(b ^ 0x80, i) <==> HasBit(b, i) || i == 7)
  {
    if i == 0 {} else if i == 1 {} else if i == 2 {} else if i == 3 {} else if i == 4 {} else if i == 5 {}
    else if i == 6 {} else {}
  }

  /** The bytes of the padding: the suffix, zeros, and the top bit of the last byte set besides. */
  lemma PaddingByte(n: nat, r: nat, suffix: bv8, k: nat, i: nat)
    requires 0 < r && k < |Padding(n, r, suffix)| && i < 8
    ensures var pad := Padding(n, r, suffix);
      HasBit(pad[k], i) <==> (k == 0 && HasBit(suffix, i)) || (k == |pad| - 1 && i == 7)
  {
    hide Rest;
    BitsOfBytes(suffix, i);
    FlipZero();
    var pad := Padding(n, r, suffix);
    if |pad| == 1 {
      assert pad[0] == suffix ^ 0x80;
    }
  }

  /** Section 5.1 of FIPS 202: the padded string is the message, the bits of the suffix (the domain bits and the first 1
      of the padding), zeros, and a final 1. */
  lemma PaddedBits(msg: seq<bv8>, r: nat, suffix: bv8, p: seq<bv8>, k: nat, i: nat)
    requires 0 < r && p == msg + Padding(|msg|, r, suffix) && k < |p| && i < 8
    ensures |p| > |msg|
    ensures HasBit(p[k], i) <==>
      || (k < |msg| && HasBit(msg[k], i))
      || (k == |msg| && HasBit(suffix, i))
      || (k == |p| - 1 && i == 7)
  {
    hide Padding, HasBit;
    SomePadding(|msg|, r, suffix);
    if k >= |msg| {
      PaddingByte(|msg|, r, suffix, k - |msg|, i);
    }
  }

  lemma SomePadding(n: nat, r: nat, suffix: bv8)
    requires 0 < r
    ensures |Padding(n, r, suffix)| > 0
  {
    hide Rest;
  }

  /** It fills the least number of blocks that leave room for the suffix byte and the final bit, which share a byte
      unless the top bit of the suffix is taken. */
  lemma PaddedLength(n: nat, r: nat, suffix: bv8)
    requires 0 < r
    ensures n + |Padding(n, r, suffix)| == (if suffix & 0x80 == 0 then n / r + 1 else (n + 1) / r + 1) * r
  {
    hide Rest;
    RestIsRemainder(n, r);
    DivMod(n, r);
    var q, k := n / r, n % r;
    MulDist(q, 1, r);
    if k == r - 1 {
      DivModUnique(n + 1, r, q + 1, 0);
      MulDist(q + 1, 1, r);
    } else {
      DivModUnique(n + 1, r, q, k + 1);
    }
  }

  // ----- the whole function

  /** Algorithm 8 of FIPS 202: from the zero state, the states of the absorbing steps and then of the permutation alone;
      byte i of the hash stands at i % r in the state i / r steps after the last block. */
  lemma HashIsSponge(f: Permutation, r: nat, suffix: bv8, msg: seq<bv8>, n: nat, p: seq<bv8>, m: nat,
                     states: nat -> State, i: nat)
    requires 0 < r < 200 && i < n
    requires p == msg + Padding(|msg|, r, suffix) && |p| == m * r
    requires forall k: nat :: k < 200 ==> states(0)[k] == 0
    requires forall j: nat :: j < m ==> Absorbs(f, r, p, j, states(j), states(j + 1))
    requires forall j: nat :: j >= m ==> states(j + 1) == f(states(j))
    ensures 0 <= i / r && 0 <= i % r < r && Hash(f, r, suffix, msg, n)[i] == states(m + i / r)[i % r]
  {
    hide Absorb, Absorbs, Squeeze, OutByte, Padding;
    assert states(0) == ZERO;
    AbsorbStates(f, r, p, m, states);
    SqueezeByte(f, r, states(m), n, i);
    OutputStates(f, r, m, states, i);
  }
}
