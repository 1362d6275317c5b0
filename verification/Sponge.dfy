/** The sponge of section 4 of FIPS 202 on bytes, for any permutation of a 200-byte state. */
module Sponge {

  type State = s: seq<bv8> | |s| == 200 witness Zeros(200)
  type Permutation = State -> State

  const ZERO: State := Zeros(200)

  function Zeros(n: nat): (z: seq<bv8>)
    ensures |z| == n
  {
    seq(n, _ => 0)
  }

  /** The bytes of `c` added into the state from position `at`. */
  function XorAt(s: State, at: nat, c: seq<bv8>): State {
    seq(200, i requires 0 <= i < 200 => if at <= i < at + |c| then s[i] ^ c[i - at] else s[i])
  }

  /** Absorbs all whole blocks of `p` and adds the rest into the state. */
  function Absorb(f: Permutation, r: nat, s: State, p: seq<bv8>): State
    requires 0 < r < 200
    decreases |p|
  {
    if |p| < r then XorAt(s, 0, p) else Absorb(f, r, f(XorAt(s, 0, p[..r])), p[r..])
  }

  /** The length of the last, incomplete block. */
  function Rest(n: nat, r: nat): (k: nat)
    requires 0 < r
    ensures k < r
  {
    if n < r then n else Rest(n - r, r)
  }

  /** The suffix byte, zeros to the end of a block, and the top bit of the last byte flipped. A suffix whose own
      top bit is set and falls there is completed in one more block. */
  function Padding(n: nat, r: nat, suffix: bv8): (pad: seq<bv8>)
    requires 0 < r
  {
    var k := Rest(n, r);
    var room := if k == r - 1 && suffix & 0x80 != 0 then r else r - 1 - k;
    var p := [suffix] + Zeros(room);
    p[..|p| - 1] + [p[|p| - 1] ^ 0x80]
  }

  /** The first n bytes squeezed out of a state. */
  function Squeeze(f: Permutation, r: nat, s: State, n: nat): (z: seq<bv8>)
    requires 0 < r < 200
    ensures |z| == n
    decreases n
  {
    if n <= r then s[..n] else s[..r] + Squeeze(f, r, f(s), n - r)
  }

  /** The sponge applied to a whole message at once. */
  function Absorbed(f: Permutation, r: nat, suffix: bv8, msg: seq<bv8>): State
    requires 0 < r < 200
  {
    Absorb(f, r, ZERO, msg + Padding(|msg|, r, suffix))
  }

  function Hash(f: Permutation, r: nat, suffix: bv8, msg: seq<bv8>, n: nat): (z: seq<bv8>)
    requires 0 < r < 200
    ensures |z| == n
  {
    Squeeze(f, r, Absorbed(f, r, suffix, msg), n)
  }

  /** The padded message is whole blocks. */
  lemma {:induction false} RestAdd(n: nat, k: nat, r: nat)
    requires 0 < r
    ensures Rest(n + k, r) == Rest(Rest(n, r) + k, r)
    decreases n
  {
    if n >= r {
      RestAdd(n - r, k, r);
    }
  }

  lemma PaddedIsWhole(n: nat, r: nat, suffix: bv8)
    requires 0 < r
    ensures Rest(n + |Padding(n, r, suffix)|, r) == 0
  {
    var k := Rest(n, r);
    RestAdd(n, |Padding(n, r, suffix)|, r);
    assert Rest(r, r) == Rest(0, r);
    assert k + |Padding(n, r, suffix)| == r || k + |Padding(n, r, suffix)| == 2 * r;
    if k + |Padding(n, r, suffix)| == 2 * r {
      assert Rest(2 * r, r) == Rest(r, r);
    }
  }

  lemma FlipZero()
    ensures (0 as bv8) ^ 0x80 == 0x80
  {
  }

  // ----- absorbing piece by piece

  lemma XorJoin(s: State, at: nat, p: seq<bv8>, c: seq<bv8>)
    requires at + |p| + |c| <= 200
    ensures XorAt(s, at, p + c) == XorAt(XorAt(s, at, p), at + |p|, c)
  {
  }

  /** A chunk that does not pass the end of the block is added in place; a full block is permuted. */
  lemma {:induction false} AbsorbChunk(f: Permutation, r: nat, s: State, p: seq<bv8>, c: seq<bv8>)
    requires 0 < r < 200 && Rest(|p|, r) + |c| <= r
    ensures var t := XorAt(Absorb(f, r, s, p), Rest(|p|, r), c);
      Absorb(f, r, s, p + c) == if Rest(|p|, r) + |c| == r then f(t) else t
    ensures Rest(|p + c|, r) == if Rest(|p|, r) + |c| == r then 0 else Rest(|p|, r) + |c|
    decreases |p|
  {
    hide XorAt;
    if |p| < r {
      XorJoin(s, 0, p, c);
      if |p| + |c| == r {
        assert (p + c)[..r] == p + c && (p + c)[r..] == [];
        XorNothing(f(XorAt(s, 0, p + c)), 0);
      }
    } else {
      var s' := f(XorAt(s, 0, p[..r]));
      AbsorbChunk(f, r, s', p[r..], c);
      assert (p + c)[..r] == p[..r] && (p + c)[r..] == p[r..] + c;
    }
  }

  lemma XorNothing(s: State, at: nat)
    ensures XorAt(s, at, []) == s
  {
  }

  // ----- squeezing byte by byte

  /** Byte i of the output. */
  function OutByte(f: Permutation, r: nat, s: State, i: nat): bv8
    requires 0 < r < 200
    decreases i
  {
    if i < r then s[i] else OutByte(f, r, f(s), i - r)
  }

  lemma {:induction false} SqueezeByte(f: Permutation, r: nat, s: State, n: nat, i: nat)
    requires 0 < r < 200 && i < n
    ensures Squeeze(f, r, s, n)[i] == OutByte(f, r, s, i)
    decreases n
  {
    if n > r && i >= r {
      SqueezeByte(f, r, f(s), n - r, i - r);
    }
  }

  /** Asking for more only appends. */
  lemma SqueezePrefix(f: Permutation, r: nat, s: State, m: nat, n: nat)
    requires 0 < r < 200 && m <= n
    ensures Squeeze(f, r, s, m) == Squeeze(f, r, s, n)[..m]
  {
    hide Squeeze, OutByte;
    forall i | 0 <= i < m ensures Squeeze(f, r, s, m)[i] == Squeeze(f, r, s, n)[i] {
      SqueezeByte(f, r, s, m, i);
      SqueezeByte(f, r, s, n, i);
    }
  }
}
