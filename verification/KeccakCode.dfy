/** The streaming hash object: input in any pieces, output in any pieces. */
module KeccakCode {
  import opened Sponge

  /** The state holds the output bytes from position `base` on. */
  ghost predicate Ahead(f: Permutation, r: nat, first: State, s: State, base: nat)
    requires 0 < r < 200
  {
    forall j: nat :: OutByte(f, r, first, base + j) == OutByte(f, r, s, j)
  }

  lemma AheadAtStart(f: Permutation, r: nat, first: State)
    requires 0 < r < 200
    ensures Ahead(f, r, first, first, 0)
  {
    hide OutByte;
    forall j: nat ensures OutByte(f, r, first, 0 + j) == OutByte(f, r, first, j) {
      assert 0 + j == j;
    }
  }

  lemma AheadNext(f: Permutation, r: nat, first: State, s: State, base: nat)
    requires 0 < r < 200 && Ahead(f, r, first, s, base)
    ensures Ahead(f, r, first, f(s), base + r)
  {
    forall j: nat ensures OutByte(f, r, first, base + r + j) == OutByte(f, r, f(s), j) {
      assert OutByte(f, r, first, base + (r + j)) == OutByte(f, r, s, r + j);
    }
  }

  /** The bytes from `from` on are the output bytes from `at` on. */
  lemma AheadHere(f: Permutation, r: nat, first: State, s: State, base: nat, j: nat)
    requires 0 < r < 200 && Ahead(f, r, first, s, base) && j < r
    ensures s[j] == OutByte(f, r, first, base + j)
  {
    assert OutByte(f, r, s, j) == s[j];
  }

  class Keccak {
    const f: Permutation
    const blockLen: nat
    const suffix: bv8
    const outputLen: nat
    const enableXOF: bool
    const state: array<bv8>
    var pos: nat
    var posOut: nat
    var finished: bool
    var destroyed: bool
    ghost var message: seq<bv8>
    ghost var squeezed: nat

    /** Before the end of the input the state is the message absorbed so far; afterwards it yields the output from
        the position reached. */
    ghost predicate Valid()
      reads this, state
    {
      && 0 < blockLen < 200 && state.Length == 200
      && (!destroyed && !finished ==>
            pos == Rest(|message|, blockLen) && state[..] == Absorb(f, blockLen, ZERO, message) && squeezed == 0)
      && (!destroyed && finished ==>
            posOut <= blockLen && posOut <= squeezed
            && Ahead(f, blockLen, Absorbed(f, blockLen, suffix, message), state[..], squeezed - posOut))
    }

    constructor (f: Permutation, blockLen: nat, suffix: bv8, outputLen: nat, enableXOF: bool)
      requires 0 < blockLen < 200
      ensures Valid() && fresh(state) && !finished && !destroyed && message == [] && squeezed == 0
      ensures this.f == f && this.blockLen == blockLen && this.suffix == suffix
      ensures this.outputLen == outputLen && this.enableXOF == enableXOF
    {
      this.f, this.blockLen, this.suffix, this.outputLen, this.enableXOF := f, blockLen, suffix, outputLen, enableXOF;
      pos, posOut, finished, destroyed := 0, 0, false, false;
      message, squeezed := [], 0;
      state := new bv8[200](_ => 0);
      new;
      XorNothing(ZERO, 0);
      assert state[..] == ZERO;
    }

    /** Applies the permutation to the state in place. */
    method Permute()
      requires state.Length == 200
      modifies this`pos, this`posOut, state
      ensures state[..] == f(old(state[..])) && pos == 0 && posOut == 0
    {
      var s := f(state[..]);
      forall i | 0 <= i < 200 {
        state[i] := s[i];
      }
      pos, posOut := 0, 0;
    }

    /** The byte path: adds a chunk from the current position. */
    method AddBytes(data: seq<bv8>, from: nat, take: nat)
      requires state.Length == 200 && from + take <= |data| && pos + take <= 200
      modifies this`pos, state
      ensures pos == old(pos) + take && state[..] == XorAt(old(state[..]), old(pos), data[from..from + take])
    {
      for i := 0 to take
        invariant pos == old(pos) + i
        invariant forall j :: 0 <= j < 200 ==>
          state[j] == if old(pos) <= j < pos then old(state[j]) ^ data[from + j - old(pos)] else old(state[j])
      {
        state[pos] := state[pos] ^ data[from + i];
        pos := pos + 1;
      }
    }

    /** Adds four bytes as one word. */
    method AddWord(data: seq<bv8>, from: nat, o: nat)
      requires state.Length == 200 && o + 4 <= 200 && from + o + 4 <= |data|
      modifies state
      ensures state[..] == XorAt(old(state[..]), o, data[from + o..from + o + 4])
    {
      hide XorAt;
      ghost var s := state[..];
      XorNothing(s, o);
      assert data[from + o..from + o] == [];
      for i := 0 to 4
        invariant state[..] == XorAt(s, o, data[from + o..from + o + i])
      {
        ghost var c := data[from + o..from + o + i];
        XorJoin(s, o, c, [data[from + o + i]]);
        assert c + [data[from + o + i]] == data[from + o..from + o + i + 1];
        AddByte(o + i, data[from + o + i]);
      }
    }

    /** Adds one byte. */
    method AddByte(at: nat, b: bv8)
      requires state.Length == 200 && at < 200
      modifies state
      ensures state[..] == XorAt(old(state[..]), at, [b])
    {
      state[at] := state[at] ^ b;
    }

    /** The word path: a whole block, four bytes at a time. */
    method AddWords(data: seq<bv8>, from: nat)
      requires state.Length == 200 && 0 < blockLen < 200 && blockLen % 4 == 0 && from + blockLen <= |data|
      modifies state
      ensures state[..] == XorAt(old(state[..]), 0, data[from..from + blockLen])
    {
      hide XorAt;
      ghost var s := state[..];
      assert data[from..from + 0] == [];
      XorNothing(s, 0);
      for i := 0 to blockLen / 4
        invariant state[..] == XorAt(s, 0, data[from..from + 4 * i])
      {
        XorJoin(s, 0, data[from..from + 4 * i], data[from + 4 * i..from + 4 * i + 4]);
        assert data[from..from + 4 * i] + data[from + 4 * i..from + 4 * i + 4] == data[from..from + 4 * (i + 1)];
        AddWord(data, from, 4 * i);
      }
    }

    /** Absorbs more input, by words where the data is aligned and a whole block is at hand. Refused after the end. */
    method Update(data: seq<bv8>, aligned: bool) returns (ok: bool)
      requires Valid()
      modifies this`pos, this`posOut, this`message, state
      ensures Valid() && (ok <==> !destroyed && !finished)
      ensures message == if ok then old(message) + data else old(message)
      ensures !ok ==> state[..] == old(state[..]) && pos == old(pos) && posOut == old(posOut)
    {
      hide Absorb, XorAt, Rest, Ahead;
      if destroyed || finished {
        return false;
      }
      ok := true;
      var len := |data|;
      var canUseU32 := blockLen % 4 == 0 && aligned && len >= blockLen;
      var at := 0;
      ghost var start := message;
      assert start + data[..0] == start;
      while at < len
        invariant 0 <= at <= len && message == start + data[..at]
        invariant pos == Rest(|message|, blockLen) && state[..] == Absorb(f, blockLen, ZERO, message)
      {
        var take := if len - at < blockLen - pos then len - at else blockLen - pos;
        var chunk := data[at..at + take];
        AbsorbChunk(f, blockLen, ZERO, message, chunk);
        assert start + data[..at + take] == message + chunk;
        if canUseU32 && pos == 0 && at % 4 == 0 && len - at >= blockLen {
          AddWords(data, at);
          pos := blockLen;
          Permute();
        } else {
          AddBytes(data, at, take);
          if pos == blockLen {
            Permute();
          }
        }
        at := at + take;
        message := message + chunk;
      }
      assert data[..len] == data;
    }

    /** Adds the padding; the output starts at position 0. */
    method Finish()
      requires Valid() && !destroyed
      modifies this`pos, this`posOut, this`finished, this`squeezed, state
      ensures Valid() && finished
      ensures old(finished) ==> unchanged(this) && state[..] == old(state[..])
      ensures squeezed == old(squeezed)
    {
      hide Absorb, XorAt, Rest, Padding, Ahead, Absorbed;
      if finished {
        return;
      }
      finished := true;
      PadInPlace(f, blockLen, suffix, message, state[..], pos);
      AddByte(pos, suffix);
      if suffix & 0x80 != 0 && pos == blockLen - 1 {
        Permute();
      }
      AddByte(blockLen - 1, 0x80);
      Permute();
      AheadAtStart(f, blockLen, state[..]);
    }

    /** Byte i of the output belonging to the message. */
    ghost function Output(i: nat): bv8
      requires 0 < blockLen < 200
      reads `message
    {
      OutByte(f, blockLen, Absorbed(f, blockLen, suffix, message), i)
    }

    /** Fills the buffer with the next bytes of the output. */
    method WriteInto(out: array<bv8>) returns (ok: bool)
      requires Valid() && out != state
      modifies this`pos, this`posOut, this`finished, this`squeezed, state, out
      ensures Valid() && (ok <==> !destroyed)
      ensures ok ==> finished && squeezed == old(squeezed) + out.Length
      ensures ok ==> forall i :: 0 <= i < out.Length ==> out[i] == Output(old(squeezed) + i)
      ensures !ok ==> out[..] == old(out[..]) && state[..] == old(state[..]) && squeezed == old(squeezed)
    {
      hide Absorb, Absorbed, Ahead, OutByte;
      if destroyed {
        return false;
      }
      ok := true;
      Finish();
      var at := 0;
      var len := out.Length;
      while at < len
        invariant Valid() && finished && !destroyed && 0 <= at <= len && squeezed == old(squeezed) + at
        invariant forall i :: 0 <= i < at ==> out[i] == Output(old(squeezed) + i)
      {
        if posOut >= blockLen {
          AheadNext(f, blockLen, Absorbed(f, blockLen, suffix, message), state[..], squeezed - posOut);
          Permute();
        }
        var take := if len - at < blockLen - posOut then len - at else blockLen - posOut;
        forall j | posOut <= j < posOut + take ensures state[j] == Output(squeezed - posOut + j) {
          AheadHere(f, blockLen, Absorbed(f, blockLen, suffix, message), state[..], squeezed - posOut, j);
        }
        ghost var now := state[..];
        forall i | 0 <= i < take {
          out[at + i] := state[posOut + i];
        }
        assert state[..] == now;
        posOut := posOut + take;
        squeezed := squeezed + take;
        at := at + take;
      }
    }

    /** Only for extendable output. */
    method XofInto(out: array<bv8>) returns (ok: bool)
      requires Valid() && out != state
      modifies this`pos, this`posOut, this`finished, this`squeezed, state, out
      ensures Valid() && (ok <==> enableXOF && !destroyed)
      ensures ok ==> finished && squeezed == old(squeezed) + out.Length
      ensures ok ==> forall i :: 0 <= i < out.Length ==> out[i] == Output(old(squeezed) + i)
      ensures !ok ==> out[..] == old(out[..]) && squeezed == old(squeezed)
    {
      if !enableXOF {
        return false;
      }
      ok := WriteInto(out);
    }

    /** The fixed-length digest, once; the state is wiped afterwards. */
    method Digest() returns (ok: bool, digest: seq<bv8>)
      requires Valid()
      modifies this`pos, this`posOut, this`finished, this`squeezed, this`destroyed, state
      ensures Valid() && (ok <==> !old(finished) && !old(destroyed))
      ensures ok ==> destroyed && digest == Hash(f, blockLen, suffix, message, outputLen)
    {
      hide Absorb, Absorbed, Ahead, OutByte, Squeeze;
      digest := [];
      if finished || destroyed {
        return false, [];
      }
      var out := new bv8[outputLen];
      ok := WriteInto(out);
      digest := out[..];
      forall i | 0 <= i < outputLen ensures out[i] == Hash(f, blockLen, suffix, message, outputLen)[i] {
        SqueezeByte(f, blockLen, Absorbed(f, blockLen, suffix, message), outputLen, i);
        assert out[i] == Output(0 + i);
      }
      assert digest == Hash(f, blockLen, suffix, message, outputLen);
      destroyed := true;
      forall i | 0 <= i < state.Length {
        state[i] := 0;
      }
    }

    /** A copy that goes on independently. */
    method Clone() returns (to: Keccak)
      requires Valid()
      ensures fresh(to) && fresh(to.state) && to.Valid()
      ensures to.f == f && to.blockLen == blockLen && to.suffix == suffix && to.outputLen == outputLen
      ensures to.enableXOF == enableXOF && to.finished == finished && to.destroyed == destroyed
      ensures to.message == message && to.squeezed == squeezed && to.state[..] == state[..]
    {
      hide Absorb, Absorbed, OutByte, Rest;
      to := new Keccak(f, blockLen, suffix, outputLen, enableXOF);
      ghost var now := state[..];
      forall i | 0 <= i < 200 {
        to.state[i] := state[i];
      }
      to.pos, to.posOut, to.finished, to.destroyed := pos, posOut, finished, destroyed;
      to.message, to.squeezed := message, squeezed;
      assert to.state[..] == now && state[..] == now;
    }
  }

  /** Adding the suffix and the final bit in place, with one more permutation where they collide, absorbs the
      padding. */
  lemma PadInPlace(f: Permutation, r: nat, suffix: bv8, msg: seq<bv8>, s: State, k: nat)
    requires 0 < r < 200 && k == Rest(|msg|, r) && s == Absorb(f, r, ZERO, msg)
    ensures var t := XorAt(s, k, [suffix]);
      var u := if suffix & 0x80 != 0 && k == r - 1 then f(t) else t;
      f(XorAt(u, r - 1, [0x80])) == Absorbed(f, r, suffix, msg)
  {
    hide Absorb, Rest;
    var pad := Padding(|msg|, r, suffix);
    var t := XorAt(s, k, [suffix]);
    if suffix & 0x80 != 0 && k == r - 1 {
      var last := Zeros(r - 1) + [0x80];
      SpilledPadding(|msg|, r, suffix);
      AbsorbChunk(f, r, ZERO, msg, [suffix]);
      AbsorbChunk(f, r, ZERO, msg + [suffix], last);
      assert msg + pad == msg + [suffix] + last;
      SparseXor(f(t), 0, r - 1);
    } else {
      AbsorbChunk(f, r, ZERO, msg, pad);
      PlainPadding(s, k, r, suffix, |msg|);
    }
  }

  lemma SpilledPadding(n: nat, r: nat, suffix: bv8)
    requires 0 < r && suffix & 0x80 != 0 && Rest(n, r) == r - 1
    ensures Padding(n, r, suffix) == [suffix] + (Zeros(r - 1) + [0x80])
  {
    hide Rest;
    FlipZero();
    var p := [suffix] + Zeros(r);
    assert p[..|p| - 1] == [suffix] + Zeros(r - 1);
  }

  /** Zeros before the final bit change nothing. */
  lemma SparseXor(s: State, at: nat, n: nat)
    requires at + n < 200
    ensures XorAt(s, at, Zeros(n) + [0x80]) == XorAt(s, at + n, [0x80])
  {
    var c := Zeros(n) + [0x80];
    forall i | 0 <= i < 200 ensures XorAt(s, at, c)[i] == XorAt(s, at + n, [0x80])[i] {
      XorZero(s[i]);
    }
  }

  lemma XorZero(x: bv8)
    ensures x ^ 0 == x
  {
  }

  lemma XorXor(x: bv8, y: bv8, z: bv8)
    ensures x ^ (y ^ z) == (x ^ y) ^ z
  {
  }

  lemma PlainPadding(s: State, k: nat, r: nat, suffix: bv8, n: nat)
    requires 0 < r < 200 && k == Rest(n, r) && !(suffix & 0x80 != 0 && k == r - 1)
    ensures |Padding(n, r, suffix)| == r - k
    ensures XorAt(s, k, Padding(n, r, suffix)) == XorAt(XorAt(s, k, [suffix]), r - 1, [0x80])
  {
    hide Rest, XorAt;
    FlipZero();
    var p := [suffix] + Zeros(r - 1 - k);
    if k == r - 1 {
      assert Padding(n, r, suffix) == [suffix ^ 0x80];
      XorTwice(s, k, suffix, 0x80);
    } else {
      var gap := r - 2 - k;
      assert p[..|p| - 1] == [suffix] + Zeros(gap);
      assert [suffix] + Zeros(gap) + [0x80] == [suffix] + (Zeros(gap) + [0x80]);
      XorJoin(s, k, [suffix], Zeros(gap) + [0x80]);
      SparseXor(XorAt(s, k, [suffix]), k + 1, gap);
    }
  }

  lemma XorTwice(s: State, k: nat, x: bv8, y: bv8)
    requires k < 200
    ensures XorAt(s, k, [x ^ y]) == XorAt(XorAt(s, k, [x]), k, [y])
  {
    XorXor(s[k], x, y);
  }

  // ----- any splitting of input and output

  ghost function Joined(pieces: seq<seq<bv8>>): seq<bv8> {
    if pieces == [] then [] else Joined(pieces[..|pieces| - 1]) + pieces[|pieces| - 1]
  }

  lemma MoreOutput(f: Permutation, r: nat, s: State, before: seq<bv8>, more: seq<bv8>)
    requires 0 < r < 200 && forall j: nat :: j < |before| ==> before[j] == OutByte(f, r, s, j)
    requires forall j: nat :: j < |more| ==> more[j] == OutByte(f, r, s, |before| + j)
    ensures forall j: nat :: j < |before + more| ==> (before + more)[j] == OutByte(f, r, s, j)
  {
    hide OutByte;
    forall j: nat | j < |before + more| ensures (before + more)[j] == OutByte(f, r, s, j) {
      if j >= |before| {
        assert more[j - |before|] == OutByte(f, r, s, |before| + (j - |before|));
      }
    }
  }

  /** Feeds all pieces of the input. */
  method Feed(h: Keccak, pieces: seq<(seq<bv8>, bool)>)
    requires h.Valid() && !h.destroyed && !h.finished && h.message == []
    modifies h`pos, h`posOut, h`message, h.state
    ensures h.Valid() && h.message == Joined(Inputs(pieces))
  {
    for i := 0 to |pieces|
      invariant h.Valid() && h.message == Joined(Inputs(pieces[..i]))
    {
      var ok := h.Update(pieces[i].0, pieces[i].1);
      assert Inputs(pieces[..i + 1])[..i] == Inputs(pieces[..i]);
    }
    assert pieces[..|pieces|] == pieces;
  }

  /** Draws output of all the sizes. */
  method Drain(h: Keccak, sizes: seq<nat>) returns (outs: seq<seq<bv8>>)
    requires h.Valid() && !h.destroyed && h.enableXOF && h.squeezed == 0
    modifies h`pos, h`posOut, h`finished, h`squeezed, h.state
    ensures |outs| == |sizes| && forall i :: 0 <= i < |sizes| ==> |outs[i]| == sizes[i]
    ensures 0 < h.blockLen < 200
    ensures var s := Absorbed(h.f, h.blockLen, h.suffix, h.message);
      forall j: nat :: j < |Joined(outs)| ==> Joined(outs)[j] == OutByte(h.f, h.blockLen, s, j)
  {
    hide Absorbed, OutByte, Ahead, Rest, Absorb;
    outs := [];
    ghost var s := Absorbed(h.f, h.blockLen, h.suffix, h.message);
    for i := 0 to |sizes|
      invariant h.Valid() && !h.destroyed && |outs| == i && h.squeezed == |Joined(outs)|
      invariant forall k :: 0 <= k < i ==> |outs[k]| == sizes[k]
      invariant forall j: nat :: j < |Joined(outs)| ==> Joined(outs)[j] == OutByte(h.f, h.blockLen, s, j)
    {
      var out := new bv8[sizes[i]];
      var ok := h.XofInto(out);
      assert (outs + [out[..]])[..i] == outs;
      forall j: nat | j < |out[..]| ensures out[..][j] == OutByte(h.f, h.blockLen, s, |Joined(outs)| + j) {
        assert out[j] == h.Output(|Joined(outs)| + j);
      }
      MoreOutput(h.f, h.blockLen, s, Joined(outs), out[..]);
      outs := outs + [out[..]];
    }
  }

  /** Whatever the pieces, the output is the one-shot sponge of the whole input. */
  method Stream(f: Permutation, r: nat, suffix: bv8, pieces: seq<(seq<bv8>, bool)>, sizes: seq<nat>)
    returns (outs: seq<seq<bv8>>)
    requires 0 < r < 200
    ensures |outs| == |sizes| && forall i :: 0 <= i < |sizes| ==> |outs[i]| == sizes[i]
    ensures Joined(outs) == Hash(f, r, suffix, Joined(Inputs(pieces)), |Joined(outs)|)
  {
    hide Absorb, Absorbed, OutByte, Squeeze;
    var h := new Keccak(f, r, suffix, 0, true);
    Feed(h, pieces);
    outs := Drain(h, sizes);
    ghost var s := Absorbed(f, r, suffix, h.message);
    forall j: nat | j < |Joined(outs)| ensures Joined(outs)[j] == Squeeze(f, r, s, |Joined(outs)|)[j] {
      SqueezeByte(f, r, s, |Joined(outs)|, j);
    }
  }

  ghost function Inputs(pieces: seq<(seq<bv8>, bool)>): (r: seq<seq<bv8>>)
    ensures |r| == |pieces|
  {
    seq(|pieces|, i requires 0 <= i < |pieces| => pieces[i].0)
  }
}
