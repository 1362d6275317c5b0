/** The LZW code of GIF: a decoder written from the format's description, and the code stream of
    the encoder, which the decoder turns back into the pixels. */
module Lzw {
  import opened ModArith
  import opened Options
  import opened Bits

  type Str = seq<nat>
  type Table = seq<Str>

  const CLEAR := 4
  const END := 5

  /** The four pixel values, the clear code and the end code. */
  const ROOTS: Table := [[0], [1], [2], [3], [CLEAR], [END]]

  // ----- decoder

  /** What the decoder knows: its table, its code width, and the string of the previous code. */
  datatype Decoder = Decoder(table: Table, width: nat, prev: Str)

  datatype Decoded = Decoded(pixels: seq<nat>, decoder: Decoder, unread: seq<bool>)

  const START := Decoder(ROOTS, 3, [])

  /** The string of a code, which may be the one the decoder is just about to add. */
  function Meaning(d: Decoder, code: nat): Option<Str> {
    if code < |d.table| then Some(d.table[code])
    else if code == |d.table| && d.prev != [] then Some(d.prev + [d.prev[0]])
    else None
  }

  /** The table grows by the previous string and the first pixel of this one, up to 4096 entries. */
  function Learn(d: Decoder, cur: Str): Decoder
    requires cur != []
  {
    var table := if d.prev == [] || |d.table| >= 4096 then d.table else d.table + [d.prev + [cur[0]]];
    var width := if |table| == Pow2(d.width) && d.width < 12 then d.width + 1 else d.width;
    Decoder(table, width, cur)
  }

  /** Reads codes until the image is full. */
  function Decode(bits: seq<bool>, d: Decoder, out: seq<nat>, count: nat): Option<Decoded>
    decreases |bits|
  {
    if |out| >= count then Some(Decoded(out, d, bits))
    else if d.width == 0 || |bits| < d.width then None
    else
      var code := ValueOf(bits[..d.width]);
      var rest := bits[d.width..];
      if code == CLEAR then Decode(rest, START, out, count)
      else if code == END then None
      else
        match Meaning(d, code)
        case None => None
        case Some(cur) => if cur == [] then None else Decode(rest, Learn(d, cur), out + cur, count)
  }

  // ----- encoder

  /** The position of a string in the table. */
  function IndexOf(table: Table, s: Str): (i: nat)
    requires s in table
    ensures i < |table| && table[i] == s
  {
    if table[|table| - 1] == s then |table| - 1 else IndexOf(table[..|table| - 1], s)
  }

  /** The width after the table of this size takes one more entry. */
  function NextWidth(size: nat, width: nat): nat {
    if size < 0xfff && size == Pow2(width) then width + 1 else width
  }

  function NextTable(table: Table, s: Str): Table {
    if |table| < 0xfff then table + [s] else table
  }

  /** The codes for the string s read so far and the pixels that follow. */
  function Emit(table: Table, width: nat, s: Str, data: seq<nat>): seq<bool>
    requires s in table && forall v :: v in data ==> [v] in table
    decreases |data|
  {
    if data == [] then BitsOf(IndexOf(table, s), width)
    else if s + [data[0]] in table then Emit(table, width, s + [data[0]], data[1..])
    else
      var next := NextTable(table, s + [data[0]]);
      assert forall v :: v in data ==> [v] in next by { Kept(table, next, data); }
      BitsOf(IndexOf(table, s), width) + Emit(next, NextWidth(|table|, width), [data[0]], data[1..])
  }

  /** The table and width with which the encoder ends. */
  function Final(table: Table, width: nat, s: Str, data: seq<nat>): (Table, nat)
    requires s in table && forall v :: v in data ==> [v] in table
    decreases |data|
  {
    if data == [] then (table, width)
    else if s + [data[0]] in table then Final(table, width, s + [data[0]], data[1..])
    else
      var next := NextTable(table, s + [data[0]]);
      assert forall v :: v in data ==> [v] in next by { Kept(table, next, data); }
      Final(next, NextWidth(|table|, width), [data[0]], data[1..])
  }

  lemma Kept(table: Table, next: Table, data: seq<nat>)
    requires table <= next && forall v :: v in data ==> [v] in table
    ensures forall v :: v in data ==> [v] in next
  {
    forall v | v in data ensures [v] in next {
      var i :| 0 <= i < |table| && table[i] == [v];
      assert next[i] == [v];
    }
  }

  // ----- the decoder follows the encoder

  /** The width is the smallest one, at least 3, that all codes of the table fit. */
  ghost predicate Fits(size: nat, width: nat) {
    3 <= width <= 12 && size <= Pow2(width) && (width > 3 ==> size > Pow2(width - 1))
  }

  /** The pixels and strings of the encoder: roots first, no empty string. */
  ghost predicate Grown(table: Table) {
    && 6 <= |table| <= 0xfff && ROOTS <= table
    && forall i :: 0 <= i < |table| ==> table[i] != []
  }

  /** The decoder is one entry behind the encoder, until the encoder's table is full. */
  ghost predicate Behind(table: Table, d: Decoder, s: Str)
    requires s != []
  {
    || (d.prev == [] && d.table == table == ROOTS)
    || (d.prev != [] && table == d.table + [d.prev + [s[0]]])
    || (d.prev != [] && |table| == 0xfff && table <= d.table && |d.table| <= 4096)
  }

  ghost predicate Follows(table: Table, width: nat, d: Decoder, s: Str) {
    Grown(table) && Fits(|table|, width) && d.width == width && s != [] && Behind(table, d, s)
  }

  /** The decoder understands the code, also when it is one it has yet to add. */
  lemma Understood(table: Table, width: nat, d: Decoder, s: Str)
    requires Follows(table, width, d, s) && s in table
    ensures IndexOf(table, s) < Pow2(width)
    ensures Meaning(d, IndexOf(table, s)) == Some(s)
  {
    hide Pow2, IndexOf;
    var i := IndexOf(table, s);
    if d.prev != [] && table == d.table + [d.prev + [s[0]]] {
      if i == |d.table| {
        assert s == d.prev + [s[0]];
        assert s[0] == d.prev[0];
      } else {
        assert table[i] == d.table[i];
      }
    } else {
      assert table[i] == d.table[i];
    }
  }

  /** After a code, the decoder's table is the one the encoder had when it wrote it. */
  lemma CaughtUp(table: Table, width: nat, d: Decoder, s: Str)
    requires Follows(table, width, d, s)
    ensures var d' := Learn(d, s);
      && d'.prev == s && table <= d'.table && |d'.table| <= 4096 && (|table| < 0xfff ==> d'.table == table)
  {
    hide Pow2;
  }

  /** The next width of the decoder is the encoder's. */
  lemma WidthsAgree(table: Table, width: nat, d: Decoder, s: Str)
    requires Follows(table, width, d, s)
    ensures |table| < 0xfff ==> Learn(d, s).width == NextWidth(|table|, width)
    ensures |table| == 0xfff ==> Learn(d, s).width == width == NextWidth(|table|, width) == 12 && Pow2(width) == 4096
    ensures |table| < 0xfff ==> Fits(|table| + 1, NextWidth(|table|, width))
  {
    Powers();
    var n := |table|;
    if width == 3 {} else if width == 4 {} else if width == 5 {} else if width == 6 {} else if width == 7 {}
    else if width == 8 {} else if width == 9 {} else if width == 10 {} else if width == 11 {} else {}
  }

  lemma Powers()
    ensures Pow2(2) == 4 && Pow2(3) == 8 && Pow2(4) == 16 && Pow2(5) == 32 && Pow2(6) == 64 && Pow2(7) == 128
    ensures Pow2(8) == 256 && Pow2(9) == 512 && Pow2(10) == 1024 && Pow2(11) == 2048 && Pow2(12) == 4096
  {
  }

  /** Writing the code of s and adding s + [c] keeps the decoder one entry behind. */
  lemma StillFollows(table: Table, width: nat, d: Decoder, s: Str, c: nat)
    requires Follows(table, width, d, s)
    ensures Follows(NextTable(table, s + [c]), NextWidth(|table|, width), Learn(d, s), [c])
  {
    hide Pow2, Learn, NextWidth, Fits;
    CaughtUp(table, width, d, s);
    WidthsAgree(table, width, d, s);
  }

  /** One code is read back from its bits. */
  lemma ReadCode(table: Table, width: nat, d: Decoder, s: Str, tail: seq<bool>, out: seq<nat>, count: nat)
    requires Follows(table, width, d, s) && s in table && s != [CLEAR] && s != [END] && |out| < count
    ensures Decode(BitsOf(IndexOf(table, s), width) + tail, d, out, count)
         == Decode(tail, Learn(d, s), out + s, count)
  {
    hide Pow2, IndexOf, Learn, Meaning, ValueOf, BitsOf;
    var code := IndexOf(table, s);
    Understood(table, width, d, s);
    ValueOfBits(code, width);
    var bits := BitsOf(code, width) + tail;
    assert bits[..width] == BitsOf(code, width) && bits[width..] == tail;
    assert table[CLEAR] == ROOTS[CLEAR] && table[END] == ROOTS[END];
  }

  ghost predicate Pixels(data: seq<nat>) {
    forall i :: 0 <= i < |data| ==> data[i] < 4
  }

  lemma LastCode(table: Table, width: nat, d: Decoder, s: Str, tail: seq<bool>, out: seq<nat>)
    requires Follows(table, width, d, s) && s in table && Pixels(s)
    ensures Decode(BitsOf(IndexOf(table, s), width) + tail, d, out, |out| + |s|) == Some(Decoded(out + s, Learn(d, s), tail))
    ensures Learn(d, s).width == if |table| == Pow2(width) then width + 1 else width
  {
    hide Pow2, IndexOf, Learn, Meaning, BitsOf, Decode, Follows;
    SizeFollows(table, width, d, s);
    assert s[0] < 4;
    ReadCode(table, width, d, s, tail, out, |out| + |s|);
    WidthsAgree(table, width, d, s);
    Full(tail, Learn(d, s), out + s, |out| + |s|);
  }

  /** The decoder recovers exactly the pixels, and ends at the first bit after the codes. */
  lemma {:induction false} DecodeEmit(table: Table, width: nat, d: Decoder, s: Str, data: seq<nat>,
      tail: seq<bool>, out: seq<nat>)
    requires Follows(table, width, d, s) && s in table && Pixels(s) && Pixels(data)
    requires forall v :: v in data ==> [v] in table
    ensures Final(table, width, s, data).1 >= 3
    ensures var end := Final(table, width, s, data);
      match Decode(Emit(table, width, s, data) + tail, d, out, |out| + |s| + |data|)
      case Some(r) => r.pixels == out + s + data && r.unread == tail
        && r.decoder.width == (if |end.0| == Pow2(end.1) then end.1 + 1 else end.1)
      case None => false
    decreases |data|
  {
    hide Pow2, IndexOf, Learn, Meaning, BitsOf, Decode, Follows, NextWidth;
    var count := |out| + |s| + |data|;
    SizeFollows(table, width, d, s);
    assert s[0] < 4;
    if data == [] {
      LastCode(table, width, d, s, tail, out);
      assert out + s + data == out + s;
    } else {
      var c, rest := data[0], data[1..];
      assert [c] in table && Pixels(rest);
      assert forall v :: v in rest ==> v in data;
      if s + [c] in table {
        SameFollows(table, width, d, s, s + [c]);
        DecodeEmit(table, width, d, s + [c], rest, tail, out);
        assert out + (s + [c]) + rest == out + s + data;
      } else {
        var next := NextTable(table, s + [c]);
        Kept(table, next, data);
        StillFollows(table, width, d, s, c);
        var more := Emit(next, NextWidth(|table|, width), [c], rest);
        ReadCode(table, width, d, s, more + tail, out, count);
        DecodeEmit(next, NextWidth(|table|, width), Learn(d, s), [c], rest, tail, out + s);
        assert BitsOf(IndexOf(table, s), width) + more + tail == BitsOf(IndexOf(table, s), width) + (more + tail);
        assert (out + s) + [c] + rest == out + s + data;
      }
    }
  }

  lemma SizeFollows(table: Table, width: nat, d: Decoder, s: Str)
    requires Follows(table, width, d, s)
    ensures |s| > 0 && width >= 3 && |table| <= 0xfff
  {
  }

  lemma SameFollows(table: Table, width: nat, d: Decoder, s: Str, t: Str)
    requires Follows(table, width, d, s) && s <= t
    ensures Follows(table, width, d, t)
  {
    hide Pow2, Fits, Grown;
  }

  lemma Full(bits: seq<bool>, d: Decoder, out: seq<nat>, count: nat)
    requires |out| >= count
    ensures Decode(bits, d, out, count) == Some(Decoded(out, d, bits))
  {
  }
}
