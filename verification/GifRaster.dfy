/** The raster writer of the GIF image: string table, code loop and data sub-blocks. */
module GifRaster {
  import opened Bytes
  import opened ModArith
  import opened Bits
  import opened Lzw
  import opened Options

  /** Strings numbered in the order in which they were added. */
  class LzwTable {
    var codes: map<Str, nat>
    var size: nat
    ghost var table: Table

    ghost predicate Valid()
      reads this
    {
      && size == |table|
      && (forall i :: 0 <= i < |table| ==> table[i] in codes && codes[table[i]] == i)
      && (forall s :: s in codes ==> s in table)
    }

    constructor ()
      ensures Valid() && table == []
    {
      codes, size, table := map[], 0, [];
    }

    predicate Contains(key: Str)
      requires Valid()
      reads this
      ensures Contains(key) <==> key in table
    {
      key in codes
    }

    function IndexOf(key: Str): (i: nat)
      requires Valid() && Contains(key)
      reads this
      ensures i == Lzw.IndexOf(table, key)
    {
      codes[key]
    }

    /** A string that is already there is refused. */
    method Add(key: Str)
      requires Valid() && !Contains(key)
      modifies this
      ensures Valid() && table == old(table) + [key]
    {
      codes := codes[key := size];
      size := size + 1;
      table := table + [key];
    }
  }

  method RootTable() returns (t: LzwTable)
    ensures fresh(t) && t.Valid() && t.table == ROOTS
  {
    t := new LzwTable();
    for i := 0 to 6
      invariant fresh(t) && t.Valid() && t.table == ROOTS[..i]
    {
      assert ROOTS[..i + 1] == ROOTS[..i] + [[i]];
      t.Add([i]);
    }
    assert ROOTS[..6] == ROOTS;
  }

  lemma StartFollows(s: Str)
    requires s != []
    ensures Follows(ROOTS, 3, START, s)
  {
    Powers();
  }

  lemma RootCodes()
    ensures CLEAR < Pow2(3) && forall w :: w >= 3 ==> END < Pow2(w)
  {
    Powers();
    forall w | w >= 3 ensures END < Pow2(w) {
      Pow2Add(3, w - 3);
      MulMono(1, Pow2(w - 3), 8);
    }
  }

  lemma PixelStrings(data: seq<nat>)
    requires Pixels(data)
    ensures forall v :: v in data ==> [v] in ROOTS
  {
    forall v | v in data ensures [v] in ROOTS {
      assert v < 4 && ROOTS[v] == [v];
    }
  }

  /** The codes of the pixels, after the clear code. */
  ghost function Codes(data: seq<nat>): seq<bool>
    requires |data| > 0 && Pixels(data)
  {
    PixelStrings(data);
    Emit(ROOTS, 3, [data[0]], data[1..])
  }

  /** The table and the code width with which the encoder ends. */
  ghost function Ends(data: seq<nat>): (Table, nat)
    requires |data| > 0 && Pixels(data)
  {
    PixelStrings(data);
    Final(ROOTS, 3, [data[0]], data[1..])
  }

  /** What has been written and what is still to be written are together the codes of the image. */
  ghost predicate Underway(written: seq<bool>, table: Table, width: nat, s: Str, rest: seq<nat>, data: seq<nat>)
    requires |data| > 0 && Pixels(data)
  {
    && s in table && (forall v :: v in rest ==> [v] in table)
    && written + Emit(table, width, s, rest) == BitsOf(CLEAR, 3) + Codes(data)
    && Final(table, width, s, rest) == Ends(data)
  }

  lemma Longer(written: seq<bool>, table: Table, width: nat, s: Str, rest: seq<nat>, data: seq<nat>)
    requires |data| > 0 && Pixels(data) && |rest| > 0 && Underway(written, table, width, s, rest, data)
    requires s + [rest[0]] in table
    ensures Underway(written, table, width, s + [rest[0]], rest[1..], data)
  {
    hide IndexOf, BitsOf, Codes, Ends;
  }

  lemma NextString(written: seq<bool>, table: Table, width: nat, s: Str, rest: seq<nat>, data: seq<nat>)
    requires |data| > 0 && Pixels(data) && |rest| > 0 && Underway(written, table, width, s, rest, data)
    requires s + [rest[0]] !in table
    ensures Underway(written + BitsOf(IndexOf(table, s), width), NextTable(table, s + [rest[0]]),
                     NextWidth(|table|, width), [rest[0]], rest[1..], data)
    ensures [rest[0]] in NextTable(table, s + [rest[0]])
  {
    hide IndexOf, BitsOf, NextWidth, Codes, Ends;
    var next := NextTable(table, s + [rest[0]]);
    Kept(table, next, rest);
    assert [rest[0]] in next;
    var code, more := BitsOf(IndexOf(table, s), width), Emit(next, NextWidth(|table|, width), [rest[0]], rest[1..]);
    assert (written + code) + more == written + (code + more);
  }

  lemma AtStart(written: seq<bool>, data: seq<nat>)
    requires |data| > 0 && Pixels(data) && written == BitsOf(CLEAR, 3)
    ensures Underway(written, ROOTS, 3, [data[0]], data[1..], data)
  {
    hide IndexOf, BitsOf, Emit, Final;
    PixelStrings(data);
  }

  lemma AtEnd(written: seq<bool>, table: Table, width: nat, s: Str, data: seq<nat>)
    requires |data| > 0 && Pixels(data) && Underway(written, table, width, s, [], data)
    ensures written + BitsOf(IndexOf(table, s), width) == BitsOf(CLEAR, 3) + Codes(data)
    ensures Ends(data) == (table, width)
  {
    hide IndexOf, BitsOf, Codes, Ends;
  }

  /** Adds a string while there is room, first widening the codes when the table has filled the old width. */
  method AddString(table: LzwTable, key: Str, bitLength: nat) returns (width: nat)
    requires table.Valid() && key !in table.table
    modifies table
    ensures table.Valid() && table.table == NextTable(old(table.table), key)
    ensures width == NextWidth(|old(table.table)|, bitLength)
  {
    width := bitLength;
    if table.size < 0xfff {
      if table.size == Pow2(width) {
        width := width + 1;
      }
      table.Add(key);
    }
  }

  /** The raster bytes: the clear code, the codes of the pixels, the end code and up to 7 zero bits. */
  ghost predicate Written(raster: seq<Byte>, data: seq<nat>, pad: nat)
    requires |data| > 0 && Pixels(data)
  {
    pad < 8 && BitsOfBytes(raster) == BitsOf(CLEAR, 3) + Codes(data) + BitsOf(END, Ends(data).1) + BitsOf(0, pad)
  }

  /** A GIF decoder recovers exactly these pixels from the raster. */
  ghost predicate DecodesTo(raster: seq<Byte>, data: seq<nat>) {
    var r := Decode(BitsOfBytes(raster), START, [], |data|);
    r.Some? && r.value.pixels == data
  }

  method GetLzwRaster(data: seq<nat>) returns (raster: seq<Byte>)
    requires |data| > 0 && Pixels(data)
    ensures DecodesTo(raster, data) && exists pad: nat :: Written(raster, data, pad)
  {
    hide BitsOf, BitsOfBytes, Pow2, Codes, Ends, Emit, Final, Follows, NextTable, NextWidth, Underway, Decode;
    hide LzwTable.Valid, BitOutputStream.Valid, BitOutputStream.Contents, Lzw.IndexOf;
    var bitLength: nat := 3;
    var table := RootTable();
    var bitOut := new BitOutputStream();
    RootCodes();
    bitOut.Write(CLEAR, bitLength);
    var s := [data[0]];
    var dataIndex := 1;
    ghost var d := START;
    StartFollows(s);
    AtStart(bitOut.Contents(), data);
    while dataIndex < |data|
      invariant 1 <= dataIndex <= |data| && fresh(table) && table.Valid() && fresh(bitOut) && bitOut.Valid()
      invariant Follows(table.table, bitLength, d, s)
      invariant s in table.table && Underway(bitOut.Contents(), table.table, bitLength, s, data[dataIndex..], data)
    {
      var c := data[dataIndex];
      assert data[dataIndex..][0] == c && data[dataIndex..][1..] == data[dataIndex + 1..];
      if table.Contains(s + [c]) {
        Longer(bitOut.Contents(), table.table, bitLength, s, data[dataIndex..], data);
        SameFollows(table.table, bitLength, d, s, s + [c]);
        s := s + [c];
      } else {
        Understood(table.table, bitLength, d, s);
        SizeFollows(table.table, bitLength, d, s);
        StillFollows(table.table, bitLength, d, s, c);
        NextString(bitOut.Contents(), table.table, bitLength, s, data[dataIndex..], data);
        d := Learn(d, s);
        bitOut.Write(table.IndexOf(s), bitLength);
        bitLength := AddString(table, s + [c], bitLength);
        s := [c];
      }
      dataIndex := dataIndex + 1;
    }
    assert data[dataIndex..] == [];
    Understood(table.table, bitLength, d, s);
    SizeFollows(table.table, bitLength, d, s);
    AtEnd(bitOut.Contents(), table.table, bitLength, s, data);
    bitOut.Write(table.IndexOf(s), bitLength);
    bitOut.Write(END, bitLength);
    ghost var pad := bitOut.Flush();
    raster := bitOut.out;
    assert Written(raster, data, pad);
    RasterDecodes(raster, data, pad);
  }

  /** A GIF decoder recovers the pixels from the raster, and stops before the end code. */
  lemma RasterDecodes(raster: seq<Byte>, data: seq<nat>, pad: nat)
    requires |data| > 0 && Pixels(data) && Written(raster, data, pad)
    ensures match Decode(BitsOfBytes(raster), START, [], |data|)
      case Some(r) => r.pixels == data && r.unread == BitsOf(END, Ends(data).1) + BitsOf(0, pad)
        && r.decoder.width == Ends(data).1 + (if |Ends(data).0| == Pow2(Ends(data).1) then 1 else 0)
      case None => false
  {
    hide BitsOf, BitsOfBytes, Pow2, Emit, Final, Follows, Decode;
    PixelStrings(data);
    StartFollows([data[0]]);
    var w := Ends(data).1;
    var tail := BitsOf(END, w) + BitsOf(0, pad);
    assert BitsOfBytes(raster) == BitsOf(CLEAR, 3) + (Codes(data) + tail);
    ReadClear(Codes(data) + tail, |data|);
    DecodeEmit(ROOTS, 3, START, [data[0]], data[1..], tail, []);
    assert [] + [data[0]] + data[1..] == data;
  }

  /** The low three bits of the first byte are the code 4, after which a decoder starts afresh. */
  lemma StartsWithClear(raster: seq<Byte>, data: seq<nat>, pad: nat)
    requires |data| > 0 && Pixels(data) && Written(raster, data, pad)
    ensures |raster| > 0 && raster[0] % 8 == 4
  {
    hide BitsOf, Pow2, Codes, Ends, BitsOfBytes;
    SomeByte(raster, data, pad);
    var bits, clear := BitsOfBytes(raster), BitsOf(CLEAR, 3);
    assert clear <= bits;
    forall i: nat | i < 3 ensures raster[0] / Pow2(i) % 2 == 1 <==> i == 2 {
      assert bits[i] == clear[i];
      BitOf(CLEAR, 3, i);
      BitOfByte(raster, 0, i);
      FewPowers(i);
    }
    LowThree(raster[0]);
  }

  lemma SomeByte(raster: seq<Byte>, data: seq<nat>, pad: nat)
    requires |data| > 0 && Pixels(data) && Written(raster, data, pad)
    ensures |raster| > 0 && BitsOf(CLEAR, 3) <= BitsOfBytes(raster)
  {
    hide BitsOf, Codes, Ends, BitsOfBytes;
    Begins(BitsOf(CLEAR, 3), Codes(data), BitsOf(END, Ends(data).1), BitsOf(0, pad));
    assert |BitsOfBytes(raster)| >= 3;
  }

  lemma Begins(a: seq<bool>, b: seq<bool>, c: seq<bool>, d: seq<bool>)
    ensures a <= a + b + c + d && |a + b + c + d| >= |a|
  {
  }

  lemma LowThree(b: Byte)
    requires forall i: nat :: i < 3 ==> (b / Pow2(i) % 2 == 1 <==> i == 2)
    ensures b % 8 == 4
  {
    FewPowers(0);
    FewPowers(1);
    FewPowers(2);
    assert b / Pow2(0) % 2 == 0 && b / Pow2(1) % 2 == 0 && b / Pow2(2) % 2 == 1;
  }

  lemma FewPowers(i: nat)
    requires i < 3
    ensures Pow2(i) == [1, 2, 4][i] && (CLEAR / Pow2(i) % 2 == 1 <==> i == 2)
  {
  }


  lemma ReadClear(rest: seq<bool>, count: nat)
    requires count > 0
    ensures Decode(BitsOf(CLEAR, 3) + rest, START, [], count) == Decode(rest, START, [], count)
  {
    hide BitsOf, ValueOf;
    RootCodes();
    ValueOfBits(CLEAR, 3);
    var bits := BitsOf(CLEAR, 3) + rest;
    assert bits[..3] == BitsOf(CLEAR, 3) && bits[3..] == rest;
  }

  // ----- data sub-blocks

  /** Sub-blocks of at most 255 bytes, each after its length, and an empty one. */
  function ReadBlocks(bytes: seq<Byte>): Option<seq<Byte>> {
    if bytes == [] then None
    else if bytes[0] == 0 then Some([])
    else if |bytes| <= bytes[0] then None
    else
      match ReadBlocks(bytes[1 + bytes[0]..])
      case None => None
      case Some(rest) => Some(bytes[1..1 + bytes[0]] + rest)
  }

  function Blocks(raster: seq<Byte>): seq<Byte> {
    if |raster| > 255 then [255] + raster[..255] + Blocks(raster[255..])
    else [|raster|] + raster + [0]
  }

  lemma {:induction false} BlocksRead(raster: seq<Byte>)
    requires |raster| > 0
    ensures ReadBlocks(Blocks(raster)) == Some(raster)
  {
    var b := Blocks(raster);
    if |raster| > 255 {
      BlocksRead(raster[255..]);
      assert b[1..256] == raster[..255] && b[256..] == Blocks(raster[255..]);
      assert raster[..255] + raster[255..] == raster;
    } else {
      assert b[1..1 + b[0]] == raster && b[1 + b[0]..] == [0];
      assert ReadBlocks([0]) == Some([]) && raster + [] == raster;
    }
  }

  lemma BlocksStep(out: seq<Byte>, raster: seq<Byte>)
    ensures |raster| > 255 ==> out + Blocks(raster) == out + [255] + raster[..255] + Blocks(raster[255..])
    ensures |raster| <= 255 ==> out + Blocks(raster) == out + [|raster|] + raster + [0]
  {
    if |raster| > 255 {
      Regroup(out, [255], raster[..255], Blocks(raster[255..]));
    } else {
      Regroup(out, [|raster|], raster, [0]);
    }
  }

  lemma Regroup(a: seq<Byte>, b: seq<Byte>, c: seq<Byte>, d: seq<Byte>)
    ensures a + (b + c + d) == a + b + c + d
  {
    assert a + (b + c + d) == a + (b + c) + d;
    assert a + (b + c) == a + b + c;
  }

  method WriteBlocks(raster: seq<Byte>) returns (out: seq<Byte>)
    ensures out == Blocks(raster)
  {
    hide Blocks;
    out := [];
    var offset := 0;
    assert raster[0..] == raster && [] + Blocks(raster) == Blocks(raster);
    while |raster| - offset > 255
      invariant offset <= |raster| && Blocks(raster) == out + Blocks(raster[offset..])
    {
      BlocksStep(out, raster[offset..]);
      assert raster[offset..][255..] == raster[offset + 255..];
      assert raster[offset..][..255] == raster[offset..offset + 255];
      out := out + [255] + raster[offset..offset + 255];
      offset := offset + 255;
    }
    BlocksStep(out, raster[offset..]);
    out := out + [|raster| - offset] + raster[offset..];
    out := out + [0];
  }
}
