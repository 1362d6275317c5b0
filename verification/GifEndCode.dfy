/** When a GIF decoder finds the end code after the pixels: always, except when they took eleven codes. */
module GifEndCode {
  import opened Bytes
  import opened ModArith
  import opened Bits
  import opened Lzw
  import opened GifRaster

  // ----- how many bits the codes take

  /** The width of the code written when the table holds n strings. */
  function WidthOf(n: nat): nat {
    if n <= 8 then 3 else if n <= 16 then 4 else if n <= 32 then 5 else if n <= 64 then 6 else if n <= 128 then 7
    else if n <= 256 then 8 else if n <= 512 then 9 else if n <= 1024 then 10 else if n <= 2048 then 11 else 12
  }

  /** The bits of one code for every table size from 6 to n. */
  function Cost(n: nat): nat {
    if n < 6 then 0 else Cost(n - 1) + WidthOf(n)
  }

  lemma FittingWidth(n: nat, width: nat)
    requires 6 <= n <= 0xfff && Fits(n, width)
    ensures width == WidthOf(n)
    ensures n < 0xfff ==> Fits(n + 1, NextWidth(n, width))
  {
    Powers();
    if width == 3 {} else if width == 4 {} else if width == 5 {} else if width == 6 {} else if width == 7 {}
    else if width == 8 {} else if width == 9 {} else if width == 10 {} else if width == 11 {} else {}
  }

  /** The table never shrinks, and its codes keep the smallest width. */
  lemma {:induction false} FinalFits(table: Table, width: nat, s: Str, data: seq<nat>)
    requires s in table && (forall v :: v in data ==> [v] in table)
    requires 6 <= |table| <= 0xfff && Fits(|table|, width)
    ensures var end := Final(table, width, s, data); |table| <= |end.0| <= 0xfff && Fits(|end.0|, end.1)
    decreases |data|
  {
    hide Fits, NextWidth;
    if data != [] {
      assert forall v :: v in data[1..] ==> v in data;
      if s + [data[0]] in table {
        FinalFits(table, width, s + [data[0]], data[1..]);
      } else {
        var next := NextTable(table, s + [data[0]]);
        Kept(table, next, data);
        assert [data[0]] in next;
        FittingWidth(|table|, width);
        FullTableStays(|table|, width);
        FinalFits(next, NextWidth(|table|, width), [data[0]], data[1..]);
      }
    }
  }

  lemma FullTableStays(n: nat, width: nat)
    ensures n >= 0xfff ==> NextWidth(n, width) == width
  {
  }

  /** Below the cap every code but the last adds one string, so the final table size gives the number of bits. */
  lemma {:induction false} EmitLength(table: Table, width: nat, s: Str, data: seq<nat>)
    requires s in table && (forall v :: v in data ==> [v] in table)
    requires 6 <= |table| <= 0xfff && Fits(|table|, width)
    ensures var n := |Final(table, width, s, data).0|;
      n < 0xfff ==> |table| <= n && |Emit(table, width, s, data)| == Cost(n) - Cost(|table| - 1)
    decreases |data|
  {
    hide Fits, NextWidth, WidthOf, BitsOf;
    FinalFits(table, width, s, data);
    FittingWidth(|table|, width);
    if data != [] {
      assert forall v :: v in data[1..] ==> v in data;
      if s + [data[0]] in table {
        EmitLength(table, width, s + [data[0]], data[1..]);
      } else {
        var next := NextTable(table, s + [data[0]]);
        Kept(table, next, data);
        assert [data[0]] in next;
        FullTableStays(|table|, width);
        FinalFits(next, NextWidth(|table|, width), [data[0]], data[1..]);
        EmitLength(next, NextWidth(|table|, width), [data[0]], data[1..]);
      }
    }
  }

  lemma CostStep(n: nat)
    requires n >= 6
    ensures Cost(n) == Cost(n - 1) + WidthOf(n)
  {
  }

  /** Sizes of the same width cost the same. */
  lemma {:induction false} CostBlock(a: nat, n: nat, w: nat)
    requires a >= 5 && forall k :: a < k <= a + n ==> WidthOf(k) == w
    ensures Cost(a + n) == Cost(a) + n * w
    decreases n
  {
    hide WidthOf, Cost;
    if n > 0 {
      CostBlock(a, n - 1, w);
      CostStep(a + n);
      MulDist(n - 1, 1, w);
    }
  }

  lemma CostStart()
    ensures Cost(5) == 0
  {
  }

  lemma Costs()
    ensures Cost(8) == 9 && Cost(16) == 41 && Cost(32) == 121 && Cost(64) == 313 && Cost(128) == 761
    ensures Cost(256) == 1785 && Cost(512) == 4089 && Cost(1024) == 9209 && Cost(2048) == 20473
  {
    hide Cost;
    CostStart();
    CostBlock(5, 3, 3);
    CostBlock(8, 8, 4);
    CostBlock(16, 16, 5);
    CostBlock(32, 32, 6);
    CostBlock(64, 64, 7);
    CostBlock(128, 128, 8);
    CostBlock(256, 256, 9);
    CostBlock(512, 512, 10);
    CostBlock(1024, 1024, 11);
  }

  /** Of the tables that have just filled the code width, only the one of 16 strings ends on a byte boundary. */
  lemma OnlySixteen(n: nat, width: nat, pad: nat)
    requires 6 <= n <= 0xfff && Fits(n, width) && n == Pow2(width) && pad < 8
    requires n < 0xfff ==> (3 + Cost(n) + width + pad) % 8 == 0
    ensures n < 0xfff && (pad == 0 <==> n == 16)
  {
    hide Cost, Fits;
    FittingWidth(n, width);
    Powers();
    Costs();
    if n <= 8 {} else if n <= 16 {} else if n <= 32 {} else if n <= 64 {} else if n <= 128 {} else if n <= 256 {}
    else if n <= 512 {} else if n <= 1024 {} else if n <= 2048 {} else {}
  }

  // ----- the end code

  /** The next code a decoder reads is the end code. */
  predicate FindsEnd(r: Decoded) {
    |r.unread| >= r.decoder.width && ValueOf(r.unread[..r.decoder.width]) == END
  }

  /** An end code that may be one bit narrower than the decoder expects is still found if a zero bit follows it. */
  lemma EndCodeBits(w: nat, wider: nat, pad: nat)
    requires w >= 3 && wider <= 1
    ensures var unread := BitsOf(END, w) + BitsOf(0, pad);
      && (|unread| >= w + wider <==> wider == 0 || pad > 0)
      && (|unread| >= w + wider ==> ValueOf(unread[..w + wider]) == END)
  {
    hide BitsOf, ValueOf, Pow2;
    RootCodes();
    ValueOfBits(END, w);
    var unread := BitsOf(END, w) + BitsOf(0, pad);
    assert unread[..w] == BitsOf(END, w);
    if wider == 1 && pad > 0 {
      ZeroBits(pad);
      BitsJoin(END, w, 0, 1);
      assert 0 * Pow2(w) == 0;
      ZeroBits(1);
      assert unread[..w + 1] == BitsOf(END, w) + BitsOf(0, 1);
      ValueOfBits(END, w + 1);
    }
  }

  lemma {:induction false} ZeroBits(n: nat)
    ensures forall i :: 0 <= i < n ==> !BitsOf(0, n)[i]
  {
    if n > 0 {
      ZeroBits(n - 1);
    }
  }

  lemma EndsFit(data: seq<nat>)
    requires |data| > 0 && Pixels(data)
    ensures 6 <= |Ends(data).0| <= 0xfff && Fits(|Ends(data).0|, Ends(data).1)
    ensures |Ends(data).0| < 0xfff ==> |Codes(data)| == Cost(|Ends(data).0|)
  {
    hide Emit, Final, Cost;
    PixelStrings(data);
    Powers();
    assert forall v :: v in data[1..] ==> v in data;
    assert [data[0]] in ROOTS;
    FinalFits(ROOTS, 3, [data[0]], data[1..]);
    EmitLength(ROOTS, 3, [data[0]], data[1..]);
    CostStart();
  }

  /** For every image: once the pixels are complete, the decoder finds the end code exactly if the encoder's table
      does not hold 16 strings, that is, unless the pixels took eleven codes. */
  lemma EndCodeFound(raster: seq<Byte>, data: seq<nat>)
    requires |data| > 0 && Pixels(data) && exists pad: nat :: Written(raster, data, pad)
    ensures match Decode(BitsOfBytes(raster), START, [], |data|)
      case Some(r) => r.pixels == data && (FindsEnd(r) <==> |Ends(data).0| != 16)
      case None => false
  {
    hide BitsOf, BitsOfBytes, Decode, Codes, Ends, Cost, Fits, ValueOf;
    var pad: nat :| Written(raster, data, pad);
    var n, w := |Ends(data).0|, Ends(data).1;
    RasterDecodes(raster, data, pad);
    EndsFit(data);
    FittingWidth(n, w);
    var wider := if n == Pow2(w) then 1 else 0;
    EndCodeBits(w, wider, pad);
    if n == Pow2(w) {
      assert |BitsOfBytes(raster)| == 3 + |Codes(data)| + w + pad;
      OnlySixteen(n, w, pad);
    } else {
      NotSixteen(n, w);
    }
  }

  lemma NotSixteen(n: nat, w: nat)
    requires 6 <= n <= 0xfff && Fits(n, w) && n != Pow2(w)
    ensures n != 16
  {
    Powers();
    FittingWidth(n, w);
  }

  // ----- an image whose end code is lost

  /** m pixels of value 0. */
  function Black(m: nat): (s: Str)
    ensures |s| == m && Pixels(s)
  {
    seq(m, _ => 0)
  }

  /** The table after k codes of equal pixels: runs of two up to k + 1 pixels. */
  function RunTable(k: nat): (t: Table)
    ensures |t| == 6 + k
  {
    if k == 0 then ROOTS else RunTable(k - 1) + [Black(k + 1)]
  }

  lemma {:induction false} RunsInTable(k: nat, m: nat)
    requires m >= 1
    ensures Black(m) in RunTable(k) <==> m <= k + 1
  {
    if k == 0 {
      if m == 1 {
        assert ROOTS[0] == Black(1);
      }
      forall i | 0 <= i < |ROOTS| ensures |ROOTS[i]| == 1 {
      }
    } else {
      RunsInTable(k - 1, m);
      assert Black(m) == Black(k + 1) <==> |Black(m)| == |Black(k + 1)|;
    }
  }

  /** One code takes a run one pixel longer than the code before it. */
  lemma {:induction false} OneRun(k: nat, width: nat, m: nat, r: nat)
    requires 1 <= m <= k + 1 && k < 4000 && r > k + 1 - m
    ensures Black(m) in RunTable(k) && Black(1) in RunTable(k) && Black(1) in RunTable(k + 1)
    ensures forall v :: v in Black(r) ==> [v] in RunTable(k) && [v] in RunTable(k + 1)
    ensures Final(RunTable(k), width, Black(m), Black(r)).0
         == Final(RunTable(k + 1), NextWidth(6 + k, width), Black(1), Black(r - (k + 1 - m) - 1)).0
    decreases k + 1 - m
  {
    hide RunTable, NextWidth;
    RunsInTable(k, m);
    RunsInTable(k, 1);
    RunsInTable(k + 1, 1);
    RunsInTable(k, m + 1);
    assert [0] == Black(1);
    assert Black(m) + [Black(r)[0]] == Black(m + 1) && Black(r)[1..] == Black(r - 1);
    if m <= k {
      OneRun(k, width, m + 1, r - 1);
    } else {
      NextRunTable(k);
    }
  }

  lemma NextRunTable(k: nat)
    requires k < 4000
    ensures NextTable(RunTable(k), Black(k + 2)) == RunTable(k + 1)
  {
  }

  /** Eleven codes take 1, 2, ..., 10 pixels and the one that is left. */
  lemma {:induction false} Runs(k: nat, width: nat, r: nat)
    requires k <= 10 && 2 * r == 110 - k * (k + 1)
    ensures Black(1) in RunTable(k) && forall v :: v in Black(r) ==> [v] in RunTable(k)
    ensures |Final(RunTable(k), width, Black(1), Black(r)).0| == 16
    decreases 10 - k
  {
    hide RunTable, NextWidth;
    RunsInTable(k, 1);
    assert [0] == Black(1);
    if k < 10 {
      OneRun(k, width, 1, r);
      MulDist(k + 1, 1, k + 2);
      MulDist(k, 1, k + 1);
      Runs(k + 1, NextWidth(6 + k, width), r - k - 1);
    }
  }

  /** Fifty-six black pixels: the decoder has them all, but no end code is left to read. */
  lemma EndCodeLost(raster: seq<Byte>)
    requires exists pad: nat :: Written(raster, Black(56), pad)
    ensures |Ends(Black(56)).0| == 16
    ensures match Decode(BitsOfBytes(raster), START, [], 56)
      case Some(r) => r.pixels == Black(56) && !FindsEnd(r)
      case None => false
  {
    hide Decode, BitsOfBytes, Final, ValueOf;
    Runs(0, 3, 55);
    PixelStrings(Black(56));
    assert Black(56)[1..] == Black(55) && [Black(56)[0]] == Black(1);
    EndCodeFound(raster, Black(56));
  }
}
