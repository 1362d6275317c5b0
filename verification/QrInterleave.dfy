/** Splitting the data into blocks and interleaving the blocks column by column. */
module QrInterleave {
  import opened ReedSolomon
  import opened QrCodewords

  datatype RsBlock = RsBlock(totalCount: nat, dataCount: nat) {
    /** The layouts the encoder can serve: fewer than 255 error codewords. */
    predicate Fits() {
      dataCount <= totalCount < dataCount + 255
    }
  }

  // ----- interleaving

  /** Entry i of each of the first r rows that are long enough. */
  function Column(rows: seq<Poly>, i: nat, r: nat): Poly
    requires r <= |rows|
  {
    if r == 0 then [] else
      Column(rows, i, r - 1) + (if i < |rows[r - 1]| then [rows[r - 1][i]] else [])
  }

  /** The first i columns, one after another. */
  function Columns(rows: seq<Poly>, i: nat): Poly {
    if i == 0 then [] else Columns(rows, i - 1) + Column(rows, i - 1, |rows|)
  }

  function Longest(rows: seq<Poly>): (n: nat)
    ensures forall r :: 0 <= r < |rows| ==> |rows[r]| <= n
  {
    if rows == [] then 0 else
      var n := Longest(rows[..|rows| - 1]);
      if |rows[|rows| - 1]| > n then |rows[|rows| - 1]| else n
  }

  function Interleaved(rows: seq<Poly>): Poly {
    Columns(rows, Longest(rows))
  }

  /** How many of the first r rows reach beyond column i. */
  function RowsBeyond(rows: seq<Poly>, i: nat, r: nat): nat
    requires r <= |rows|
  {
    if r == 0 then 0 else RowsBeyond(rows, i, r - 1) + (if i < |rows[r - 1]| then 1 else 0)
  }

  /** How many entries of the first r rows lie in the first i columns. */
  function EntriesBefore(rows: seq<Poly>, i: nat, r: nat): nat
    requires r <= |rows|
  {
    if r == 0 then 0 else
      EntriesBefore(rows, i, r - 1) + (if i < |rows[r - 1]| then i else |rows[r - 1]|)
  }

  lemma {:induction false} ColumnLength(rows: seq<Poly>, i: nat, r: nat)
    requires r <= |rows|
    ensures |Column(rows, i, r)| == RowsBeyond(rows, i, r)
  {
    if r > 0 {
      ColumnLength(rows, i, r - 1);
    }
  }

  lemma {:induction false} OneMoreColumn(rows: seq<Poly>, i: nat, r: nat)
    requires r <= |rows|
    ensures EntriesBefore(rows, i + 1, r) == EntriesBefore(rows, i, r) + RowsBeyond(rows, i, r)
  {
    if r > 0 {
      OneMoreColumn(rows, i, r - 1);
    }
  }

  lemma {:induction false} ColumnsLength(rows: seq<Poly>, i: nat)
    ensures |Columns(rows, i)| == EntriesBefore(rows, i, |rows|)
  {
    if i == 0 {
      NoEntries(rows, |rows|);
    } else {
      ColumnsLength(rows, i - 1);
      ColumnLength(rows, i - 1, |rows|);
      OneMoreColumn(rows, i - 1, |rows|);
    }
  }

  lemma {:induction false} NoEntries(rows: seq<Poly>, r: nat)
    requires r <= |rows|
    ensures EntriesBefore(rows, 0, r) == 0
  {
    if r > 0 {
      NoEntries(rows, r - 1);
    }
  }

  lemma {:induction false} ColumnAt(rows: seq<Poly>, i: nat, r: nat, end: nat)
    requires r < end <= |rows| && i < |rows[r]|
    ensures RowsBeyond(rows, i, r) < |Column(rows, i, end)|
    ensures Column(rows, i, end)[RowsBeyond(rows, i, r)] == rows[r][i]
    decreases end
  {
    if r < end - 1 {
      ColumnAt(rows, i, r, end - 1);
    } else {
      ColumnLength(rows, i, r);
    }
  }

  /** A reader finds entry i of row r after all earlier columns and the longer rows above it. */
  lemma {:induction false} PlaceOf(rows: seq<Poly>, i: nat, r: nat, end: nat)
    requires r < |rows| && i < |rows[r]| && i < end
    ensures var at := EntriesBefore(rows, i, |rows|) + RowsBeyond(rows, i, r);
      at < |Columns(rows, end)| && Columns(rows, end)[at] == rows[r][i]
    decreases end
  {
    hide EntriesBefore, RowsBeyond, Column;
    if i < end - 1 {
      PlaceOf(rows, i, r, end - 1);
    } else {
      ColumnAt(rows, i, r, |rows|);
      ColumnsLength(rows, i);
    }
  }

  /** Interleaving loses nothing: blocks of the same lengths are recovered from it. */
  lemma InterleavingInjective(rows: seq<Poly>, other: seq<Poly>)
    requires |rows| == |other| && forall r :: 0 <= r < |rows| ==> |rows[r]| == |other[r]|
    requires Interleaved(rows) == Interleaved(other)
    ensures rows == other
  {
    hide Columns, EntriesBefore, RowsBeyond, Longest;
    forall r | 0 <= r < |rows| ensures rows[r] == other[r] {
      forall i | 0 <= i < |rows[r]| ensures rows[r][i] == other[r][i] {
        PlaceOf(rows, i, r, Longest(rows));
        PlaceOf(other, i, r, Longest(other));
        SameEntries(rows, other, i, |rows|);
        SameEntries(rows, other, i, r);
      }
    }
  }

  lemma {:induction false} SameEntries(rows: seq<Poly>, other: seq<Poly>, i: nat, r: nat)
    requires |rows| == |other| && forall r :: 0 <= r < |rows| ==> |rows[r]| == |other[r]|
    requires r <= |rows|
    ensures EntriesBefore(rows, i, r) == EntriesBefore(other, i, r)
    ensures RowsBeyond(rows, i, r) == RowsBeyond(other, i, r)
  {
    if r > 0 {
      SameEntries(rows, other, i, r - 1);
    }
  }

  /** Writes one column from `start`. */
  method WriteColumn(data: array<bv8>, rows: seq<Poly>, i: nat, start: nat) returns (index: nat)
    requires start + |Column(rows, i, |rows|)| <= data.Length
    modifies data
    ensures index == start + |Column(rows, i, |rows|)|
    ensures data[..index] == old(data[..start]) + Column(rows, i, |rows|)
  {
    index := start;
    for r := 0 to |rows|
      invariant index == start + |Column(rows, i, r)|
      invariant index <= data.Length && data[..index] == old(data[..start]) + Column(rows, i, r)
    {
      ColumnGrows(rows, i, r + 1, |rows|);
      if i < |rows[r]| {
        data[index] := rows[r][i];
        index := index + 1;
        assert data[..index] == data[..index - 1] + [rows[r][i]];
      }
    }
  }

  /** Writes the rows column by column from `start`. */
  method Interleave(data: array<bv8>, rows: seq<Poly>, longest: nat, start: nat) returns (index: nat)
    requires start + |Columns(rows, longest)| <= data.Length
    modifies data
    ensures index == start + |Columns(rows, longest)|
    ensures data[..index] == old(data[..start]) + Columns(rows, longest)
  {
    hide Column;
    index := start;
    for i := 0 to longest
      invariant index == start + |Columns(rows, i)|
      invariant index <= data.Length && data[..index] == old(data[..start]) + Columns(rows, i)
    {
      ColumnsGrow(rows, i + 1, longest);
      index := WriteColumn(data, rows, i, index);
    }
  }

  lemma {:induction false} ColumnGrows(rows: seq<Poly>, i: nat, r: nat, end: nat)
    requires r <= end <= |rows|
    ensures |Column(rows, i, r)| <= |Column(rows, i, end)|
    decreases end
  {
    if r < end {
      ColumnGrows(rows, i, r, end - 1);
    }
  }

  lemma {:induction false} ColumnsGrow(rows: seq<Poly>, i: nat, end: nat)
    requires i <= end
    ensures |Columns(rows, i)| <= |Columns(rows, end)|
    decreases end
  {
    hide Column;
    if i < end {
      ColumnsGrow(rows, i, end - 1);
    }
  }

  // ----- blocks

  /** Data codewords of the first r blocks. */
  function DataBefore(blocks: seq<RsBlock>, r: nat): nat
    requires r <= |blocks|
  {
    if r == 0 then 0 else DataBefore(blocks, r - 1) + blocks[r - 1].dataCount
  }

  function TotalCount(blocks: seq<RsBlock>, r: nat): nat
    requires r <= |blocks|
  {
    if r == 0 then 0 else TotalCount(blocks, r - 1) + blocks[r - 1].totalCount
  }

  /** The consecutive piece of the buffer that goes into block r, absent bytes read as 0. */
  function BlockData(buffer: Poly, blocks: seq<RsBlock>, r: nat): (d: Poly)
    requires r < |blocks|
    ensures |d| == blocks[r].dataCount
  {
    var offset := DataBefore(blocks, r);
    seq(blocks[r].dataCount, i requires 0 <= i => if i + offset < |buffer| then buffer[i + offset] else 0)
  }

  ghost predicate DataRows(buffer: Poly, blocks: seq<RsBlock>, dc: seq<Poly>) {
    |dc| <= |blocks| && forall r :: 0 <= r < |dc| ==> dc[r] == BlockData(buffer, blocks, r)
  }

  /** The first r rows, one after another. */
  function Joined(rows: seq<Poly>, r: nat): Poly
    requires r <= |rows|
  {
    if r == 0 then [] else Joined(rows, r - 1) + rows[r - 1]
  }

  /** The blocks, one after another, are the buffer, continued by zeros. */
  lemma {:induction false} BlocksSplit(buffer: Poly, blocks: seq<RsBlock>, dc: seq<Poly>, r: nat)
    requires DataRows(buffer, blocks, dc) && r <= |dc|
    ensures |Joined(dc, r)| == DataBefore(blocks, r)
    ensures forall k :: 0 <= k < |Joined(dc, r)| ==> Joined(dc, r)[k] == if k < |buffer| then buffer[k] else 0
  {
    if r > 0 {
      BlocksSplit(buffer, blocks, dc, r - 1);
    }
  }

  /** Every block with its error codewords is clean. */
  ghost predicate ParityRows(blocks: seq<RsBlock>, dc: seq<Poly>, ec: seq<Poly>) {
    && |dc| == |ec| <= |blocks|
    && forall r :: 0 <= r < |dc| ==> |ec[r]| == blocks[r].totalCount - blocks[r].dataCount && Clean(|ec[r]|, dc[r] + ec[r])
  }

  lemma {:induction false} RowLengths(blocks: seq<RsBlock>, dc: seq<Poly>, ec: seq<Poly>, i: nat, j: nat, r: nat)
    requires |dc| == |ec| == |blocks| && r <= |blocks|
    requires forall k :: 0 <= k < |dc| ==> |dc[k]| <= i && |ec[k]| <= j && |dc[k]| + |ec[k]| == blocks[k].totalCount
    ensures EntriesBefore(dc, i, r) + EntriesBefore(ec, j, r) == TotalCount(blocks, r)
  {
    if r > 0 {
      RowLengths(blocks, dc, ec, i, j, r - 1);
    }
  }

  lemma LongestSnoc(rows: seq<Poly>, p: Poly)
    ensures Longest(rows + [p]) == if |p| > Longest(rows) then |p| else Longest(rows)
  {
    assert (rows + [p])[..|rows|] == rows;
  }

  /** The codewords of a symbol: interleaved data, then interleaved error codewords, filling the array exactly. */
  method CreateBytes(m: QrMath, buffer: Poly, blocks: seq<RsBlock>)
    returns (data: array<bv8>, dcdata: seq<Poly>, ecdata: seq<Poly>)
    requires m.Valid() && forall r :: 0 <= r < |blocks| ==> blocks[r].Fits()
    ensures |dcdata| == |blocks| && DataRows(buffer, blocks, dcdata) && ParityRows(blocks, dcdata, ecdata)
    ensures data[..] == Interleaved(dcdata) + Interleaved(ecdata)
  {
    hide Clean, Columns, Longest, EntriesBefore, BlockData;
    var offset, maxDcCount, maxEcCount := 0, 0, 0;
    var dc: seq<Poly>, ec: seq<Poly> := [], [];
    EmptyLongest();
    for r := 0 to |blocks|
      invariant m.Valid() && |dc| == r && offset == DataBefore(blocks, r)
      invariant DataRows(buffer, blocks, dc) && ParityRows(blocks, dc, ec)
      invariant maxDcCount == Longest(dc) && maxEcCount == Longest(ec)
    {
      var dcCount := blocks[r].dataCount;
      assert blocks[r].Fits();
      var ecCount := blocks[r].totalCount - dcCount;
      if dcCount > maxDcCount { maxDcCount := dcCount; }
      if ecCount > maxEcCount { maxEcCount := ecCount; }
      var block := ReadBlock(buffer, blocks, r, offset);
      offset := offset + dcCount;
      var parity := BlockParity(m, block, ecCount);
      LongestSnoc(dc, block);
      LongestSnoc(ec, parity);
      dc, ec := dc + [block], ec + [parity];
    }
    var totalCodeCount := 0;
    for i := 0 to |blocks|
      invariant totalCodeCount == TotalCount(blocks, i)
    {
      totalCodeCount := totalCodeCount + blocks[i].totalCount;
    }
    dcdata, ecdata := dc, ec;
    RowLengths(blocks, dc, ec, maxDcCount, maxEcCount, |blocks|);
    ColumnsLength(dc, maxDcCount);
    ColumnsLength(ec, maxEcCount);
    data := new bv8[totalCodeCount];
    var index := Interleave(data, dc, maxDcCount, 0);
    index := Interleave(data, ec, maxEcCount, index);
    assert data[..] == data[..index];
  }

  lemma EmptyLongest()
    ensures Longest([]) == 0
  {
  }

  method ReadBlock(buffer: Poly, blocks: seq<RsBlock>, r: nat, offset: nat) returns (block: Poly)
    requires r < |blocks| && offset == DataBefore(blocks, r)
    ensures block == BlockData(buffer, blocks, r)
  {
    hide DataBefore;
    block := [];
    for i := 0 to blocks[r].dataCount
      invariant block == BlockData(buffer, blocks, r)[..i]
    {
      var b := if i + offset < |buffer| then buffer[i + offset] else 0;
      assert b == BlockData(buffer, blocks, r)[i];
      block := block + [b];
    }
  }
}
