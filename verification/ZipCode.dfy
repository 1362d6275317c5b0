/** The archive builder: offsets, header buffers, size limits. */
module ZipCode {
  import opened Bytes
  import opened Options
  import opened ZipFormat
  import ZipNames

  /** Writes bytes into a buffer that is still zero from there on. */
  method Put(a: array<Byte>, at: nat, b: Data)
    requires at + |b| <= a.Length && forall k :: at <= k < a.Length ==> a[k] == 0
    modifies a
    ensures a[..at + |b|] == old(a[..at]) + b
    ensures forall k :: at + |b| <= k < a.Length ==> a[k] == 0
  {
    forall i | 0 <= i < |b| {
      a[at + i] := b[i];
    }
  }

  /** Leaves zeros. */
  lemma Gap(s: Data, at: nat, n: nat)
    requires at + n <= |s| && forall k :: at <= k < |s| ==> s[k] == 0
    ensures s[..at + n] == s[..at] + seq(n, _ => 0)
  {
  }

  method LocalHeader(name: Data, size: nat, crc: nat, st: Stamp) returns (local: Data)
    ensures local == LocalFixed(|name|, size, crc, st) + name
  {
    hide Le16, Le32;
    var b := new Byte[30 + |name|](_ => 0);
    Put(b, 0, Le32(0x04034b50));
    Put(b, 4, Le16(20));
    Put(b, 6, Le16(0x0800));
    Put(b, 8, Le16(0));
    Put(b, 10, Le16(st.time));
    Put(b, 12, Le16(st.date));
    Put(b, 14, Le32(crc));
    Put(b, 18, Le32(size));
    Put(b, 22, Le32(size));
    Put(b, 26, Le16(|name|));
    Put(b, 28, Le16(0));
    Put(b, 30, name);
    LocalStart();
    local := b[..];
    assert b[..] == b[..30 + |name|];
  }

  lemma LocalStart()
    ensures [] + Le32(0x04034b50) + Le16(20) + Le16(0x0800) + Le16(0) == [0x50, 0x4b, 3, 4, 20, 0, 0, 8, 0, 0]
    ensures Le16(0) == [0, 0]
  {
    hide Le16, Le32;
    Words();
    assert Le32(0x04034b50) == [0x50, 0x4b, 3, 4] by {
      Signatures();
    }
    assert [] + [0x50, 0x4b, 3, 4] + [20, 0] + [0, 8] + [0, 0] == [0x50, 0x4b, 3, 4, 20, 0, 0, 8, 0, 0];
  }

  lemma Words()
    ensures Le16(20) == [20, 0] && Le16(0x0800) == [0, 8] && Le16(0) == [0, 0]
  {
  }

  lemma Signatures()
    ensures Le32(0x04034b50) == [0x50, 0x4b, 3, 4] && Le32(0x02014b50) == [0x50, 0x4b, 1, 2]
    ensures Le32(0x06054b50) == [0x50, 0x4b, 5, 6]
  {
    hide Le32;
    FourBytes(0x50, 0x4b, 3, 4);
    FourBytes(0x50, 0x4b, 1, 2);
    FourBytes(0x50, 0x4b, 5, 6);
  }

  lemma FourBytes(a: Byte, b: Byte, c: Byte, d: Byte)
    ensures Le32(a + b * 0x100 + c * 0x1_0000 + d * 0x100_0000) == [a, b, c, d]
  {
    var x := a + b * 0x100 + c * 0x1_0000 + d * 0x100_0000;
    assert x / 0x100 == b + c * 0x100 + d * 0x1_0000 && x / 0x1_0000 == c + d * 0x100 && x / 0x100_0000 == d;
  }

  method CentralHeader(name: Data, size: nat, crc: nat, offset: nat, st: Stamp) returns (cd: Data)
    ensures cd == CentralFixed(|name|, size, crc, offset, st) + name
  {
    hide Le16, Le32;
    var b := new Byte[46 + |name|](_ => 0);
    Put(b, 0, Le32(0x02014b50));
    Put(b, 4, Le16(20));
    Put(b, 6, Le16(20));
    Put(b, 8, Le16(0x0800));
    Put(b, 10, Le16(0));
    Put(b, 12, Le16(st.time));
    Put(b, 14, Le16(st.date));
    Put(b, 16, Le32(crc));
    Put(b, 20, Le32(size));
    Put(b, 24, Le32(size));
    Put(b, 28, Le16(|name|));
    Gap(b[..], 30, 12);
    assert b[..][..30] == b[..30] && b[..][..42] == b[..42];
    Put(b, 42, Le32(offset));
    Put(b, 46, name);
    cd := b[..];
    assert b[..] == b[..46 + |name|];
    CentralStart();
  }

  lemma CentralStart()
    ensures [] + Le32(0x02014b50) + Le16(20) + Le16(20) + Le16(0x0800) + Le16(0)
         == [0x50, 0x4b, 1, 2, 20, 0, 20, 0, 0, 8, 0, 0]
    ensures seq(12, _ => 0) == [0, 0, 0, 0, 0, 0, 0, 0, 0, 0, 0, 0]
  {
    hide Le16, Le32;
    Words();
    assert Le32(0x02014b50) == [0x50, 0x4b, 1, 2] by {
      Signatures();
    }
    assert [] + [0x50, 0x4b, 1, 2] + [20, 0] + [20, 0] + [0, 8] + [0, 0] == [0x50, 0x4b, 1, 2, 20, 0, 20, 0, 0, 8, 0, 0];
  }

  method EndRecord(count: nat, size: nat, offset: nat) returns (eocd: Data)
    ensures eocd == EndFixed(count, size, offset)
  {
    hide Le16, Le32;
    var b := new Byte[22](_ => 0);
    Put(b, 0, Le32(0x06054b50));
    Gap(b[..], 4, 4);
    assert b[..][..4] == b[..4] && b[..][..8] == b[..8];
    Put(b, 8, Le16(count));
    Put(b, 10, Le16(count));
    Put(b, 12, Le32(size));
    Put(b, 16, Le32(offset));
    Gap(b[..], 20, 2);
    assert b[..][..20] == b[..20] && b[..][..22] == b[..22];
    EndStart();
    eocd := b[..];
    assert b[..] == b[..22];
  }

  lemma EndStart()
    ensures [] + Le32(0x06054b50) + seq(4, _ => 0) == [0x50, 0x4b, 5, 6, 0, 0, 0, 0]
    ensures seq(2, _ => 0) == [0, 0]
  {
    hide Le32;
    Signatures();
  }

  /** The entries as they are stored, under their encoded names. */
  function Stored(names: seq<string>, blobs: seq<Data>, utf8: string -> Data): (es: seq<Entry>)
    requires |names| == |blobs|
    ensures |es| == |names|
  {
    seq(|names|, i requires 0 <= i < |names| => Entry(utf8(names[i]), blobs[i]))
  }

  /** Refused exactly when the archive would exceed the 32-bit limit; otherwise the reader recovers every file under
      a distinct, safe name, as far as the 16-bit fields reach. */
  method Build(entries: seq<string>, blobs: seq<Data>, utf8: string -> Data, st: Stamp)
    returns (names: seq<string>, r: Option<Data>)
    requires |entries| == |blobs|
    ensures |names| == |entries| && ZipNames.Distinct(names) && forall i :: 0 <= i < |names| ==> ZipNames.Safe(names[i])
    ensures r.Some? <==> |Archive(Stored(names, blobs, utf8), st)| <= MAX32
    ensures r.Some? ==> r.value == Archive(Stored(names, blobs, utf8), st)
    ensures r.Some? ==> (ReadZip(r.value) == Some(Stored(names, blobs, utf8)) <==>
      |entries| <= MAX16 && forall i :: 0 <= i < |names| ==> |utf8(names[i])| <= MAX16)
  {
    hide LocalFixed, CentralFixed, EndFixed, ReadZip, ZipNames.Distinct, ZipNames.Safe, CrcOf, Crc32.Checksum, Crc32.IsTable;
    hide Locals, Centrals, Archive;
    names := ZipNames.UniqueNames(entries);
    ghost var es := Stored(names, blobs, utf8);
    var table := Crc32.CrcTable();
    NoEntries(es, st);
    var parts: Data, central: Data := [], [];
    var offset := 0;
    for i := 0 to |entries|
      invariant Crc32.IsTable(table[..])
      invariant parts == Locals(es, i, st) && central == Centrals(es, i, st) && offset == |parts|
    {
      var blob, nameBytes := blobs[i], utf8(names[i]);
      var size := |blob|;
      InsideArchive(es, i, st);
      if size > MAX32 || offset + 30 + |nameBytes| + size > MAX32 {
        return names, None;
      }
      var c := Crc32.CrcOfBlob(table, blob);
      var crc := c as int;
      CrcValue(blob, c);
      var local := LocalHeader(nameBytes, size, crc, st);
      var cd := CentralHeader(nameBytes, size, crc, offset, st);
      assert es[i] == Entry(nameBytes, blob);
      OneMoreEntry(es, i, st, local, cd);
      parts := parts + local + blob;
      central := central + cd;
      offset := offset + |local| + size;
    }
    WholeArchive(es, st);
    if offset + |central| + 22 > MAX32 {
      return names, None;
    }
    var eocd := EndRecord(|entries|, |central|, offset);
    r := Some(parts + central + eocd);
    RoundTripIff(es, st);
    forall i | 0 <= i < |names| ensures es[i].name == utf8(names[i]) {
    }
  }

  lemma NoEntries(es: seq<Entry>, st: Stamp)
    ensures Locals(es, 0, st) == [] && Centrals(es, 0, st) == []
  {
  }

  lemma OneMoreEntry(es: seq<Entry>, i: nat, st: Stamp, local: Data, cd: Data)
    requires i < |es|
    requires local == LocalFixed(|es[i].name|, |es[i].data|, CrcOf(es[i].data), st) + es[i].name
    requires cd == Central(es[i], |Locals(es, i, st)|, st)
    ensures Locals(es, i + 1, st) == Locals(es, i, st) + local + es[i].data
    ensures Centrals(es, i + 1, st) == Centrals(es, i, st) + cd
  {
    hide LocalFixed, Central;
    assert Locals(es, i, st) + (local + es[i].data) == Locals(es, i, st) + local + es[i].data;
  }

  lemma WholeArchive(es: seq<Entry>, st: Stamp)
    ensures var l, c := Locals(es, |es|, st), Centrals(es, |es|, st);
      Archive(es, st) == l + c + EndFixed(|es|, |c|, |l|) && |Archive(es, st)| == |l| + |c| + 22
  {
    hide Locals, Centrals, EndFixed;
  }

  lemma CrcValue(blob: Data, c: bv32)
    requires c == Crc32.Checksum(blob)
    ensures CrcOf(blob) == c as int
  {
  }
}
