/** The records of an archive without compression, and a reader that follows the end record, the central
    directory and the local headers (sections 4.3.7, 4.3.12 and 4.3.16 of APPNOTE.TXT). */
module ZipFormat {
  import opened Bytes
  import opened Options
  import Crc32

  type Data = seq<Byte>

  datatype Entry = Entry(name: Data, data: Data)
  datatype Stamp = Stamp(time: nat, date: nat)

  const MAX16 := 0xffff
  const MAX32 := 0xffff_ffff

  // ----- numbers

  function Low8(x: nat): Byte {
    x % 256
  }

  /** The low 16 bits, little endian. */
  function Le16(x: nat): (b: Data)
    ensures |b| == 2
  {
    [Low8(x), Low8(x / 0x100)]
  }

  /** The low 32 bits, little endian. */
  function Le32(x: nat): (b: Data)
    ensures |b| == 4
  {
    [Low8(x), Low8(x / 0x100), Low8(x / 0x1_0000), Low8(x / 0x100_0000)]
  }

  function U16(h: Data, at: nat): nat
    requires at + 2 <= |h|
  {
    (h[at] as int) + (h[at + 1] as int) * 0x100
  }

  function U32(h: Data, at: nat): nat
    requires at + 4 <= |h|
  {
    (h[at] as int) + (h[at + 1] as int) * 0x100 + (h[at + 2] as int) * 0x1_0000 + (h[at + 3] as int) * 0x100_0000
  }

  lemma Join16(x: nat)
    requires x <= MAX16
    ensures (Low8(x) as int) + (Low8(x / 0x100) as int) * 0x100 == x
  {
  }

  lemma Join32(x: nat)
    requires x <= MAX32
    ensures (Low8(x) as int) + (Low8(x / 0x100) as int) * 0x100 + (Low8(x / 0x1_0000) as int) * 0x1_0000
          + (Low8(x / 0x100_0000) as int) * 0x100_0000 == x
  {
    var q := x / 0x100;
    var r := q / 0x100;
    assert r == x / 0x1_0000 && r / 0x100 == x / 0x100_0000;
  }

  // ----- records

  function CrcOf(data: Data): (c: nat)
    ensures c <= MAX32
  {
    Crc32.Checksum(data) as int
  }

  function LocalFixed(nameLen: nat, size: nat, crc: nat, st: Stamp): (h: Data)
    ensures |h| == 30
  {
    [0x50, 0x4b, 3, 4, 20, 0, 0, 8, 0, 0] + Le16(st.time) + Le16(st.date) + Le32(crc) + Le32(size) + Le32(size)
      + Le16(nameLen) + [0, 0]
  }

  function CentralFixed(nameLen: nat, size: nat, crc: nat, offset: nat, st: Stamp): (h: Data)
    ensures |h| == 46
  {
    [0x50, 0x4b, 1, 2, 20, 0, 20, 0, 0, 8, 0, 0] + Le16(st.time) + Le16(st.date) + Le32(crc) + Le32(size) + Le32(size)
      + Le16(nameLen) + [0, 0, 0, 0, 0, 0, 0, 0, 0, 0, 0, 0] + Le32(offset)
  }

  function EndFixed(count: nat, size: nat, offset: nat): (h: Data)
    ensures |h| == 22
  {
    [0x50, 0x4b, 5, 6, 0, 0, 0, 0] + Le16(count) + Le16(count) + Le32(size) + Le32(offset) + [0, 0]
  }

  function Local(e: Entry, st: Stamp): (h: Data)
    ensures |h| == 30 + |e.name| + |e.data|
  {
    LocalFixed(|e.name|, |e.data|, CrcOf(e.data), st) + e.name + e.data
  }

  function Central(e: Entry, offset: nat, st: Stamp): (h: Data)
    ensures |h| == 46 + |e.name|
  {
    CentralFixed(|e.name|, |e.data|, CrcOf(e.data), offset, st) + e.name
  }

  function Locals(es: seq<Entry>, n: nat, st: Stamp): Data
    requires n <= |es|
  {
    if n == 0 then [] else Locals(es, n - 1, st) + Local(es[n - 1], st)
  }

  function Centrals(es: seq<Entry>, n: nat, st: Stamp): Data
    requires n <= |es|
  {
    if n == 0 then [] else Centrals(es, n - 1, st) + Central(es[n - 1], |Locals(es, n - 1, st)|, st)
  }

  function Archive(es: seq<Entry>, st: Stamp): Data {
    var l, c := Locals(es, |es|, st), Centrals(es, |es|, st);
    l + c + EndFixed(|es|, |c|, |l|)
  }

  // ----- reader

  datatype Record = Record(name: Data, crc: nat, size: nat, offset: nat)

  function ReadCentral(a: Data, at: nat): Option<(Record, nat)> {
    if at + 46 > |a| then None
    else
      var h := a[at..at + 46];
      var n, extra, comment := U16(h, 28), U16(h, 30), U16(h, 32);
      if h[..4] != [0x50, 0x4b, 1, 2] || U16(h, 10) != 0 || U32(h, 20) != U32(h, 24) || at + 46 + n > |a| then None
      else Some((Record(a[at + 46..at + 46 + n], U32(h, 16), U32(h, 24), U32(h, 42)), at + 46 + n + extra + comment))
  }

  function ReadDirectory(a: Data, at: nat, count: nat): Option<(seq<Record>, nat)>
    decreases count
  {
    if count == 0 then Some(([], at))
    else
      match ReadCentral(a, at)
      case None => None
      case Some(first) =>
        match ReadDirectory(a, first.1, count - 1)
        case None => None
        case Some(rest) => Some(([first.0] + rest.0, rest.1))
  }

  function ReadEntry(a: Data, r: Record): Option<Entry> {
    if r.offset + 30 > |a| then None
    else
      var h := a[r.offset..r.offset + 30];
      var start := r.offset + 30 + U16(h, 26) + U16(h, 28);
      if h[..4] != [0x50, 0x4b, 3, 4] || U16(h, 8) != 0 || start + r.size > |a| then None
      else
        var name, data := a[r.offset + 30..r.offset + 30 + U16(h, 26)], a[start..start + r.size];
        if name != r.name || CrcOf(data) != r.crc then None else Some(Entry(name, data))
  }

  function ReadEntries(a: Data, rs: seq<Record>): Option<seq<Entry>> {
    if rs == [] then Some([])
    else
      match ReadEntry(a, rs[0])
      case None => None
      case Some(e) =>
        match ReadEntries(a, rs[1..])
        case None => None
        case Some(rest) => Some([e] + rest)
  }

  /** The end record stands at the very end; the directory it points to fills the space before it. */
  function ReadZip(a: Data): Option<seq<Entry>> {
    if |a| < 22 then None
    else
      var e := |a| - 22;
      var h := a[e..];
      var count, size, offset := U16(h, 10), U32(h, 12), U32(h, 16);
      if h[..4] != [0x50, 0x4b, 5, 6] || U16(h, 8) != count || U16(h, 20) != 0 || offset + size != e then None
      else
        match ReadDirectory(a, offset, count)
        case None => None
        case Some(d) => if d.1 != e then None else ReadEntries(a, d.0)
  }

  // ----- fields of the records

  lemma LocalFields(n: nat, size: nat, crc: nat, st: Stamp)
    requires n <= MAX16
    ensures var h := LocalFixed(n, size, crc, st);
      h[..4] == [0x50, 0x4b, 3, 4] && U16(h, 8) == 0 && U16(h, 26) == n && U16(h, 28) == 0
  {
    hide Low8;
    Join16(n);
    var h := LocalFixed(n, size, crc, st);
    assert h[26] == Low8(n) && h[27] == Low8(n / 0x100);
  }

  lemma CentralFields(n: nat, size: nat, crc: nat, offset: nat, st: Stamp)
    requires n <= MAX16 && size <= MAX32 && crc <= MAX32 && offset <= MAX32
    ensures var h := CentralFixed(n, size, crc, offset, st);
      && h[..4] == [0x50, 0x4b, 1, 2] && U16(h, 10) == 0 && U32(h, 16) == crc && U32(h, 20) == U32(h, 24) == size
      && U16(h, 28) == n && U16(h, 30) == 0 && U16(h, 32) == 0 && U32(h, 42) == offset
  {
    hide Low8;
    Join16(n);
    Join32(size);
    Join32(crc);
    Join32(offset);
    var h := CentralFixed(n, size, crc, offset, st);
    assert h[16..20] == Le32(crc) && h[20..24] == Le32(size) && h[24..28] == Le32(size);
    assert h[28..30] == Le16(n) && h[42..46] == Le32(offset);
    Field32(h, 16, crc);
    Field32(h, 20, size);
    Field32(h, 24, size);
    Field32(h, 42, offset);
    Field16(h, 28, n);
  }

  lemma Field32(h: Data, at: nat, x: nat)
    requires at + 4 <= |h| && h[at..at + 4] == Le32(x) && x <= MAX32
    ensures U32(h, at) == x
  {
    hide Low8;
    Join32(x);
    var f := h[at..at + 4];
    assert f[0] == h[at] && f[1] == h[at + 1] && f[2] == h[at + 2] && f[3] == h[at + 3];
  }

  lemma Field16(h: Data, at: nat, x: nat)
    requires at + 2 <= |h| && h[at..at + 2] == Le16(x) && x <= MAX16
    ensures U16(h, at) == x
  {
    hide Low8;
    Join16(x);
    var f := h[at..at + 2];
    assert f[0] == h[at] && f[1] == h[at + 1];
  }

  lemma EndFields(count: nat, size: nat, offset: nat)
    requires count <= MAX16 && size <= MAX32 && offset <= MAX32
    ensures var h := EndFixed(count, size, offset);
      && h[..4] == [0x50, 0x4b, 5, 6] && U16(h, 8) == U16(h, 10) == count && U32(h, 12) == size && U32(h, 16) == offset
      && U16(h, 20) == 0
  {
    hide Low8;
    var h := EndFixed(count, size, offset);
    assert h[8..10] == Le16(count) && h[10..12] == Le16(count) && h[12..16] == Le32(size) && h[16..20] == Le32(offset);
    Field16(h, 8, count);
    Field16(h, 10, count);
    Field32(h, 12, size);
    Field32(h, 16, offset);
  }

  /** Section 4.3.7 of APPNOTE.TXT, field by field: version 2.0, names in UTF-8, stored, time, date, checksum, both
      sizes, lengths of the name and of no extra field. */
  lemma LocalLayout(n: nat, size: nat, crc: nat, st: Stamp)
    requires n <= MAX16 && size <= MAX32 && crc <= MAX32 && st.time <= MAX16 && st.date <= MAX16
    ensures var h := LocalFixed(n, size, crc, st);
      && U32(h, 0) == 0x04034b50 && U16(h, 4) == 20 && U16(h, 6) == 0x0800 && U16(h, 8) == 0 && U16(h, 10) == st.time
      && U16(h, 12) == st.date && U32(h, 14) == crc && U32(h, 18) == size && U32(h, 22) == size && U16(h, 26) == n
      && U16(h, 28) == 0
  {
    hide Low8, Le16, Le32;
    var h := LocalFixed(n, size, crc, st);
    assert h[10..12] == Le16(st.time) && h[12..14] == Le16(st.date) && h[14..18] == Le32(crc);
    assert h[18..22] == Le32(size) && h[22..26] == Le32(size) && h[26..28] == Le16(n);
    Field16(h, 10, st.time);
    Field16(h, 12, st.date);
    Field32(h, 14, crc);
    Field32(h, 18, size);
    Field32(h, 22, size);
    Field16(h, 26, n);
  }

  /** Section 4.3.12, with the version that made it, the offset of the local header, and no extra field or comment. */
  lemma CentralLayout(n: nat, size: nat, crc: nat, offset: nat, st: Stamp)
    requires n <= MAX16 && size <= MAX32 && crc <= MAX32 && offset <= MAX32 && st.time <= MAX16 && st.date <= MAX16
    ensures var h := CentralFixed(n, size, crc, offset, st);
      && U32(h, 0) == 0x02014b50 && U16(h, 4) == 20 && U16(h, 6) == 20 && U16(h, 8) == 0x0800 && U16(h, 10) == 0
      && U16(h, 12) == st.time && U16(h, 14) == st.date && U32(h, 16) == crc && U32(h, 20) == size && U32(h, 24) == size
      && U16(h, 28) == n && h[30..42] == seq(12, _ => 0) && U32(h, 42) == offset
  {
    hide Low8, Le16, Le32;
    var h := CentralFixed(n, size, crc, offset, st);
    CentralFields(n, size, crc, offset, st);
    assert h[12..14] == Le16(st.time) && h[14..16] == Le16(st.date);
    Field16(h, 12, st.time);
    Field16(h, 14, st.date);
  }

  // ----- the reader recovers the entries

  /** A piece of the archive. */
  lemma PieceAt(a: Data, before: Data, x: Data)
    requires before + x <= a
    ensures a[|before|..|before| + |x|] == x
  {
    assert (before + x)[|before|..] == x;
  }

  lemma {:induction false} LocalsPrefix(es: seq<Entry>, m: nat, n: nat, st: Stamp)
    requires m <= n <= |es|
    ensures Locals(es, m, st) <= Locals(es, n, st)
    decreases n
  {
    hide Local;
    if m < n {
      LocalsPrefix(es, m, n - 1, st);
    }
  }

  lemma {:induction false} CentralsPrefix(es: seq<Entry>, m: nat, n: nat, st: Stamp)
    requires m <= n <= |es|
    ensures Centrals(es, m, st) <= Centrals(es, n, st)
    decreases n
  {
    hide Central, Locals;
    if m < n {
      CentralsPrefix(es, m, n - 1, st);
    }
  }

  ghost predicate Small(es: seq<Entry>, st: Stamp) {
    |es| <= MAX16 && (forall i :: 0 <= i < |es| ==> |es[i].name| <= MAX16) && |Archive(es, st)| <= MAX32
  }

  function RecordOf(es: seq<Entry>, i: nat, st: Stamp): Record
    requires i < |es|
  {
    Record(es[i].name, CrcOf(es[i].data), |es[i].data|, |Locals(es, i, st)|)
  }

  /** Every entry lies inside the archive, so no 32-bit field wraps. */
  lemma InsideArchive(es: seq<Entry>, i: nat, st: Stamp)
    requires i < |es|
    ensures |Locals(es, i, st)| + 30 + |es[i].name| + |es[i].data| <= |Locals(es, |es|, st)| <= |Archive(es, st)|
    ensures |Centrals(es, |es|, st)| <= |Archive(es, st)|
  {
    hide Local, Central, EndFixed;
    LocalsPrefix(es, i + 1, |es|, st);
  }

  lemma CentralIsRead(es: seq<Entry>, i: nat, st: Stamp)
    requires i < |es| && Small(es, st)
    ensures var base := |Locals(es, |es|, st)|;
      ReadCentral(Archive(es, st), base + |Centrals(es, i, st)|)
        == Some((RecordOf(es, i, st), base + |Centrals(es, i + 1, st)|))
  {
    hide Local, Locals, CentralFixed, EndFixed, CrcOf, U16, U32;
    var a, l, c := Archive(es, st), Locals(es, |es|, st), Centrals(es, |es|, st);
    var e := es[i];
    var offset := |Locals(es, i, st)|;
    var h := CentralFixed(|e.name|, |e.data|, CrcOf(e.data), offset, st);
    InsideArchive(es, i, st);
    CentralsPrefix(es, i + 1, |es|, st);
    Nested(l, c, EndFixed(|es|, |c|, |l|), Centrals(es, i, st), h, e.name);
    CentralFields(|e.name|, |e.data|, CrcOf(e.data), offset, st);
  }

  lemma Nested(l: Data, c: Data, end: Data, before: Data, h: Data, name: Data)
    requires before + (h + name) <= c
    ensures var a, at := l + c + end, |l| + |before|;
      && at + |h| + |name| <= |a| && a[at..at + |h|] == h && a[at + |h|..at + |h| + |name|] == name
  {
    var a := l + c + end;
    assert l + (before + (h + name)) <= a;
    assert l + (before + (h + name)) == (l + before) + h + name;
    PieceAt(a, l + before, h);
    PieceAt(a, l + before + h, name);
  }

  ghost function Records(es: seq<Entry>, i: nat, st: Stamp): seq<Record>
    requires i <= |es|
    decreases |es| - i
  {
    if i == |es| then [] else [RecordOf(es, i, st)] + Records(es, i + 1, st)
  }

  lemma {:induction false} DirectoryIsRead(es: seq<Entry>, i: nat, st: Stamp)
    requires i <= |es| && Small(es, st)
    ensures var base := |Locals(es, |es|, st)|;
      ReadDirectory(Archive(es, st), base + |Centrals(es, i, st)|, |es| - i)
        == Some((Records(es, i, st), base + |Centrals(es, |es|, st)|))
    decreases |es| - i
  {
    hide Locals, Centrals, Archive, ReadCentral, RecordOf;
    if i < |es| {
      CentralIsRead(es, i, st);
      DirectoryIsRead(es, i + 1, st);
    }
  }

  lemma EntryIsRead(es: seq<Entry>, i: nat, st: Stamp)
    requires i < |es| && Small(es, st)
    ensures ReadEntry(Archive(es, st), RecordOf(es, i, st)) == Some(es[i])
  {
    hide Central, Centrals, LocalFixed, EndFixed, CrcOf, U16, U32;
    var a, l, c := Archive(es, st), Locals(es, |es|, st), Centrals(es, |es|, st);
    var e := es[i];
    var h := LocalFixed(|e.name|, |e.data|, CrcOf(e.data), st);
    LocalsPrefix(es, i + 1, |es|, st);
    Local3(Locals(es, i, st), h, e.name, e.data, l);
    assert l <= a;
    LocalFields(|e.name|, |e.data|, CrcOf(e.data), st);
    Extended(l, a, |Locals(es, i, st)|, |h|, |e.name|, |e.data|);
  }

  lemma Local3(before: Data, h: Data, name: Data, data: Data, l: Data)
    requires before + (h + name + data) <= l
    ensures var at := |before|;
      && at + |h| + |name| + |data| <= |l| && l[at..at + |h|] == h && l[at + |h|..at + |h| + |name|] == name
      && l[at + |h| + |name|..at + |h| + |name| + |data|] == data
  {
    assert before + (h + name + data) == before + h + name + data;
    PieceAt(l, before, h);
    PieceAt(l, before + h, name);
    PieceAt(l, before + h + name, data);
  }

  lemma Extended(l: Data, a: Data, at: nat, x: nat, y: nat, z: nat)
    requires l <= a && at + x + y + z <= |l|
    ensures a[at..at + x] == l[at..at + x] && a[at + x..at + x + y] == l[at + x..at + x + y]
    ensures a[at + x + y..at + x + y + z] == l[at + x + y..at + x + y + z]
  {
  }

  lemma {:induction false} EntriesAreRead(es: seq<Entry>, i: nat, st: Stamp)
    requires i <= |es| && Small(es, st)
    ensures ReadEntries(Archive(es, st), Records(es, i, st)) == Some(es[i..])
    decreases |es| - i
  {
    hide Archive, ReadEntry, RecordOf;
    if i < |es| {
      EntryIsRead(es, i, st);
      EntriesAreRead(es, i + 1, st);
      assert Records(es, i, st)[1..] == Records(es, i + 1, st);
      assert [es[i]] + es[i + 1..] == es[i..];
    } else {
      assert es[i..] == [];
    }
  }

  /** The reader recovers every entry, in order. */
  lemma RoundTrip(es: seq<Entry>, st: Stamp)
    requires Small(es, st)
    ensures ReadZip(Archive(es, st)) == Some(es)
  {
    hide Locals, Centrals, EndFixed, U16, U32, ReadDirectory, ReadEntries, Records;
    var a, l, c := Archive(es, st), Locals(es, |es|, st), Centrals(es, |es|, st);
    EndFields(|es|, |c|, |l|);
    assert a[|a| - 22..] == EndFixed(|es|, |c|, |l|);
    NoCentrals(es, st);
    DirectoryIsRead(es, 0, st);
    EntriesAreRead(es, 0, st);
    assert es[0..] == es;
  }

  lemma NoCentrals(es: seq<Entry>, st: Stamp)
    ensures Centrals(es, 0, st) == []
  {
  }

  lemma {:induction false} DirectoryLength(a: Data, at: nat, count: nat)
    ensures ReadDirectory(a, at, count).Some? ==> |ReadDirectory(a, at, count).value.0| == count
    decreases count
  {
    hide ReadCentral;
    if count > 0 && ReadCentral(a, at).Some? {
      DirectoryLength(a, ReadCentral(a, at).value.1, count - 1);
    }
  }

  lemma {:induction false} EntriesLength(a: Data, rs: seq<Record>)
    ensures ReadEntries(a, rs).Some? ==> |ReadEntries(a, rs).value| == |rs|
    ensures ReadEntries(a, rs).Some? ==> forall i :: 0 <= i < |rs| ==> |ReadEntries(a, rs).value[i].name| <= MAX16
  {
    hide U16, U32, CrcOf;
    if rs != [] {
      EntriesLength(a, rs[1..]);
      if ReadEntry(a, rs[0]).Some? {
        ShortName(a, rs[0]);
      }
    }
  }

  lemma ShortName(a: Data, r: Record)
    requires ReadEntry(a, r).Some?
    ensures |ReadEntry(a, r).value.name| <= MAX16
  {
    hide CrcOf, U32;
  }

  lemma FieldRange(h: Data, at: nat)
    requires at + 2 <= |h|
    ensures U16(h, at) <= MAX16
  {
  }

  /** The archive can be read back exactly when its 16-bit fields hold the number of entries and the name lengths. */
  lemma RoundTripIff(es: seq<Entry>, st: Stamp)
    requires |Archive(es, st)| <= MAX32
    ensures ReadZip(Archive(es, st)) == Some(es) <==>
      |es| <= MAX16 && forall i :: 0 <= i < |es| ==> |es[i].name| <= MAX16
  {
    hide Archive, ReadDirectory, ReadEntries, U16, U32;
    var a := Archive(es, st);
    if |es| <= MAX16 && forall i :: 0 <= i < |es| ==> |es[i].name| <= MAX16 {
      RoundTrip(es, st);
    }
    if ReadZip(a) == Some(es) {
      var h := a[|a| - 22..];
      FieldRange(h, 10);
      DirectoryLength(a, U32(h, 16), U16(h, 10));
      EntriesLength(a, ReadDirectory(a, U32(h, 16), U16(h, 10)).value.0);
    }
  }

  // ----- archives that cannot be read back

  lemma {:induction false} RecordBytes(es: seq<Entry>, n: nat, st: Stamp, nameLen: nat)
    requires n <= |es| && forall i :: 0 <= i < |es| ==> |es[i].name| <= nameLen && es[i].data == []
    ensures n * (76 + 2 * nameLen) >= 0 && |Locals(es, n, st)| + |Centrals(es, n, st)| <= n * (76 + 2 * nameLen)
  {
    hide LocalFixed, CentralFixed;
    if n > 0 {
      RecordBytes(es, n - 1, st, nameLen);
      NextMultiple(n, 76 + 2 * nameLen);
    }
  }

  lemma NextMultiple(n: nat, k: nat)
    requires n > 0
    ensures n * k == (n - 1) * k + k && n * k >= 0
  {
  }

  /** 65536 empty files with short names stay far below the 32-bit limit, and cannot be read back. */
  lemma TooManyEntries(es: seq<Entry>, st: Stamp)
    requires |es| == 65536 && forall i :: 0 <= i < |es| ==> |es[i].name| <= 1000 && es[i].data == []
    ensures |Archive(es, st)| <= MAX32 && ReadZip(Archive(es, st)) != Some(es)
  {
    hide Locals, Centrals, ReadZip;
    RecordBytes(es, |es|, st, 1000);
    RoundTripIff(es, st);
  }

  /** 65536 empty files named by their four-byte numbers. */
  function EmptyFiles(): seq<Entry> {
    seq(65536, (i: nat) => Entry(Le32(i), []))
  }

  lemma EmptyFilesAreLost(st: Stamp)
    ensures |Archive(EmptyFiles(), st)| <= MAX32 && ReadZip(Archive(EmptyFiles(), st)) != Some(EmptyFiles())
    ensures forall i, j :: 0 <= i < j < 65536 ==> EmptyFiles()[i].name != EmptyFiles()[j].name
  {
    hide Archive, ReadZip, Le32;
    TooManyEntries(EmptyFiles(), st);
    forall i, j | 0 <= i < j < 65536 ensures EmptyFiles()[i].name != EmptyFiles()[j].name {
      if Le32(i) == Le32(j) {
        Field32(Le32(i), 0, i);
        Field32(Le32(j), 0, j);
      }
    }
  }
}
