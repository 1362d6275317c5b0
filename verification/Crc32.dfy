/** CRC-32 by table, and bit by bit. */
module Crc32 {
  import opened Bytes

  // ----- one bit at a time

  function Half(c: bv32): bv32 {
    c >> 1
  }

  function Odd(c: bv32): bv32 {
    c & 1
  }

  function Poly(bit: bv32): bv32 {
    if bit != 0 then 0xedb88320 else 0
  }

  /** One step of the reflected polynomial. */
  function Step(c: bv32): bv32 {
    Plus(Half(c), Poly(Odd(c)))
  }

  function Steps(n: nat, c: bv32): bv32 {
    if n == 0 then c else Step(Steps(n - 1, c))
  }

  function And(x: bv32, y: bv32): bv32 {
    x & y
  }

  /** A byte as a register. */
  function Wide(b: Byte): bv32 {
    b as bv32
  }

  /** A register below 256 as an index. */
  function Index(x: bv32): int {
    x as int
  }

  function Plus(x: bv32, y: bv32): bv32 {
    x ^ y
  }

  /** The register after the bytes, eight steps for each. */
  function Register(crc: bv32, bytes: seq<Byte>): bv32 {
    if bytes == [] then crc
    else Steps(8, Plus(Register(crc, bytes[..|bytes| - 1]), Wide(bytes[|bytes| - 1])))
  }

  /** The checksum of section 4.4.7 of APPNOTE.TXT. */
  function Checksum(bytes: seq<Byte>): bv32 {
    Plus(Register(0xffffffff, bytes), 0xffffffff)
  }

  /** A register can be carried from one part to the next. */
  lemma {:induction false} RegisterAppend(crc: bv32, a: seq<Byte>, b: seq<Byte>)
    ensures Register(crc, a + b) == Register(Register(crc, a), b)
    decreases |b|
  {
    hide Plus, Steps, Wide;
    if b == [] {
      assert a + b == a;
    } else {
      assert (a + b)[..|a + b| - 1] == a + b[..|b| - 1];
      RegisterAppend(crc, a, b[..|b| - 1]);
    }
  }

  // ----- the table

  lemma StepXor(x: bv32, y: bv32)
    ensures Step(Plus(x, y)) == Plus(Step(x), Step(y))
  {
    hide Plus, Half, Odd, Poly;
    HalfXor(x, y);
    OddXor(x, y);
    PolyXor(x, y);
    PlusSwap(Half(x), Half(y), Poly(Odd(x)), Poly(Odd(y)));
  }

  lemma PlusSwap(a: bv32, b: bv32, c: bv32, d: bv32)
    ensures Plus(Plus(a, b), Plus(c, d)) == Plus(Plus(a, c), Plus(b, d))
  {
    hide Plus;
    PlusAssoc(a, b, Plus(c, d));
    PlusAssoc(b, c, d);
    PlusLaws(b, c);
    PlusAssoc(c, b, d);
    PlusAssoc(a, c, Plus(b, d));
  }

  lemma PlusAssoc(x: bv32, y: bv32, z: bv32)
    ensures Plus(Plus(x, y), z) == Plus(x, Plus(y, z))
  {
  }

  lemma HalfXor(x: bv32, y: bv32)
    ensures Half(Plus(x, y)) == Plus(Half(x), Half(y))
  {
  }

  lemma OddXor(x: bv32, y: bv32)
    ensures Odd(Plus(x, y)) == Plus(Odd(x), Odd(y))
  {
  }

  lemma PolyXor(x: bv32, y: bv32)
    ensures Poly(Plus(Odd(x), Odd(y))) == Plus(Poly(Odd(x)), Poly(Odd(y)))
  {
  }

  lemma {:induction false} StepsXor(n: nat, x: bv32, y: bv32)
    ensures Steps(n, Plus(x, y)) == Plus(Steps(n, x), Steps(n, y))
  {
    hide Step, Plus;
    if n > 0 {
      StepsXor(n - 1, x, y);
      StepXor(Steps(n - 1, x), Steps(n - 1, y));
    }
  }

  function Low(c: bv32): bv32 {
    c & 0xff
  }

  function High(c: bv32): bv32 {
    c & 0xffffff00
  }

  /** The register without its low byte. */
  function Top(c: bv32): bv32 {
    c >> 8
  }

  lemma SplitByte(c: bv32)
    ensures c == Plus(Low(c), High(c))
    ensures Low(High(c)) == 0 && Top(High(c)) == Top(c)
  {
  }

  lemma PlusLaws(x: bv32, y: bv32)
    ensures Plus(x, 0) == x && Plus(x, y) == Plus(y, x)
  {
  }

  function Halves(n: nat, c: bv32): bv32 {
    if n == 0 then c else Half(Halves(n - 1, c))
  }

  /** A clear bit shifted out changes nothing else. */
  lemma {:induction false} StepsOnlyShift(n: nat, c: bv32)
    requires forall k: nat :: k < n ==> Odd(Halves(k, c)) == 0
    ensures Steps(n, c) == Halves(n, c)
  {
    hide Plus, Half, Odd;
    if n > 0 {
      StepsOnlyShift(n - 1, c);
      assert Odd(Halves(n - 1, c)) == 0;
      PlusLaws(Half(Halves(n - 1, c)), 0);
    }
  }

  /** Low zero bits move down. */
  lemma HalfClear(c: bv32, m: bv32)
    requires And(c, m) == 0 && Odd(m) == 1
    ensures Odd(c) == 0 && And(Half(c), Half(m)) == 0
  {
  }

  lemma EightHalves(c: bv32)
    ensures Half(Half(Half(Half(Half(Half(Half(Half(c)))))))) == Top(c)
  {
  }

  lemma {:induction false} AllClear(n: nat, c: bv32, m: bv32)
    requires And(c, m) == 0 && n <= 8 && m == Ones(n)
    ensures forall k: nat :: k < n ==> Odd(Halves(k, c)) == 0
  {
    hide Half, Odd, And, Ones;
    if n > 0 {
      OnesNext(n);
      HalfClear(c, m);
      AllClear(n - 1, Half(c), Half(m));
      forall k: nat | k < n ensures Odd(Halves(k, c)) == 0 {
        if k > 0 {
          HalvesInside(k - 1, c);
        }
      }
    }
  }

  lemma {:induction false} HalvesInside(k: nat, c: bv32)
    ensures Halves(k + 1, c) == Halves(k, Half(c))
  {
    hide Half;
    if k > 0 {
      HalvesInside(k - 1, c);
    }
  }

  /** n low ones. */
  function Ones(n: nat): bv32
    requires n <= 8
  {
    [0x0, 0x1, 0x3, 0x7, 0xf, 0x1f, 0x3f, 0x7f, 0xff][n]
  }

  lemma OnesNext(n: nat)
    requires 0 < n <= 8
    ensures Odd(Ones(n)) == 1 && Half(Ones(n)) == Ones(n - 1)
  {
    if n == 1 {} else if n == 2 {} else if n == 3 {} else if n == 4 {} else if n == 5 {} else if n == 6 {}
    else if n == 7 {} else {}
  }

  lemma MoreHalves(n: nat, c: bv32)
    ensures Halves(0, c) == c && Halves(n + 1, c) == Half(Halves(n, c))
  {
  }

  /** Eight steps only shift a register whose low byte is 0. */
  lemma HighByteShifts(c: bv32)
    requires Low(c) == 0
    ensures Steps(8, c) == Top(c)
  {
    hide Steps, Half, Odd, Top, Halves, Ones, And, Low;
    var n: nat :| 7 < n < 9;
    AllOnes(c);
    AllClear(n, c, Ones(n));
    StepsOnlyShift(n, c);
    EightHalves(c);
    MoreHalves(0, c); MoreHalves(1, c); MoreHalves(2, c); MoreHalves(3, c);
    MoreHalves(4, c); MoreHalves(5, c); MoreHalves(6, c); MoreHalves(7, c);
  }

  lemma AllOnes(c: bv32)
    ensures And(c, Ones(8)) == Low(c)
  {
  }

  /** The table entry of the low byte, and the rest shifted down, replace eight steps. */
  lemma TableStep(c: bv32)
    ensures Steps(8, c) == Plus(Steps(8, Low(c)), Top(c))
  {
    hide Steps, Plus, Low, High, Top;
    SplitByte(c);
    StepsXor(8, Low(c), High(c));
    HighByteShifts(High(c));
  }

  lemma ByteAbove(c: bv32, b: bv32)
    requires Low(b) == b
    ensures Top(Plus(c, b)) == Top(c)
  {
  }

  lemma MoreSteps(n: nat, c: bv32)
    ensures Steps(0, c) == c && Steps(n + 1, c) == Step(Steps(n, c))
  {
  }

  // ----- the residue

  /** A register as four bytes, the lowest one first. */
  function FourBytes(v: bv32): (b: seq<Byte>)
    ensures |b| == 4
  {
    [LowAsByte(v), LowAsByte(Top(v)), LowAsByte(Top(Top(v))), LowAsByte(Top(Top(Top(v))))]
  }

  function LowAsByte(v: bv32): (b: Byte)
    ensures Wide(b) == Low(v)
  {
    LowByte(v);
    Index(Low(v))
  }

  /** A register that differs by v takes in the low byte of v and differs by the rest. */
  lemma ByteOff(c: bv32, v: bv32)
    ensures Steps(8, Plus(c, v)) == Plus(Steps(8, Plus(c, Low(v))), Top(v))
  {
    hide Steps, Plus, Low, High, Top;
    SplitByte(v);
    PlusAssoc(c, Low(v), High(v));
    StepsXor(8, Plus(c, Low(v)), High(v));
    HighByteShifts(High(v));
  }

  lemma NoTop(v: bv32)
    ensures Top(Top(Top(Top(v)))) == 0
  {
  }

  lemma RegisterSnoc(crc: bv32, bytes: seq<Byte>, b: Byte)
    ensures Register(crc, bytes + [b]) == Steps(8, Plus(Register(crc, bytes), Wide(b)))
  {
    hide Steps, Plus, Wide;
    assert (bytes + [b])[..|bytes|] == bytes;
  }

  /** Four bytes enter the register as one number. */
  lemma FourBytesIn(crc: bv32, bytes: seq<Byte>, v: bv32)
    ensures Register(crc, bytes + FourBytes(v)) == Steps(8, Steps(8, Steps(8, Steps(8, Plus(Register(crc, bytes), v)))))
  {
    hide Steps, Plus, Low, Top, Wide, Register, LowAsByte;
    var b := FourBytes(v);
    var v1 := Top(v);
    var v2 := Top(v1);
    var v3 := Top(v2);
    var p1, p2, p3 := bytes + [b[0]], bytes + [b[0]] + [b[1]], bytes + [b[0]] + [b[1]] + [b[2]];
    RegisterSnoc(crc, bytes, b[0]);
    RegisterSnoc(crc, p1, b[1]);
    RegisterSnoc(crc, p2, b[2]);
    RegisterSnoc(crc, p3, b[3]);
    assert bytes + b == p3 + [b[3]];
    ByteOff(Register(crc, bytes), v);
    ByteOff(Register(crc, p1), v1);
    ByteOff(Register(crc, p2), v2);
    ByteOff(Register(crc, p3), v3);
    NoTop(v);
    PlusLaws(Register(crc, bytes + b), 0);
  }

  /** Eight steps through these registers. */
  lemma EightFrom(c: seq<bv32>)
    requires |c| == 9 && forall i :: 0 <= i < 8 ==> Step(c[i]) == c[i + 1]
    ensures Steps(8, c[0]) == c[8]
  {
    hide Step, Steps;
    MoreSteps(0, c[0]);
    for n := 0 to 8
      invariant Steps(n, c[0]) == c[n]
    {
      MoreSteps(n, c[0]);
    }
  }

  lemma Ones0()
    ensures Steps(8, 0xffffffff) == 0x2dfd1072
  {
    hide Steps;
    var c: seq<bv32> := [0xffffffff, 0x92477cdf, 0xa49b3d4f, 0xbff51d87, 0xb2420de3,
                         0xb49985d1, 0xb7f441c8, 0x5bfa20e4, 0x2dfd1072];
    EightFrom(c);
  }

  lemma Ones1()
    ensures Steps(8, 0x2dfd1072) == 0xbe26ed00
  {
    hide Steps;
    var c: seq<bv32> := [0x2dfd1072, 0x16fe8839, 0xe6c7c73c, 0x7363e39e, 0x39b1f1cf,
                         0xf1607bc7, 0x9508bec3, 0xa73cdc41, 0xbe26ed00];
    EightFrom(c);
  }

  lemma Ones2()
    ensures Steps(8, 0xbe26ed00) == 0x00be26ed
  {
    hide Steps;
    var c: seq<bv32> := [0xbe26ed00, 0x5f137680, 0x2f89bb40, 0x17c4dda0, 0x0be26ed0,
                         0x05f13768, 0x02f89bb4, 0x017c4dda, 0x00be26ed];
    EightFrom(c);
  }

  lemma Ones3()
    ensures Steps(8, 0x00be26ed) == 0xdebb20e3
  {
    hide Steps;
    var c: seq<bv32> := [0x00be26ed, 0xede79056, 0x76f3c82b, 0xd6c16735, 0x86d830ba,
                         0x436c185d, 0xcc0e8f0e, 0x66074787, 0xdebb20e3];
    EightFrom(c);
  }

  lemma OnesRun()
    ensures Steps(8, Steps(8, Steps(8, Steps(8, 0xffffffff)))) == 0xdebb20e3
  {
    hide Steps;
    Ones0();
    Ones1();
    Ones2();
    Ones3();
  }

  /** Data followed by its own checksum, the lowest byte first, always leaves the same register; no data has the
      checksum 0. */
  lemma Residue(bytes: seq<Byte>)
    ensures Register(0xffffffff, bytes + FourBytes(Checksum(bytes))) == 0xdebb20e3
    ensures Checksum([]) == 0
  {
    hide Steps, Plus, Register, FourBytes;
    var r := Register(0xffffffff, bytes);
    FourBytesIn(0xffffffff, bytes, Checksum(bytes));
    PlusAssoc(r, r, 0xffffffff);
    PlusSelf(r);
    PlusLaws(0xffffffff, 0);
    OnesRun();
    NothingRead(0xffffffff);
    PlusSelf(0xffffffff);
  }

  lemma PlusSelf(x: bv32)
    ensures Plus(x, x) == 0
  {
  }

  /** The 256 entries: eight steps from each byte. */
  ghost predicate IsTable(t: seq<bv32>) {
    |t| == 256 && forall i: nat :: i < 256 ==> t[i] == Steps(8, Wide(i))
  }

  method CrcTable() returns (t: array<bv32>)
    ensures fresh(t) && IsTable(t[..])
  {
    hide Step, Steps, Plus, Odd, Half, Wide;
    t := new bv32[256];
    for i := 0 to 256
      invariant forall j: nat :: j < i ==> t[j] == Steps(8, Wide(j))
    {
      var c := Wide(i);
      MoreSteps(0, c);
      for k := 0 to 8
        invariant c == Steps(k, Wide(i))
        invariant forall j: nat :: j < i ==> t[j] == Steps(8, Wide(j))
      {
        MoreSteps(k, Wide(i));
        CodeStep(c);
        c := if Odd(c) != 0 then Plus(0xedb88320, Half(c)) else Half(c);
      }
      t[i] := c;
    }
  }

  lemma CodeStep(c: bv32)
    ensures Step(c) == if Odd(c) != 0 then Plus(0xedb88320, Half(c)) else Half(c)
  {
    hide Plus, Odd, Half;
    PlusLaws(Half(c), 0xedb88320);
  }

  lemma ByteBits(b: Byte)
    ensures Low(Wide(b)) == Wide(b)
  {
  }

  lemma LowByte(x: bv32)
    ensures 0 <= Index(Low(x)) < 256 && Wide(Index(Low(x))) == Low(x)
  {
    hide Low;
    LowIsSmall(x);
    BackAgain(Low(x));
  }

  lemma LowIsSmall(x: bv32)
    ensures 0 <= Low(x) as int < 256
  {
  }

  lemma BackAgain(y: bv32)
    ensures (y as int) as bv32 == y
  {
  }

  method CrcUpdate(table: array<bv32>, crc: bv32, bytes: seq<Byte>) returns (c: bv32)
    requires IsTable(table[..])
    ensures c == Register(crc, bytes)
  {
    hide Steps, Plus, Low, Top, Wide, Index;
    c := crc;
    for i := 0 to |bytes|
      invariant c == Register(crc, bytes[..i])
    {
      var x := Low(Plus(c, Wide(bytes[i])));
      OneByte(table[..], c, bytes[i]);
      assert bytes[..i + 1][..i] == bytes[..i];
      c := Plus(table[Index(x)], Top(c));
    }
    assert bytes[..|bytes|] == bytes;
  }

  lemma OneByte(t: seq<bv32>, c: bv32, b: Byte)
    requires IsTable(t)
    ensures var x := Low(Plus(c, Wide(b)));
      0 <= Index(x) < 256 && Steps(8, Plus(c, Wide(b))) == Plus(t[Index(x)], Top(c))
  {
    hide Steps, Plus, Low, Top, Wide, Index;
    var x := Plus(c, Wide(b));
    TableStep(x);
    ByteBits(b);
    ByteAbove(c, Wide(b));
    LowByte(x);
    var i: nat := Index(Low(x));
    assert t[i] == Steps(8, Wide(i));
  }

  const CRC_SLICE := 0x10_0000

  /** Slices of a megabyte, carried from one to the next. */
  method CrcOfBlob(table: array<bv32>, blob: seq<Byte>) returns (c: bv32)
    requires IsTable(table[..])
    ensures c == Checksum(blob)
  {
    hide Step, Steps, Register, Plus, IsTable;
    var crc: bv32 := 0xffffffff;
    var off := 0;
    NothingRead(crc);
    while off < |blob|
      invariant 0 <= off && crc == Register(0xffffffff, blob[..if off < |blob| then off else |blob|])
    {
      var end := if off + CRC_SLICE < |blob| then off + CRC_SLICE else |blob|;
      RegisterAppend(0xffffffff, blob[..off], blob[off..end]);
      assert blob[..off] + blob[off..end] == blob[..end];
      crc := CrcUpdate(table, crc, blob[off..end]);
      off := off + CRC_SLICE;
    }
    assert blob[..|blob|] == blob;
    c := Plus(crc, 0xffffffff);
  }

  lemma NothingRead(crc: bv32)
    ensures Register(crc, []) == crc
  {
  }
}
