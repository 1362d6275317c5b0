/** The encrypted file container: header, chunk geometry, and what its authentication binds. */
module Container {
  import opened Bytes
  import opened Options

  type Data = seq<Byte>

  const CHUNK := 65536
  const TAG := 16
  const VERSION := 5
  const HEADER_FIXED := 6
  const MAX_SAFE := 0x1F_FFFF_FFFF_FFFF

  // ----- geometry

  /** At least one chunk, also for the empty file: its tag authenticates the manifest. */
  function ChunkCount(size: nat): (n: nat)
    ensures n >= 1 && (n - 1) * CHUNK <= size <= n * CHUNK
  {
    if size == 0 then 1 else (size + CHUNK - 1) / CHUNK
  }

  /** The server's count, for every container version. */
  function ServerChunkCount(plain: int, version: int): int {
    var n := if plain + CHUNK - 1 >= 0 then (plain + CHUNK - 1) / CHUNK else -(-(plain + CHUNK - 1) / CHUNK);
    if n < 1 && version >= 2 then 1 else if n < 0 then 0 else n
  }

  function HeaderLen(manifestLen: nat, version: int): nat {
    if version < 3 then 0 else HEADER_FIXED + manifestLen
  }

  /** The stored size of a container. */
  function CipherLen(plain: int, manifestLen: nat, version: int): int {
    if plain < 0 then 0 else HeaderLen(manifestLen, version) + plain + ServerChunkCount(plain, version) * TAG
  }

  lemma ChunkCountsAgree(size: nat, version: int)
    requires version >= 2
    ensures ServerChunkCount(size, version) == ChunkCount(size)
  {
  }

  /** Different plaintext sizes never share a stored size. */
  lemma CipherLenIncreases(a: nat, b: nat, manifestLen: nat, version: int)
    requires a < b
    ensures CipherLen(a, manifestLen, version) < CipherLen(b, manifestLen, version)
    ensures a <= CipherLen(a, manifestLen, version)
  {
    assert (a + CHUNK - 1) / CHUNK <= (b + CHUNK - 1) / CHUNK;
  }

  // ----- nonces

  function BigEndian32(x: nat): (b: Data)
    requires x < 0x1_0000_0000
    ensures |b| == 4
  {
    [x / 0x100_0000, x / 0x1_0000 % 256, x / 256 % 256, x % 256]
  }

  function ChunkNonce(idx: nat): (n: Data)
    requires idx <= MAX_SAFE
    ensures |n| == 12
  {
    [0, 0, 0, 0] + BigEndian32(idx / 0x1_0000_0000) + BigEndian32(idx % 0x1_0000_0000)
  }

  lemma BigEndianInjective(x: nat, y: nat)
    requires x < 0x1_0000_0000 && y < 0x1_0000_0000 && BigEndian32(x) == BigEndian32(y)
    ensures x == y
  {
    var a, b := BigEndian32(x), BigEndian32(y);
    assert a[0] == b[0] && a[1] == b[1] && a[2] == b[2] && a[3] == b[3];
    Recombine(x);
    Recombine(y);
  }

  lemma Recombine(x: nat)
    requires x < 0x1_0000_0000
    ensures var b := BigEndian32(x);
      x == (b[0] as int) * 0x100_0000 + (b[1] as int) * 0x1_0000 + (b[2] as int) * 256 + b[3] as int
  {
    var q := x / 256;
    var r := q / 256;
    assert r == x / 0x1_0000 && r / 256 == x / 0x100_0000;
  }

  lemma NonceInjective(i: nat, j: nat)
    requires i <= MAX_SAFE && j <= MAX_SAFE && ChunkNonce(i) == ChunkNonce(j)
    ensures i == j
  {
    hide BigEndian32;
    assert ChunkNonce(i)[4..8] == BigEndian32(i / 0x1_0000_0000) && ChunkNonce(i)[8..12] == BigEndian32(i % 0x1_0000_0000);
    assert ChunkNonce(j)[4..8] == BigEndian32(j / 0x1_0000_0000) && ChunkNonce(j)[8..12] == BigEndian32(j % 0x1_0000_0000);
    BigEndianInjective(i / 0x1_0000_0000, j / 0x1_0000_0000);
    BigEndianInjective(i % 0x1_0000_0000, j % 0x1_0000_0000);
  }

  lemma NumberSnoc(a: Data, x: Byte)
    ensures Number(a + [x]) == 256 * Number(a) + x
  {
    assert (a + [x])[..|a|] == a;
  }

  /** Four more digits. */
  lemma NumberJoin(a: Data, b: Data)
    requires |b| == 4
    ensures Number(a + b) == 0x1_0000_0000 * Number(a) + FourDigits(b)
  {
    hide Number;
    assert a + b == a + [b[0]] + [b[1]] + [b[2]] + [b[3]];
    NumberSnoc(a, b[0]);
    NumberSnoc(a + [b[0]], b[1]);
    NumberSnoc(a + [b[0]] + [b[1]], b[2]);
    NumberSnoc(a + [b[0]] + [b[1]] + [b[2]], b[3]);
  }

  function FourDigits(b: Data): nat
    requires |b| == 4
  {
    (b[0] as int) * 0x100_0000 + (b[1] as int) * 0x1_0000 + (b[2] as int) * 256 + b[3] as int
  }

  /** The nonce of chunk i is the 96-bit number i, the highest byte first. */
  lemma NonceValue(i: nat)
    requires i <= MAX_SAFE
    ensures |ChunkNonce(i)| == 12 && Number(ChunkNonce(i)) == i
  {
    hide Number, BigEndian32;
    var z: Data := [0, 0, 0, 0];
    var high, low := BigEndian32(i / 0x1_0000_0000), BigEndian32(i % 0x1_0000_0000);
    NumberJoin(z + high, low);
    NumberJoin(z, high);
    NumberJoin([], z);
    assert [] + z == z;
    Nothing();
    Recombine(i / 0x1_0000_0000);
    Recombine(i % 0x1_0000_0000);
  }

  lemma Nothing()
    ensures Number([]) == 0
  {
  }

  // ----- header

  function MagicFor(version: int): (m: Data)
    ensures |m| == 4
  {
    [0x50, 0x59, 0x58, if version >= 5 then 0x35 else if version >= 4 then 0x34 else 0x33]
  }

  datatype Head = Head(manifest: Data, body: nat)

  /** The bytes an object begins with; the length field holds 16 bits. */
  function Header(manifest: Data, version: int): (h: Data)
    ensures |h| == HEADER_FIXED + |manifest|
  {
    MagicFor(version) + [|manifest| / 256 % 256, |manifest| % 256] + manifest
  }

  function ReadHeader(ct: Data): Option<Head> {
    if |ct| < HEADER_FIXED then None
    else
      var magic := if ct[3] == 0x35 then MagicFor(5) else if ct[3] == 0x34 then MagicFor(4) else MagicFor(3);
      if ct[..4] != magic then None
      else
        var high: nat, low: nat := ct[4], ct[5];
        var len := high * 256 + low;
        if len == 0 || |ct| < HEADER_FIXED + len then None
        else Some(Head(ct[HEADER_FIXED..HEADER_FIXED + len], HEADER_FIXED + len))
  }

  /** "PYX" and the version digit, the manifest's length as a 16-bit number, the highest byte first, and the manifest. */
  lemma HeaderLayout(manifest: Data, version: int)
    requires |manifest| <= 65535
    ensures var h := Header(manifest, version);
      && |h| == 6 + |manifest| && h[..3] == [0x50, 0x59, 0x58] && h[6..] == manifest
      && h[3] == (if version <= 3 then 0x33 else if version == 4 then 0x34 else 0x35)
      && Number(h[4..6]) == |manifest|
  {
    var h := Header(manifest, version);
    Nothing();
    NumberSnoc([], h[4]);
    NumberSnoc([h[4]], h[5]);
    assert h[4..6] == [] + [h[4]] + [h[5]] && [] + [h[4]] == [h[4]];
  }

  /** The header is read back from every object it begins, whatever the container version. */
  lemma HeaderRoundTrip(manifest: Data, version: int, body: Data)
    requires 0 < |manifest| <= 0xffff
    ensures ReadHeader(Header(manifest, version) + body) == Some(Head(manifest, HEADER_FIXED + |manifest|))
  {
    var ct := Header(manifest, version) + body;
    assert ct[..4] == MagicFor(version);
    assert ct[4] == |manifest| / 256 && ct[5] == |manifest| % 256;
    assert ct[HEADER_FIXED..HEADER_FIXED + |manifest|] == manifest;
  }

  /** Conversely an accepted object begins with the header of its manifest, for one of the three magics. */
  lemma AcceptedHeader(ct: Data)
    requires ReadHeader(ct).Some?
    ensures var h := ReadHeader(ct).value; 0 < |h.manifest| <= 0xffff && h.body == HEADER_FIXED + |h.manifest| <= |ct|
    ensures var h := ReadHeader(ct).value;
      ct[3] in {0x33, 0x34, 0x35} && ct[..h.body] == Header(h.manifest, if ct[3] == 0x35 then 5 else if ct[3] == 0x34 then 4 else 3)
  {
    var h := ReadHeader(ct).value;
    assert ct[..4] + ct[4..6] + ct[6..h.body] == ct[..h.body];
    assert ct[..4][3] == ct[3];
  }

  method WriteHeader(manifest: Data, version: int) returns (r: Option<Data>)
    ensures r.Some? <==> |manifest| <= 0xffff
    ensures r.Some? ==> r.value == Header(manifest, version)
  {
    if |manifest| > 0xffff {
      return None;
    }
    var head := new Byte[HEADER_FIXED + |manifest|](_ => 0);
    var magic := MagicFor(version);
    forall i | 0 <= i < 4 {
      head[i] := magic[i];
    }
    head[4] := |manifest| / 256 % 256;
    head[5] := |manifest| % 256;
    forall i | 0 <= i < |manifest| {
      head[HEADER_FIXED + i] := manifest[i];
    }
    assert head[..] == Header(manifest, version);
    r := Some(head[..]);
  }

  /** The server's check of an upload against the manifest sent with it; it returns the header bytes it consumed. */
  method VerifyContainerHeader(upload: Data, manifest: Data, version: int) returns (r: Option<Data>)
    ensures r.Some? <==> Header(manifest, version) <= upload
    ensures r.Some? ==> r.value == Header(manifest, version)
  {
    var want := Header(manifest, version);
    var magic := MagicFor(version);
    if |upload| < |want| {
      return None;
    }
    var got := upload[..|want|];
    if got[..4] != magic || got != want {
      return None;
    }
    r := Some(got);
  }

  /** What the server let in carries, for every downloader, the manifest the server stored. */
  lemma ServerAndClientAgree(upload: Data, manifest: Data, version: int)
    requires 0 < |manifest| <= 0xffff && Header(manifest, version) <= upload
    ensures ReadHeader(upload) == Some(Head(manifest, HeaderLen(|manifest|, 3)))
  {
    HeaderRoundTrip(manifest, version, upload[|Header(manifest, version)|..]);
    assert upload == Header(manifest, version) + upload[|Header(manifest, version)|..];
  }

  // ----- sealing

  /** Authenticated encryption under the file key: nonce, associated data, text. */
  datatype Aead = Aead(seal: (Data, Data, Data) -> Data, open: (Data, Data, Data) -> Option<Data>)

  /** Chunk i of the plaintext. */
  function Piece(plain: Data, i: nat): Data
    requires i < ChunkCount(|plain|)
  {
    plain[i * CHUNK..if i * CHUNK + CHUNK < |plain| then i * CHUNK + CHUNK else |plain|]
  }

  function SealedPiece(a: Aead, manifest: Data, plain: Data, i: nat): Data
    requires |plain| <= MAX_SAFE && i < ChunkCount(|plain|)
  {
    a.seal(ChunkNonce(i), manifest, Piece(plain, i))
  }

  function Body(a: Aead, manifest: Data, plain: Data, n: nat): Data
    requires |plain| <= MAX_SAFE && n <= ChunkCount(|plain|)
  {
    if n == 0 then [] else Body(a, manifest, plain, n - 1) + SealedPiece(a, manifest, plain, n - 1)
  }

  /** The stored object. */
  function Object(a: Aead, manifest: Data, plain: Data): Data
    requires |plain| <= MAX_SAFE
  {
    Header(manifest, VERSION) + Body(a, manifest, plain, ChunkCount(|plain|))
  }

  /** The key opens what it sealed for this file, and a sealed piece is 16 bytes longer. */
  ghost predicate Works(a: Aead, manifest: Data, plain: Data)
    requires |plain| <= MAX_SAFE
  {
    forall i: nat :: i < ChunkCount(|plain|) ==>
      var c := SealedPiece(a, manifest, plain, i);
      |c| == |Piece(plain, i)| + TAG && a.open(ChunkNonce(i), manifest, c) == Some(Piece(plain, i))
  }

  /** The key was used for this file only: nothing else opens. */
  ghost predicate UsedOnce(a: Aead, manifest: Data, plain: Data)
    requires |plain| <= MAX_SAFE
  {
    forall nonce, aad, c :: a.open(nonce, aad, c).Some? ==> Entry(a, manifest, plain, nonce, aad, c)
  }

  ghost predicate Entry(a: Aead, manifest: Data, plain: Data, nonce: Data, aad: Data, c: Data)
    requires |plain| <= MAX_SAFE
  {
    exists i: nat :: i < ChunkCount(|plain|) && nonce == ChunkNonce(i) && aad == manifest && c == SealedPiece(a, manifest, plain, i)
  }

  /** An opened chunk is the sealed chunk of that position. */
  lemma OpenedIsSealed(a: Aead, manifest: Data, plain: Data, i: nat, aad: Data, c: Data)
    requires |plain| <= MAX_SAFE && UsedOnce(a, manifest, plain) && i <= MAX_SAFE
    requires a.open(ChunkNonce(i), aad, c).Some?
    ensures aad == manifest && i < ChunkCount(|plain|) && c == SealedPiece(a, manifest, plain, i)
  {
    hide ChunkNonce, SealedPiece;
    assert Entry(a, manifest, plain, ChunkNonce(i), aad, c);
    var j: nat :| j < ChunkCount(|plain|) && ChunkNonce(i) == ChunkNonce(j) && aad == manifest
      && c == SealedPiece(a, manifest, plain, j);
    NonceInjective(i, j);
  }

  method EncryptFile(a: Aead, plain: Data, manifest: Data) returns (r: Option<Data>)
    requires |plain| <= MAX_SAFE
    ensures r.Some? <==> 0 < |manifest| <= 0xffff
    ensures r.Some? ==> r.value == Object(a, manifest, plain)
  {
    hide ChunkNonce, Header, ChunkCount;
    if |manifest| == 0 {
      return None;
    }
    var total := |plain|;
    var chunks := ChunkCount(total);
    var head := WriteHeader(manifest, VERSION);
    if head.None? {
      return None;
    }
    var parts := head.value;
    for i := 0 to chunks
      invariant parts == Header(manifest, VERSION) + Body(a, manifest, plain, i)
    {
      var start := i * CHUNK;
      var buf := plain[start..if start + CHUNK < total then start + CHUNK else total];
      parts := parts + a.seal(ChunkNonce(i), manifest, buf);
    }
    r := Some(parts);
  }

  // ----- opening

  /** The fields of a parsed manifest that the reader uses. */
  datatype Fields = Fields(v: int, size: int, chunk: int, chunks: int)
  type Json = Data -> Option<Fields>

  datatype Opened = Opened(plain: Data, manifest: Fields)

  function ParseManifest(json: Json, manifest: Data): (r: Option<Fields>)
    ensures r.Some? ==> r.value.size >= 0 && r.value.chunks == ChunkCount(r.value.size)
  {
    match json(manifest)
    case None => None
    case Some(m) =>
      if m.v < 2 || m.v > VERSION || m.size < 0 || m.chunk != CHUNK || m.chunks != ChunkCount(m.size) then None
      else Some(m)
  }

  /** The bytes from `start` to `end`, as far as they exist. */
  function Slice(ct: Data, start: nat, end: nat): Data
    requires start <= end
  {
    var e := if end < |ct| then end else |ct|;
    if start > e then [] else ct[start..e]
  }

  function ChunkAt(ct: Data, offset: nat, i: nat): Data {
    Slice(ct, offset + i * (CHUNK + TAG), offset + i * (CHUNK + TAG) + CHUNK + TAG)
  }

  /** The first n chunks opened and joined. */
  function OpenAll(a: Aead, ct: Data, offset: nat, manifest: Data, n: nat): Option<Data>
    requires n <= MAX_SAFE + 1
  {
    if n == 0 then Some([])
    else
      match OpenAll(a, ct, offset, manifest, n - 1)
      case None => None
      case Some(before) =>
        match a.open(ChunkNonce(n - 1), manifest, ChunkAt(ct, offset, n - 1))
        case None => None
        case Some(p) => Some(before + p)
  }

  function OpenChunks(a: Aead, json: Json, ct: Data, offset: nat, manifest: Data): Option<Opened>
    requires |ct| <= MAX_SAFE
  {
    match ParseManifest(json, manifest)
    case None => None
    case Some(m) =>
      if |ct| != offset + m.size + m.chunks * TAG then None
      else
        match OpenAll(a, ct, offset, manifest, m.chunks)
        case None => None
        case Some(p) => if |p| != m.size then None else Some(Opened(p, m))
  }

  function OpenObject(a: Aead, json: Json, ct: Data, expected: Option<Data>): Option<Opened>
    requires |ct| <= MAX_SAFE
  {
    match ReadHeader(ct)
    case None => None
    case Some(head) =>
      if expected.Some? && |expected.value| > 0 && expected.value != head.manifest then None
      else OpenChunks(a, json, ct, head.body, head.manifest)
  }

  method DecryptChunks(a: Aead, json: Json, ct: Data, offset: nat, manifest: Data) returns (r: Option<Opened>)
    requires |ct| <= MAX_SAFE
    ensures r == OpenChunks(a, json, ct, offset, manifest)
  {
    hide ChunkNonce, ChunkCount, OpenAll, Slice;
    var parsed := ParseManifest(json, manifest);
    if parsed.None? {
      return None;
    }
    var m := parsed.value;
    var want := offset + m.size + m.chunks * TAG;
    if |ct| != want {
      return None;
    }
    var parts: Data := [];
    var i := 0;
    NothingOpened(a, ct, offset, manifest);
    while i < m.chunks
      invariant 0 <= i <= m.chunks && OpenAll(a, ct, offset, manifest, i) == Some(parts)
    {
      var start := offset + i * (CHUNK + TAG);
      var out := a.open(ChunkNonce(i), manifest, Slice(ct, start, start + CHUNK + TAG));
      OpenStep(a, ct, offset, manifest, i, parts);
      if out.None? {
        NoneStays(a, ct, offset, manifest, i + 1, m.chunks);
        return None;
      }
      parts := parts + out.value;
      i := i + 1;
    }
    if |parts| != m.size {
      return None;
    }
    r := Some(Opened(parts, m));
  }

  lemma NothingOpened(a: Aead, ct: Data, offset: nat, manifest: Data)
    ensures OpenAll(a, ct, offset, manifest, 0) == Some([])
  {
  }

  lemma OpenStep(a: Aead, ct: Data, offset: nat, manifest: Data, i: nat, before: Data)
    requires i <= MAX_SAFE && OpenAll(a, ct, offset, manifest, i) == Some(before)
    ensures var start := offset + i * (CHUNK + TAG);
      var out := a.open(ChunkNonce(i), manifest, Slice(ct, start, start + CHUNK + TAG));
      OpenAll(a, ct, offset, manifest, i + 1) == if out.None? then None else Some(before + out.value)
  {
    hide ChunkNonce, Slice;
  }

  lemma {:induction false} NoneStays(a: Aead, ct: Data, offset: nat, manifest: Data, i: nat, n: nat)
    requires i <= n <= MAX_SAFE + 1 && OpenAll(a, ct, offset, manifest, i).None?
    ensures OpenAll(a, ct, offset, manifest, n).None?
    decreases n
  {
    hide ChunkNonce;
    if i < n {
      NoneStays(a, ct, offset, manifest, i, n - 1);
    }
  }

  method DecryptFile(a: Aead, json: Json, ct: Data, expected: Option<Data>) returns (r: Option<Opened>)
    requires |ct| <= MAX_SAFE
    ensures r == OpenObject(a, json, ct, expected)
  {
    var head := ReadHeader(ct);
    if head.None? {
      return None;
    }
    if expected.Some? && |expected.value| > 0 && expected.value != head.value.manifest {
      return None;
    }
    r := DecryptChunks(a, json, ct, head.value.body, head.value.manifest);
  }
}
