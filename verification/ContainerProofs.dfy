/** What the container guarantees: what was encrypted comes back, and nothing else is accepted. */
module ContainerProofs {
  import opened Bytes
  import opened Options
  import opened Container

  // ----- lengths

  function Least(a: nat, b: nat): nat {
    if a < b then a else b
  }

  lemma {:induction false} BodyLength(a: Aead, manifest: Data, plain: Data, n: nat)
    requires |plain| <= MAX_SAFE && Works(a, manifest, plain) && n <= ChunkCount(|plain|)
    ensures |Body(a, manifest, plain, n)| == Least(n * CHUNK, |plain|) + n * TAG
  {
    hide ChunkNonce, SealedPiece;
    if n > 0 {
      BodyLength(a, manifest, plain, n - 1);
      PieceLength(a, manifest, plain, n - 1);
    }
  }

  lemma PieceLength(a: Aead, manifest: Data, plain: Data, i: nat)
    requires |plain| <= MAX_SAFE && Works(a, manifest, plain) && i < ChunkCount(|plain|)
    ensures |Piece(plain, i)| == Least((i + 1) * CHUNK, |plain|) - i * CHUNK
    ensures |SealedPiece(a, manifest, plain, i)| == |Piece(plain, i)| + TAG
  {
    hide ChunkNonce, SealedPiece;
  }

  /** The stored size is the one the server computes. */
  lemma ObjectLength(a: Aead, manifest: Data, plain: Data)
    requires |plain| <= MAX_SAFE && Works(a, manifest, plain)
    ensures |Object(a, manifest, plain)| == CipherLen(|plain|, |manifest|, VERSION)
  {
    hide ChunkNonce, SealedPiece;
    BodyLength(a, manifest, plain, ChunkCount(|plain|));
    ChunkCountsAgree(|plain|, VERSION);
  }

  // ----- chunks in the object

  lemma {:induction false} BodyPrefix(a: Aead, manifest: Data, plain: Data, m: nat, n: nat)
    requires |plain| <= MAX_SAFE && m <= n <= ChunkCount(|plain|)
    ensures Body(a, manifest, plain, m) <= Body(a, manifest, plain, n)
    decreases n
  {
    hide ChunkNonce, SealedPiece, ChunkCount;
    if m < n {
      BodyPrefix(a, manifest, plain, m, n - 1);
    }
  }

  /** Chunk i of the stream is sealed piece i. */
  lemma ChunkIsPiece(a: Aead, manifest: Data, plain: Data, head: Data, i: nat)
    requires |plain| <= MAX_SAFE && Works(a, manifest, plain) && i < ChunkCount(|plain|)
    ensures ChunkAt(head + Body(a, manifest, plain, ChunkCount(|plain|)), |head|, i) == SealedPiece(a, manifest, plain, i)
  {
    hide ChunkNonce, SealedPiece, Piece, ChunkCount, Works, Body, ChunkAt;
    var n := ChunkCount(|plain|);
    var before, all := Body(a, manifest, plain, i), Body(a, manifest, plain, n);
    var c := SealedPiece(a, manifest, plain, i);
    PieceLength(a, manifest, plain, i);
    BodyLength(a, manifest, plain, i);
    BodyLength(a, manifest, plain, n);
    PiecesFit(|plain|, i);
    BodyNext(a, manifest, plain, i);
    BodyPrefix(a, manifest, plain, i + 1, n);
    InWindow(head, before, c, all, i);
  }

  lemma BodyNext(a: Aead, manifest: Data, plain: Data, i: nat)
    requires |plain| <= MAX_SAFE && i < ChunkCount(|plain|)
    ensures Body(a, manifest, plain, i + 1) == Body(a, manifest, plain, i) + SealedPiece(a, manifest, plain, i)
  {
    hide ChunkNonce, SealedPiece, ChunkCount;
  }

  lemma PiecesFit(size: nat, i: nat)
    requires i < ChunkCount(size)
    ensures Least(i * CHUNK, size) == i * CHUNK <= size && Least((i + 1) * CHUNK, size) - i * CHUNK <= CHUNK
    ensures Least((i + 1) * CHUNK, size) - i * CHUNK < CHUNK ==>
      i + 1 == ChunkCount(size) && Least((i + 1) * CHUNK, size) == size == Least(ChunkCount(size) * CHUNK, size)
  {
  }

  /** A full chunk stands where its number says; a shorter one ends the stream. */
  lemma InWindow(head: Data, before: Data, c: Data, all: Data, i: nat)
    requires before + c <= all && |before| == i * (CHUNK + TAG) && |c| <= CHUNK + TAG
    requires |c| < CHUNK + TAG ==> |all| == |before| + |c|
    ensures ChunkAt(head + all, |head|, i) == c
  {
    Window(head, before, c, all);
  }

  lemma Window(head: Data, before: Data, c: Data, all: Data)
    requires before + c <= all
    ensures (head + all)[|head| + |before|..|head| + |before| + |c|] == c
  {
    assert all[|before|..|before| + |c|] == c;
  }

  /** Where chunk i stands, and what it is: 65536 bytes of the plaintext, or what is left of it, sealed under a 12-byte
      nonce of value i with the manifest as associated data, 16 bytes longer. There is a chunk i as long as plaintext is
      left for it, and always a first one. */
  lemma ObjectChunk(a: Aead, manifest: Data, plain: Data, i: nat, nonce: Data)
    requires |plain| <= MAX_SAFE && Works(a, manifest, plain) && (i == 0 || 65536 * i < |plain|)
    requires |nonce| == 12 && nonce == ChunkNonce(i)
    ensures Number(nonce) == i
    ensures var o, start := Object(a, manifest, plain), 6 + |manifest| + 65552 * i;
      var piece := plain[65536 * i..Least(65536 * (i + 1), |plain|)];
      && start + |piece| + 16 <= |o|
      && o[start..start + |piece| + 16] == a.seal(nonce, manifest, piece)
      && (start + |piece| + 16 == |o| <==> 65536 * (i + 1) >= |plain|)
  {
    hide ChunkNonce, SealedPiece, Header, Number, ChunkCount, Body, Works, Piece;
    var n := ChunkCount(|plain|);
    ChunksLeft(|plain|, i);
    NonceValue(i);
    ChunkIsPiece(a, manifest, plain, Header(manifest, VERSION), i);
    PieceLength(a, manifest, plain, i);
    BodyLength(a, manifest, plain, n);
    SealedIs(a, manifest, plain, i);
  }

  lemma ChunksLeft(size: nat, i: nat)
    requires i == 0 || 65536 * i < size
    ensures i < ChunkCount(size) && Least(ChunkCount(size) * CHUNK, size) == size
    ensures i + 1 == ChunkCount(size) <==> 65536 * (i + 1) >= size
  {
  }

  lemma SealedIs(a: Aead, manifest: Data, plain: Data, i: nat)
    requires |plain| <= MAX_SAFE && i < ChunkCount(|plain|)
    ensures SealedPiece(a, manifest, plain, i)
      == a.seal(ChunkNonce(i), manifest, plain[65536 * i..Least(65536 * (i + 1), |plain|)])
  {
    hide ChunkNonce;
  }

  ghost function Joined(plain: Data, n: nat): Data
    requires n <= ChunkCount(|plain|)
  {
    if n == 0 then [] else Joined(plain, n - 1) + Piece(plain, n - 1)
  }

  lemma {:induction false} JoinedIsPrefix(plain: Data, n: nat)
    requires n <= ChunkCount(|plain|)
    ensures Joined(plain, n) == plain[..Least(n * CHUNK, |plain|)]
  {
    if n > 0 {
      JoinedIsPrefix(plain, n - 1);
      assert Least((n - 1) * CHUNK, |plain|) == (n - 1) * CHUNK;
    }
  }

  lemma {:induction false} OpenSealed(a: Aead, manifest: Data, plain: Data, head: Data, n: nat)
    requires |plain| <= MAX_SAFE && Works(a, manifest, plain) && n <= ChunkCount(|plain|)
    ensures OpenAll(a, head + Body(a, manifest, plain, ChunkCount(|plain|)), |head|, manifest, n) == Some(Joined(plain, n))
  {
    hide ChunkNonce, SealedPiece, ChunkAt, ChunkCount, Piece;
    if n > 0 {
      OpenSealed(a, manifest, plain, head, n - 1);
      ChunkIsPiece(a, manifest, plain, head, n - 1);
    }
  }

  // ----- round trip

  /** The manifest describes this plaintext. */
  ghost predicate Describes(json: Json, manifest: Data, plain: Data) {
    && 0 < |manifest| <= 0xffff
    && json(manifest).Some? && ParseManifest(json, manifest).Some? && json(manifest).value.size == |plain|
  }

  /** The object with another last byte of the magic. */
  function WithMagic(stored: Data, b: Byte): Data
    requires |stored| > 3
  {
    stored[3 := b]
  }

  /** An encrypted file opens to its manifest and its bytes, whatever its size, and under any of the three magics. */
  lemma RoundTrip(a: Aead, json: Json, manifest: Data, plain: Data, expected: Option<Data>, version: int)
    requires |plain| <= MAX_SAFE && Works(a, manifest, plain) && Describes(json, manifest, plain)
    requires expected.Some? && |expected.value| > 0 ==> expected.value == manifest
    requires |Header(manifest, version)| + |Body(a, manifest, plain, ChunkCount(|plain|))| <= MAX_SAFE
    ensures OpenObject(a, json, Header(manifest, version) + Body(a, manifest, plain, ChunkCount(|plain|)), expected)
         == Some(Opened(plain, json(manifest).value))
  {
    hide ChunkNonce, SealedPiece, Header, OpenAll, ChunkCount, ReadHeader;
    var n := ChunkCount(|plain|);
    var head, body := Header(manifest, version), Body(a, manifest, plain, n);
    HeaderRoundTrip(manifest, version, body);
    BodyLength(a, manifest, plain, n);
    OpenSealed(a, manifest, plain, head, n);
    JoinedIsPrefix(plain, n);
    assert plain[..|plain|] == plain;
  }

  // ----- binding

  lemma {:induction false} OpenedChunks(a: Aead, manifest: Data, plain: Data, ct: Data, offset: nat, aad: Data, n: nat)
    requires |plain| <= MAX_SAFE && UsedOnce(a, manifest, plain) && n <= MAX_SAFE + 1
    requires OpenAll(a, ct, offset, aad, n).Some?
    ensures n > 0 ==> aad == manifest
    ensures n <= ChunkCount(|plain|) && forall i: nat :: i < n ==> ChunkAt(ct, offset, i) == SealedPiece(a, manifest, plain, i)
  {
    hide ChunkNonce, SealedPiece, ChunkAt, ChunkCount, UsedOnce;
    if n > 0 {
      OpenedChunks(a, manifest, plain, ct, offset, aad, n - 1);
      OpenedIsSealed(a, manifest, plain, n - 1, aad, ChunkAt(ct, offset, n - 1));
    }
  }

  /** A stream whose chunks are the sealed pieces, of the right length, is the body. */
  lemma {:induction false} ChunksMakeBody(a: Aead, manifest: Data, plain: Data, ct: Data, offset: nat, n: nat)
    requires |plain| <= MAX_SAFE && Works(a, manifest, plain) && n <= ChunkCount(|plain|)
    requires offset + Least(n * CHUNK, |plain|) + n * TAG <= |ct|
    requires forall i: nat :: i < n ==> ChunkAt(ct, offset, i) == SealedPiece(a, manifest, plain, i)
    ensures ct[offset..offset + Least(n * CHUNK, |plain|) + n * TAG] == Body(a, manifest, plain, n)
  {
    hide ChunkNonce, SealedPiece, Piece, ChunkCount, Works, Slice, Least;
    if n > 0 {
      CountCovers(|plain|, n);
      LeastOf((n - 1) * CHUNK, |plain|);
      LeastOf(n * CHUNK, |plain|);
      ChunksMakeBody(a, manifest, plain, ct, offset, n - 1);
      PieceLength(a, manifest, plain, n - 1);
      var m, e := offset + (n - 1) * (CHUNK + TAG), offset + Least(n * CHUNK, |plain|) + n * TAG;
      var c := SealedPiece(a, manifest, plain, n - 1);
      assert ChunkAt(ct, offset, n - 1) == c;
      LastChunk(ct, m, e, |c|);
      SplitAt(ct, offset, m, e);
    } else {
      LeastOf(n * CHUNK, |plain|);
    }
  }

  lemma LeastOf(a: nat, b: nat)
    ensures Least(a, b) <= a && Least(a, b) <= b && (a <= b ==> Least(a, b) == a) && Least(a, b) in {a, b}
  {
  }

  lemma SplitAt(ct: Data, o: nat, m: nat, e: nat)
    requires o <= m <= e <= |ct|
    ensures ct[o..e] == ct[o..m] + ct[m..e]
  {
  }

  lemma LastChunk(ct: Data, m: nat, e: nat, len: nat)
    requires m <= e <= |ct| && |Slice(ct, m, m + CHUNK + TAG)| == len == e - m
    ensures ct[m..e] == Slice(ct, m, m + CHUNK + TAG)
  {
  }

  lemma CountCovers(size: nat, n: nat)
    requires 0 < n <= ChunkCount(size)
    ensures (n - 1) * CHUNK <= size
  {
  }

  /** Whatever the reader accepts under a key used once is the sealed object, up to the last byte of its magic:
      truncated, reordered, padded or re-described objects are refused. */
  lemma AcceptedIsSealed(a: Aead, json: Json, manifest: Data, plain: Data, ct: Data, expected: Option<Data>)
    requires |plain| <= MAX_SAFE && |ct| <= MAX_SAFE
    requires Works(a, manifest, plain) && UsedOnce(a, manifest, plain) && Describes(json, manifest, plain)
    requires OpenObject(a, json, ct, expected).Some?
    ensures OpenObject(a, json, ct, expected).value == Opened(plain, json(manifest).value)
    ensures expected.Some? && |expected.value| > 0 ==> expected.value == manifest
    ensures |ct| > 3 && ct[3] in {0x33, 0x34, 0x35} && WithMagic(ct, 0x35) == Object(a, manifest, plain)
  {
    hide ChunkNonce, SealedPiece, ChunkAt, OpenAll, ChunkCount, UsedOnce, Works, ReadHeader, Header;
    var head := ReadHeader(ct).value;
    AcceptedHeader(ct);
    var n := ParseManifest(json, head.manifest).value.chunks;
    OpenedChunks(a, manifest, plain, ct, head.body, head.manifest, n);
    CoversAll(|plain|, n);
    ChunksMakeBody(a, manifest, plain, ct, head.body, n);
    var version := if ct[3] == 0x35 then 5 else if ct[3] == 0x34 then 4 else 3;
    var header, body := Header(manifest, version), Body(a, manifest, plain, n);
    assert ct == header + body;
    RoundTrip(a, json, manifest, plain, expected, version);
    SameButMagic(manifest, version, body);
  }

  lemma CoversAll(size: nat, n: nat)
    requires n == ChunkCount(size)
    ensures Least(n * CHUNK, size) == size && n >= 1
  {
  }

  lemma SameButMagic(manifest: Data, version: int, body: Data)
    ensures |Header(manifest, version) + body| > 3
    ensures WithMagic(Header(manifest, version) + body, 0x35) == Header(manifest, VERSION) + body
  {
  }

  /** Whatever opens, under any key, carries a manifest of a known version whose chunk size is 65536, whose chunk count
      is the one of its size, and whose size is that of the plaintext. */
  lemma OpenedManifest(a: Aead, json: Json, ct: Data, expected: Option<Data>)
    requires |ct| <= MAX_SAFE && OpenObject(a, json, ct, expected).Some?
    ensures var r := OpenObject(a, json, ct, expected).value;
      && 2 <= r.manifest.v <= 5 && r.manifest.chunk == 65536 && r.manifest.size == |r.plain|
      && r.manifest.chunks == (if |r.plain| == 0 then 1 else (|r.plain| + 65535) / 65536)
      && json(ReadHeader(ct).value.manifest) == Some(r.manifest)
  {
    hide OpenAll, ReadHeader;
  }

  /** The reader accepts exactly the sealed object under its three magics. */
  lemma AcceptedIff(a: Aead, json: Json, manifest: Data, plain: Data, ct: Data)
    requires |plain| <= MAX_SAFE && |ct| <= MAX_SAFE
    requires Works(a, manifest, plain) && UsedOnce(a, manifest, plain) && Describes(json, manifest, plain)
    ensures OpenObject(a, json, ct, None).Some? <==>
      |ct| > 3 && ct[3] in {0x33, 0x34, 0x35} && WithMagic(ct, 0x35) == Object(a, manifest, plain)
  {
    hide ChunkNonce, SealedPiece, OpenObject, UsedOnce, Works, Describes, Header, Body;
    if OpenObject(a, json, ct, None).Some? {
      AcceptedIsSealed(a, json, manifest, plain, ct, None);
    }
    if |ct| > 3 && ct[3] in {0x33, 0x34, 0x35} && WithMagic(ct, 0x35) == Object(a, manifest, plain) {
      var version := if ct[3] == 0x35 then 5 else if ct[3] == 0x34 then 4 else 3;
      var body := Body(a, manifest, plain, ChunkCount(|plain|));
      OtherMagic(manifest, version, body, ct);
      RoundTrip(a, json, manifest, plain, None, version);
    }
  }

  lemma OtherMagic(manifest: Data, version: int, body: Data, ct: Data)
    requires |ct| > 3 && version == (if ct[3] == 0x35 then 5 else if ct[3] == 0x34 then 4 else 3)
    requires ct[3] in {0x33, 0x34, 0x35} && WithMagic(ct, 0x35) == Header(manifest, VERSION) + body
    ensures ct == Header(manifest, version) + body
  {
    var h := Header(manifest, version) + body;
    assert |ct| == |WithMagic(ct, 0x35)| == |h|;
    forall i | 0 <= i < |ct| ensures ct[i] == h[i] {
      if i != 3 {
        assert ct[i] == WithMagic(ct, 0x35)[i];
      }
    }
  }

  // ----- an ideal key

  /** A key that opens exactly the sealed pieces of one file. */
  function IdealKey(manifest: Data, plain: Data): Aead
    requires |plain| <= MAX_SAFE
  {
    Aead((nonce: Data, aad: Data, p: Data) => p + seq(TAG, _ => 0),
         (nonce: Data, aad: Data, c: Data) =>
           if aad == manifest && (exists i: nat ::
                i < ChunkCount(|plain|) && nonce == ChunkNonce(i) && c == Piece(plain, i) + seq(TAG, _ => 0))
           then Some(c[..|c| - TAG]) else None)
  }

  /** The two assumptions about the key hold together. */
  lemma IdealKeyIsIdeal(manifest: Data, plain: Data)
    requires |plain| <= MAX_SAFE
    ensures Works(IdealKey(manifest, plain), manifest, plain) && UsedOnce(IdealKey(manifest, plain), manifest, plain)
  {
    hide ChunkNonce, Piece, ChunkCount;
  }

  // ----- version confusion

  /** The reader without manifest and length: every chunk that arrives, without associated data. */
  function OpenLegacy(a: Aead, ct: Data): Option<Data>
    requires |ct| <= MAX_SAFE
  {
    OpenAll(a, ct, 0, [], (|ct| + CHUNK + TAG - 1) / (CHUNK + TAG))
  }

  function OpenFile(a: Aead, json: Json, version: int, ct: Data, manifest: Data): Option<(Data, Option<Fields>)>
    requires |ct| <= MAX_SAFE
  {
    if version >= 3 then
      var r := OpenObject(a, json, ct, if manifest == [] then None else Some(manifest));
      if r.None? then None else Some((r.value.plain, Some(r.value.manifest)))
    else if version == 2 then
      if manifest == [] then None
      else
        var r := OpenChunks(a, json, ct, 0, manifest);
        if r.None? then None else Some((r.value.plain, Some(r.value.manifest)))
    else
      var r := OpenLegacy(a, ct);
      if r.None? then None else Some((r.value, None))
  }

  /** Declaring a version without a header never opens a container: the lengths or the associated data disagree. */
  lemma VersionConfusion(a: Aead, json: Json, manifest: Data, plain: Data, version: int, given: Data)
    requires |plain| <= MAX_SAFE && |Object(a, manifest, plain)| <= MAX_SAFE && version <= 2
    requires Works(a, manifest, plain) && UsedOnce(a, manifest, plain) && Describes(json, manifest, plain)
    ensures OpenFile(a, json, version, Object(a, manifest, plain), given).None?
  {
    hide ChunkNonce, SealedPiece, UsedOnce, Works, ChunkAt, OpenAll, ChunkCount;
    var ct := Object(a, manifest, plain);
    BodyLength(a, manifest, plain, ChunkCount(|plain|));
    CoversAll(|plain|, ChunkCount(|plain|));
    if version == 2 {
      if given != [] && OpenChunks(a, json, ct, 0, given).Some? {
        OpenedChunks(a, manifest, plain, ct, 0, given, ParseManifest(json, given).value.chunks);
      }
    } else {
      var n := (|ct| + CHUNK + TAG - 1) / (CHUNK + TAG);
      assert n > 0;
      if OpenAll(a, ct, 0, [], n).Some? {
        OpenedChunks(a, manifest, plain, ct, 0, [], n);
      }
    }
  }

  /** The other way: the chunks of version 2, without a header, open neither as a container nor as the oldest format. */
  lemma HeaderlessConfusion(a: Aead, json: Json, manifest: Data, plain: Data, version: int, given: Data)
    requires |plain| <= MAX_SAFE && |Body(a, manifest, plain, ChunkCount(|plain|))| <= MAX_SAFE && version != 2
    requires Works(a, manifest, plain) && UsedOnce(a, manifest, plain) && Describes(json, manifest, plain)
    ensures OpenFile(a, json, version, Body(a, manifest, plain, ChunkCount(|plain|)), given).None?
  {
    hide ChunkNonce, SealedPiece, UsedOnce, Works, ChunkAt, OpenAll, ChunkCount, ReadHeader;
    var ct := Body(a, manifest, plain, ChunkCount(|plain|));
    BodyLength(a, manifest, plain, ChunkCount(|plain|));
    CoversAll(|plain|, ChunkCount(|plain|));
    if version >= 3 {
      if ReadHeader(ct).Some? {
        var head := ReadHeader(ct).value;
        AcceptedHeader(ct);
        if OpenChunks(a, json, ct, head.body, head.manifest).Some? {
          OpenedChunks(a, manifest, plain, ct, head.body, head.manifest, ParseManifest(json, head.manifest).value.chunks);
        }
      }
    } else {
      var n := (|ct| + CHUNK + TAG - 1) / (CHUNK + TAG);
      assert n > 0;
      if OpenAll(a, ct, 0, [], n).Some? {
        OpenedChunks(a, manifest, plain, ct, 0, [], n);
      }
    }
  }

  /** Under a key of the oldest format, which sealed without associated data, no object at all opens as a later one. */
  lemma LegacyConfusion(a: Aead, json: Json, plain: Data, ct: Data, version: int, given: Data)
    requires |plain| <= MAX_SAFE && |ct| <= MAX_SAFE && version >= 2 && UsedOnce(a, [], plain)
    ensures OpenFile(a, json, version, ct, given).None?
  {
    hide ChunkNonce, SealedPiece, UsedOnce, ChunkAt, OpenAll, ChunkCount, ReadHeader;
    if version == 2 {
      if given != [] {
        NothingOpens(a, json, plain, ct, 0, given);
      }
    } else if ReadHeader(ct).Some? {
      var head := ReadHeader(ct).value;
      AcceptedHeader(ct);
      NothingOpens(a, json, plain, ct, head.body, head.manifest);
    }
  }

  lemma NothingOpens(a: Aead, json: Json, plain: Data, ct: Data, offset: nat, manifest: Data)
    requires |plain| <= MAX_SAFE && |ct| <= MAX_SAFE && UsedOnce(a, [], plain) && manifest != []
    ensures OpenChunks(a, json, ct, offset, manifest).None?
  {
    hide ChunkNonce, SealedPiece, UsedOnce, ChunkAt, OpenAll, ChunkCount;
    if OpenChunks(a, json, ct, offset, manifest).Some? {
      OpenedChunks(a, [], plain, ct, offset, manifest, ParseManifest(json, manifest).value.chunks);
    }
  }

  /** The oldest format accepts the empty object; the others never do. */
  lemma EmptyObject(a: Aead, json: Json, version: int, manifest: Data)
    ensures OpenFile(a, json, version, [], manifest).Some? <==> version < 2
  {
    assert (0 + CHUNK + TAG - 1) / (CHUNK + TAG) == 0;
    if ParseManifest(json, manifest).Some? {
      var m := ParseManifest(json, manifest).value;
      assert m.chunks >= 1;
    }
  }
}
