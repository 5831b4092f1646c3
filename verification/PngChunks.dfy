/**
 The chunk layout of PNG (W3C PNG Specification, Third Edition, section 5.3):
 a four-byte length, a four-byte type, the data and a CRC over type and data.
 A chunk type is kept as the big-endian number of its four letters.
 */
module PngChunks {
  import opened Bytes
  import opened Wrappers

  /** zlib's `crc32`, of which nothing is assumed but that it is a function of the bytes. */
  type Crc = seq<Byte> -> Word

  const SIGNATURE: seq<Byte> := [0x89, 0x50, 0x4e, 0x47, 0x0d, 0x0a, 0x1a, 0x0a]
  const CHUNK_OVERHEAD := 12
  const MAXIMUM_CHUNK_LENGTH := 10 * 1024 * 1024

  const IHDR: Word := 0x4948_4452
  const PLTE: Word := 0x504C_5445
  const IDAT: Word := 0x4944_4154
  const IEND: Word := 0x4945_4E44
  const ACTL: Word := 0x6163_544C
  const FCTL: Word := 0x6663_544C
  const FDAT: Word := 0x6664_4154

  datatype Chunk = Chunk(tag: Word, data: seq<Byte>)

  datatype ReadError = TruncatedChunk | ChunkLength | CrcMismatch

  predicate HasSignature(body: seq<Byte>) {
    |SIGNATURE| <= |body| && body[..|SIGNATURE|] == SIGNATURE
  }

  predicate TagAt(body: seq<Byte>, offset: nat, tag: Word) {
    offset + 4 <= |body| && ReadU32(body, offset) == tag
  }

  /** The chunk at `offset`, or why there is none; the checks are in the order the parser makes them. */
  function ReadChunk(crc: Crc, body: seq<Byte>, offset: nat): (r: Result<Chunk, ReadError>)
    requires offset <= |body|
    ensures r.Ok? ==> offset + CHUNK_OVERHEAD + |r.value.data| <= |body|
  {
    if |body| - offset < 4 then Err(TruncatedChunk)
    else
      var length := ReadU32(body, offset);
      if length > MAXIMUM_CHUNK_LENGTH then Err(ChunkLength)
      else if |body| - offset < CHUNK_OVERHEAD then Err(TruncatedChunk)
      else if length > |body| - offset - CHUNK_OVERHEAD then Err(TruncatedChunk)
      else if crc(body[offset + 4..offset + 8 + length]) != ReadU32(body, offset + 8 + length) then Err(CrcMismatch)
      else Ok(Chunk(ReadU32(body, offset + 4), body[offset + 8..offset + 8 + length]))
  }

  /** The bytes `append_chunk` writes; the length is cast to 32 bits. */
  function Encode(crc: Crc, c: Chunk): (r: seq<Byte>)
    ensures |r| == CHUNK_OVERHEAD + |c.data|
  {
    U32Bytes(|c.data| % 0x1_0000_0000) + U32Bytes(c.tag) + c.data + U32Bytes(crc(U32Bytes(c.tag) + c.data))
  }

  function Ascii(s: string): seq<Byte>
    requires forall c | c in s :: c as int < 128
  {
    seq(|s|, i requires 0 <= i < |s| => assert s[i] in s; Code(s[i]))
  }

  function Code(c: char): Byte
    requires c as int < 128
  {
    c as int
  }

  /** A type is its four letters, and the signature is the eight bytes of the PNG Specification (section 5.2). */
  lemma TypesAreLetters()
    ensures U32Bytes(IHDR) == Ascii("IHDR") && U32Bytes(PLTE) == Ascii("PLTE") && U32Bytes(IDAT) == Ascii("IDAT") && U32Bytes(IEND) == Ascii("IEND")
    ensures U32Bytes(ACTL) == Ascii("acTL") && U32Bytes(FCTL) == Ascii("fcTL") && U32Bytes(FDAT) == Ascii("fdAT")
    ensures SIGNATURE == [137] + Ascii("PNG") + [13, 10, 26, 10]
  {
  }

  /** Section 5.3: the length of the data, the type, the data, and the CRC of type and data. */
  lemma ChunkLayout(crc: Crc, c: Chunk)
    requires |c.data| < 0x1_0000_0000
    ensures var e, n := Encode(crc, c), |c.data|;
            && |e| == n + 12
            && BigEndian(e[0..4]) == n
            && BigEndian(e[4..8]) == c.tag
            && e[8..n + 8] == c.data
            && BigEndian(e[n + 8..n + 12]) == crc(e[4..n + 8])
  {
    hide ReadU32, U32Bytes, BigEndian;
    var e, n := Encode(crc, c), |c.data|;
    var check := crc(U32Bytes(c.tag) + c.data);
    assert e[0..4] == U32Bytes(n) && e[4..8] == U32Bytes(c.tag) && e[4..n + 8] == U32Bytes(c.tag) + c.data;
    assert e[n + 8..n + 12] == U32Bytes(check);
    ReadWritten(n, e, 0);
    ReadWritten(c.tag, e, 4);
    ReadWritten(check, e, n + 8);
    ReadIsBigEndian(e, 0);
    ReadIsBigEndian(e, 4);
    ReadIsBigEndian(e, n + 8);
  }

  /** The end of every PNG file, byte for byte. */
  lemma EndChunkIsKnown(crc: Crc)
    requires crc(Ascii("IEND")) == 0xAE42_6082
    ensures Encode(crc, Chunk(IEND, [])) == [0, 0, 0, 0, 73, 69, 78, 68, 174, 66, 96, 130]
  {
    TypesAreLetters();
    assert Ascii("IEND") == [73, 69, 78, 68];
    assert U32Bytes(IEND) + [] == Ascii("IEND");
  }

  /** Every chunk is short enough for the readers to accept it. */
  predicate Bounded(cs: seq<Chunk>) {
    forall c | c in cs :: |c.data| <= MAXIMUM_CHUNK_LENGTH
  }

  function EncodeAll(crc: Crc, cs: seq<Chunk>): seq<Byte> {
    if cs == [] then [] else EncodeAll(crc, cs[..|cs| - 1]) + Encode(crc, cs[|cs| - 1])
  }

  /** A PNG datastream: the signature, then chunks and nothing else. */
  function Datastream(crc: Crc, cs: seq<Chunk>): (r: seq<Byte>)
    ensures HasSignature(r) && |r| == |SIGNATURE| + |EncodeAll(crc, cs)|
  {
    SIGNATURE + EncodeAll(crc, cs)
  }

  /** A written chunk is read back, whatever surrounds it. */
  lemma ReadEncoded(crc: Crc, c: Chunk, body: seq<Byte>, offset: nat)
    requires |c.data| <= MAXIMUM_CHUNK_LENGTH
    requires offset + CHUNK_OVERHEAD + |c.data| <= |body|
    requires body[offset..offset + CHUNK_OVERHEAD + |c.data|] == Encode(crc, c)
    ensures ReadU32(body, offset) == |c.data| && ReadU32(body, offset + 4) == c.tag
    ensures body[offset + 8..offset + 8 + |c.data|] == c.data
    ensures ReadChunk(crc, body, offset) == Ok(c)
  {
    hide ReadU32, U32Bytes;
    var e, n := Encode(crc, c), |c.data|;
    var check := U32Bytes(crc(U32Bytes(c.tag) + c.data));
    assert e[..4] == U32Bytes(n) && e[4..8] == U32Bytes(c.tag) && e[8..8 + n] == c.data && e[8 + n..12 + n] == check;
    assert e[4..8 + n] == U32Bytes(c.tag) + c.data;
    SubSlice(body, offset, e, 0, 4);
    SubSlice(body, offset, e, 4, 8);
    SubSlice(body, offset, e, 8, 8 + n);
    SubSlice(body, offset, e, 4, 8 + n);
    SubSlice(body, offset, e, 8 + n, 12 + n);
    ReadWritten(n, body, offset);
    ReadWritten(c.tag, body, offset + 4);
    ReadWritten(crc(U32Bytes(c.tag) + c.data), body, offset + 8 + n);
  }

  /** A chunk that is read is the only encoding of itself. */
  lemma EncodeRead(crc: Crc, body: seq<Byte>, offset: nat)
    requires offset <= |body| && ReadChunk(crc, body, offset).Ok?
    ensures var c := ReadChunk(crc, body, offset).value;
            && |c.data| <= MAXIMUM_CHUNK_LENGTH
            && body[offset..offset + CHUNK_OVERHEAD + |c.data|] == Encode(crc, c)
  {
    hide ReadU32, U32Bytes;
    var c := ReadChunk(crc, body, offset).value;
    var n := |c.data|;
    WriteRead(body, offset);
    WriteRead(body, offset + 4);
    WriteRead(body, offset + 8 + n);
    FourParts(body, offset, n);
  }

  lemma FourParts(body: seq<Byte>, offset: nat, n: nat)
    requires offset + 12 + n <= |body|
    ensures body[offset + 4..offset + 8 + n] == body[offset + 4..offset + 8] + body[offset + 8..offset + 8 + n]
    ensures body[offset..offset + 12 + n]
         == body[offset..offset + 4] + body[offset + 4..offset + 8] + body[offset + 8..offset + 8 + n] + body[offset + 8 + n..offset + 8 + n + 4]
  {
  }

  lemma EncodeAllAppend(crc: Crc, cs: seq<Chunk>, c: Chunk)
    ensures EncodeAll(crc, cs + [c]) == EncodeAll(crc, cs) + Encode(crc, c)
  {
    hide Encode;
    assert (cs + [c])[..|cs|] == cs;
  }

  lemma {:induction false} EncodeAllConcat(crc: Crc, a: seq<Chunk>, b: seq<Chunk>)
    ensures EncodeAll(crc, a + b) == EncodeAll(crc, a) + EncodeAll(crc, b)
  {
    hide Encode, EncodeAll;
    if b == [] {
      NothingEncoded(crc);
      assert a + b == a;
    } else {
      var front, last := b[..|b| - 1], b[|b| - 1];
      assert b == front + [last] && a + b == (a + front) + [last];
      EncodeAllConcat(crc, a, front);
      EncodeAllAppend(crc, front, last);
      EncodeAllAppend(crc, a + front, last);
      Associative(EncodeAll(crc, a), EncodeAll(crc, front), Encode(crc, last));
    }
  }

  lemma NothingEncoded(crc: Crc)
    ensures EncodeAll(crc, []) == []
  {
  }

  lemma EncodeOne(crc: Crc, c: Chunk)
    ensures EncodeAll(crc, [c]) == Encode(crc, c)
  {
    assert [c][..0] == [];
  }

  /** In a datastream, the k-th chunk starts where the chunks before it end. */
  lemma ChunkAt(crc: Crc, cs: seq<Chunk>, k: nat)
    requires Bounded(cs) && k < |cs|
    ensures var body := Datastream(crc, cs);
            var offset := |Datastream(crc, cs[..k])|;
            && offset + CHUNK_OVERHEAD + |cs[k].data| == |Datastream(crc, cs[..k + 1])| <= |body|
            && body[offset..offset + CHUNK_OVERHEAD + |cs[k].data|] == Encode(crc, cs[k])
            && ReadU32(body, offset) == |cs[k].data| && ReadU32(body, offset + 4) == cs[k].tag
            && body[offset + 8..offset + 8 + |cs[k].data|] == cs[k].data
            && ReadChunk(crc, body, offset) == Ok(cs[k])
  {
    hide Encode, EncodeAll, ReadU32, ReadChunk, HasSignature;
    var body, pre, post := Datastream(crc, cs), cs[..k], cs[k + 1..];
    assert cs == (pre + [cs[k]]) + post && cs[..k + 1] == pre + [cs[k]];
    EncodeAllAppend(crc, pre, cs[k]);
    EncodeAllConcat(crc, pre + [cs[k]], post);
    var head, e, tail := Datastream(crc, pre), Encode(crc, cs[k]), EncodeAll(crc, post);
    Associative(SIGNATURE, EncodeAll(crc, pre), e);
    Associative(SIGNATURE, EncodeAll(crc, pre + [cs[k]]), tail);
    assert body == head + e + tail;
    Middle(head, e, tail);
    ReadEncoded(crc, cs[k], body, |head|);
  }

  /** Reads chunks to the end of the body, checking lengths and CRCs. */
  function WalkFrom(crc: Crc, body: seq<Byte>, offset: nat): Option<seq<Chunk>>
    requires offset <= |body|
    decreases |body| - offset
  {
    if offset == |body| then Some([])
    else
      match ReadChunk(crc, body, offset)
      case Err(_) => None
      case Ok(c) =>
        match WalkFrom(crc, body, offset + CHUNK_OVERHEAD + |c.data|)
        case None => None
        case Some(rest) => Some([c] + rest)
  }

  function Walk(crc: Crc, body: seq<Byte>): Option<seq<Chunk>> {
    if HasSignature(body) then WalkFrom(crc, body, |SIGNATURE|) else None
  }

  lemma {:induction false} WalkTail(crc: Crc, cs: seq<Chunk>, k: nat)
    requires Bounded(cs) && k <= |cs| && |Datastream(crc, cs[..k])| <= |Datastream(crc, cs)|
    ensures WalkFrom(crc, Datastream(crc, cs), |Datastream(crc, cs[..k])|) == Some(cs[k..])
    decreases |cs| - k
  {
    hide Encode, ReadChunk, ReadU32;
    if k == |cs| {
      assert cs[..k] == cs;
    } else {
      ChunkAt(crc, cs, k);
      WalkTail(crc, cs, k + 1);
      assert cs[k..] == [cs[k]] + cs[k + 1..];
    }
  }

  /** Walking a datastream again gives exactly the chunks it was built from, every CRC matching. */
  lemma WalkDatastream(crc: Crc, cs: seq<Chunk>)
    requires Bounded(cs)
    ensures Walk(crc, Datastream(crc, cs)) == Some(cs)
  {
    assert cs[..0] == [] && cs[0..] == cs;
    WalkTail(crc, cs, 0);
  }
}
