/**
 `decode_apng_frames`: a second walk over a body the parser has accepted, with no checks of
 its own, that splits the image data by frame and rebuilds one PNG datastream for each.
 */
module ApngDecoder {
  import opened Bytes
  import opened PngChunks
  import opened Rgba
  import opened Wrappers
  import opened ApngParser
  import opened ApngStream
  import opened ApngClassifier

  datatype DecodeError = ParseFailed | FrameStream | PngDecode | Dimensions

  datatype DecodedFrame = DecodedFrame(control: FrameControl, rgba: seq<Byte>)

  datatype DecodedAnimation = DecodedAnimation(canvasWidth: Word, canvasHeight: Word, frames: seq<DecodedFrame>)

  /** What libpng answers to a datastream: its header, the buffer size it asks for, and what it writes there. */
  datatype PngImage = Unreadable | Image(width: Word, height: Word, bufferSize: nat, pixels: Option<nat -> Byte>)

  type PngReader = seq<Byte> -> PngImage

  function DecodePng(reader: PngReader, png: seq<Byte>, control: FrameControl): Result<seq<Byte>, DecodeError> {
    match reader(png)
    case Unreadable => Err(PngDecode)
    case Image(width, height, bufferSize, pixels) =>
      if width != control.width || height != control.height then Err(Dimensions)
      else if RgbaSize(control.width, control.height) != Some(bufferSize) then Err(Dimensions)
      else if pixels.None? then Err(PngDecode)
      else Ok(Fill(bufferSize, pixels.value))
  }

  function Fill(size: nat, pixels: nat -> Byte): (r: seq<Byte>)
    ensures |r| == size
  {
    seq(size, (i: nat) => pixels(i))
  }

  lemma DecodedSize(reader: PngReader, png: seq<Byte>, control: FrameControl)
    requires DecodePng(reader, png, control).Ok?
    ensures RgbaSize(control.width, control.height) == Some(|DecodePng(reader, png, control).value|)
  {
    hide RgbaSize;
  }

  /**
   A datastream is decoded exactly when libpng reads an image of the frame's size in a buffer of four bytes a pixel,
   and then every byte is the one libpng wrote. A size that is wrong is told from a datastream that cannot be read.
   */
  lemma DecodePngIsExact(reader: PngReader, png: seq<Byte>, control: FrameControl)
    ensures var r, image := DecodePng(reader, png, control), reader(png);
            var sized := image.Image? && image.width == control.width > 0 && image.height == control.height > 0
                         && image.bufferSize == control.width * control.height * 4 <= SIZE_MAX;
            && (r.Ok? <==> sized && image.pixels.Some?)
            && (r.Ok? ==> |r.value| == control.width * control.height * 4 && forall i: nat | i < |r.value| :: r.value[i] == image.pixels.value(i))
            && (r == Err(Dimensions) <==> image.Image? && !sized)
            && (r == Err(PngDecode) <==> image.Unreadable? || (sized && image.pixels.None?))
  {
    hide RgbaSize;
    RgbaSizeIsExact(control.width, control.height);
  }

  // ----- the frames of an animation, over its chunks

  /** A chunk every frame needs a copy of, as a palette is: it precedes the image data and is no animation chunk. */
  predicate IsShared(c: Chunk) {
    c.tag != IHDR && c.tag != FCTL && c.tag != IDAT && c.tag != FDAT && c.tag != ACTL
  }

  function SharedChunks(cs: seq<Chunk>): seq<Chunk> {
    if cs == [] then []
    else
      var front, c := cs[..|cs| - 1], cs[|cs| - 1];
      if IsShared(c) && Count(front, IDAT) == 0 then SharedChunks(front) + [c] else SharedChunks(front)
  }

  const NO_HEADER: seq<Byte> := [0, 0, 0, 0, 0, 0, 0, 0, 0, 0, 0, 0, 0]

  /** The data of the IHDR chunk. */
  function HeaderData(cs: seq<Chunk>): seq<Byte> {
    if cs == [] then NO_HEADER
    else if cs[|cs| - 1].tag == IHDR then cs[|cs| - 1].data
    else HeaderData(cs[..|cs| - 1])
  }

  /** The chunks of a frame's own PNG: the animation's header resized, the shared chunks, the frame's data. */
  function FrameChunks(cs: seq<Chunk>, control: FrameControl, frame: nat): seq<Chunk>
    requires |HeaderData(cs)| == 13
  {
    [Chunk(IHDR, U32Bytes(control.width) + U32Bytes(control.height) + HeaderData(cs)[8..])]
    + SharedChunks(cs)
    + [Chunk(IDAT, FramePayload(cs, frame)), Chunk(IEND, [])]
  }

  function DecodeFrame(crc: Crc, reader: PngReader, cs: seq<Chunk>, control: FrameControl, frame: nat): Result<DecodedFrame, DecodeError>
    requires |HeaderData(cs)| == 13
  {
    if FramePayload(cs, frame) == [] then Err(FrameStream)
    else
      match DecodePng(reader, Datastream(crc, FrameChunks(cs, control, frame)), control)
      case Err(e) => Err(e)
      case Ok(rgba) => Ok(DecodedFrame(control, rgba))
  }

  /** The first n frames, or the error of the first of them that has one. */
  function DecodeFrames(crc: Crc, reader: PngReader, cs: seq<Chunk>, controls: seq<FrameControl>, n: nat): Result<seq<DecodedFrame>, DecodeError>
    requires |HeaderData(cs)| == 13 && n <= |controls|
  {
    if n == 0 then Ok([])
    else
      match DecodeFrames(crc, reader, cs, controls, n - 1)
      case Err(e) => Err(e)
      case Ok(frames) =>
        match DecodeFrame(crc, reader, cs, controls[n - 1], n - 1)
        case Err(e) => Err(e)
        case Ok(f) => Ok(frames + [f])
  }

  lemma {:induction false} FirstErrorStays(crc: Crc, reader: PngReader, cs: seq<Chunk>, controls: seq<FrameControl>, k: nat, n: nat)
    requires |HeaderData(cs)| == 13 && k <= n <= |controls|
    requires DecodeFrames(crc, reader, cs, controls, k).Err?
    ensures DecodeFrames(crc, reader, cs, controls, n) == DecodeFrames(crc, reader, cs, controls, k)
  {
    hide DecodeFrame;
    if k < n {
      FirstErrorStays(crc, reader, cs, controls, k, n - 1);
    }
  }

  // ----- the decoder's walk, one chunk at a time

  lemma {:induction false} HeaderIsIhdr(cs: seq<Chunk>)
    requires forall c | c in cs && c.tag == IHDR :: |c.data| == 13
    ensures |HeaderData(cs)| == 13
    ensures HeaderData(cs) == NO_HEADER || Chunk(IHDR, HeaderData(cs)) in cs
    ensures Count(cs, IHDR) > 0 ==> Chunk(IHDR, HeaderData(cs)) in cs
  {
    if cs != [] {
      HeaderIsIhdr(cs[..|cs| - 1]);
      var c := cs[|cs| - 1];
      if c.tag == IHDR {
        assert c == Chunk(IHDR, HeaderData(cs));
      }
    }
  }

  /** What each recursive function of the chunk list adds for the next chunk. */
  lemma NextChunk(cs: seq<Chunk>, k: nat)
    requires k < |cs|
    ensures var pre, now, c := cs[..k], cs[..k + 1], cs[k];
            && (forall tag :: Count(now, tag) == Count(pre, tag) + if c.tag == tag then 1 else 0)
            && (forall f: nat :: FramePayload(now, f) == if Count(now, FCTL) == f + 1 then FramePayload(pre, f) + Payload(c) else FramePayload(pre, f))
            && SharedChunks(now) == (if IsShared(c) && Count(pre, IDAT) == 0 then SharedChunks(pre) + [c] else SharedChunks(pre))
            && HeaderData(now) == if c.tag == IHDR then c.data else HeaderData(pre)
  {
    assert cs[..k + 1][..k] == cs[..k];
  }

  method AppendU32(output: seq<Byte>, value: Word) returns (r: seq<Byte>)
    ensures r == output + U32Bytes(value)
  {
    r := output;
    r := r + [value / 0x100_0000 % 0x100];
    r := r + [value / 0x1_0000 % 0x100];
    r := r + [value / 0x100 % 0x100];
    r := r + [value % 0x100];
  }

  method AppendChunk(crc: Crc, output: seq<Byte>, tag: Word, data: seq<Byte>) returns (r: seq<Byte>)
    ensures r == output + Encode(crc, Chunk(tag, data))
  {
    r := AppendU32(output, |data| % 0x1_0000_0000);
    var crcBegin := |r|;
    r := AppendU32(r, tag);
    r := r + data;
    assert r[crcBegin..] == U32Bytes(tag) + data;
    r := AppendU32(r, crc(r[crcBegin..]));
  }

  /** What the walk has collected once it has passed the chunks `pre` of an animation described by d. */
  ghost predicate Collected(crc: Crc, pre: seq<Chunk>, d: Description, ihdr: seq<Byte>, shared: seq<Byte>, compressed: seq<seq<Byte>>,
                            beforeImageData: bool, sawFrameControl: bool, frameIndex: nat)
  {
    && ihdr == HeaderData(pre)
    && shared == EncodeAll(crc, SharedChunks(pre))
    && |compressed| == |d.frames|
    && (forall f | 0 <= f < |compressed| :: compressed[f] == FramePayload(pre, f))
    && beforeImageData == (Count(pre, IDAT) == 0)
    && sawFrameControl == (Count(pre, FCTL) > 0)
    && frameIndex == if Count(pre, FCTL) > 0 then Count(pre, FCTL) - 1 else 0
  }

  lemma OneHeader(crc: Crc, body: seq<Byte>)
    requires Parse(crc, body).Ok?
    ensures |HeaderData(ChunksOf(crc, body))| == 13
  {
    hide ReadU32, Encode, EncodeAll, Parse, Placed, Controls, InsideCanvas, Count, DataChunks, SequenceNumbers, HeaderData;
    HeaderIsIhdr(ChunksOf(crc, body));
  }

  /** The decoder's answer, over the chunks of the accepted body. */
  ghost function DecodedOf(crc: Crc, reader: PngReader, body: seq<Byte>): Result<DecodedAnimation, DecodeError> {
    match Parse(crc, body)
    case Err(_) => Err(ParseFailed)
    case Ok(d) =>
      OneHeader(crc, body);
      match DecodeFrames(crc, reader, ChunksOf(crc, body), d.frames, |d.frames|)
      case Err(e) => Err(e)
      case Ok(frames) => Ok(DecodedAnimation(d.canvasWidth, d.canvasHeight, frames))
  }

  /** Every chunk the walk meets keeps it inside the body and inside the frame list. */
  lemma WalkStep(cs: seq<Chunk>, d: Description, k: nat)
    requires WellFormed(cs, d) && k < |cs|
    ensures cs[k].tag == IHDR ==> |cs[k].data| == 13
    ensures Count(cs[..k], FCTL) <= |d.frames|
    ensures cs[k].tag == FCTL ==> Count(cs[..k], FCTL) < |d.frames|
    ensures cs[k].tag == IDAT ==> Count(cs[..k], FCTL) == if d.defaultImageIsFrame then 1 else 0
    ensures cs[k].tag == FDAT ==> Count(cs[..k], FCTL) > 0 && |cs[k].data| >= 4
  {
    hide ReadU32, ReadU16, InsideCanvas, Controls, SequenceNumbers, DataChunks;
    CountPrefix(cs, k, FCTL);
    CountsEach(cs, k, FCTL);
    assert Placed(cs, k, d.defaultImageIsFrame);
  }

  /**
   The walk itself. It reads lengths and types where it finds them; that these stay inside the body, that the
   frame index stays inside the list and that both guards are dead follows from what the parser accepted.
   */
  method CollectFrameData(crc: Crc, body: seq<Byte>, description: Description, ghost cs: seq<Chunk>)
    returns (ihdr: seq<Byte>, sharedChunks: seq<Byte>, compressed: seq<seq<Byte>>, frameIndex: nat)
    requires Bounded(cs) && body == Datastream(crc, cs) && WellFormed(cs, description)
    ensures ihdr == HeaderData(cs) && sharedChunks == EncodeAll(crc, SharedChunks(cs))
    ensures |compressed| == |description.frames|
    ensures forall f | 0 <= f < |compressed| :: compressed[f] == FramePayload(cs, f)
    ensures frameIndex == |description.frames| - 1
  {
    hide ReadU32, ReadChunk, Encode, EncodeAll, Datastream, HasSignature, WellFormed, Count, FramePayload, SharedChunks, HeaderData, Bounded;
    sharedChunks := [];
    compressed := seq(|description.frames|, _ => []);
    ihdr := NO_HEADER;
    var beforeDefaultImageData, sawFrameControl := true, false;
    frameIndex := 0;
    var offset := |SIGNATURE|;
    ghost var k := 0;
    StartCollected(crc, cs, description);
    MoreToWalk(crc, cs, 0);
    while offset < |body|
      invariant k <= |cs| && offset == |Datastream(crc, cs[..k])| <= |body|
      invariant offset < |body| <==> k < |cs|
      invariant Collected(crc, cs[..k], description, ihdr, sharedChunks, compressed, beforeDefaultImageData, sawFrameControl, frameIndex)
    {
      ChunkAt(crc, cs, k);
      WalkStep(cs, description, k);
      NextChunk(cs, k);
      var length := ReadU32(body, offset);
      var typeOffset, dataOffset := offset + 4, offset + 8;
      var chunkEnd := dataOffset + length + 4;
      var data := body[dataOffset..dataOffset + length];

      if TagAt(body, typeOffset, IHDR) {
        ihdr := data;
      } else if TagAt(body, typeOffset, FCTL) {
        if sawFrameControl {
          frameIndex := frameIndex + 1;
        }
        sawFrameControl := true;
      } else if TagAt(body, typeOffset, IDAT) {
        beforeDefaultImageData := false;
        if description.defaultImageIsFrame && frameIndex >= |compressed| {
          assert false;
        }
        if description.defaultImageIsFrame {
          compressed := compressed[frameIndex := compressed[frameIndex] + data];
        }
      } else if TagAt(body, typeOffset, FDAT) {
        if frameIndex >= |compressed| || |data| < 4 {
          assert false;
        }
        var payload := data[4..];
        compressed := compressed[frameIndex := compressed[frameIndex] + payload];
      } else if beforeDefaultImageData && !TagAt(body, typeOffset, ACTL) {
        // Every frame gets a copy of what precedes the image data, on whichever side of the fcTL it stands.
        SharedGrows(crc, cs[..k], cs[k]);
        sharedChunks := sharedChunks + body[offset..chunkEnd];
      }
      offset, k := chunkEnd, k + 1;
      MoreToWalk(crc, cs, k);
    }
    assert cs[..k] == cs;
    AllWalked(cs, description);
  }

  lemma StartCollected(crc: Crc, cs: seq<Chunk>, d: Description)
    ensures cs[..0] == [] && Datastream(crc, []) == SIGNATURE
    ensures Collected(crc, [], d, NO_HEADER, [], seq(|d.frames|, _ => []), true, false, 0)
  {
  }

  lemma SharedGrows(crc: Crc, pre: seq<Chunk>, c: Chunk)
    ensures EncodeAll(crc, SharedChunks(pre) + [c]) == EncodeAll(crc, SharedChunks(pre)) + Encode(crc, c)
  {
    var s := SharedChunks(pre) + [c];
    assert s[..|s| - 1] == SharedChunks(pre);
  }

  /** The walk has reached the end of the body exactly when it has passed every chunk. */
  lemma MoreToWalk(crc: Crc, cs: seq<Chunk>, k: nat)
    requires k <= |cs|
    ensures |Datastream(crc, cs[..k])| < |Datastream(crc, cs)| <==> k < |cs|
    ensures |Datastream(crc, cs[..k])| <= |Datastream(crc, cs)|
  {
    hide Encode;
    assert cs == cs[..k] + cs[k..];
    EncodeAllConcat(crc, cs[..k], cs[k..]);
  }

  lemma AllWalked(cs: seq<Chunk>, d: Description)
    requires WellFormed(cs, d)
    ensures Count(cs, FCTL) == |d.frames| > 0
  {
  }

  /** The bytes of a rebuilt frame are the datastream of its chunks. */
  lemma FrameEncoding(crc: Crc, cs: seq<Chunk>, control: FrameControl, frame: nat)
    requires |HeaderData(cs)| == 13
    ensures Datastream(crc, FrameChunks(cs, control, frame))
         == SIGNATURE
            + Encode(crc, Chunk(IHDR, U32Bytes(control.width) + U32Bytes(control.height) + HeaderData(cs)[8..]))
            + EncodeAll(crc, SharedChunks(cs))
            + Encode(crc, Chunk(IDAT, FramePayload(cs, frame)))
            + Encode(crc, Chunk(IEND, []))
  {
    hide Encode, SharedChunks, HeaderData, FramePayload;
    var header := Chunk(IHDR, U32Bytes(control.width) + U32Bytes(control.height) + HeaderData(cs)[8..]);
    var data, end := Chunk(IDAT, FramePayload(cs, frame)), Chunk(IEND, []);
    EncodeAllConcat(crc, [header] + SharedChunks(cs), [data, end]);
    EncodeAllConcat(crc, [header], SharedChunks(cs));
    EncodeAllConcat(crc, [data], [end]);
    assert [data] + [end] == [data, end];
    EncodeOne(crc, header);
    EncodeOne(crc, data);
    EncodeOne(crc, end);
  }

  method RebuildPng(crc: Crc, ihdr: seq<Byte>, sharedChunks: seq<Byte>, compressed: seq<Byte>, control: FrameControl) returns (png: seq<Byte>)
    requires |ihdr| == 13
    ensures png == SIGNATURE
                   + Encode(crc, Chunk(IHDR, U32Bytes(control.width) + U32Bytes(control.height) + ihdr[8..]))
                   + sharedChunks
                   + Encode(crc, Chunk(IDAT, compressed))
                   + Encode(crc, Chunk(IEND, []))
  {
    hide Encode, U32Bytes, Power256;
    var frameIhdr := ihdr;
    for byte := 0 to 4
      invariant |frameIhdr| == 13
      invariant forall j | 0 <= j < byte :: frameIhdr[j] == U32Bytes(control.width)[j] && frameIhdr[j + 4] == U32Bytes(control.height)[j]
      invariant forall j | 8 <= j < 13 :: frameIhdr[j] == ihdr[j]
    {
      ShiftedByte(control.width, byte);
      ShiftedByte(control.height, byte);
      frameIhdr := frameIhdr[byte := control.width / Power256(3 - byte) % 0x100];
      frameIhdr := frameIhdr[byte + 4 := control.height / Power256(3 - byte) % 0x100];
    }
    assert frameIhdr == U32Bytes(control.width) + U32Bytes(control.height) + ihdr[8..];
    png := SIGNATURE;
    png := AppendChunk(crc, png, IHDR, frameIhdr);
    png := png + sharedChunks;
    png := AppendChunk(crc, png, IDAT, compressed);
    png := AppendChunk(crc, png, IEND, []);
  }

  lemma ShiftedByte(w: Word, k: nat)
    requires k < 4
    ensures w / Power256(3 - k) % 0x100 == U32Bytes(w)[k]
  {
  }

  /** A shift by 8 * n bits, as a divisor. */
  function Power256(n: nat): (r: nat)
    requires n <= 3
    ensures r > 0
  {
    match n
    case 0 => 1
    case 1 => 0x100
    case 2 => 0x1_0000
    case _ => 0x100_0000
  }

  method DecodeApngFrames(crc: Crc, reader: PngReader, body: seq<Byte>) returns (r: Result<DecodedAnimation, DecodeError>)
    ensures r == DecodedOf(crc, reader, body)
  {
    hide ReadU32, ReadChunk, Encode, EncodeAll, Parse, WellFormed, FrameChunks, Datastream, DecodePng, RgbaSize, FramePayload, SharedChunks, HeaderData;
    var parsed := ParseApng(crc, body);
    if parsed.Err? {
      return Err(ParseFailed);
    }
    var description := parsed.value;
    ghost var cs := ChunksOf(crc, body);
    OneHeader(crc, body);
    var ihdr, shared, compressed, lastFrame := CollectFrameData(crc, body, description, cs);

    var frames: seq<DecodedFrame> := [];
    for index := 0 to |description.frames|
      invariant DecodeFrames(crc, reader, cs, description.frames, index) == Ok(frames)
    {
      var control := description.frames[index];
      if compressed[index] == [] {
        FirstErrorStays(crc, reader, cs, description.frames, index + 1, |description.frames|);
        return Err(FrameStream);
      }
      var png := RebuildPng(crc, ihdr, shared, compressed[index], control);
      FrameEncoding(crc, cs, control, index);
      var decoded := DecodePng(reader, png, control);
      if decoded.Err? {
        FirstErrorStays(crc, reader, cs, description.frames, index + 1, |description.frames|);
        return Err(decoded.error);
      }
      frames := frames + [DecodedFrame(control, decoded.value)];
    }
    return Ok(DecodedAnimation(description.canvasWidth, description.canvasHeight, frames));
  }

  // ----- what the rebuilt frames are

  lemma {:induction false} SharedOnly(cs: seq<Chunk>)
    ensures forall c | c in SharedChunks(cs) :: IsShared(c) && c in cs
    ensures forall tag | tag in {IHDR, FCTL, IDAT, FDAT, ACTL} :: Count(SharedChunks(cs), tag) == 0
  {
    if cs != [] {
      var front, c, shared := cs[..|cs| - 1], cs[|cs| - 1], SharedChunks(cs);
      SharedOnly(front);
      if IsShared(c) && Count(front, IDAT) == 0 {
        Extend(SharedChunks(front), c);
        assert shared == SharedChunks(front) + [c];
        assert forall tag | tag in {IHDR, FCTL, IDAT, FDAT, ACTL} :: Count(shared, tag) == Count(SharedChunks(front), tag);
      }
    }
  }

  lemma {:induction false} CountConcat(a: seq<Chunk>, b: seq<Chunk>, tag: Word)
    ensures Count(a + b, tag) == Count(a, tag) + Count(b, tag)
  {
    if b == [] {
      assert a + b == a;
    } else {
      var front := b[..|b| - 1];
      CountConcat(a, front, tag);
      assert (a + b)[..|a + b| - 1] == a + front;
    }
  }

  lemma {:induction false} PayloadIsShort(crc: Crc, cs: seq<Chunk>, frame: nat)
    ensures |FramePayload(cs, frame)| <= |EncodeAll(crc, cs)|
  {
    hide Encode;
    if cs != [] {
      PayloadIsShort(crc, cs[..|cs| - 1], frame);
    }
  }

  /**
   What a rebuilt frame of a body small enough to be downloaded is: walking it again finds the frame's own header, the
   shared chunks in their order, the frame's data and the end, with every CRC matching.
   */
  lemma RebuiltFrameReadsBack(crc: Crc, body: seq<Byte>, frame: nat)
    requires Parse(crc, body).Ok? && |body| <= MAXIMUM_CHUNK_LENGTH
    requires frame < |Parse(crc, body).value.frames|
    ensures var cs, control := ChunksOf(crc, body), Parse(crc, body).value.frames[frame];
            |HeaderData(cs)| == 13 &&
            var fs := FrameChunks(cs, control, frame);
            && Walk(crc, Datastream(crc, fs)) == Some(fs)
            && fs[0].tag == IHDR && ReadU32(fs[0].data, 0) == control.width && ReadU32(fs[0].data, 4) == control.height
            && fs[0].data[8..] == HeaderData(cs)[8..] && Chunk(IHDR, HeaderData(cs)) in cs
            && fs[1..|fs| - 2] == SharedChunks(cs)
            && fs[|fs| - 2] == Chunk(IDAT, FramePayload(cs, frame)) && fs[|fs| - 1] == Chunk(IEND, [])
            && Count(fs, IHDR) == 1 && Count(fs, IDAT) == 1
            && Count(fs, ACTL) == Count(fs, FCTL) == Count(fs, FDAT) == 0
            && Classify(Datastream(crc, fs)) == NotApng
  {
    hide ReadU32, Encode, EncodeAll, Parse, Walk, Datastream, HeaderData, SharedChunks, FramePayload, Classify, WellFormed, BeforeEnd;
    OneHeader(crc, body);
    var cs, control := ChunksOf(crc, body), Parse(crc, body).value.frames[frame];
    var fs := FrameChunks(cs, control, frame);
    FrameIsBounded(crc, cs, control, frame);
    WalkDatastream(crc, fs);
    FrameCounts(cs, control, frame);
    HeaderReads(cs, control, frame);
    AcceptedHasHeader(crc, body);
    NoControlNoAnimation(crc, fs);
  }

  /** A PNG that is no animation (section 5.6 of the PNG Specification): a header first, image data, one end and that last. */
  predicate IsStillPng(fs: seq<Chunk>) {
    && fs != [] && fs[0].tag == IHDR && Count(fs, IHDR) == 1
    && Count(fs, IDAT) == 1
    && fs[|fs| - 1].tag == IEND && Count(fs, IEND) == 1
    && Count(fs, ACTL) == Count(fs, FCTL) == Count(fs, FDAT) == 0
  }

  /** An IEND stands before the first IDAT. */
  predicate EndsBeforeData(cs: seq<Chunk>) {
    exists j | 0 <= j < |cs| :: cs[j].tag == IEND && Count(cs[..j], IDAT) == 0
  }

  /** The decoder takes an IEND before the image data for a shared chunk; without one every rebuilt frame is a still PNG, with one none is. */
  lemma RebuiltFrameIsStillPng(crc: Crc, body: seq<Byte>, frame: nat)
    requires Parse(crc, body).Ok? && frame < |Parse(crc, body).value.frames|
    ensures var cs, control := ChunksOf(crc, body), Parse(crc, body).value.frames[frame];
            |HeaderData(cs)| == 13 &&
            (IsStillPng(FrameChunks(cs, control, frame)) <==> !EndsBeforeData(cs))
  {
    hide Parse, HeaderData, SharedChunks, FramePayload, WellFormed, EndsBeforeData;
    OneHeader(crc, body);
    var cs := ChunksOf(crc, body);
    FrameCounts(cs, Parse(crc, body).value.frames[frame], frame);
    SharedEnds(cs);
  }

  lemma {:induction false} SharedEnds(cs: seq<Chunk>)
    ensures Count(SharedChunks(cs), IEND) > 0 <==> EndsBeforeData(cs)
  {
    if cs != [] {
      var front, last := cs[..|cs| - 1], |cs| - 1;
      SharedEnds(front);
      NextChunk(cs, last);
      assert cs[..last + 1] == cs && cs[..last] == front;
      if IsShared(cs[last]) && Count(front, IDAT) == 0 {
        Extend(SharedChunks(front), cs[last]);
      }
      EndsBeforeDataNext(cs);
    }
  }

  lemma EndsBeforeDataNext(cs: seq<Chunk>)
    requires cs != []
    ensures var front, c := cs[..|cs| - 1], cs[|cs| - 1];
            EndsBeforeData(cs) <==> EndsBeforeData(front) || (c.tag == IEND && Count(front, IDAT) == 0)
  {
    var front := cs[..|cs| - 1];
    assert forall j | 0 <= j < |front| :: front[j] == cs[j] && front[..j] == cs[..j];
    if EndsBeforeData(front) {
      var j :| 0 <= j < |front| && front[j].tag == IEND && Count(front[..j], IDAT) == 0;
      assert cs[j].tag == IEND && Count(cs[..j], IDAT) == 0;
    }
    if EndsBeforeData(cs) {
      var j :| 0 <= j < |cs| && cs[j].tag == IEND && Count(cs[..j], IDAT) == 0;
      if j < |front| {
        assert front[j].tag == IEND && Count(front[..j], IDAT) == 0;
      }
    }
  }

  /** In the usual case, with the one IEND last, every rebuilt frame is a still PNG. */
  lemma LastEndGivesStillPngs(crc: Crc, body: seq<Byte>, frame: nat)
    requires Parse(crc, body).Ok? && frame < |Parse(crc, body).value.frames|
    requires var cs := ChunksOf(crc, body); cs != [] && cs[|cs| - 1].tag == IEND && Count(cs, IEND) == 1
    ensures var cs, control := ChunksOf(crc, body), Parse(crc, body).value.frames[frame];
            |HeaderData(cs)| == 13 && IsStillPng(FrameChunks(cs, control, frame))
  {
    hide Parse, HeaderData, SharedChunks, FramePayload, FrameChunks, IsStillPng, WellFormed, Count;
    var cs := ChunksOf(crc, body);
    RebuiltFrameIsStillPng(crc, body, frame);
    AcceptedHasData(cs, Parse(crc, body).value);
    if EndsBeforeData(cs) {
      var j :| 0 <= j < |cs| && cs[j].tag == IEND && Count(cs[..j], IDAT) == 0;
      OnlyEnd(cs, j);
      assert false;
    }
  }

  lemma OnlyEnd(cs: seq<Chunk>, j: nat)
    requires j < |cs| && cs[j].tag == IEND == cs[|cs| - 1].tag && Count(cs, IEND) == 1
    ensures j == |cs| - 1 && Count(cs[..j], IDAT) == Count(cs, IDAT)
  {
    if j < |cs| - 1 {
      CountsEach(cs[..|cs| - 1], j, IEND);
    }
  }

  lemma AcceptedHasData(cs: seq<Chunk>, d: Description)
    requires WellFormed(cs, d)
    ensures Count(cs, IDAT) > 0
  {
    hide ReadU32, InsideCanvas, Headed, Operable, Controls, SequenceNumbers, Count, DataChunks;
    var k := DataChunkOf(cs, 0);
    assert Placed(cs, k, d.defaultImageIsFrame);
    CountPrefix(cs, k, IDAT);
    CountsEach(cs, k, IDAT);
  }

  lemma {:induction false} DataChunkOf(cs: seq<Chunk>, frame: nat) returns (k: nat)
    requires DataChunks(cs, frame) > 0
    ensures k < |cs| && IsData(cs[k])
  {
    k := |cs| - 1;
    if !IsData(cs[k]) {
      k := DataChunkOf(cs[..k], frame);
    }
  }

  lemma AcceptedHasHeader(crc: Crc, body: seq<Byte>)
    requires Parse(crc, body).Ok?
    ensures var cs := ChunksOf(crc, body); |HeaderData(cs)| == 13 && Chunk(IHDR, HeaderData(cs)) in cs
  {
    hide ReadU32, Encode, EncodeAll, Parse, Placed, Controls, InsideCanvas, Count, DataChunks, SequenceNumbers, HeaderData;
    HeaderIsIhdr(ChunksOf(crc, body));
  }

  lemma FrameIsBounded(crc: Crc, cs: seq<Chunk>, control: FrameControl, frame: nat)
    requires Bounded(cs) && |HeaderData(cs)| == 13 && |Datastream(crc, cs)| <= MAXIMUM_CHUNK_LENGTH
    ensures Bounded(FrameChunks(cs, control, frame))
  {
    hide Encode, EncodeAll, SharedChunks, FramePayload, HeaderData;
    SharedOnly(cs);
    PayloadIsShort(crc, cs, frame);
  }

  lemma FrameCounts(cs: seq<Chunk>, control: FrameControl, frame: nat)
    requires |HeaderData(cs)| == 13
    ensures var fs := FrameChunks(cs, control, frame);
            && Count(fs, IHDR) == 1 && Count(fs, IDAT) == 1
            && Count(fs, ACTL) == Count(fs, FCTL) == Count(fs, FDAT) == 0
            && Count(fs, IEND) == Count(SharedChunks(cs), IEND) + 1
  {
    hide SharedChunks, FramePayload, HeaderData;
    SharedOnly(cs);
    var header := [Chunk(IHDR, U32Bytes(control.width) + U32Bytes(control.height) + HeaderData(cs)[8..])];
    var tail := [Chunk(IDAT, FramePayload(cs, frame)), Chunk(IEND, [])];
    forall tag | tag in {IHDR, FCTL, IDAT, FDAT, ACTL, IEND}
      ensures Count(FrameChunks(cs, control, frame), tag)
           == Count(SharedChunks(cs), tag) + if tag == IHDR || tag == IDAT || tag == IEND then 1 else 0
    {
      CountConcat(header + SharedChunks(cs), tail, tag);
      CountConcat(header, SharedChunks(cs), tag);
      assert header[..0] == [] && tail[..1][..0] == [];
    }
  }

  lemma HeaderReads(cs: seq<Chunk>, control: FrameControl, frame: nat)
    requires |HeaderData(cs)| == 13
    ensures var data := FrameChunks(cs, control, frame)[0].data;
            |data| == 13 && ReadU32(data, 0) == control.width && ReadU32(data, 4) == control.height && data[8..] == HeaderData(cs)[8..]
  {
    hide U32Bytes, ReadU32;
    var data := FrameChunks(cs, control, frame)[0].data;
    assert data[0..4] == U32Bytes(control.width) && data[4..8] == U32Bytes(control.height);
    ReadWritten(control.width, data, 0);
    ReadWritten(control.height, data, 4);
  }

  lemma NoControlNoAnimation(crc: Crc, fs: seq<Chunk>)
    requires Bounded(fs) && Count(fs, ACTL) == 0
    ensures Classify(Datastream(crc, fs)) == NotApng
  {
    hide Encode, EncodeAll, ScanFrom;
    if |Datastream(crc, fs)| > 41 {
      ClassifyByChunks(crc, fs);
      CountPrefix(fs, |BeforeEnd(fs)|, ACTL);
      assert BeforeEnd(fs) == fs[..|BeforeEnd(fs)|];
    }
  }

  // ----- what a decoded animation is

  lemma {:induction false} DecodedFrames(crc: Crc, reader: PngReader, cs: seq<Chunk>, controls: seq<FrameControl>, n: nat)
    requires |HeaderData(cs)| == 13 && n <= |controls|
    ensures var r := DecodeFrames(crc, reader, cs, controls, n);
            r.Ok? ==>
              && |r.value| == n
              && forall i | 0 <= i < n ::
                   && r.value[i].control == controls[i]
                   && RgbaSize(controls[i].width, controls[i].height) == Some(|r.value[i].rgba|)
  {
    hide RgbaSize, DecodePng, Datastream, FrameChunks, FramePayload, HeaderData;
    if n > 0 {
      DecodedFrames(crc, reader, cs, controls, n - 1);
      if DecodeFrames(crc, reader, cs, controls, n).Ok? {
        DecodedSize(reader, Datastream(crc, FrameChunks(cs, controls[n - 1], n - 1)), controls[n - 1]);
      }
    }
  }

  /** A frame the compositor can take on a canvas of this size. */
  predicate Composable(f: DecodedFrame, width: Word, height: Word) {
    && InsideCanvas(f.control, width, height) && Operable(f.control)
    && RgbaSize(f.control.width, f.control.height) == Some(|f.rgba|)
  }

  /** Every frame of a decoded animation fits the canvas it comes with. */
  lemma DecodedIsComposable(crc: Crc, reader: PngReader, body: seq<Byte>)
    requires DecodedOf(crc, reader, body).Ok?
    ensures var a := DecodedOf(crc, reader, body).value;
            && a.canvasWidth != 0 && a.canvasHeight != 0 && |a.frames| >= 1
            && forall f | f in a.frames :: Composable(f, a.canvasWidth, a.canvasHeight)
  {
    hide RgbaSize, DecodeFrame, HeaderData, Count, Controls, SequenceNumbers, DataChunks, Placed, InsideCanvas, Datastream, Parse, ReadU32;
    var d, cs := Parse(crc, body).value, ChunksOf(crc, body);
    OneHeader(crc, body);
    DecodedFrames(crc, reader, cs, d.frames, |d.frames|);
    assert WellFormed(cs, d);
    assert forall i | 0 <= i < |d.frames| :: d.frames[i] in d.frames;
  }

  /** A frame with data, whose rebuilt PNG libpng takes and finds to be of the frame's size. */
  predicate Readable(crc: Crc, reader: PngReader, cs: seq<Chunk>, control: FrameControl, frame: nat)
    requires |HeaderData(cs)| == 13
  {
    FramePayload(cs, frame) != [] && DecodePng(reader, Datastream(crc, FrameChunks(cs, control, frame)), control).Ok?
  }

  /** An accepted body is decoded exactly when all its frames are readable, and each frame is what libpng reads from its own PNG. */
  lemma DecodesReadableFrames(crc: Crc, reader: PngReader, body: seq<Byte>)
    requires Parse(crc, body).Ok?
    ensures var d, cs, r := Parse(crc, body).value, ChunksOf(crc, body), DecodedOf(crc, reader, body);
            && |HeaderData(cs)| == 13
            && (r.Ok? <==> forall f: nat | f < |d.frames| :: Readable(crc, reader, cs, d.frames[f], f))
            && (r.Ok? ==>
                  && |r.value.frames| == |d.frames|
                  && forall f: nat | f < |d.frames| ::
                       && Readable(crc, reader, cs, d.frames[f], f)
                       && r.value.frames[f]
                          == DecodedFrame(d.frames[f], DecodePng(reader, Datastream(crc, FrameChunks(cs, d.frames[f], f)), d.frames[f]).value))
  {
    hide Parse, HeaderData, WellFormed, FramePayload, DecodePng, Datastream;
    OneHeader(crc, body);
    var controls := Parse(crc, body).value.frames;
    DecodedWhenReadable(crc, reader, ChunksOf(crc, body), controls, |controls|);
  }

  /** A frame that is not readable makes decoding fail with e: it has no data, or libpng's answer to its PNG is e. */
  predicate IsUnreadable(crc: Crc, reader: PngReader, cs: seq<Chunk>, control: FrameControl, frame: nat, e: DecodeError)
    requires |HeaderData(cs)| == 13
  {
    if FramePayload(cs, frame) == [] then e == FrameStream
    else DecodePng(reader, Datastream(crc, FrameChunks(cs, control, frame)), control) == Err(e)
  }

  /** A body that is refused is not decoded, and an accepted one fails as its first unreadable frame does. */
  lemma FirstUnreadableDecides(crc: Crc, reader: PngReader, body: seq<Byte>, e: DecodeError)
    ensures Parse(crc, body).Err? ==> DecodedOf(crc, reader, body) == Err(ParseFailed)
    ensures Parse(crc, body).Ok? ==>
              var d, cs := Parse(crc, body).value, ChunksOf(crc, body);
              && |HeaderData(cs)| == 13
              && (DecodedOf(crc, reader, body) == Err(e) <==>
                  exists f: nat | f < |d.frames| ::
                    && IsUnreadable(crc, reader, cs, d.frames[f], f, e)
                    && forall g: nat | g < f :: Readable(crc, reader, cs, d.frames[g], g))
  {
    hide Parse, HeaderData, WellFormed, FramePayload, DecodePng, Datastream;
    if Parse(crc, body).Ok? {
      OneHeader(crc, body);
      var cs, controls := ChunksOf(crc, body), Parse(crc, body).value.frames;
      FailedWhenUnreadable(crc, reader, cs, controls, |controls|, e);
    }
  }

  lemma {:induction false} FailedWhenUnreadable(crc: Crc, reader: PngReader, cs: seq<Chunk>, controls: seq<FrameControl>, n: nat, e: DecodeError)
    requires |HeaderData(cs)| == 13 && n <= |controls|
    ensures DecodeFrames(crc, reader, cs, controls, n) == Err(e) <==>
            exists f: nat | f < n ::
              && IsUnreadable(crc, reader, cs, controls[f], f, e)
              && forall g: nat | g < f :: Readable(crc, reader, cs, controls[g], g)
  {
    hide HeaderData, DecodeFrame, Readable, IsUnreadable;
    if n > 0 {
      FailedWhenUnreadable(crc, reader, cs, controls, n - 1, e);
      AllReadable(crc, reader, cs, controls, n - 1);
      OneFrame(crc, reader, cs, controls[n - 1], n - 1, e);
    }
  }

  lemma AllReadable(crc: Crc, reader: PngReader, cs: seq<Chunk>, controls: seq<FrameControl>, n: nat)
    requires |HeaderData(cs)| == 13 && n <= |controls|
    ensures DecodeFrames(crc, reader, cs, controls, n).Ok? <==> forall f: nat | f < n :: Readable(crc, reader, cs, controls[f], f)
  {
    hide HeaderData, Readable, DecodeFrames;
    DecodedWhenReadable(crc, reader, cs, controls, n);
  }

  lemma OneFrame(crc: Crc, reader: PngReader, cs: seq<Chunk>, control: FrameControl, frame: nat, e: DecodeError)
    requires |HeaderData(cs)| == 13
    ensures DecodeFrame(crc, reader, cs, control, frame) == Err(e) <==> IsUnreadable(crc, reader, cs, control, frame, e)
    ensures DecodeFrame(crc, reader, cs, control, frame).Ok? <==> Readable(crc, reader, cs, control, frame)
  {
    hide HeaderData, FramePayload, FrameChunks, Datastream, DecodePng;
  }

  lemma {:induction false} DecodedWhenReadable(crc: Crc, reader: PngReader, cs: seq<Chunk>, controls: seq<FrameControl>, n: nat)
    requires |HeaderData(cs)| == 13 && n <= |controls|
    ensures var r := DecodeFrames(crc, reader, cs, controls, n);
            && (r.Ok? <==> forall f: nat | f < n :: Readable(crc, reader, cs, controls[f], f))
            && (r.Ok? ==>
                  && |r.value| == n
                  && forall f: nat | f < n ::
                       r.value[f] == DecodedFrame(controls[f], DecodePng(reader, Datastream(crc, FrameChunks(cs, controls[f], f)), controls[f]).value))
  {
    hide HeaderData, FramePayload, FrameChunks, Datastream, DecodePng;
    if n > 0 {
      DecodedWhenReadable(crc, reader, cs, controls, n - 1);
    }
  }

  /**
   The only way decoding fails without libpng refusing a rebuilt frame is a frame whose data chunks are all empty:
   the walk's own guards never fire. Such a frame always makes it fail.
   */
  lemma EmptyFrameIsTheOnlyStreamError(crc: Crc, reader: PngReader, body: seq<Byte>)
    requires Parse(crc, body).Ok?
    ensures var d, cs := Parse(crc, body).value, ChunksOf(crc, body);
            |HeaderData(cs)| == 13 &&
            (DecodedOf(crc, reader, body) == Err(FrameStream) <==>
             exists f: nat | f < |d.frames| :: FramePayload(cs, f) == [] && forall g: nat | g < f :: Readable(crc, reader, cs, d.frames[g], g))
            && ((exists f: nat | f < |d.frames| :: FramePayload(cs, f) == []) ==> DecodedOf(crc, reader, body).Err?)
  {
    hide Parse, HeaderData, WellFormed, FramePayload, DecodePng, Datastream;
    OneHeader(crc, body);
    var cs, controls := ChunksOf(crc, body), Parse(crc, body).value.frames;
    StreamErrorIsEmpty(crc, reader, cs, controls, |controls|);
    forall f: nat | f <= |controls|
      ensures DecodeFrames(crc, reader, cs, controls, f).Ok? <==> forall g: nat | g < f :: Readable(crc, reader, cs, controls[g], g)
    {
      DecodedWhenReadable(crc, reader, cs, controls, f);
    }
    if f: nat :| f < |controls| && FramePayload(cs, f) == [] {
      assert !Readable(crc, reader, cs, controls[f], f);
    }
  }

  lemma NotStreamError(crc: Crc, reader: PngReader, cs: seq<Chunk>, control: FrameControl, frame: nat)
    requires |HeaderData(cs)| == 13
    ensures DecodeFrame(crc, reader, cs, control, frame) == Err(FrameStream) <==> FramePayload(cs, frame) == []
  {
    hide RgbaSize, HeaderData, FramePayload, FrameChunks, Datastream;
  }

  lemma {:induction false} StreamErrorIsEmpty(crc: Crc, reader: PngReader, cs: seq<Chunk>, controls: seq<FrameControl>, n: nat)
    requires |HeaderData(cs)| == 13 && n <= |controls|
    ensures DecodeFrames(crc, reader, cs, controls, n) == Err(FrameStream) <==>
            exists f: nat | f < n :: FramePayload(cs, f) == [] && DecodeFrames(crc, reader, cs, controls, f).Ok?
  {
    hide RgbaSize, HeaderData, FramePayload, FrameChunks, Datastream, DecodePng, DecodeFrame;
    if n > 0 {
      NotStreamError(crc, reader, cs, controls[n - 1], n - 1);
      StreamErrorIsEmpty(crc, reader, cs, controls, n - 1);
      forall f: nat | f < n && DecodeFrames(crc, reader, cs, controls, f).Err?
        ensures DecodeFrames(crc, reader, cs, controls, n).Err?
      {
        FirstErrorStays(crc, reader, cs, controls, f, n);
      }
    }
  }
}
