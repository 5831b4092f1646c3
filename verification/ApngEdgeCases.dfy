/**
 Animations of one frame of one pixel that differ in what follows the frame control: the inputs
 on which the parser, the classifier and the decoder do not agree.
 */
module ApngEdgeCases {
  import opened Bytes
  import opened PngChunks
  import opened Wrappers
  import opened ApngParser
  import opened ApngStream
  import opened ApngClassifier
  import opened ApngDecoder

  const HEADER := Chunk(IHDR, [0, 0, 0, 1, 0, 0, 0, 1, 8, 6, 0, 0, 0])
  const ONE_FRAME := Chunk(ACTL, [0, 0, 0, 1, 0, 0, 0, 0])
  const FRAME := Chunk(FCTL, [0, 0, 0, 0, 0, 0, 0, 1, 0, 0, 0, 1, 0, 0, 0, 0, 0, 0, 0, 0, 0, 1, 0, 1, 0, 0])
  const DATA := Chunk(IDAT, [0])
  const NO_DATA := Chunk(IDAT, [])
  const END := Chunk(IEND, [])

  const CONTROL := FrameControl(0, 1, 1, 0, 0, 1, 1, 0, 0)
  const ONE_PIXEL := Description(1, 1, 1, 0, true, [CONTROL])

  const WITHOUT_END := [HEADER, ONE_FRAME, FRAME, DATA]
  const WITHOUT_DATA := [HEADER, ONE_FRAME, FRAME, NO_DATA, END]
  const END_BEFORE_DATA := [HEADER, ONE_FRAME, FRAME, END, DATA, END]

  // ----- the parser on such an animation

  const STATE_1 := ParseState(Description(1, 1, 0, 0, false, []), true, false, false, false, 0)
  const STATE_2 := ParseState(Description(1, 1, 1, 0, false, []), true, true, false, false, 0)
  const STATE_3 := ParseState(ONE_PIXEL, true, true, false, false, 1)
  const STATE_4 := ParseState(ONE_PIXEL, true, true, true, true, 1)

  lemma HeaderSteps()
    ensures StepChunk(INITIAL_STATE, HEADER) == Ok(STATE_1)
    ensures StepChunk(STATE_1, ONE_FRAME) == Ok(STATE_2)
  {
  }

  lemma ControlIsRead()
    ensures ControlAt(FRAME.data, 0) == CONTROL
  {
    var s := FRAME.data;
    assert ReadU32(s, 0) == 0 && ReadU32(s, 4) == 1 && ReadU32(s, 8) == 1 && ReadU32(s, 12) == 0 && ReadU32(s, 16) == 0;
    assert ReadU16(s, 20) == 1 && ReadU16(s, 22) == 1;
  }

  lemma FrameStep()
    ensures StepChunk(STATE_2, FRAME) == Ok(STATE_3)
  {
    hide ReadU32, ReadU16, ControlAt;
    ControlIsRead();
    assert |FRAME.data| == 26;
    assert STATE_2.result.frames + [CONTROL] == [CONTROL];
  }

  /** After the frame control come an IDAT or more and any number of IENDs, in any order. */
  predicate IsOnePixel(cs: seq<Chunk>) {
    && Bounded(cs)
    && 3 <= |cs| && cs[..3] == [HEADER, ONE_FRAME, FRAME]
    && (forall j | 3 <= j < |cs| :: cs[j].tag == IDAT || cs[j].tag == IEND)
    && HasDataAfter(cs, |cs|)
  }

  predicate HasDataAfter(cs: seq<Chunk>, k: nat)
    requires k <= |cs|
  {
    exists j | 3 <= j < k :: cs[j].tag == IDAT
  }

  /** The parser accepts them all: it looks neither at IEND nor into the image data. */
  lemma OnePixelIsAccepted(crc: Crc, cs: seq<Chunk>)
    requires IsOnePixel(cs)
    ensures Parse(crc, Datastream(crc, cs)) == Ok(ONE_PIXEL)
    ensures ChunksOf(crc, Datastream(crc, cs)) == cs
  {
    hide StepChunk, ReadChunk, Encode, EncodeAll, ReadU32, ParseFrom, WellFormed;
    assert cs[0] == cs[..3][0] == HEADER && cs[1] == cs[..3][1] == ONE_FRAME && cs[2] == cs[..3][2] == FRAME;
    HeaderSteps();
    FrameStep();
    ParseChunk(crc, cs, 0, INITIAL_STATE, STATE_1);
    ParseChunk(crc, cs, 1, STATE_1, STATE_2);
    ParseChunk(crc, cs, 2, STATE_2, STATE_3);
    RestIsAccepted(crc, cs, 3);
    assert cs[..0] == [];
    NothingEncoded(crc);
    SameChunks(crc, ChunksOf(crc, Datastream(crc, cs)), cs);
  }

  lemma {:induction false} RestIsAccepted(crc: Crc, cs: seq<Chunk>, k: nat)
    requires IsOnePixel(cs) && 3 <= k <= |cs| && |Datastream(crc, cs[..k])| <= |Datastream(crc, cs)|
    ensures ParseFrom(crc, Datastream(crc, cs), |Datastream(crc, cs[..k])|, if HasDataAfter(cs, k) then STATE_4 else STATE_3) == Ok(ONE_PIXEL)
    decreases |cs| - k
  {
    hide ReadChunk, Encode, EncodeAll, ReadU32, ParseFrom, Datastream;
    if k == |cs| {
      assert cs[..k] == cs;
      ParseEnd(crc, Datastream(crc, cs), STATE_4);
    } else {
      var s := if HasDataAfter(cs, k) then STATE_4 else STATE_3;
      var t := if HasDataAfter(cs, k + 1) then STATE_4 else STATE_3;
      assert StepChunk(s, cs[k]) == Ok(t);
      ParseChunk(crc, cs, k, s, t);
      RestIsAccepted(crc, cs, k + 1);
    }
  }

  // ----- what happens to them

  /** Without IEND: accepted by the parser, and not an animation to the classifier. */
  lemma WithoutEndIsAcceptedNotClassified(crc: Crc)
    ensures Parse(crc, Datastream(crc, WITHOUT_END)) == Ok(ONE_PIXEL)
    ensures Classify(Datastream(crc, WITHOUT_END)) == NotApng
  {
    hide Parse, Classify, Datastream, HasEnd, ChunksOf;
    var cs := WITHOUT_END;
    assert cs[3].tag == IDAT;
    OnePixelIsAccepted(crc, cs);
    NoEnd(cs);
    AcceptedIsClassified(crc, Datastream(crc, cs), cs);
  }

  lemma NoEnd(cs: seq<Chunk>)
    requires forall k | 0 <= k < |cs| :: cs[k].tag != IEND
    ensures !HasEnd(cs)
  {
  }

  /** An accepted one-pixel animation with an IEND is an animation to the classifier. */
  lemma OnePixelIsClassified(crc: Crc, cs: seq<Chunk>, k: nat)
    requires IsOnePixel(cs) && 3 <= k < |cs| && cs[k].tag == IEND && forall j | 3 <= j < k :: cs[j].tag != IEND
    ensures Classify(Datastream(crc, cs)) == Animated
  {
    hide Parse, Classify, Datastream, HasEnd, ChunksOf, BeforeEnd, Count, Bounded, HasDataAfter;
    assert cs[0] == cs[..3][0] && cs[1] == cs[..3][1] && cs[2] == cs[..3][2];
    OnePixelIsAccepted(crc, cs);
    FirstEnd(cs, k);
    AcceptedIsClassified(crc, Datastream(crc, cs), cs);
    CountsEach(cs[..k], 1, ACTL);
    AcceptedShape(crc, Datastream(crc, cs), cs);
    CountPrefix(cs, k, ACTL);
  }

  /** With an empty IDAT for its data: accepted, classified as an animation, and refused by the decoder whatever libpng would say. */
  lemma WithoutDataIsAcceptedNotDecoded(crc: Crc, reader: PngReader)
    ensures Parse(crc, Datastream(crc, WITHOUT_DATA)) == Ok(ONE_PIXEL)
    ensures Classify(Datastream(crc, WITHOUT_DATA)) == Animated
    ensures DecodedOf(crc, reader, Datastream(crc, WITHOUT_DATA)) == Err(FrameStream)
  {
    hide Parse, Classify, Datastream, ChunksOf, DecodedOf;
    var cs := WITHOUT_DATA;
    assert cs[3].tag == IDAT && cs[4].tag == IEND;
    OnePixelIsAccepted(crc, cs);
    OnePixelIsClassified(crc, cs, 4);
    NothingToCollect(cs, 0);
    EmptyFrameIsTheOnlyStreamError(crc, reader, Datastream(crc, cs));
  }

  lemma {:induction false} NothingToCollect(cs: seq<Chunk>, frame: nat)
    requires forall c | c in cs :: Payload(c) == []
    ensures FramePayload(cs, frame) == []
  {
    if cs != [] {
      NothingToCollect(cs[..|cs| - 1], frame);
    }
  }

  /** With an IEND before its data: accepted, classified as an animation, and rebuilt as a PNG that ends before its data. */
  lemma EndBeforeDataIsRebuiltEnded(crc: Crc)
    ensures Parse(crc, Datastream(crc, END_BEFORE_DATA)) == Ok(ONE_PIXEL)
    ensures Classify(Datastream(crc, END_BEFORE_DATA)) == Animated
    ensures ChunksOf(crc, Datastream(crc, END_BEFORE_DATA)) == END_BEFORE_DATA
    ensures |HeaderData(END_BEFORE_DATA)| == 13 && FrameChunks(END_BEFORE_DATA, CONTROL, 0) == [HEADER, END, DATA, END]
    ensures !IsStillPng(FrameChunks(END_BEFORE_DATA, CONTROL, 0))
  {
    hide Parse, Classify, Datastream, ChunksOf, HeaderData, SharedChunks, FramePayload, U32Bytes, Count;
    var cs := END_BEFORE_DATA;
    assert cs[3].tag == cs[5].tag == IEND && cs[4].tag == IDAT;
    OnePixelIsAccepted(crc, cs);
    OnePixelIsClassified(crc, cs, 3);
    EndIsCollected();
    OneIsWritten();
    assert [0, 0, 0, 1] + [0, 0, 0, 1] + HEADER.data[8..] == HEADER.data;
    assert FrameChunks(cs, CONTROL, 0) == [HEADER] + [END] + [DATA, END] == [HEADER, END, DATA, END];
    TwoEnds();
  }

  lemma OneIsWritten()
    ensures U32Bytes(1) == [0, 0, 0, 1]
  {
  }

  lemma TwoEnds()
    ensures Count([HEADER, END, DATA, END], IEND) >= 2
  {
    var fs := [HEADER, END, DATA, END];
    assert fs[1] == fs[..3][1] == END;
    CountsEach(fs, 3, IEND);
    CountsEach(fs[..3], 1, IEND);
  }

  /** What the decoder has of frame 0 after these chunks, and the two counts that decide where the next one goes. */
  predicate Has(cs: seq<Chunk>, header: seq<Byte>, shared: seq<Chunk>, payload: seq<Byte>, controls: nat, data: nat) {
    && HeaderData(cs) == header && SharedChunks(cs) == shared && FramePayload(cs, 0) == payload
    && Count(cs, FCTL) == controls && Count(cs, IDAT) == data
  }

  lemma HasNext(cs: seq<Chunk>, header: seq<Byte>, shared: seq<Chunk>, payload: seq<Byte>, controls: nat, data: nat, c: Chunk)
    requires Has(cs, header, shared, payload, controls, data)
    ensures var controls' := controls + if c.tag == FCTL then 1 else 0;
            Has(cs + [c],
                if c.tag == IHDR then c.data else header,
                if IsShared(c) && data == 0 then shared + [c] else shared,
                if controls' == 1 then payload + Payload(c) else payload,
                controls',
                data + if c.tag == IDAT then 1 else 0)
  {
    NextChunk(cs + [c], |cs|);
    Extend(cs, c);
    assert (cs + [c])[..|cs| + 1] == cs + [c];
  }

  lemma EndIsCollected()
    ensures HeaderData(END_BEFORE_DATA) == HEADER.data && SharedChunks(END_BEFORE_DATA) == [END] && FramePayload(END_BEFORE_DATA, 0) == [0]
  {
    NothingCollected();
    hide HeaderData, SharedChunks, FramePayload, Count;
    var p1 := [] + [HEADER];
    var p2 := p1 + [ONE_FRAME];
    var p3 := p2 + [FRAME];
    var p4 := p3 + [END];
    var p5 := p4 + [DATA];
    assert END_BEFORE_DATA == p5 + [END];
    HasNext([], NO_HEADER, [], [], 0, 0, HEADER);
    HasNext(p1, HEADER.data, [], [], 0, 0, ONE_FRAME);
    HasNext(p2, HEADER.data, [], [], 0, 0, FRAME);
    HasNext(p3, HEADER.data, [], [], 1, 0, END);
    HasNext(p4, HEADER.data, [END], [], 1, 0, DATA);
    HasNext(p5, HEADER.data, [END], [0], 1, 1, END);
  }

  lemma NothingCollected()
    ensures Has([], NO_HEADER, [], [], 0, 0)
  {
  }
}
