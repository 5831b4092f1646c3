/**
 What an accepted APNG body is, said without the parser: counts, sequence numbers and
 frame ownership over the list of its chunks (section 11.3.6 of the PNG Specification).
 */
module ApngStream {
  import opened Bytes
  import opened PngChunks
  import opened Wrappers
  import opened ApngParser

  function Count(cs: seq<Chunk>, tag: Word): nat {
    if cs == [] then 0 else Count(cs[..|cs| - 1], tag) + if cs[|cs| - 1].tag == tag then 1 else 0
  }

  predicate Sequenced(c: Chunk) {
    (c.tag == FCTL || c.tag == FDAT) && 4 <= |c.data|
  }

  /** The sequence numbers of the fcTL and fdAT chunks, in file order. */
  function SequenceNumbers(cs: seq<Chunk>): seq<Word> {
    if cs == [] then []
    else SequenceNumbers(cs[..|cs| - 1]) + if Sequenced(cs[|cs| - 1]) then [ReadU32(cs[|cs| - 1].data, 0)] else []
  }

  /** The frame controls, in file order. */
  function Controls(cs: seq<Chunk>): seq<FrameControl> {
    if cs == [] then []
    else
      var c := cs[|cs| - 1];
      Controls(cs[..|cs| - 1]) + if c.tag == FCTL && |c.data| == 26 then [ControlAt(c.data, 0)] else []
  }

  /** The image data a chunk carries: all of an IDAT, an fdAT without its sequence number. */
  function Payload(c: Chunk): seq<Byte> {
    if c.tag == IDAT then c.data
    else if c.tag == FDAT && 4 <= |c.data| then c.data[4..]
    else []
  }

  predicate IsData(c: Chunk) {
    c.tag == IDAT || c.tag == FDAT
  }

  /** The number of data chunks after the frame-th fcTL and before the next one. */
  function DataChunks(cs: seq<Chunk>, frame: nat): nat {
    if cs == [] then 0
    else DataChunks(cs[..|cs| - 1], frame) + if IsData(cs[|cs| - 1]) && Count(cs, FCTL) == frame + 1 then 1 else 0
  }

  /** Their payloads, in order. */
  function FramePayload(cs: seq<Chunk>, frame: nat): seq<Byte> {
    if cs == [] then []
    else FramePayload(cs[..|cs| - 1], frame) + if Count(cs, FCTL) == frame + 1 then Payload(cs[|cs| - 1]) else []
  }

  /** The chunk at position k finds before it what its type demands, and has the demanded shape. */
  predicate Placed(cs: seq<Chunk>, k: nat, defaultImageIsFrame: bool)
    requires k < |cs|
  {
    var before, c := cs[..k], cs[k];
    var frames := Count(before, FCTL);
    if c.tag == ACTL then
      Count(before, IHDR) == 1 && Count(before, IDAT) == 0
    else if c.tag == FCTL then
      && Count(before, ACTL) == 1 && |c.data| == 26
      && (if frames > 0 then DataChunks(before, frames - 1) >= 1 else defaultImageIsFrame == (Count(before, IDAT) == 0))
    else if c.tag == IDAT then
      Count(before, ACTL) == 1 && frames == if defaultImageIsFrame then 1 else 0
    else if c.tag == FDAT then
      Count(before, IDAT) > 0 && frames >= (if defaultImageIsFrame then 2 else 1) && |c.data| >= 4
    else
      true
  }

  /** The frame's blend and disposal are known operations and its delay divides. */
  predicate Operable(f: FrameControl) {
    f.delayDenominator != 0 && f.dispose <= 2 && f.blend <= 1
  }

  /** The chunk list of a well-formed animation with description d. */
  ghost predicate WellFormed(cs: seq<Chunk>, d: Description) {
    && Count(cs, IHDR) == 1 && Count(cs, ACTL) == 1
    && Headed(cs, d)
    && (forall i | 0 <= i < |SequenceNumbers(cs)| :: SequenceNumbers(cs)[i] == i % 0x1_0000_0000)
    && d.frames == Controls(cs)
    && |d.frames| == Count(cs, FCTL) == d.declaredFrames >= 1
    && (forall f | 0 <= f < |d.frames| :: DataChunks(cs, f) >= 1)
    && (forall k | 0 <= k < |cs| :: Placed(cs, k, d.defaultImageIsFrame))
    && (forall f | f in d.frames :: InsideCanvas(f, d.canvasWidth, d.canvasHeight) && Operable(f))
  }

  /** The canvas and the declared frames are the ones the IHDR and acTL chunks carry. */
  predicate Headed(cs: seq<Chunk>, d: Description) {
    && d.canvasWidth != 0 && d.canvasHeight != 0
    && (forall c | c in cs && c.tag == IHDR :: |c.data| == 13 && ReadU32(c.data, 0) == d.canvasWidth && ReadU32(c.data, 4) == d.canvasHeight)
    && (forall c | c in cs && c.tag == ACTL :: |c.data| == 8 && ReadU32(c.data, 0) == d.declaredFrames && ReadU32(c.data, 4) == d.loopCount)
  }

  // ----- the parser's invariant, chunk by chunk

  /** What the parser's state records about the chunks it has accepted. */
  ghost predicate Records(s: ParseState, cs: seq<Chunk>) {
    && RecordsHeaders(s, cs)
    && RecordsSequence(s, cs)
    && RecordsFrames(s, cs)
    && RecordsData(s, cs)
    && RecordsPlaces(s, cs)
  }

  ghost predicate RecordsHeaders(s: ParseState, cs: seq<Chunk>) {
    var d := s.result;
    && Count(cs, IHDR) == (if s.haveIhdr then 1 else 0)
    && Count(cs, ACTL) == (if s.haveActl then 1 else 0)
    && (s.haveActl ==> s.haveIhdr)
    && (s.haveIhdr ==> d.canvasWidth != 0 && d.canvasHeight != 0)
    && (s.haveActl ==> d.declaredFrames != 0)
    && (forall c | c in cs && c.tag == IHDR :: |c.data| == 13 && ReadU32(c.data, 0) == d.canvasWidth && ReadU32(c.data, 4) == d.canvasHeight)
    && (forall c | c in cs && c.tag == ACTL :: |c.data| == 8 && ReadU32(c.data, 0) == d.declaredFrames && ReadU32(c.data, 4) == d.loopCount)
  }

  ghost predicate RecordsSequence(s: ParseState, cs: seq<Chunk>) {
    var numbers := SequenceNumbers(cs);
    && s.expectedSequence == |numbers| % 0x1_0000_0000
    && forall i | 0 <= i < |numbers| :: numbers[i] == i % 0x1_0000_0000
  }

  ghost predicate RecordsFrames(s: ParseState, cs: seq<Chunk>) {
    var d := s.result;
    && d.frames == Controls(cs)
    && |d.frames| == Count(cs, FCTL)
    && (d.frames != [] ==> s.haveActl)
    && (d.frames == [] ==> !d.defaultImageIsFrame)
    && (forall f | f in d.frames :: InsideCanvas(f, d.canvasWidth, d.canvasHeight) && Operable(f))
  }

  ghost predicate RecordsData(s: ParseState, cs: seq<Chunk>) {
    var n := |s.result.frames|;
    && (s.sawIdat <==> Count(cs, IDAT) > 0)
    && (s.frameHasData <==> n > 0 && DataChunks(cs, n - 1) >= 1)
    && (forall f | 0 <= f < n - 1 :: DataChunks(cs, f) >= 1)
    && (forall f {:trigger DataChunks(cs, f)} | f >= n :: DataChunks(cs, f) == 0)
  }

  ghost predicate RecordsPlaces(s: ParseState, cs: seq<Chunk>) {
    forall k | 0 <= k < |cs| :: Placed(cs, k, s.result.defaultImageIsFrame)
  }

  lemma FirstRecord()
    ensures Records(INITIAL_STATE, [])
  {
    assert RecordsHeaders(INITIAL_STATE, []);
    assert RecordsSequence(INITIAL_STATE, []);
    assert RecordsFrames(INITIAL_STATE, []);
    assert RecordsData(INITIAL_STATE, []);
    assert RecordsPlaces(INITIAL_STATE, []);
  }

  /** The fields the state has so far are those of d. */
  predicate Agrees(s: ParseState, d: Description) {
    && (s.haveIhdr ==> s.result.canvasWidth == d.canvasWidth && s.result.canvasHeight == d.canvasHeight)
    && (s.haveActl ==> s.result.declaredFrames == d.declaredFrames && s.result.loopCount == d.loopCount)
    && (s.result.frames != [] ==> s.result.defaultImageIsFrame == d.defaultImageIsFrame)
  }

  lemma Extend(cs: seq<Chunk>, c: Chunk)
    ensures (cs + [c])[..|cs|] == cs && (cs + [c])[|cs|] == c
  {
  }

  lemma StepKeepsHeaders(s: ParseState, cs: seq<Chunk>, c: Chunk)
    requires Records(s, cs) && StepChunk(s, c).Ok?
    ensures RecordsHeaders(StepChunk(s, c).value, cs + [c])
  {
    hide ReadU32, ReadU16;
    Extend(cs, c);
    forall k | 0 <= k < |cs|
      ensures Count(cs, cs[k].tag) > 0
    {
      CountsEach(cs, k, cs[k].tag);
    }
  }

  lemma StepKeepsSequence(s: ParseState, cs: seq<Chunk>, c: Chunk)
    requires Records(s, cs) && StepChunk(s, c).Ok?
    ensures RecordsSequence(StepChunk(s, c).value, cs + [c])
  {
    hide ReadU32, ReadU16;
    Extend(cs, c);
    var n := |SequenceNumbers(cs)|;
    assert (n % 0x1_0000_0000 + 1) % 0x1_0000_0000 == (n + 1) % 0x1_0000_0000;
  }

  lemma StepKeepsFrames(s: ParseState, cs: seq<Chunk>, c: Chunk)
    requires Records(s, cs) && StepChunk(s, c).Ok?
    ensures RecordsFrames(StepChunk(s, c).value, cs + [c])
  {
    hide ReadU32, ReadU16, InsideCanvas;
    Extend(cs, c);
    var t := StepChunk(s, c).value;
    assert t.result.frames == Controls(cs + [c]);
    assert |t.result.frames| == Count(cs + [c], FCTL);
    forall f | f in t.result.frames
      ensures InsideCanvas(f, t.result.canvasWidth, t.result.canvasHeight) && Operable(f)
    {
      assert f in s.result.frames || (c.tag == FCTL && f == ControlAt(c.data, 0));
    }
  }

  lemma StepKeepsData(s: ParseState, cs: seq<Chunk>, c: Chunk)
    requires Records(s, cs) && StepChunk(s, c).Ok?
    ensures RecordsData(StepChunk(s, c).value, cs + [c])
  {
    hide ReadU32, ReadU16, InsideCanvas, Placed, RecordsSequence, Operable, Controls, Finish;
    Extend(cs, c);
    var t, after := StepChunk(s, c).value, cs + [c];
    forall f: nat
      ensures DataChunks(after, f) == DataChunks(cs, f) + if IsData(c) && Count(after, FCTL) == f + 1 then 1 else 0
    {
    }
    assert Count(after, FCTL) == Count(cs, FCTL) + if c.tag == FCTL then 1 else 0;
    assert Count(after, IDAT) == Count(cs, IDAT) + if c.tag == IDAT then 1 else 0;
  }

  lemma StepKeepsPlaces(s: ParseState, cs: seq<Chunk>, c: Chunk)
    requires Records(s, cs) && StepChunk(s, c).Ok?
    ensures RecordsPlaces(StepChunk(s, c).value, cs + [c])
  {
    hide ReadU32, ReadU16, InsideCanvas, RecordsSequence, Operable, Controls, Finish, Count, DataChunks;
    Extend(cs, c);
    var t, after := StepChunk(s, c).value, cs + [c];
    assert after[..|cs|] == cs;
    forall k | 0 <= k < |cs|
      ensures Placed(after, k, t.result.defaultImageIsFrame)
    {
      assert after[..k] == cs[..k] && after[k] == cs[k];
      assert Placed(cs, k, s.result.defaultImageIsFrame);
      CountsEach(cs, k, IDAT);
      CountsEach(cs, k, FCTL);
    }
  }

  /** A count only grows along the list, and grows past each chunk it counts. */
  lemma {:induction false} CountsEach(cs: seq<Chunk>, k: nat, tag: Word)
    requires k < |cs|
    ensures Count(cs, tag) >= Count(cs[..k], tag) + if cs[k].tag == tag then 1 else 0
  {
    if k < |cs| - 1 {
      var front := cs[..|cs| - 1];
      CountsEach(front, k, tag);
      assert front[..k] == cs[..k];
    }
  }

  lemma CountNext(cs: seq<Chunk>, k: nat, tag: Word)
    requires k < |cs|
    ensures Count(cs[..k + 1], tag) == Count(cs[..k], tag) + if cs[k].tag == tag then 1 else 0
  {
    assert cs[..k + 1][..k] == cs[..k];
  }

  lemma {:induction false} CountPrefix(cs: seq<Chunk>, k: nat, tag: Word)
    requires k <= |cs|
    ensures Count(cs[..k], tag) <= Count(cs, tag)
  {
    if k == |cs| {
      assert cs[..k] == cs;
    } else {
      CountPrefix(cs[..|cs| - 1], k, tag);
      assert cs[..|cs| - 1][..k] == cs[..k];
    }
  }

  lemma StepKeepsRecords(s: ParseState, cs: seq<Chunk>, c: Chunk)
    requires Records(s, cs) && StepChunk(s, c).Ok?
    ensures Records(StepChunk(s, c).value, cs + [c])
  {
    hide RecordsHeaders, RecordsSequence, RecordsFrames, RecordsData, RecordsPlaces, StepChunk;
    StepKeepsHeaders(s, cs, c);
    StepKeepsSequence(s, cs, c);
    StepKeepsFrames(s, cs, c);
    StepKeepsData(s, cs, c);
    StepKeepsPlaces(s, cs, c);
  }

  // ----- soundness: an accepted body is a well-formed animation

  lemma {:induction false} Soundness(crc: Crc, body: seq<Byte>, offset: nat, s: ParseState, pre: seq<Chunk>, d: Description) returns (cs: seq<Chunk>)
    requires Bounded(pre) && offset <= |body| && body[..offset] == Datastream(crc, pre)
    requires Records(s, pre)
    requires ParseFrom(crc, body, offset, s) == Ok(d)
    ensures Bounded(cs) && body == Datastream(crc, cs) && WellFormed(cs, d)
    decreases |body| - offset
  {
    hide ReadChunk, Encode, Records, StepChunk;
    if offset == |body| {
      assert body == body[..offset];
      RecordsWellFormed(s, pre);
      return pre;
    }
    var c := ReadChunk(crc, body, offset).value;
    var t := StepChunk(s, c).value;
    var end := offset + CHUNK_OVERHEAD + |c.data|;
    EncodeRead(crc, body, offset);
    assert body[..end] == body[..offset] + body[offset..end];
    Extend(pre, c);
    assert body[..end] == Datastream(crc, pre + [c]);
    StepKeepsRecords(s, pre, c);
    cs := Soundness(crc, body, end, t, pre + [c], d);
  }

  lemma RecordsWellFormed(s: ParseState, cs: seq<Chunk>)
    requires Records(s, cs) && Finish(s).Ok?
    ensures WellFormed(cs, s.result)
  {
    hide ReadU32, ReadU16, InsideCanvas;
  }

  // ----- completeness: a well-formed animation is accepted

  lemma {:induction false} SequencePrefix(cs: seq<Chunk>, k: nat)
    requires k <= |cs|
    ensures SequenceNumbers(cs[..k]) <= SequenceNumbers(cs)
  {
    hide ReadU32;
    if k == |cs| {
      assert cs[..k] == cs;
    } else {
      var front := cs[..|cs| - 1];
      SequencePrefix(front, k);
      assert front[..k] == cs[..k];
    }
  }

  lemma {:induction false} ControlsEach(cs: seq<Chunk>, k: nat)
    requires k < |cs| && cs[k].tag == FCTL && |cs[k].data| == 26
    ensures ControlAt(cs[k].data, 0) in Controls(cs)
  {
    hide ControlAt;
    if k < |cs| - 1 {
      var front := cs[..|cs| - 1];
      ControlsEach(front, k);
    }
  }

  /** No step of the parser refuses the next chunk of a well-formed animation. */
  lemma StepAccepts(cs: seq<Chunk>, d: Description, k: nat, s: ParseState)
    requires WellFormed(cs, d) && k < |cs|
    requires Records(s, cs[..k]) && Agrees(s, d)
    ensures StepChunk(s, cs[k]).Ok? && Agrees(StepChunk(s, cs[k]).value, d)
  {
    hide ReadU32, ReadU16, InsideCanvas;
    var c, before := cs[k], cs[..k];
    assert Placed(cs, k, d.defaultImageIsFrame);
    CountsEach(cs, k, c.tag);
    if c.tag == FCTL {
      ControlsEach(cs, k);
      NextNumber(cs, k, s);
    } else if c.tag == FDAT {
      NextNumber(cs, k, s);
    }
  }

  lemma NextNumber(cs: seq<Chunk>, k: nat, s: ParseState)
    requires k < |cs| && Sequenced(cs[k])
    requires forall i | 0 <= i < |SequenceNumbers(cs)| :: SequenceNumbers(cs)[i] == i % 0x1_0000_0000
    requires RecordsSequence(s, cs[..k])
    ensures ReadU32(cs[k].data, 0) == s.expectedSequence
  {
    hide ReadU32;
    SequencePrefix(cs, k + 1);
    Extend(cs[..k], cs[k]);
    assert cs[..k + 1] == cs[..k] + [cs[k]];
    var n := |SequenceNumbers(cs[..k])|;
    assert SequenceNumbers(cs[..k + 1])[n] == ReadU32(cs[k].data, 0);
    assert SequenceNumbers(cs)[n] == n % 0x1_0000_0000;
  }

  lemma {:induction false} Completeness(crc: Crc, cs: seq<Chunk>, d: Description, k: nat, s: ParseState)
    requires Bounded(cs) && WellFormed(cs, d) && k <= |cs|
    requires Records(s, cs[..k]) && Agrees(s, d)
    requires |Datastream(crc, cs[..k])| <= |Datastream(crc, cs)|
    ensures ParseFrom(crc, Datastream(crc, cs), |Datastream(crc, cs[..k])|, s) == Ok(d)
    decreases |cs| - k
  {
    hide Encode, ReadChunk, StepChunk, ReadU32, ReadU16;
    if k == |cs| {
      assert cs[..k] == cs;
      FinishAccepts(cs, d, s);
    } else {
      ChunkAt(crc, cs, k);
      StepAccepts(cs, d, k, s);
      StepKeepsRecords(s, cs[..k], cs[k]);
      assert cs[..k + 1] == cs[..k] + [cs[k]];
      Completeness(crc, cs, d, k + 1, StepChunk(s, cs[k]).value);
    }
  }

  lemma FinishAccepts(cs: seq<Chunk>, d: Description, s: ParseState)
    requires WellFormed(cs, d) && Records(s, cs) && Agrees(s, d)
    ensures Finish(s) == Ok(d)
  {
    hide ReadU32, ReadU16, InsideCanvas, ControlAt;
  }

  /** `parse_apng` accepts exactly the well-formed animations, and describes them as they are. */
  lemma ParserAcceptsExactlyWellFormed(crc: Crc, body: seq<Byte>, d: Description)
    ensures Parse(crc, body) == Ok(d) <==> exists cs | Bounded(cs) :: body == Datastream(crc, cs) && WellFormed(cs, d)
  {
    if Parse(crc, body) == Ok(d) {
      var cs := Accepted(crc, body);
    }
    if exists cs | Bounded(cs) :: body == Datastream(crc, cs) && WellFormed(cs, d) {
      var cs: seq<Chunk> :| Bounded(cs) && body == Datastream(crc, cs) && WellFormed(cs, d);
      FirstRecord();
      assert cs[..0] == [];
      Completeness(crc, cs, d, 0, INITIAL_STATE);
    }
  }

  /** The chunks of an accepted body. */
  lemma Accepted(crc: Crc, body: seq<Byte>) returns (cs: seq<Chunk>)
    requires Parse(crc, body).Ok?
    ensures Bounded(cs) && body == Datastream(crc, cs) && WellFormed(cs, Parse(crc, body).value)
  {
    FirstRecord();
    assert body[..|SIGNATURE|] == Datastream(crc, []);
    cs := Soundness(crc, body, |SIGNATURE|, INITIAL_STATE, [], Parse(crc, body).value);
  }

  lemma {:induction false} FewNumbers(crc: Crc, cs: seq<Chunk>)
    requires Bounded(cs)
    ensures 12 * |SequenceNumbers(cs)| <= 12 * |cs| <= |EncodeAll(crc, cs)|
  {
    hide Encode, ReadU32;
    if cs != [] {
      FewNumbers(crc, cs[..|cs| - 1]);
    }
  }

  /** In an accepted body of a size the counter can count, the numbers are 0, 1, 2, ... without gap or repeat. */
  lemma SequenceNumbersAreConsecutive(crc: Crc, body: seq<Byte>, cs: seq<Chunk>)
    requires Parse(crc, body).Ok? && Bounded(cs) && body == Datastream(crc, cs)
    requires |body| < 0x1_0000_0000
    ensures SequenceNumbers(cs) == seq(|SequenceNumbers(cs)|, i => i)
  {
    hide Encode, ReadU32, ReadChunk, Parse;
    AcceptedIsWellFormed(crc, body, cs);
    FewNumbers(crc, cs);
  }

  /** However its chunks were found, an accepted body is a well-formed animation. */
  lemma AcceptedIsWellFormed(crc: Crc, body: seq<Byte>, cs: seq<Chunk>)
    requires Parse(crc, body).Ok? && Bounded(cs) && body == Datastream(crc, cs)
    ensures WellFormed(cs, Parse(crc, body).value)
  {
    hide Datastream, Parse, WellFormed;
    var accepted := Accepted(crc, body);
    SameChunks(crc, accepted, cs);
  }

  /** A datastream has one chunk list only. */
  lemma SameChunks(crc: Crc, a: seq<Chunk>, b: seq<Chunk>)
    requires Bounded(a) && Bounded(b) && Datastream(crc, a) == Datastream(crc, b)
    ensures a == b
  {
    hide Encode, ReadU32, ReadChunk;
    var n := if |a| <= |b| then |a| else |b|;
    SamePrefix(crc, a, b, n);
    if |a| < |b| {
      assert a == a[..n];
      ChunkAt(crc, b, n);
    } else if |b| < |a| {
      assert b == b[..n];
      ChunkAt(crc, a, n);
    }
    assert a == a[..n] && b == b[..n];
  }

  lemma {:induction false} SamePrefix(crc: Crc, a: seq<Chunk>, b: seq<Chunk>, n: nat)
    requires Bounded(a) && Bounded(b) && Datastream(crc, a) == Datastream(crc, b)
    requires n <= |a| && n <= |b|
    ensures a[..n] == b[..n]
  {
    hide Encode, ReadU32, ReadChunk;
    if n > 0 {
      SamePrefix(crc, a, b, n - 1);
      ChunkAt(crc, a, n - 1);
      ChunkAt(crc, b, n - 1);
      assert a[..n] == a[..n - 1] + [a[n - 1]] && b[..n] == b[..n - 1] + [b[n - 1]];
    }
  }

  /** The chunks of an accepted body. */
  ghost function ChunksOf(crc: Crc, body: seq<Byte>): (cs: seq<Chunk>)
    requires Parse(crc, body).Ok?
    ensures Bounded(cs) && body == Datastream(crc, cs) && WellFormed(cs, Parse(crc, body).value)
  {
    ParserAcceptsExactlyWellFormed(crc, body, Parse(crc, body).value);
    var cs: seq<Chunk> :| Bounded(cs) && body == Datastream(crc, cs) && WellFormed(cs, Parse(crc, body).value);
    cs
  }
}
