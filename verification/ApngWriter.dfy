/**
 A writer of animated PNGs, from the tables of the PNG Specification (sections 5.3 and 11.3.6) alone: whatever
 animation it is given, the parser describes that animation and the decoder finds each frame's own data.
 */
module ApngWriter {
  import opened Bytes
  import opened PngChunks
  import opened Rgba
  import opened Wrappers
  import opened ApngParser
  import opened ApngStream
  import opened ApngClassifier
  import opened ApngDecoder

  /** A frame, and its compressed data in the parts it is to be written in. The writer numbers the control. */
  datatype FrameSource = FrameSource(control: FrameControl, parts: seq<seq<Byte>>)

  /**
   `depths` are the last five bytes of the header. `before` stands before the acTL, `between` right before the image
   data, `after` at the end. With a fallback, its parts are the IDATs and no frame uses them.
   */
  datatype Animation = Animation(
    width: Word,
    height: Word,
    depths: seq<Byte>,
    loops: Word,
    before: seq<Chunk>,
    between: seq<Chunk>,
    fallback: Option<seq<seq<Byte>>>,
    frames: seq<FrameSource>,
    after: seq<Chunk>)

  /** The type is none of those that make an animation, an image or its end. */
  predicate IsAncillary(c: Chunk) {
    c.tag !in {IHDR, ACTL, FCTL, IDAT, FDAT, IEND}
  }

  predicate AreAncillary(cs: seq<Chunk>) {
    forall k | 0 <= k < |cs| :: IsAncillary(cs[k])
  }

  predicate IsFrame(f: FrameSource, width: Word, height: Word) {
    && 0 < f.control.width && f.control.xOffset + f.control.width <= width
    && 0 < f.control.height && f.control.yOffset + f.control.height <= height
    && f.control.delayDenominator > 0
    && (f.control.dispose == 0 || f.control.dispose == 1 || f.control.dispose == 2)
    && (f.control.blend == 0 || f.control.blend == 1)
    && f.parts != []
  }

  predicate IsAnimation(a: Animation) {
    && a.width > 0 && a.height > 0 && |a.depths| == 5
    && AreAncillary(a.before) && AreAncillary(a.between) && AreAncillary(a.after)
    && (a.fallback.Some? ==> a.fallback.value != [])
    && 0 < |a.frames| < 0x1_0000_0000
    && forall f | 0 <= f < |a.frames| :: IsFrame(a.frames[f], a.width, a.height)
  }

  // ----- writing

  /** The 26 bytes of an fcTL. */
  function ControlBytes(f: FrameControl): seq<Byte> {
    U32Bytes(f.sequence) + U32Bytes(f.width) + U32Bytes(f.height) + U32Bytes(f.xOffset) + U32Bytes(f.yOffset)
    + U16Bytes(f.delayNumerator) + U16Bytes(f.delayDenominator) + [f.dispose] + [f.blend]
  }

  function Idats(parts: seq<seq<Byte>>): (r: seq<Chunk>)
    ensures |r| == |parts|
  {
    if parts == [] then [] else Idats(parts[..|parts| - 1]) + [Chunk(IDAT, parts[|parts| - 1])]
  }

  /** The parts as fdATs, numbered from n. */
  function Fdats(n: nat, parts: seq<seq<Byte>>): (r: seq<Chunk>)
    ensures |r| == |parts|
  {
    if parts == [] then []
    else
      var last := |parts| - 1;
      Fdats(n, parts[..last]) + [Chunk(FDAT, U32Bytes((n + last) % 0x1_0000_0000) + parts[last])]
  }

  function Joined(parts: seq<seq<Byte>>): seq<Byte> {
    if parts == [] then [] else Joined(parts[..|parts| - 1]) + parts[|parts| - 1]
  }

  /** The first frame is the default image, unless there is a fallback. */
  predicate IsDefaultImage(a: Animation, f: nat) {
    f == 0 && a.fallback.None?
  }

  /** The sequence number of frame f's control: one for every control and every fdAT before it. */
  function Number(a: Animation, f: nat): nat
    requires f <= |a.frames|
  {
    if f == 0 then 0
    else Number(a, f - 1) + 1 + if IsDefaultImage(a, f - 1) then 0 else |a.frames[f - 1].parts|
  }

  /** The control as it is written. */
  function Numbered(a: Animation, f: nat): FrameControl
    requires f < |a.frames|
  {
    a.frames[f].control.(sequence := Number(a, f) % 0x1_0000_0000)
  }

  function FrameData(a: Animation, f: nat): seq<Chunk>
    requires f < |a.frames|
  {
    if IsDefaultImage(a, f) then a.between + Idats(a.frames[f].parts) else Fdats(Number(a, f) + 1, a.frames[f].parts)
  }

  function Head(a: Animation): seq<Chunk> {
    [Chunk(IHDR, U32Bytes(a.width) + U32Bytes(a.height) + a.depths)]
    + a.before
    + [Chunk(ACTL, U32Bytes(|a.frames| % 0x1_0000_0000) + U32Bytes(a.loops))]
    + if a.fallback.Some? then a.between + Idats(a.fallback.value) else []
  }

  /** Everything up to the n-th frame. */
  function Begun(a: Animation, n: nat): seq<Chunk>
    requires n <= |a.frames|
  {
    if n == 0 then Head(a)
    else Begun(a, n - 1) + [Chunk(FCTL, ControlBytes(Numbered(a, n - 1)))] + FrameData(a, n - 1)
  }

  function Written(a: Animation): seq<Chunk> {
    Begun(a, |a.frames|) + a.after + [Chunk(IEND, [])]
  }

  // ----- the control

  /** Reading the 26 bytes gives every control back, field by field. */
  lemma ControlReadsBack(f: FrameControl)
    ensures |ControlBytes(f)| == 26 && ControlAt(ControlBytes(f), 0) == f
  {
    hide ReadU32, U32Bytes, U16Bytes, ReadU16;
    var s := ControlBytes(f);
    assert s[0..4] == U32Bytes(f.sequence) && s[4..8] == U32Bytes(f.width) && s[8..12] == U32Bytes(f.height);
    assert s[12..16] == U32Bytes(f.xOffset) && s[16..20] == U32Bytes(f.yOffset);
    assert s[20..22] == U16Bytes(f.delayNumerator) && s[22..24] == U16Bytes(f.delayDenominator);
    ReadWritten(f.sequence, s, 0);
    ReadWritten(f.width, s, 4);
    ReadWritten(f.height, s, 8);
    ReadWritten(f.xOffset, s, 12);
    ReadWritten(f.yOffset, s, 16);
    HalfReads(f.delayNumerator, s, 20);
    HalfReads(f.delayDenominator, s, 22);
  }

  lemma HalfReads(h: Half, s: seq<Byte>, offset: nat)
    requires offset + 2 <= |s| && s[offset..offset + 2] == U16Bytes(h)
    ensures ReadU16(s, offset) == h
  {
    var b := s[offset..offset + 2];
    assert b[0] == s[offset] && b[1] == s[offset + 1];
  }

  lemma PairReads(a: Word, b: Word, rest: seq<Byte>)
    ensures var s := U32Bytes(a) + U32Bytes(b) + rest; |s| == 8 + |rest| && ReadU32(s, 0) == a && ReadU32(s, 4) == b && s[8..] == rest
  {
    hide ReadU32, U32Bytes;
    var s := U32Bytes(a) + U32Bytes(b) + rest;
    assert s[0..4] == U32Bytes(a) && s[4..8] == U32Bytes(b);
    ReadWritten(a, s, 0);
    ReadWritten(b, s, 4);
  }

  lemma NumberReads(n: Word, part: seq<Byte>)
    ensures var s := U32Bytes(n) + part; ReadU32(s, 0) == n && s[4..] == part
  {
    hide ReadU32, U32Bytes;
    var s := U32Bytes(n) + part;
    assert s[0..4] == U32Bytes(n);
    ReadWritten(n, s, 0);
  }

  // ----- the parser, chunk by chunk

  /** The parser's state after these chunks. */
  function StepAll(cs: seq<Chunk>): Result<ParseState, ApngParseError> {
    if cs == [] then Ok(INITIAL_STATE)
    else
      match StepAll(cs[..|cs| - 1])
      case Err(e) => Err(e)
      case Ok(s) => StepChunk(s, cs[|cs| - 1])
  }

  lemma StepNext(cs: seq<Chunk>, c: Chunk)
    ensures StepAll(cs + [c]) == match StepAll(cs) case Err(e) => Err(e) case Ok(s) => StepChunk(s, c)
  {
    hide StepChunk;
    assert (cs + [c])[..|cs|] == cs;
  }

  lemma {:induction false} ParsedSoFar(crc: Crc, cs: seq<Chunk>, k: nat)
    requires Bounded(cs) && k <= |cs| && StepAll(cs[..k]).Ok?
    ensures |Datastream(crc, cs[..k])| <= |Datastream(crc, cs)|
    ensures Parse(crc, Datastream(crc, cs)) == ParseFrom(crc, Datastream(crc, cs), |Datastream(crc, cs[..k])|, StepAll(cs[..k]).value)
  {
    hide StepChunk, ReadChunk, ReadU32, Encode, EncodeAll, ParseFrom, Datastream;
    if k == 0 {
      assert cs[..0] == [];
      StartOfStream(crc);
    } else {
      assert cs[..k] == cs[..k - 1] + [cs[k - 1]];
      StepNext(cs[..k - 1], cs[k - 1]);
      ParsedSoFar(crc, cs, k - 1);
      ParseChunk(crc, cs, k - 1, StepAll(cs[..k - 1]).value, StepAll(cs[..k]).value);
    }
  }

  lemma StartOfStream(crc: Crc)
    ensures |Datastream(crc, [])| == |SIGNATURE|
    ensures forall cs :: |Datastream(crc, cs)| >= |SIGNATURE|
  {
  }

  lemma {:induction false} AncillaryStep(cs: seq<Chunk>, more: seq<Chunk>)
    requires AreAncillary(more)
    ensures StepAll(cs + more) == StepAll(cs)
  {
    if more == [] {
      assert cs + more == cs;
    } else {
      var front, c := more[..|more| - 1], more[|more| - 1];
      AncillaryStep(cs, front);
      assert IsAncillary(c) && cs + more == (cs + front) + [c];
      StepNext(cs + front, c);
    }
  }

  lemma {:induction false} IdatsStep(cs: seq<Chunk>, parts: seq<seq<Byte>>, s: ParseState)
    requires parts != [] && StepAll(cs) == Ok(s)
    requires s.haveActl && (s.result.frames == [] || (s.result.defaultImageIsFrame && |s.result.frames| == 1))
    ensures StepAll(cs + Idats(parts)) == Ok(s.(sawIdat := true, frameHasData := s.result.defaultImageIsFrame || s.frameHasData))
  {
    hide StepAll;
    var front, part := parts[..|parts| - 1], parts[|parts| - 1];
    if front == [] {
      assert cs + Idats(parts) == cs + [Chunk(IDAT, part)];
      StepNext(cs, Chunk(IDAT, part));
    } else {
      IdatsStep(cs, front, s);
      assert cs + Idats(parts) == (cs + Idats(front)) + [Chunk(IDAT, part)];
      StepNext(cs + Idats(front), Chunk(IDAT, part));
    }
  }

  lemma {:induction false} FdatsStep(cs: seq<Chunk>, n: nat, parts: seq<seq<Byte>>, s: ParseState)
    requires parts != [] && StepAll(cs) == Ok(s)
    requires s.sawIdat && s.result.frames != [] && !(s.result.defaultImageIsFrame && |s.result.frames| == 1)
    requires s.expectedSequence == n % 0x1_0000_0000
    ensures StepAll(cs + Fdats(n, parts)) == Ok(s.(frameHasData := true, expectedSequence := (n + |parts|) % 0x1_0000_0000))
  {
    hide StepAll, U32Bytes, ReadU32;
    var last := |parts| - 1;
    var front, c := parts[..last], Chunk(FDAT, U32Bytes((n + last) % 0x1_0000_0000) + parts[last]);
    NumberReads((n + last) % 0x1_0000_0000, parts[last]);
    NextNumberIs(n + last);
    if front == [] {
      assert cs + Fdats(n, parts) == cs + [c];
      StepNext(cs, c);
    } else {
      FdatsStep(cs, n, front, s);
      assert cs + Fdats(n, parts) == (cs + Fdats(n, front)) + [c];
      StepNext(cs + Fdats(n, front), c);
    }
  }

  lemma NextNumberIs(n: nat)
    ensures Increment(n % 0x1_0000_0000) == (n + 1) % 0x1_0000_0000
  {
  }

  /** The controls of the first n frames, as they are written. */
  function NumberedControls(a: Animation, n: nat): (r: seq<FrameControl>)
    requires n <= |a.frames|
    ensures |r| == n
  {
    seq(n, f requires 0 <= f < n => Numbered(a, f))
  }

  /** The state that all but the last chunks of an animation lead to. */
  function StateAfter(a: Animation, n: nat): ParseState
    requires n <= |a.frames| && |a.frames| < 0x1_0000_0000
  {
    ParseState(
      Description(a.width, a.height, |a.frames|, a.loops, n > 0 && a.fallback.None?, NumberedControls(a, n)),
      true, true, n > 0, n > 0 || a.fallback.Some?, Number(a, n) % 0x1_0000_0000)
  }

  lemma HeadStep(a: Animation)
    requires IsAnimation(a)
    ensures StepAll(Head(a)) == Ok(StateAfter(a, 0))
  {
    hide ReadU32, U32Bytes, StepAll, AreAncillary;
    var ihdr := Chunk(IHDR, U32Bytes(a.width) + U32Bytes(a.height) + a.depths);
    var actl := Chunk(ACTL, U32Bytes(|a.frames|) + U32Bytes(a.loops));
    PairReads(a.width, a.height, a.depths);
    PairReads(|a.frames|, a.loops, []);
    assert actl.data == U32Bytes(|a.frames|) + U32Bytes(a.loops) + [];
    NothingStepped();
    assert [ihdr] == [] + [ihdr];
    StepNext([], ihdr);
    AncillaryStep([ihdr], a.before);
    StepNext([ihdr] + a.before, actl);
    var cs := [ihdr] + a.before + [actl];
    assert StepAll(cs) == Ok(StateAfter(a, 0).(sawIdat := false));
    if a.fallback.Some? {
      AncillaryStep(cs, a.between);
      IdatsStep(cs + a.between, a.fallback.value, StateAfter(a, 0).(sawIdat := false));
      assert Head(a) == cs + a.between + Idats(a.fallback.value);
    } else {
      assert Head(a) == cs;
    }
  }

  lemma NothingStepped()
    ensures StepAll([]) == Ok(INITIAL_STATE)
  {
  }

  lemma {:induction false} BegunStep(a: Animation, n: nat)
    requires IsAnimation(a) && n <= |a.frames|
    ensures StepAll(Begun(a, n)) == Ok(StateAfter(a, n))
  {
    hide StepAll, AreAncillary;
    if n == 0 {
      HeadStep(a);
    } else {
      BegunStep(a, n - 1);
      var cs, f := Begun(a, n - 1), n - 1;
      var fctl := Chunk(FCTL, ControlBytes(Numbered(a, f)));
      ControlStep(a, f);
      StepNext(cs, fctl);
      DataStep(a, f, cs + [fctl]);
    }
  }

  /** The state between the control of frame f and its data. */
  function Controlled(a: Animation, f: nat): ParseState
    requires f < |a.frames| < 0x1_0000_0000
  {
    StateAfter(a, f).(
      result := Description(a.width, a.height, |a.frames|, a.loops, a.fallback.None?, NumberedControls(a, f + 1)),
      frameHasData := false,
      expectedSequence := (Number(a, f) + 1) % 0x1_0000_0000)
  }

  lemma ControlStep(a: Animation, f: nat)
    requires IsAnimation(a) && f < |a.frames|
    ensures StepChunk(StateAfter(a, f), Chunk(FCTL, ControlBytes(Numbered(a, f)))) == Ok(Controlled(a, f))
  {
    hide ControlBytes, ControlAt, Number, AreAncillary;
    var c := Numbered(a, f);
    ControlReadsBack(c);
    NextNumberIs(Number(a, f));
    assert IsFrame(a.frames[f], a.width, a.height);
    assert ControlError(c, a.width, a.height) == None;
    assert NumberedControls(a, f) + [c] == NumberedControls(a, f + 1);
  }

  lemma DataStep(a: Animation, f: nat, cs: seq<Chunk>)
    requires IsAnimation(a) && f < |a.frames| && StepAll(cs) == Ok(Controlled(a, f))
    ensures StepAll(cs + FrameData(a, f)) == Ok(StateAfter(a, f + 1))
  {
    hide StepAll, AreAncillary, Numbered;
    assert IsFrame(a.frames[f], a.width, a.height);
    var parts := a.frames[f].parts;
    if IsDefaultImage(a, f) {
      AncillaryStep(cs, a.between);
      IdatsStep(cs + a.between, parts, Controlled(a, f));
      assert cs + FrameData(a, f) == cs + a.between + Idats(parts);
    } else {
      FdatsStep(cs, Number(a, f) + 1, parts, Controlled(a, f));
    }
  }

  /**
   The parser describes every animation that is written as what it is: canvas, loop count, whether the default image
   is a frame, and each control with its own fields.
   */
  lemma ParserReadsWriter(crc: Crc, a: Animation)
    requires IsAnimation(a) && Bounded(Written(a))
    ensures Parse(crc, Datastream(crc, Written(a)))
         == Ok(Description(a.width, a.height, |a.frames|, a.loops, a.fallback.None?, NumberedControls(a, |a.frames|)))
  {
    hide StepAll, Begun, Parse, ParseFrom, Datastream, AreAncillary, Numbered, Bounded;
    var n := |a.frames|;
    var cs, end := Written(a), Chunk(IEND, []);
    BegunStep(a, n);
    AncillaryStep(Begun(a, n), a.after);
    StepNext(Begun(a, n) + a.after, end);
    assert cs[..|cs|] == cs;
    ParsedSoFar(crc, cs, |cs|);
    ParseEnd(crc, Datastream(crc, cs), StateAfter(a, n));
  }

  // ----- the decoder's walk, chunk by chunk

  /** What the walk has gathered after these chunks: how many controls and images, the header, the shared chunks, the data of frame f. */
  datatype Gathering = Gathering(controls: nat, images: nat, header: seq<Byte>, shared: seq<Chunk>, data: seq<Byte>)

  function Gathered(cs: seq<Chunk>, f: nat): Gathering {
    Gathering(Count(cs, FCTL), Count(cs, IDAT), HeaderData(cs), SharedChunks(cs), FramePayload(cs, f))
  }

  /** Image data belongs to the frame whose control came last. */
  function WithData(g: Gathering, f: nat, data: seq<Byte>): Gathering {
    if g.controls == f + 1 then g.(data := g.data + data) else g
  }

  lemma GatherNext(cs: seq<Chunk>, c: Chunk, f: nat)
    ensures var g, h := Gathered(cs, f), Gathered(cs + [c], f);
            && (c.tag == IHDR ==> h == g.(header := c.data))
            && (c.tag == ACTL ==> h == g)
            && (c.tag == FCTL ==> h == g.(controls := g.controls + 1))
            && (c.tag == IDAT ==> h == WithData(g, f, c.data).(images := g.images + 1))
            && (c.tag == FDAT && |c.data| >= 4 ==> h == WithData(g, f, c.data[4..]))
            && (IsAncillary(c) || c.tag == IEND ==> h == if g.images == 0 then g.(shared := g.shared + [c]) else g)
  {
    hide HeaderData, SharedChunks, FramePayload, Count;
    var all := cs + [c];
    NextChunk(all, |cs|);
    assert all[..|cs|] == cs && all[..|cs| + 1] == all && all[|cs|] == c;
    assert FramePayload(cs, f) + [] == FramePayload(cs, f);
  }

  lemma {:induction false} AncillaryGathered(cs: seq<Chunk>, more: seq<Chunk>, f: nat)
    requires AreAncillary(more)
    ensures var g := Gathered(cs, f); Gathered(cs + more, f) == if g.images == 0 then g.(shared := g.shared + more) else g
  {
    hide Gathered;
    if more == [] {
      assert cs + more == cs;
      assert Gathered(cs, f).shared + more == Gathered(cs, f).shared;
    } else {
      var front, c := more[..|more| - 1], more[|more| - 1];
      AncillaryGathered(cs, front, f);
      assert IsAncillary(c) && cs + more == (cs + front) + [c];
      GatherNext(cs + front, c, f);
      assert Gathered(cs, f).shared + more == Gathered(cs, f).shared + front + [c];
    }
  }

  lemma DataJoins(g: Gathering, f: nat, parts: seq<seq<Byte>>)
    ensures parts == [] ==> WithData(g, f, Joined(parts)) == g
    ensures parts != [] ==>
              WithData(g, f, Joined(parts)) == WithData(WithData(g, f, Joined(parts[..|parts| - 1])), f, parts[|parts| - 1])
  {
    if parts == [] {
      assert g.data + Joined(parts) == g.data;
    } else {
      assert g.data + Joined(parts) == g.data + Joined(parts[..|parts| - 1]) + parts[|parts| - 1];
    }
  }

  lemma ImagesApart(g: Gathering, f: nat, part: seq<Byte>, images: nat)
    ensures WithData(g.(images := images), f, part) == WithData(g, f, part).(images := images)
    ensures WithData(g, f, part).images == g.images
  {
  }

  lemma {:induction false} IdatsGathered(cs: seq<Chunk>, parts: seq<seq<Byte>>, f: nat)
    ensures var g := Gathered(cs, f); Gathered(cs + Idats(parts), f) == WithData(g, f, Joined(parts)).(images := g.images + |parts|)
  {
    hide Gathered, WithData;
    var g := Gathered(cs, f);
    DataJoins(g, f, parts);
    if parts == [] {
      assert cs + Idats(parts) == cs;
    } else {
      var front, part := parts[..|parts| - 1], parts[|parts| - 1];
      IdatsGathered(cs, front, f);
      assert cs + Idats(parts) == (cs + Idats(front)) + [Chunk(IDAT, part)];
      GatherNext(cs + Idats(front), Chunk(IDAT, part), f);
      ImagesApart(WithData(g, f, Joined(front)), f, part, g.images + |front|);
    }
  }

  lemma {:induction false} FdatsGathered(cs: seq<Chunk>, n: nat, parts: seq<seq<Byte>>, f: nat)
    ensures Gathered(cs + Fdats(n, parts), f) == WithData(Gathered(cs, f), f, Joined(parts))
  {
    hide Gathered, U32Bytes, ReadU32, WithData;
    var g := Gathered(cs, f);
    DataJoins(g, f, parts);
    if parts == [] {
      assert cs + Fdats(n, parts) == cs;
    } else {
      var last := |parts| - 1;
      var front, c := parts[..last], Chunk(FDAT, U32Bytes((n + last) % 0x1_0000_0000) + parts[last]);
      FdatsGathered(cs, n, front, f);
      assert cs + Fdats(n, parts) == (cs + Fdats(n, front)) + [c];
      GatherNext(cs + Fdats(n, front), c, f);
      NumberReads((n + last) % 0x1_0000_0000, parts[last]);
    }
  }

  /** What is gathered from the first n frames. */
  ghost predicate HasGathered(a: Animation, n: nat, g: Gathering, f: nat)
    requires f < |a.frames|
  {
    && g.controls == n && (g.images > 0 <==> n > 0 || a.fallback.Some?)
    && g.header == U32Bytes(a.width) + U32Bytes(a.height) + a.depths
    && g.shared == (if g.images > 0 then a.before + a.between else a.before)
    && g.data == if f < n then Joined(a.frames[f].parts) else []
  }

  lemma HeadGathered(a: Animation, f: nat)
    requires IsAnimation(a) && f < |a.frames|
    ensures HasGathered(a, 0, Gathered(Head(a), f), f)
  {
    hide U32Bytes, Gathered, AreAncillary, Idats;
    var ihdr := Chunk(IHDR, U32Bytes(a.width) + U32Bytes(a.height) + a.depths);
    var actl := Chunk(ACTL, U32Bytes(|a.frames|) + U32Bytes(a.loops));
    NothingGathered(f);
    assert [ihdr] == [] + [ihdr] && [] + a.before == a.before;
    GatherNext([], ihdr, f);
    AncillaryGathered([ihdr], a.before, f);
    GatherNext([ihdr] + a.before, actl, f);
    var cs := [ihdr] + a.before + [actl];
    assert Gathered(cs, f) == Gathering(0, 0, ihdr.data, a.before, []);
    if a.fallback.Some? {
      AncillaryGathered(cs, a.between, f);
      IdatsGathered(cs + a.between, a.fallback.value, f);
      assert Head(a) == cs + a.between + Idats(a.fallback.value);
    } else {
      assert Head(a) == cs;
    }
  }

  lemma NothingGathered(f: nat)
    ensures Gathered([], f) == Gathering(0, 0, NO_HEADER, [], [])
  {
  }

  lemma {:induction false} BegunGathered(a: Animation, n: nat, f: nat)
    requires IsAnimation(a) && n <= |a.frames| && f < |a.frames|
    ensures HasGathered(a, n, Gathered(Begun(a, n), f), f)
  {
    hide U32Bytes, Gathered, AreAncillary, ControlBytes, Numbered, Idats, Fdats, Head;
    if n == 0 {
      HeadGathered(a, f);
    } else {
      BegunGathered(a, n - 1, f);
      var cs := Begun(a, n - 1);
      var fctl := Chunk(FCTL, ControlBytes(Numbered(a, n - 1)));
      GatherNext(cs, fctl, f);
      DataGathered(a, n - 1, cs + [fctl], f);
    }
  }

  lemma DataGathered(a: Animation, n: nat, cs: seq<Chunk>, f: nat)
    requires IsAnimation(a) && n < |a.frames| && f < |a.frames|
    requires var g := Gathered(cs, f); g.controls == n + 1 && HasGathered(a, n, g.(controls := n), f)
    ensures HasGathered(a, n + 1, Gathered(cs + FrameData(a, n), f), f)
  {
    hide U32Bytes, Gathered, AreAncillary, Idats, Fdats;
    var parts := a.frames[n].parts;
    assert IsFrame(a.frames[n], a.width, a.height);
    assert [] + Joined(parts) == Joined(parts);
    if IsDefaultImage(a, n) {
      AncillaryGathered(cs, a.between, f);
      IdatsGathered(cs + a.between, parts, f);
      assert cs + FrameData(a, n) == cs + a.between + Idats(parts);
    } else {
      FdatsGathered(cs, Number(a, n) + 1, parts, f);
    }
  }

  /** The walk finds what was written: each frame's parts joined, the ancillary chunks before the image data, the header. */
  lemma WalkGathersWritten(a: Animation, f: nat)
    requires IsAnimation(a) && f < |a.frames|
    ensures var cs := Written(a);
            && FramePayload(cs, f) == Joined(a.frames[f].parts)
            && SharedChunks(cs) == a.before + a.between
            && HeaderData(cs) == U32Bytes(a.width) + U32Bytes(a.height) + a.depths
  {
    hide U32Bytes, Begun, FramePayload, AreAncillary;
    var n, end := |a.frames|, Chunk(IEND, []);
    BegunGathered(a, n, f);
    AncillaryGathered(Begun(a, n), a.after, f);
    GatherNext(Begun(a, n) + a.after, end, f);
    var g := Gathered(Written(a), f);
  }

  /** A frame as a PNG of its own. */
  function FramePng(a: Animation, f: nat): seq<Chunk>
    requires f < |a.frames|
  {
    [Chunk(IHDR, U32Bytes(a.frames[f].control.width) + U32Bytes(a.frames[f].control.height) + a.depths)]
    + a.before + a.between
    + [Chunk(IDAT, Joined(a.frames[f].parts)), Chunk(IEND, [])]
  }

  /** Frame f has data, and libpng reads the image from the frame's PNG. */
  ghost predicate IsReadAs(crc: Crc, reader: PngReader, a: Animation, f: nat, image: nat -> Byte)
    requires f < |a.frames|
  {
    var c := a.frames[f].control;
    && Joined(a.frames[f].parts) != [] && c.width * c.height * 4 <= SIZE_MAX
    && reader(Datastream(crc, FramePng(a, f))) == Image(c.width, c.height, c.width * c.height * 4, Some(image))
  }

  predicate IsImage(frame: DecodedFrame, control: FrameControl, image: nat -> Byte) {
    && frame.control == control
    && |frame.rgba| == control.width * control.height * 4
    && forall i: nat | i < |frame.rgba| :: frame.rgba[i] == image(i)
  }

  /**
   Decoding undoes writing. For every animation with data in each frame, if libpng reads `images[f]` from the PNG of frame f,
   then what is decoded is the canvas and, in order, each control with exactly the bytes of its image.
   */
  lemma DecoderUndoesWriter(crc: Crc, reader: PngReader, a: Animation, images: seq<nat -> Byte>)
    requires IsAnimation(a) && Bounded(Written(a)) && |images| == |a.frames|
    requires forall f | 0 <= f < |a.frames| :: IsReadAs(crc, reader, a, f, images[f])
    ensures var r := DecodedOf(crc, reader, Datastream(crc, Written(a)));
            && r.Ok? && r.value.canvasWidth == a.width && r.value.canvasHeight == a.height && |r.value.frames| == |a.frames|
            && forall f | 0 <= f < |a.frames| :: IsImage(r.value.frames[f], Numbered(a, f), images[f])
  {
    hide Parse, Datastream, Written, WellFormed, DecodePng, FrameChunks, FramePayload, HeaderData, DecodeFrames, IsFrame, IsReadAs, IsImage, Numbered;
    var body, cs := Datastream(crc, Written(a)), Written(a);
    ParserReadsWriter(crc, a);
    SameChunks(crc, ChunksOf(crc, body), cs);
    forall f: nat | f < |a.frames|
      ensures |HeaderData(cs)| == 13 && Readable(crc, reader, cs, Numbered(a, f), f)
      ensures IsImage(DecodedFrame(Numbered(a, f), DecodePng(reader, Datastream(crc, FrameChunks(cs, Numbered(a, f), f)), Numbered(a, f)).value), Numbered(a, f), images[f])
    {
      FrameIsRead(crc, reader, a, f, images[f]);
    }
    DecodesReadableFrames(crc, reader, body);
  }

  lemma FrameIsRead(crc: Crc, reader: PngReader, a: Animation, f: nat, image: nat -> Byte)
    requires IsAnimation(a) && f < |a.frames| && IsReadAs(crc, reader, a, f, image)
    ensures |HeaderData(Written(a))| == 13 && Readable(crc, reader, Written(a), Numbered(a, f), f)
    ensures var png := Datastream(crc, FrameChunks(Written(a), Numbered(a, f), f));
            IsImage(DecodedFrame(Numbered(a, f), DecodePng(reader, png, Numbered(a, f)).value), Numbered(a, f), image)
  {
    hide Datastream, Written, DecodePng, FramePng, Joined, FrameChunks, FramePayload, HeaderData;
    FrameIsItsPng(a, f);
    assert IsFrame(a.frames[f], a.width, a.height);
    DecodePngIsExact(reader, Datastream(crc, FramePng(a, f)), Numbered(a, f));
  }

  /** What the decoder rebuilds for a frame is the frame's own PNG. */
  lemma FrameIsItsPng(a: Animation, f: nat)
    requires IsAnimation(a) && f < |a.frames|
    ensures |HeaderData(Written(a))| == 13 && FrameChunks(Written(a), Numbered(a, f), f) == FramePng(a, f)
    ensures FramePayload(Written(a), f) == Joined(a.frames[f].parts)
  {
    hide U32Bytes, Written, HeaderData, SharedChunks, FramePayload, Joined;
    WalkGathersWritten(a, f);
    var size := U32Bytes(a.width) + U32Bytes(a.height);
    assert (size + a.depths)[8..] == a.depths;
  }

  /** And the classifier takes it for an animation, with a palette exactly when one is written before the image data. */
  lemma ClassifierKnowsWritten(crc: Crc, a: Animation)
    requires IsAnimation(a) && Bounded(Written(a))
    ensures Classify(Datastream(crc, Written(a))) ==
            if exists k | 0 <= k < |a.before + a.between| :: (a.before + a.between)[k].tag == PLTE then Palette else Animated
  {
    hide Parse, Datastream, Written, Classify, PaletteBeforeData, BeforeEnd;
    var body, cs := Datastream(crc, Written(a)), Written(a);
    ParserReadsWriter(crc, a);
    WalkGathersWritten(a, 0);
    OneEnd(a);
    ClassifierAgreesWithParser(crc, body, cs);
    SharedPalette(cs);
  }

  lemma OneEnd(a: Animation)
    requires IsAnimation(a)
    ensures var cs := Written(a); cs != [] && cs[|cs| - 1].tag == IEND && Count(cs, IEND) == 1
  {
    hide Begun, AreAncillary;
    var n, end := |a.frames|, Chunk(IEND, []);
    NoEndBegun(a, n);
    NoEndIn(a.after);
    CountConcat(Begun(a, n), a.after, IEND);
    CountConcat(Begun(a, n) + a.after, [end], IEND);
    assert [end][..0] == [];
  }

  lemma {:induction false} NoEndIn(cs: seq<Chunk>)
    requires AreAncillary(cs)
    ensures Count(cs, IEND) == 0
  {
    if cs != [] {
      NoEndIn(cs[..|cs| - 1]);
    }
  }

  lemma {:induction false} DataOnly(n: nat, parts: seq<seq<Byte>>)
    ensures Count(Idats(parts), IEND) == 0 && Count(Fdats(n, parts), IEND) == 0
  {
    hide U32Bytes;
    if parts != [] {
      DataOnly(n, parts[..|parts| - 1]);
    }
  }

  lemma NoEndConcat(a: seq<Chunk>, b: seq<Chunk>)
    ensures Count(a + b, IEND) == 0 <==> Count(a, IEND) == 0 && Count(b, IEND) == 0
  {
    CountConcat(a, b, IEND);
  }

  lemma {:induction false} NoEndBegun(a: Animation, n: nat)
    requires IsAnimation(a) && n <= |a.frames|
    ensures Count(Begun(a, n), IEND) == 0
  {
    hide Count, Head, FrameData, ControlBytes;
    if n == 0 {
      NoEndHead(a);
    } else {
      var fctl := Chunk(FCTL, ControlBytes(Numbered(a, n - 1)));
      NoEndBegun(a, n - 1);
      OneOther(fctl);
      NoEndConcat(Begun(a, n - 1), [fctl]);
      NoEndData(a, n - 1);
      NoEndConcat(Begun(a, n - 1) + [fctl], FrameData(a, n - 1));
    }
  }

  lemma NoEndData(a: Animation, f: nat)
    requires IsAnimation(a) && f < |a.frames|
    ensures Count(FrameData(a, f), IEND) == 0
  {
    hide Count, AreAncillary, Idats, Fdats;
    var parts := a.frames[f].parts;
    DataOnly(Number(a, f) + 1, parts);
    NoEndIn(a.between);
    NoEndConcat(a.between, Idats(parts));
  }

  lemma NoEndHead(a: Animation)
    requires IsAnimation(a)
    ensures Count(Head(a), IEND) == 0
  {
    hide Count, AreAncillary, Idats, U32Bytes;
    var ihdr := Chunk(IHDR, U32Bytes(a.width) + U32Bytes(a.height) + a.depths);
    var actl := Chunk(ACTL, U32Bytes(|a.frames|) + U32Bytes(a.loops));
    OneOther(ihdr);
    OneOther(actl);
    NoEndIn(a.before);
    NoEndIn(a.between);
    NoEndConcat([ihdr], a.before);
    NoEndConcat([ihdr] + a.before, [actl]);
    if a.fallback.Some? {
      DataOnly(0, a.fallback.value);
      NoEndConcat(a.between, Idats(a.fallback.value));
      NoEndConcat([ihdr] + a.before + [actl], a.between + Idats(a.fallback.value));
    } else {
      assert Head(a) == [ihdr] + a.before + [actl];
    }
  }

  lemma OneOther(c: Chunk)
    requires c.tag != IEND
    ensures Count([c], IEND) == 0
  {
    assert [c][..0] == [];
  }

  /** A palette is shared exactly when it stands before the image data. */
  lemma {:induction false} SharedPalette(cs: seq<Chunk>)
    ensures PaletteBeforeData(cs) <==> exists k | 0 <= k < |SharedChunks(cs)| :: SharedChunks(cs)[k].tag == PLTE
  {
    hide PaletteBeforeData;
    if cs == [] {
      NoPalette();
    } else {
      var n := |cs| - 1;
      var front, c, shared := cs[..n], cs[n], SharedChunks(cs[..n]);
      SharedPalette(front);
      PaletteGrows(cs, n);
      assert cs[..n + 1] == cs;
      if IsShared(c) && Count(front, IDAT) == 0 {
        assert SharedChunks(cs) == shared + [c];
        assert c.tag == PLTE ==> SharedChunks(cs)[|shared|].tag == PLTE;
        assert forall k | 0 <= k < |shared| :: SharedChunks(cs)[k] == shared[k];
      } else {
        assert SharedChunks(cs) == shared;
      }
    }
  }

  lemma NoPalette()
    ensures !PaletteBeforeData([])
  {
  }
}
