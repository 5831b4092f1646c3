/**
 The rules of the format, chunk by chunk: what an accepted body looks like to someone who only compares positions,
 and which rule a refused body breaks first.
 */
module ApngRules {
  import opened Bytes
  import opened PngChunks
  import opened Wrappers
  import opened ApngParser
  import opened ApngStream

  // ----- accepted: the order of the chunks

  ghost predicate IsAt(cs: seq<Chunk>, k: int, tag: Word) {
    0 <= k < |cs| && cs[k].tag == tag
  }

  /** Exactly one header and one animation control; the header before the control, the control before all images and frames. */
  ghost predicate OneOfEach(cs: seq<Chunk>) {
    && (exists i :: IsAt(cs, i, IHDR)) && (forall i, j :: IsAt(cs, i, IHDR) && IsAt(cs, j, IHDR) ==> i == j)
    && (exists i :: IsAt(cs, i, ACTL)) && (forall i, j :: IsAt(cs, i, ACTL) && IsAt(cs, j, ACTL) ==> i == j)
    && (forall i, j :: IsAt(cs, i, IHDR) && IsAt(cs, j, ACTL) ==> i < j)
    && (forall i, j :: IsAt(cs, i, ACTL) && (IsAt(cs, j, IDAT) || IsAt(cs, j, FCTL)) ==> i < j)
  }

  /** Between any two frame controls, and after the last, there is image data; and there is a frame. */
  ghost predicate EveryFrameHasData(cs: seq<Chunk>) {
    && (exists k :: IsAt(cs, k, FCTL))
    && (forall j, k :: IsAt(cs, j, FCTL) && IsAt(cs, k, FCTL) && j < k ==> exists i :: j < i < k && IsData(cs[i]))
    && (forall j :: IsAt(cs, j, FCTL) ==> exists i :: j < i < |cs| && IsData(cs[i]))
  }

  /**
   No IDAT follows a second frame control, and if one precedes the first control, none follows any: IDAT is frame 0 or
   no frame. An fdAT follows an IDAT and a control, and belongs to another frame than the IDATs do.
   */
  ghost predicate ImagesAreApart(cs: seq<Chunk>) {
    && (forall i, j, k :: IsAt(cs, i, FCTL) && IsAt(cs, j, FCTL) && i < j && IsAt(cs, k, IDAT) ==> k < j)
    && (forall i, j, k :: IsAt(cs, i, IDAT) && IsAt(cs, j, FCTL) && i < j && IsAt(cs, k, IDAT) && FirstControl(cs, j) ==> k < j)
    && (forall k :: IsAt(cs, k, FDAT) ==> exists i :: i < k && IsAt(cs, i, IDAT))
    && (forall k :: IsAt(cs, k, FDAT) ==> exists i :: i < k && IsAt(cs, i, FCTL))
    && (forall i, k :: IsAt(cs, i, FCTL) && FirstControl(cs, i) && IsAt(cs, k, FDAT) && (forall m :: IsAt(cs, m, IDAT) ==> i < m) ==>
          exists j :: i < j < k && IsAt(cs, j, FCTL))
  }

  ghost predicate FirstControl(cs: seq<Chunk>, k: int) {
    forall i :: IsAt(cs, i, FCTL) ==> k <= i
  }

  /** Every accepted body keeps these rules. */
  lemma AcceptedKeepsOrder(crc: Crc, body: seq<Byte>, cs: seq<Chunk>)
    requires Parse(crc, body).Ok? && Bounded(cs) && body == Datastream(crc, cs)
    ensures OneOfEach(cs) && EveryFrameHasData(cs) && ImagesAreApart(cs)
  {
    hide Parse, WellFormed, Datastream, OneOfEach, EveryFrameHasData, ImagesAreApart;
    AcceptedIsWellFormed(crc, body, cs);
    var d := Parse(crc, body).value;
    HasOneOfEach(cs, d);
    HasData(cs, d);
    HasImagesApart(cs, d);
  }

  /** A count is positive exactly when there is such a chunk, and at most one exactly when there are no two. */
  lemma CountedIsThere(cs: seq<Chunk>, k: nat, tag: Word)
    requires k <= |cs|
    ensures Count(cs[..k], tag) > 0 <==> exists i :: i < k && IsAt(cs, i, tag)
    ensures forall i, j :: IsAt(cs, i, tag) && IsAt(cs, j, tag) && i < j < k ==> Count(cs[..k], tag) >= 2
  {
    if Count(cs[..k], tag) > 0 {
      var i := Find(cs[..k], tag);
      assert IsAt(cs, i, tag);
    }
    forall i | i < k && IsAt(cs, i, tag)
      ensures Count(cs[..k], tag) >= Count(cs[..i], tag) + 1
    {
      CountsEach(cs[..k], i, tag);
      assert cs[..k][..i] == cs[..i];
    }
    forall i, j | IsAt(cs, i, tag) && IsAt(cs, j, tag) && i < j < k
      ensures Count(cs[..k], tag) >= 2
    {
      CountsEach(cs[..j], i, tag);
      assert cs[..j][..i] == cs[..i];
    }
  }

  lemma {:induction false} Find(cs: seq<Chunk>, tag: Word) returns (k: nat)
    requires Count(cs, tag) > 0
    ensures k < |cs| && cs[k].tag == tag
  {
    if cs[|cs| - 1].tag == tag {
      k := |cs| - 1;
    } else {
      k := Find(cs[..|cs| - 1], tag);
    }
  }

  lemma HasOneOfEach(cs: seq<Chunk>, d: Description)
    requires WellFormed(cs, d)
    ensures OneOfEach(cs)
  {
    hide Headed, InsideCanvas, Operable, Controls, SequenceNumbers, Count, DataChunks;
    assert cs[..|cs|] == cs;
    CountedIsThere(cs, |cs|, IHDR);
    CountedIsThere(cs, |cs|, ACTL);
    forall k | 0 <= k < |cs|
      ensures cs[k].tag == ACTL ==> exists i :: i < k && IsAt(cs, i, IHDR)
      ensures cs[k].tag == IDAT || cs[k].tag == FCTL ==> exists i :: i < k && IsAt(cs, i, ACTL)
    {
      assert Placed(cs, k, d.defaultImageIsFrame);
      CountedIsThere(cs, k, IHDR);
      CountedIsThere(cs, k, ACTL);
    }
  }

  /** The data of a frame stands after its control. */
  lemma {:induction false} DataOf(cs: seq<Chunk>, frame: nat) returns (i: nat)
    requires DataChunks(cs, frame) > 0
    ensures i < |cs| && IsData(cs[i]) && Count(cs[..i], FCTL) == frame + 1
  {
    i := |cs| - 1;
    if !IsData(cs[i]) || Count(cs, FCTL) != frame + 1 {
      i := DataOf(cs[..|cs| - 1], frame);
      assert cs[..|cs| - 1][..i] == cs[..i];
    }
  }

  /** Fewer controls stand before an earlier place. */
  lemma LaterPlace(cs: seq<Chunk>, i: nat, j: nat)
    requires i <= |cs| && j < |cs| && cs[j].tag == FCTL && Count(cs[..i], FCTL) > Count(cs[..j], FCTL)
    ensures j < i
  {
    if i <= j {
      assert cs[..j][..i] == cs[..i];
      CountPrefix(cs[..j], i, FCTL);
    }
  }

  lemma HasData(cs: seq<Chunk>, d: Description)
    requires WellFormed(cs, d)
    ensures EveryFrameHasData(cs)
  {
    hide Headed, InsideCanvas, Operable, Controls, SequenceNumbers, Count, DataChunks;
    assert cs[..|cs|] == cs;
    CountedIsThere(cs, |cs|, FCTL);
    forall j, k | IsAt(cs, j, FCTL) && IsAt(cs, k, FCTL) && j < k
      ensures exists i :: j < i < k && IsData(cs[i])
    {
      assert Placed(cs, k, d.defaultImageIsFrame);
      CountedIsThere(cs, k, FCTL);
      var i := DataOf(cs[..k], Count(cs[..k], FCTL) - 1);
      assert cs[..k][..i] == cs[..i];
      CountsEach(cs[..k], j, FCTL);
      assert cs[..k][..j] == cs[..j];
      LaterPlace(cs, i, j);
      assert i != j;
    }
    forall j | IsAt(cs, j, FCTL)
      ensures exists i :: j < i < |cs| && IsData(cs[i])
    {
      assert DataChunks(cs, |d.frames| - 1) >= 1;
      var i := DataOf(cs, |d.frames| - 1);
      CountsEach(cs, j, FCTL);
      LaterPlace(cs, i, j);
      assert i != j;
    }
  }

  /** The first control decides whether the default image is a frame. */
  lemma FirstDecides(cs: seq<Chunk>, d: Description, j: nat)
    requires WellFormed(cs, d) && IsAt(cs, j, FCTL) && FirstControl(cs, j)
    ensures d.defaultImageIsFrame <==> forall m :: IsAt(cs, m, IDAT) ==> j < m
    ensures Count(cs[..j], FCTL) == 0
  {
    hide Headed, InsideCanvas, Operable, Controls, SequenceNumbers, Count, DataChunks;
    assert Placed(cs, j, d.defaultImageIsFrame);
    CountedIsThere(cs, j, FCTL);
    CountedIsThere(cs, j, IDAT);
  }

  lemma HasImagesApart(cs: seq<Chunk>, d: Description)
    requires WellFormed(cs, d)
    ensures ImagesAreApart(cs)
  {
    hide FirstControl, WellFormed;
    forall i, j, k | IsAt(cs, i, FCTL) && IsAt(cs, j, FCTL) && i < j && IsAt(cs, k, IDAT)
      ensures k < j
    {
      ImagePlace(cs, d, k);
    }
    forall i, j, k | IsAt(cs, i, IDAT) && IsAt(cs, j, FCTL) && i < j && IsAt(cs, k, IDAT) && FirstControl(cs, j)
      ensures k < j
    {
      ImagePlace(cs, d, k);
      FirstDecides(cs, d, j);
    }
    forall k | IsAt(cs, k, FDAT)
      ensures exists i :: i < k && IsAt(cs, i, IDAT)
      ensures exists i :: i < k && IsAt(cs, i, FCTL)
    {
      FramePlace(cs, d, k);
    }
    forall i, k | IsAt(cs, i, FCTL) && FirstControl(cs, i) && IsAt(cs, k, FDAT) && (forall m :: IsAt(cs, m, IDAT) ==> i < m)
      ensures exists j :: i < j < k && IsAt(cs, j, FCTL)
    {
      FirstDecides(cs, d, i);
      FramePlace(cs, d, k);
      SecondControl(cs, i, k);
    }
  }

  lemma ImagePlace(cs: seq<Chunk>, d: Description, k: nat)
    requires WellFormed(cs, d) && IsAt(cs, k, IDAT)
    ensures forall i, j :: IsAt(cs, i, FCTL) && IsAt(cs, j, FCTL) && i < j ==> k <= j
    ensures !d.defaultImageIsFrame ==> forall j :: IsAt(cs, j, FCTL) ==> k <= j
  {
    hide WellFormed, Count, DataChunks;
    PlacedAt(cs, d, k);
    CountedIsThere(cs, k, FCTL);
  }

  lemma FramePlace(cs: seq<Chunk>, d: Description, k: nat)
    requires WellFormed(cs, d) && IsAt(cs, k, FDAT)
    ensures Count(cs[..k], FCTL) >= if d.defaultImageIsFrame then 2 else 1
    ensures exists i :: i < k && IsAt(cs, i, IDAT)
    ensures exists i :: i < k && IsAt(cs, i, FCTL)
  {
    hide WellFormed, Count, DataChunks;
    PlacedAt(cs, d, k);
    CountedIsThere(cs, k, FCTL);
    CountedIsThere(cs, k, IDAT);
  }

  lemma PlacedAt(cs: seq<Chunk>, d: Description, k: nat)
    requires WellFormed(cs, d) && k < |cs|
    ensures Placed(cs, k, d.defaultImageIsFrame)
  {
  }

  lemma SecondControl(cs: seq<Chunk>, i: nat, k: nat)
    requires k < |cs| && IsAt(cs, i, FCTL) && FirstControl(cs, i) && Count(cs[..k], FCTL) >= 2
    ensures exists j :: i < j < k && IsAt(cs, j, FCTL)
  {
    hide Count;
    var j := LastControl(cs[..k]);
    assert cs[..k][..j] == cs[..j] && IsAt(cs, j, FCTL);
    CountedIsThere(cs, j, FCTL);
  }

  lemma {:induction false} LastControl(cs: seq<Chunk>) returns (j: nat)
    requires Count(cs, FCTL) >= 2
    ensures j < |cs| && cs[j].tag == FCTL && Count(cs[..j], FCTL) >= 1
  {
    j := |cs| - 1;
    if cs[j].tag != FCTL {
      j := LastControl(cs[..|cs| - 1]);
      assert cs[..|cs| - 1][..j] == cs[..j];
    }
  }

  // ----- refused: the first rule that is broken

  /** The first frame control stands before all image data. */
  ghost predicate DefaultImageIsFrame(cs: seq<Chunk>) {
    exists j :: IsAt(cs, j, FCTL) && FirstControl(cs, j) && forall m :: IsAt(cs, m, IDAT) ==> j < m
  }

  /** The rectangle of an fcTL is not empty and lies inside the canvas of an IHDR. */
  predicate FitsCanvas(control: seq<Byte>, header: seq<Byte>)
    requires |control| == 26 && |header| == 13
  {
    var width, height, x, y := BigEndian(control[4..8]), BigEndian(control[8..12]), BigEndian(control[12..16]), BigEndian(control[16..20]);
    0 < width && 0 < height && x + width <= BigEndian(header[0..4]) && y + height <= BigEndian(header[4..8])
  }

  /** After the chunks `cs`, the chunk c breaks the rule that e names. */
  ghost predicate BreaksRule(cs: seq<Chunk>, c: Chunk, e: ApngParseError) {
    var frames := Count(cs, FCTL);
    match e
    case Ihdr =>
      c.tag == IHDR && (Count(cs, IHDR) > 0 || |c.data| != 13 || BigEndian(c.data[0..4]) == 0 || BigEndian(c.data[4..8]) == 0)
    case AnimationControl =>
      c.tag == ACTL && (Count(cs, IHDR) == 0 || Count(cs, ACTL) > 0 || Count(cs, IDAT) > 0 || |c.data| != 8 || BigEndian(c.data[0..4]) == 0)
    case FrameControlError =>
      c.tag == FCTL && (Count(cs, IHDR) == 0 || Count(cs, ACTL) == 0 || |c.data| != 26)
    case FrameData =>
      || (c.tag == FCTL && frames > 0 && DataChunks(cs, frames - 1) == 0)
      || (c.tag == IDAT && (Count(cs, ACTL) == 0 || frames > 1 || (frames == 1 && !DefaultImageIsFrame(cs))))
      || (c.tag == FDAT && (Count(cs, IDAT) == 0 || frames == 0 || |c.data| < 4 || (frames == 1 && DefaultImageIsFrame(cs))))
    case Sequence =>
      && ((c.tag == FCTL && |c.data| == 26) || (c.tag == FDAT && |c.data| >= 4))
      && BigEndian(c.data[0..4]) != |SequenceNumbers(cs)| % 0x1_0000_0000
    case FrameRectangle =>
      c.tag == FCTL && |c.data| == 26 && exists h :: h in cs && h.tag == IHDR && |h.data| == 13 && !FitsCanvas(c.data, h.data)
    case DelayDenominator => c.tag == FCTL && |c.data| == 26 && BigEndian(c.data[22..24]) == 0
    case DisposeOperation => c.tag == FCTL && |c.data| == 26 && c.data[24] > 2
    case BlendOperation => c.tag == FCTL && |c.data| == 26 && c.data[25] > 1
    case _ => false
  }

  /** The order in which the rules are checked. */
  function Rank(e: ApngParseError): nat {
    match e
    case Ihdr => 0
    case AnimationControl => 1
    case FrameControlError => 2
    case FrameData => 3
    case Sequence => 4
    case FrameRectangle => 5
    case DelayDenominator => 6
    case DisposeOperation => 7
    case BlendOperation => 8
    case _ => 9
  }

  /** The rule that e names is the first that c breaks. */
  ghost predicate BreaksFirst(cs: seq<Chunk>, c: Chunk, e: ApngParseError) {
    BreaksRule(cs, c, e) && forall other | Rank(other) < Rank(e) :: !BreaksRule(cs, c, other)
  }

  /** A body of these chunks lacks something. */
  ghost predicate IsUnfinished(cs: seq<Chunk>) {
    var frames := Count(cs, FCTL);
    || Count(cs, IHDR) == 0 || Count(cs, ACTL) == 0 || frames == 0 || DataChunks(cs, frames - 1) == 0
    || exists c :: c in cs && c.tag == ACTL && |c.data| == 8 && BigEndian(c.data[0..4]) != frames
  }

  /** What follows is no chunk, for the reason that e names. */
  predicate IsNoChunk(crc: Crc, rest: seq<Byte>, e: ApngParseError) {
    match e
    case Truncated => rest != [] && (|rest| < 4 || (BigEndian(rest[0..4]) <= 10 * 1024 * 1024 && |rest| < BigEndian(rest[0..4]) + 12))
    case Length => |rest| >= 4 && BigEndian(rest[0..4]) > 10 * 1024 * 1024
    case Crc =>
      |rest| >= 12 &&
      var n := BigEndian(rest[0..4]);
      n <= 10 * 1024 * 1024 && |rest| >= n + 12 && crc(rest[4..n + 8]) != BigEndian(rest[n + 8..n + 12])
    case _ => false
  }

  /** The body is refused after the chunks `cs`. */
  ghost predicate IsRefusedAfter(crc: Crc, body: seq<Byte>, cs: seq<Chunk>, e: ApngParseError) {
    var start := Datastream(crc, cs);
    && start <= body
    && (|| IsNoChunk(crc, body[|start|..], e)
        || (body == start && e == AnimationControl && IsUnfinished(cs))
        || exists c :: Datastream(crc, cs + [c]) <= body && BreaksFirst(cs, c, e))
  }

  /** Every error says truly what is wrong, and after which chunks. */
  lemma RefusalIsExplained(crc: Crc, body: seq<Byte>) returns (cs: seq<Chunk>)
    requires Parse(crc, body).Err?
    ensures if HasSignature(body) then Bounded(cs) && IsRefusedAfter(crc, body, cs, Parse(crc, body).error) else Parse(crc, body) == Err(Signature)
  {
    hide ParseFrom, IsRefusedAfter;
    cs := [];
    if HasSignature(body) {
      FirstRecord();
      NothingEncoded(crc);
      cs := RefusedFrom(crc, body, |SIGNATURE|, INITIAL_STATE, []);
    }
  }

  lemma {:induction false} RefusedFrom(crc: Crc, body: seq<Byte>, offset: nat, s: ParseState, pre: seq<Chunk>) returns (cs: seq<Chunk>)
    requires Bounded(pre) && offset <= |body| && body[..offset] == Datastream(crc, pre)
    requires Records(s, pre)
    requires ParseFrom(crc, body, offset, s).Err?
    ensures Bounded(cs) && IsRefusedAfter(crc, body, cs, ParseFrom(crc, body, offset, s).error)
    decreases |body| - offset
  {
    hide ReadChunk, Encode, Records, StepChunk, BreaksFirst, IsNoChunk, IsUnfinished, ParseFrom, Datastream, Finish;
    cs := pre;
    var rest := body[offset..];
    if offset == |body| {
      ParseEnd(crc, body, s);
      assert body == body[..offset];
      UnfinishedIs(s, pre);
      return;
    }
    ParseStep(crc, body, offset, s);
    var read := ReadChunk(crc, body, offset);
    if read.Err? {
      NoChunkIs(crc, body, offset);
      return;
    }
    var c := read.value;
    StreamGrows(crc, body, offset, pre);
    var next := StepChunk(s, c);
    if next.Err? {
      RuleIsBroken(s, pre, c);
      assert Datastream(crc, pre + [c]) <= body;
      return;
    }
    StepKeepsRecords(s, pre, c);
    cs := RefusedFrom(crc, body, offset + CHUNK_OVERHEAD + |c.data|, next.value, pre + [c]);
  }

  lemma StreamGrows(crc: Crc, body: seq<Byte>, offset: nat, pre: seq<Chunk>)
    requires Bounded(pre) && offset <= |body| && body[..offset] == Datastream(crc, pre) && ReadChunk(crc, body, offset).Ok?
    ensures var c := ReadChunk(crc, body, offset).value;
            var end := offset + CHUNK_OVERHEAD + |c.data|;
            Bounded(pre + [c]) && end <= |body| && body[..end] == Datastream(crc, pre + [c])
  {
    hide ReadChunk, Encode, EncodeAll;
    EncodeRead(crc, body, offset);
    var c := ReadChunk(crc, body, offset).value;
    EncodeAllAppend(crc, pre, c);
    var end := offset + CHUNK_OVERHEAD + |c.data|;
    assert body[..end] == body[..offset] + body[offset..end];
    Associative(SIGNATURE, EncodeAll(crc, pre), Encode(crc, c));
  }

  lemma NoChunkIs(crc: Crc, body: seq<Byte>, offset: nat)
    requires offset < |body| && ReadChunk(crc, body, offset).Err?
    ensures IsNoChunk(crc, body[offset..], ReadFailure(ReadChunk(crc, body, offset).error))
  {
    hide ReadU32, BigEndian;
    var rest := body[offset..];
    ReadIsBigEndian(body, offset);
    if |rest| >= 4 {
      var n := ReadU32(body, offset);
      assert rest[0..4] == body[offset..offset + 4];
      if n <= MAXIMUM_CHUNK_LENGTH && |rest| >= n + 12 {
        ReadIsBigEndian(body, offset + 8 + n);
        assert rest[4..n + 8] == body[offset + 4..offset + 8 + n] && rest[n + 8..n + 12] == body[offset + 8 + n..offset + 8 + n + 4];
      }
    }
  }

  lemma UnfinishedIs(s: ParseState, cs: seq<Chunk>)
    requires Records(s, cs) && Finish(s).Err?
    ensures Finish(s) == Err(AnimationControl) && IsUnfinished(cs)
  {
    hide ReadU32, ReadU16, InsideCanvas, BigEndian, Count, Placed;
    forall c | c in cs && c.tag == ACTL
      ensures |c.data| == 8 && BigEndian(c.data[0..4]) == s.result.declaredFrames
    {
      ReadIsBigEndian(c.data, 0);
    }
    if s.haveActl {
      var k := Find(cs, ACTL);
      assert cs[k] in cs;
    }
  }

  /** The state knows which of the two the default image is once there is a frame. */
  lemma DefaultIsRecorded(s: ParseState, cs: seq<Chunk>)
    requires RecordsFrames(s, cs) && RecordsPlaces(s, cs) && s.result.frames != []
    ensures s.result.defaultImageIsFrame <==> DefaultImageIsFrame(cs)
  {
    hide Count, DataChunks, InsideCanvas;
    assert cs[..|cs|] == cs;
    var j := FirstControlOf(cs);
    assert Placed(cs, j, s.result.defaultImageIsFrame);
    CountedIsThere(cs, j, IDAT);
    CountedIsThere(cs, j, FCTL);
  }

  lemma {:induction false} FirstControlOf(cs: seq<Chunk>) returns (j: nat)
    requires Count(cs, FCTL) > 0
    ensures IsAt(cs, j, FCTL) && FirstControl(cs, j) && Count(cs[..j], FCTL) == 0
  {
    var front := cs[..|cs| - 1];
    if Count(front, FCTL) > 0 {
      j := FirstControlOf(front);
      assert IsAt(front, j, FCTL) && front[..j] == cs[..j];
      assert forall i :: IsAt(cs, i, FCTL) && i < |front| ==> IsAt(front, i, FCTL);
    } else {
      j := |cs| - 1;
      assert cs[..|cs| - 1] == front;
      CountedIsThere(cs, j, FCTL);
    }
  }

  /** A step that is refused is refused for the first rule it breaks. */
  lemma RuleIsBroken(s: ParseState, cs: seq<Chunk>, c: Chunk)
    requires Records(s, cs) && StepChunk(s, c).Err?
    ensures BreaksFirst(cs, c, StepChunk(s, c).error)
  {
    hide RecordsPlaces, Placed, ReadU32, ReadU16, BigEndian, InsideCanvas, DefaultImageIsFrame, Count, DataChunks;
    if s.result.frames != [] {
      DefaultIsRecorded(s, cs);
    }
    ReadIsBigEndian(c.data, 0);
    ReadIsBigEndian(c.data, 4);
    if c.tag == FCTL && s.haveIhdr && s.haveActl && |c.data| == 26 && (s.result.frames == [] || s.frameHasData) {
      ControlIsBroken(s, cs, c);
    }
  }

  lemma ControlIsBroken(s: ParseState, cs: seq<Chunk>, c: Chunk)
    requires Records(s, cs) && c.tag == FCTL && StepFctl(s, c.data).Err?
    requires s.haveIhdr && s.haveActl && |c.data| == 26 && (s.result.frames == [] || s.frameHasData)
    ensures BreaksFirst(cs, c, StepFctl(s, c.data).error)
  {
    hide RecordsPlaces, Placed, ReadU32, ReadU16, BigEndian, DefaultImageIsFrame, Count, DataChunks;
    ReadIsBigEndian(c.data, 0);
    ReadIsBigEndian(c.data, 4);
    ReadIsBigEndian(c.data, 8);
    ReadIsBigEndian(c.data, 12);
    ReadIsBigEndian(c.data, 16);
    ReadIsBigEndian(c.data, 22);
    var k := Find(cs, IHDR);
    assert cs[k] in cs;
    forall h | h in cs && h.tag == IHDR
      ensures |h.data| == 13 && BigEndian(h.data[0..4]) == s.result.canvasWidth && BigEndian(h.data[4..8]) == s.result.canvasHeight
    {
      ReadIsBigEndian(h.data, 0);
      ReadIsBigEndian(h.data, 4);
    }
  }

  // ----- and the other way round: what breaks a rule is refused, and nothing else is

  /** No chunk breaks a rule after those before it. */
  ghost predicate KeepsRules(cs: seq<Chunk>) {
    forall k, e | 0 <= k < |cs| :: !BreaksRule(cs[..k], cs[k], e)
  }

  /** As long as the rules are kept the parser goes on, in a state that records the chunks. */
  lemma {:induction false} ParserGoesOn(crc: Crc, body: seq<Byte>, cs: seq<Chunk>) returns (s: ParseState)
    requires Bounded(cs) && Datastream(crc, cs) <= body && KeepsRules(cs)
    ensures Records(s, cs) && Parse(crc, body) == ParseFrom(crc, body, |Datastream(crc, cs)|, s)
  {
    hide ReadChunk, Encode, Records, StepChunk, BreaksRule, ParseFrom, Datastream;
    if cs == [] {
      s := INITIAL_STATE;
      FirstRecord();
      StreamStarts(crc, body);
    } else {
      var front, c := cs[..|cs| - 1], cs[|cs| - 1];
      assert cs == front + [c];
      PrefixReads(crc, body, front, c);
      assert forall k | 0 <= k < |front| :: front[..k] == cs[..k] && front[k] == cs[k];
      s := ParserGoesOn(crc, body, front);
      ParseStep(crc, body, |Datastream(crc, front)|, s);
      if StepChunk(s, c).Err? {
        RuleIsBroken(s, front, c);
      }
      StepKeepsRecords(s, front, c);
      s := StepChunk(s, c).value;
    }
  }

  lemma StreamStarts(crc: Crc, body: seq<Byte>)
    requires Datastream(crc, []) <= body
    ensures Parse(crc, body) == ParseFrom(crc, body, |Datastream(crc, [])|, INITIAL_STATE)
  {
    hide ParseFrom;
    NothingEncoded(crc);
  }

  /** The next chunk of a datastream that starts the body is read, with the body going on behind it. */
  lemma PrefixReads(crc: Crc, body: seq<Byte>, cs: seq<Chunk>, c: Chunk)
    requires Bounded(cs + [c]) && Datastream(crc, cs + [c]) <= body
    ensures Bounded(cs) && Datastream(crc, cs) <= body
    ensures var offset := |Datastream(crc, cs)|;
            && offset + CHUNK_OVERHEAD + |c.data| == |Datastream(crc, cs + [c])|
            && ReadChunk(crc, body, offset) == Ok(c)
  {
    hide ReadChunk, Encode, EncodeAll, ReadU32, HasSignature;
    EncodeAllAppend(crc, cs, c);
    var start, offset := Datastream(crc, cs), |Datastream(crc, cs)|;
    Associative(SIGNATURE, EncodeAll(crc, cs), Encode(crc, c));
    assert Datastream(crc, cs + [c]) == start + Encode(crc, c);
    var end := offset + CHUNK_OVERHEAD + |c.data|;
    assert body[offset..end] == (start + Encode(crc, c))[offset..end] == Encode(crc, c);
    assert c in cs + [c] && forall d | d in cs :: d in cs + [c];
    ReadEncoded(crc, c, body, offset);
  }

  /** The first chunk that breaks a rule is refused, and for the first rule that it breaks. */
  lemma BrokenRuleIsRefused(crc: Crc, body: seq<Byte>, cs: seq<Chunk>, c: Chunk, e: ApngParseError)
    requires Bounded(cs + [c]) && Datastream(crc, cs + [c]) <= body && KeepsRules(cs) && BreaksRule(cs, c, e)
    ensures Parse(crc, body).Err? && (BreaksFirst(cs, c, e) ==> Parse(crc, body) == Err(e))
  {
    hide ReadChunk, Records, StepChunk, BreaksRule, ParseFrom, Datastream;
    PrefixReads(crc, body, cs, c);
    var s := ParserGoesOn(crc, body, cs);
    ParseStep(crc, body, |Datastream(crc, cs)|, s);
    BrokenIsRefused(s, cs, c, e);
    RuleIsBroken(s, cs, c);
    if BreaksFirst(cs, c, e) {
      OneIsFirst(cs, c, e, Parse(crc, body).error);
    }
  }

  lemma OneIsFirst(cs: seq<Chunk>, c: Chunk, a: ApngParseError, b: ApngParseError)
    requires BreaksFirst(cs, c, a) && BreaksFirst(cs, c, b)
    ensures a == b
  {
    RanksDiffer(cs, c, a);
    RanksDiffer(cs, c, b);
  }

  lemma RanksDiffer(cs: seq<Chunk>, c: Chunk, e: ApngParseError)
    requires BreaksRule(cs, c, e)
    ensures Rank(e) < 9
  {
  }

  /** What is no chunk is refused for that reason. */
  lemma NoChunkIsRefused(crc: Crc, body: seq<Byte>, cs: seq<Chunk>, e: ApngParseError)
    requires Bounded(cs) && Datastream(crc, cs) <= body && KeepsRules(cs) && IsNoChunk(crc, body[|Datastream(crc, cs)|..], e)
    ensures Parse(crc, body) == Err(e)
  {
    hide ReadChunk, Records, StepChunk, BreaksRule, ParseFrom, Datastream, KeepsRules, IsNoChunk;
    var offset := |Datastream(crc, cs)|;
    var s := ParserGoesOn(crc, body, cs);
    NoChunkIsSomething(crc, body[offset..], e);
    ParseStep(crc, body, offset, s);
    UnreadableIs(crc, body, offset, e);
  }

  lemma NoChunkIsSomething(crc: Crc, rest: seq<Byte>, e: ApngParseError)
    requires IsNoChunk(crc, rest, e)
    ensures rest != []
  {
  }

  lemma UnreadableIs(crc: Crc, body: seq<Byte>, offset: nat, e: ApngParseError)
    requires offset < |body| && IsNoChunk(crc, body[offset..], e)
    ensures ReadChunk(crc, body, offset).Err? && ReadFailure(ReadChunk(crc, body, offset).error) == e
  {
    hide ReadU32, BigEndian;
    var rest := body[offset..];
    ReadIsBigEndian(body, offset);
    if |rest| >= 4 {
      var n := ReadU32(body, offset);
      assert rest[0..4] == body[offset..offset + 4];
      if n <= MAXIMUM_CHUNK_LENGTH && |rest| >= n + 12 {
        ReadIsBigEndian(body, offset + 8 + n);
        assert rest[4..n + 8] == body[offset + 4..offset + 8 + n] && rest[n + 8..n + 12] == body[offset + 8 + n..offset + 8 + n + 4];
      }
    }
  }

  /** A body of whole chunks is accepted exactly when they keep the rules and nothing is missing; what is missing is an error of its own. */
  lemma RulesDecide(crc: Crc, cs: seq<Chunk>)
    requires Bounded(cs)
    ensures Parse(crc, Datastream(crc, cs)).Ok? <==> KeepsRules(cs) && !IsUnfinished(cs)
    ensures KeepsRules(cs) && IsUnfinished(cs) ==> Parse(crc, Datastream(crc, cs)) == Err(AnimationControl)
  {
    hide Records, BreaksRule, ParseFrom, Datastream, IsUnfinished, Finish;
    var body := Datastream(crc, cs);
    if KeepsRules(cs) {
      var s := ParserGoesOn(crc, body, cs);
      ParseEnd(crc, body, s);
      FinishDecides(s, cs);
    } else {
      var n := FirstBroken(cs, 0);
      assert cs[..n] + [cs[n]] == cs[..n + 1];
      StreamPrefix(crc, cs, n + 1);
      var e :| BreaksRule(cs[..n], cs[n], e);
      assert forall k | 0 <= k < n :: cs[..n][..k] == cs[..k];
      BrokenRuleIsRefused(crc, body, cs[..n], cs[n], e);
    }
  }

  lemma FirstBroken(cs: seq<Chunk>, from: nat) returns (n: nat)
    requires from <= |cs| && !KeepsRules(cs) && forall k, e | 0 <= k < from :: !BreaksRule(cs[..k], cs[k], e)
    ensures n < |cs| && (exists e :: BreaksRule(cs[..n], cs[n], e)) && forall k, e | 0 <= k < n :: !BreaksRule(cs[..k], cs[k], e)
    decreases |cs| - from
  {
    hide BreaksRule;
    n := from;
    if forall e :: !BreaksRule(cs[..from], cs[from], e) {
      n := FirstBroken(cs, from + 1);
    }
  }

  lemma StreamPrefix(crc: Crc, cs: seq<Chunk>, k: nat)
    requires k <= |cs|
    ensures Datastream(crc, cs[..k]) <= Datastream(crc, cs)
  {
    hide EncodeAll;
    assert cs == cs[..k] + cs[k..];
    EncodeAllConcat(crc, cs[..k], cs[k..]);
  }

  lemma FinishDecides(s: ParseState, cs: seq<Chunk>)
    requires Records(s, cs)
    ensures Finish(s).Err? <==> IsUnfinished(cs)
    ensures Finish(s).Err? ==> Finish(s) == Err(AnimationControl)
  {
    hide ReadU32, ReadU16, InsideCanvas, BigEndian, Count, Placed;
    if Finish(s).Err? {
      UnfinishedIs(s, cs);
    } else {
      forall c | c in cs && c.tag == ACTL
        ensures |c.data| == 8 && BigEndian(c.data[0..4]) == s.result.declaredFrames
      {
        ReadIsBigEndian(c.data, 0);
      }
    }
  }

  /** A chunk that breaks a rule is not taken. */
  lemma BrokenIsRefused(s: ParseState, cs: seq<Chunk>, c: Chunk, e: ApngParseError)
    requires Records(s, cs) && BreaksRule(cs, c, e)
    ensures StepChunk(s, c).Err?
  {
    hide RecordsPlaces, Placed, ReadU32, ReadU16, BigEndian, InsideCanvas, DefaultImageIsFrame, Count, DataChunks;
    if s.result.frames != [] {
      DefaultIsRecorded(s, cs);
    }
    ReadIsBigEndian(c.data, 0);
    ReadIsBigEndian(c.data, 4);
    if c.tag == FCTL && s.haveIhdr && s.haveActl && |c.data| == 26 {
      BrokenControlIsRefused(s, cs, c, e);
    }
  }

  lemma BrokenControlIsRefused(s: ParseState, cs: seq<Chunk>, c: Chunk, e: ApngParseError)
    requires Records(s, cs) && BreaksRule(cs, c, e)
    requires c.tag == FCTL && s.haveIhdr && s.haveActl && |c.data| == 26
    ensures StepFctl(s, c.data).Err?
  {
    hide RecordsPlaces, Placed, ReadU32, ReadU16, BigEndian, DefaultImageIsFrame, Count, DataChunks;
    ReadIsBigEndian(c.data, 0);
    ReadIsBigEndian(c.data, 4);
    ReadIsBigEndian(c.data, 8);
    ReadIsBigEndian(c.data, 12);
    ReadIsBigEndian(c.data, 16);
    ReadIsBigEndian(c.data, 22);
    forall h | h in cs && h.tag == IHDR
      ensures |h.data| == 13 && BigEndian(h.data[0..4]) == s.result.canvasWidth && BigEndian(h.data[4..8]) == s.result.canvasHeight
    {
      ReadIsBigEndian(h.data, 0);
      ReadIsBigEndian(h.data, 4);
    }
  }
}
