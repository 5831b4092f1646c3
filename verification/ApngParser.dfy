/**
 `parse_apng`: one pass over the chunks of a body with six state variables.
 The pass is specified chunk by chunk (`StepChunk`), the method is the loop over bytes.
 */
module ApngParser {
  import opened Bytes
  import opened PngChunks
  import opened Wrappers

  datatype ApngParseError =
    | Signature
    | Truncated
    | Length
    | Crc
    | Ihdr
    | AnimationControl
    | FrameControlError
    | FrameData
    | Sequence
    | FrameRectangle
    | DelayDenominator
    | BlendOperation
    | DisposeOperation

  datatype FrameControl = FrameControl(
    sequence: Word,
    width: Word,
    height: Word,
    xOffset: Word,
    yOffset: Word,
    delayNumerator: Half,
    delayDenominator: Half,
    dispose: Byte,
    blend: Byte)

  datatype Description = Description(
    canvasWidth: Word,
    canvasHeight: Word,
    declaredFrames: Word,
    loopCount: Word,
    defaultImageIsFrame: bool,
    frames: seq<FrameControl>)

  type ParseResult = Result<Description, ApngParseError>

  datatype ParseState = ParseState(
    result: Description,
    haveIhdr: bool,
    haveActl: bool,
    frameHasData: bool,
    sawIdat: bool,
    expectedSequence: Word)

  const INITIAL_STATE := ParseState(Description(0, 0, 0, 0, false, []), false, false, false, false, 0)

  /** The `++` of a 32-bit counter. */
  function Increment(w: Word): Word {
    (w + 1) % 0x1_0000_0000
  }

  /** The fields of a frame control whose 26 data bytes start at `offset`. */
  function ControlAt(s: seq<Byte>, offset: nat): FrameControl
    requires offset + 26 <= |s|
  {
    FrameControl(
      ReadU32(s, offset), ReadU32(s, offset + 4), ReadU32(s, offset + 8), ReadU32(s, offset + 12), ReadU32(s, offset + 16),
      ReadU16(s, offset + 20), ReadU16(s, offset + 22), s[offset + 24], s[offset + 25])
  }

  predicate InsideCanvas(f: FrameControl, width: Word, height: Word) {
    && f.width != 0 && f.height != 0
    && f.xOffset <= width && f.width <= width - f.xOffset
    && f.yOffset <= height && f.height <= height - f.yOffset
  }

  /** The checks a frame control must pass on its own, first failure first. */
  function ControlError(f: FrameControl, width: Word, height: Word): (r: Option<ApngParseError>)
    ensures r == None <==> InsideCanvas(f, width, height) && f.delayDenominator != 0 && f.dispose <= 2 && f.blend <= 1
  {
    if !InsideCanvas(f, width, height) then Some(FrameRectangle)
    else if f.delayDenominator == 0 then Some(DelayDenominator)
    else if f.dispose > 2 then Some(DisposeOperation)
    else if f.blend > 1 then Some(BlendOperation)
    else None
  }

  function ReadFailure(e: ReadError): ApngParseError {
    match e
    case TruncatedChunk => Truncated
    case ChunkLength => Length
    case CrcMismatch => Crc
  }

  function StepIhdr(s: ParseState, data: seq<Byte>): Result<ParseState, ApngParseError> {
    if s.haveIhdr || |data| != 13 then Err(Ihdr)
    else
      var width, height := ReadU32(data, 0), ReadU32(data, 4);
      if width == 0 || height == 0 then Err(Ihdr)
      else Ok(ParseState(s.result.(canvasWidth := width, canvasHeight := height), true, s.haveActl, s.frameHasData, s.sawIdat, s.expectedSequence))
  }

  function StepActl(s: ParseState, data: seq<Byte>): Result<ParseState, ApngParseError> {
    if !s.haveIhdr || s.haveActl || s.sawIdat || |data| != 8 then Err(AnimationControl)
    else if ReadU32(data, 0) == 0 then Err(AnimationControl)
    else Ok(ParseState(s.result.(declaredFrames := ReadU32(data, 0), loopCount := ReadU32(data, 4)), s.haveIhdr, true, s.frameHasData, s.sawIdat, s.expectedSequence))
  }

  function StepFctl(s: ParseState, data: seq<Byte>): Result<ParseState, ApngParseError> {
    if !s.haveIhdr || !s.haveActl || |data| != 26 then Err(FrameControlError)
    else if s.result.frames != [] && !s.frameHasData then Err(FrameData)
    else
      var frame := ControlAt(data, 0);
      if frame.sequence != s.expectedSequence then Err(Sequence)
      else if ControlError(frame, s.result.canvasWidth, s.result.canvasHeight).Some? then
        Err(ControlError(frame, s.result.canvasWidth, s.result.canvasHeight).value)
      else
        var isFirst := s.result.frames == [];
        var result := s.result.(defaultImageIsFrame := if isFirst then !s.sawIdat else s.result.defaultImageIsFrame);
        Ok(ParseState(result.(frames := result.frames + [frame]), true, true, false, s.sawIdat, Increment(s.expectedSequence)))
  }

  function StepIdat(s: ParseState): Result<ParseState, ApngParseError> {
    if !s.haveActl || (s.result.frames != [] && (!s.result.defaultImageIsFrame || |s.result.frames| != 1)) then Err(FrameData)
    else Ok(ParseState(s.result, s.haveIhdr, s.haveActl, s.result.defaultImageIsFrame || s.frameHasData, true, s.expectedSequence))
  }

  function StepFdat(s: ParseState, data: seq<Byte>): Result<ParseState, ApngParseError> {
    if !s.sawIdat || s.result.frames == [] || |data| < 4 || (s.result.defaultImageIsFrame && |s.result.frames| == 1) then Err(FrameData)
    else if ReadU32(data, 0) != s.expectedSequence then Err(Sequence)
    else Ok(ParseState(s.result, s.haveIhdr, s.haveActl, true, s.sawIdat, Increment(s.expectedSequence)))
  }

  function StepChunk(s: ParseState, c: Chunk): Result<ParseState, ApngParseError> {
    if c.tag == IHDR then StepIhdr(s, c.data)
    else if c.tag == ACTL then StepActl(s, c.data)
    else if c.tag == FCTL then StepFctl(s, c.data)
    else if c.tag == IDAT then StepIdat(s)
    else if c.tag == FDAT then StepFdat(s, c.data)
    else Ok(s)
  }

  function Finish(s: ParseState): ParseResult {
    if !s.haveIhdr || !s.haveActl || !s.frameHasData || |s.result.frames| != s.result.declaredFrames then Err(AnimationControl)
    else Ok(s.result)
  }

  /** What is left to do from `offset` in state `s`. */
  function ParseFrom(crc: Crc, body: seq<Byte>, offset: nat, s: ParseState): ParseResult
    requires offset <= |body|
    decreases |body| - offset
  {
    if offset == |body| then Finish(s)
    else
      match ReadChunk(crc, body, offset)
      case Err(e) => Err(ReadFailure(e))
      case Ok(c) =>
        match StepChunk(s, c)
        case Err(e) => Err(e)
        case Ok(t) => ParseFrom(crc, body, offset + CHUNK_OVERHEAD + |c.data|, t)
  }

  function Parse(crc: Crc, body: seq<Byte>): ParseResult {
    if !HasSignature(body) then Err(Signature) else ParseFrom(crc, body, |SIGNATURE|, INITIAL_STATE)
  }

  lemma ParseStep(crc: Crc, body: seq<Byte>, offset: nat, s: ParseState)
    requires offset < |body|
    ensures ParseFrom(crc, body, offset, s) ==
            match ReadChunk(crc, body, offset)
            case Err(e) => Err(ReadFailure(e))
            case Ok(c) =>
              match StepChunk(s, c)
              case Err(e) => Err(e)
              case Ok(t) => ParseFrom(crc, body, offset + CHUNK_OVERHEAD + |c.data|, t)
  {
    hide StepChunk;
  }

  lemma ParseEnd(crc: Crc, body: seq<Byte>, s: ParseState)
    ensures ParseFrom(crc, body, |body|, s) == Finish(s)
  {
  }

  /** One chunk of a datastream is one step of the parser. */
  lemma ParseChunk(crc: Crc, cs: seq<Chunk>, k: nat, s: ParseState, t: ParseState)
    requires Bounded(cs) && k < |cs| && StepChunk(s, cs[k]) == Ok(t)
    ensures |Datastream(crc, cs[..k])| <= |Datastream(crc, cs)| && |Datastream(crc, cs[..k + 1])| <= |Datastream(crc, cs)|
    ensures ParseFrom(crc, Datastream(crc, cs), |Datastream(crc, cs[..k])|, s)
         == ParseFrom(crc, Datastream(crc, cs), |Datastream(crc, cs[..k + 1])|, t)
  {
    hide StepChunk, ReadChunk, ReadU32, Encode, EncodeAll, ParseFrom, Datastream;
    ChunkAt(crc, cs, k);
    ParseStep(crc, Datastream(crc, cs), |Datastream(crc, cs[..k])|, s);
  }

  /** The fcTL branch of the loop. */
  method TakeFrameControl(description: Description, haveIhdr: bool, haveActl: bool, frameHasData: bool, sawIdat: bool, sequence: Word, data: seq<Byte>)
    returns (r: Result<(Description, Word), ApngParseError>)
    ensures StepFctl(ParseState(description, haveIhdr, haveActl, frameHasData, sawIdat, sequence), data)
         == match r
            case Err(e) => Err(e)
            case Ok((result, next)) => Ok(ParseState(result, haveIhdr, haveActl, false, sawIdat, next))
  {
    hide ControlAt, ControlError, InsideCanvas, Increment;
    var result, expectedSequence := description, sequence;
    if !haveIhdr || !haveActl || |data| != 26 {
      return Err(FrameControlError);
    }
    if result.frames != [] && !frameHasData {
      return Err(FrameData);
    }
    if result.frames == [] {
      result := result.(defaultImageIsFrame := !sawIdat);
    }
    var frame := ControlAt(data, 0);
    expectedSequence := Increment(expectedSequence);
    if frame.sequence != sequence {
      return Err(Sequence);
    }
    var refused := ControlError(frame, result.canvasWidth, result.canvasHeight);
    if refused.Some? {
      return Err(refused.value);
    }
    return Ok((result.(frames := result.frames + [frame]), expectedSequence));
  }

  /** The loop of `parse_apng`. */
  method ParseApng(crc: Crc, body: seq<Byte>) returns (r: ParseResult)
    ensures r == Parse(crc, body)
  {
    if !HasSignature(body) {
      return Err(Signature);
    }
    var result := Description(0, 0, 0, 0, false, []);
    var haveIhdr, haveActl, frameHasData, sawIdat := false, false, false, false;
    var expectedSequence: Word := 0;
    var offset := |SIGNATURE|;
    ghost var spec := Parse(crc, body);
    while offset < |body|
      invariant offset <= |body|
      invariant ParseFrom(crc, body, offset, ParseState(result, haveIhdr, haveActl, frameHasData, sawIdat, expectedSequence)) == spec
      decreases |body| - offset
    {
      hide ReadU32, ReadChunk, ControlAt, ControlError, InsideCanvas, Increment, Finish, Parse, HasSignature, ParseFrom, StepFctl;
      ghost var s := ParseState(result, haveIhdr, haveActl, frameHasData, sawIdat, expectedSequence);
      ParseStep(crc, body, offset, s);
      var read := ReadChunk(crc, body, offset);
      if read.Err? {
        return Err(ReadFailure(read.error));
      }
      var chunk := read.value;
      ghost var step := StepChunk(s, chunk);
      assert spec == if step.Err? then Err(step.error) else ParseFrom(crc, body, offset + CHUNK_OVERHEAD + |chunk.data|, step.value);
      var data, length := chunk.data, |chunk.data|;

      if chunk.tag == IHDR {
        if haveIhdr || length != 13 {
          return Err(Ihdr);
        }
        result := result.(canvasWidth := ReadU32(data, 0), canvasHeight := ReadU32(data, 4));
        if result.canvasWidth == 0 || result.canvasHeight == 0 {
          return Err(Ihdr);
        }
        haveIhdr := true;
      } else if chunk.tag == ACTL {
        if !haveIhdr || haveActl || sawIdat || length != 8 {
          return Err(AnimationControl);
        }
        result := result.(declaredFrames := ReadU32(data, 0), loopCount := ReadU32(data, 4));
        if result.declaredFrames == 0 {
          return Err(AnimationControl);
        }
        haveActl := true;
      } else if chunk.tag == FCTL {
        var taken := TakeFrameControl(result, haveIhdr, haveActl, frameHasData, sawIdat, expectedSequence, data);
        if taken.Err? {
          return Err(taken.error);
        }
        result, expectedSequence := taken.value.0, taken.value.1;
        frameHasData := false;
      } else if chunk.tag == IDAT {
        // No frame yet: this is the image for viewers that do not animate.
        if !haveActl || (result.frames != [] && (!result.defaultImageIsFrame || |result.frames| != 1)) {
          return Err(FrameData);
        }
        sawIdat := true;
        if result.defaultImageIsFrame {
          frameHasData := true;
        }
      } else if chunk.tag == FDAT {
        if !sawIdat || result.frames == [] || length < 4 || (result.defaultImageIsFrame && |result.frames| == 1) {
          return Err(FrameData);
        }
        var expected := expectedSequence;
        expectedSequence := Increment(expectedSequence);
        if ReadU32(data, 0) != expected {
          return Err(Sequence);
        }
        frameHasData := true;
      }
      offset := offset + CHUNK_OVERHEAD + length;
    }
    ParseEnd(crc, body, ParseState(result, haveIhdr, haveActl, frameHasData, sawIdat, expectedSequence));
    if !haveIhdr || !haveActl || !frameHasData || |result.frames| != result.declaredFrames {
      return Err(AnimationControl);
    }
    return Ok(result);
  }
}
