/**
 `compose_apng_frame`: blends a frame into the canvas in place, takes the displayed copy,
 then disposes of the frame (section 11.3.6.2 of the PNG Specification).
 */
module ApngCompositor {
  import opened Bytes
  import opened Rgba
  import opened Wrappers
  import opened AlphaBlending
  import opened Raster
  import opened ApngParser

  datatype CompositionError = CanvasSize | FrameSize | RectangleOutside | UnknownBlend | UnknownDispose

  /** What is painted over the frame's rectangle. */
  datatype Paint = Source | Over | Clear

  predicate Covers(control: FrameControl, x: nat, y: nat) {
    && control.xOffset <= x < control.xOffset + control.width
    && control.yOffset <= y < control.yOffset + control.height
  }

  /** The pixel at (x, y) once the rectangle has been painted. */
  function PaintedPixel(paint: Paint, canvas: seq<Byte>, w: nat, control: FrameControl, frame: seq<Byte>, x: nat, y: nat): Pixel {
    var under := PixelAt(canvas, x, y, w);
    if !Covers(control, x, y) then under
    else
      match paint
      case Clear => TRANSPARENT
      case Source => PixelAt(frame, x - control.xOffset, y - control.yOffset, control.width)
      case Over => OverPixel(under, PixelAt(frame, x - control.xOffset, y - control.yOffset, control.width))
  }

  function Painted(paint: Paint, canvas: seq<Byte>, w: nat, h: nat, control: FrameControl, frame: seq<Byte>): (r: seq<Byte>)
    requires w > 0
    ensures IsRaster(r, w, h)
  {
    seq(4 * RowStart(h, w), (i: nat) => Channel(PaintedPixel(paint, canvas, w, control, frame, Column(i / 4, w), Row(i / 4, w)), i % 4))
  }

  lemma PaintedAt(paint: Paint, canvas: seq<Byte>, w: nat, h: nat, control: FrameControl, frame: seq<Byte>, x: nat, y: nat)
    requires x < w && y < h
    ensures PixelAt(Painted(paint, canvas, w, h, control, frame), x, y, w) == PaintedPixel(paint, canvas, w, control, frame, x, y)
  {
    hide PaintedPixel, RowStart, Row, Column;
    InBuffer(x, y, w, h);
    LocateOffset(x, y, w);
    var o := PixelOffset(x, y, w);
    forall c | 0 <= c < 4
      ensures Painted(paint, canvas, w, h, control, frame)[o + c] == Channel(PaintedPixel(paint, canvas, w, control, frame, x, y), c)
    {
      ByteOfPixel(RowStart(y, w) + x, c);
    }
    FourChannels(Painted(paint, canvas, w, h, control, frame), o, PaintedPixel(paint, canvas, w, control, frame, x, y));
  }

  lemma ByteOfPixel(p: nat, c: nat)
    requires c < 4
    ensures (p * 4 + c) / 4 == p && (p * 4 + c) % 4 == c
  {
  }

  lemma FourChannels(s: seq<Byte>, o: nat, p: Pixel)
    requires o + 4 <= |s| && forall c | 0 <= c < 4 :: s[o + c] == Channel(p, c)
    ensures Pixel(s[o], s[o + 1], s[o + 2], s[o + 3]) == p
  {
    assert s[o + 0] == Channel(p, 0) && s[o + 1] == Channel(p, 1) && s[o + 2] == Channel(p, 2) && s[o + 3] == Channel(p, 3);
  }

  /** A raster whose every pixel is the painted one is the painted raster. */
  lemma IsPainted(after: seq<Byte>, paint: Paint, canvas: seq<Byte>, w: nat, h: nat, control: FrameControl, frame: seq<Byte>)
    requires IsRaster(after, w, h)
    requires forall x: nat, y: nat | x < w && y < h :: PixelAt(after, x, y, w) == PaintedPixel(paint, canvas, w, control, frame, x, y)
    ensures after == Painted(paint, canvas, w, h, control, frame)
  {
    hide PaintedPixel, Painted, PixelAt;
    forall x: nat, y: nat | x < w && y < h
      ensures PixelAt(after, x, y, w) == PixelAt(Painted(paint, canvas, w, h, control, frame), x, y, w)
    {
      PaintedAt(paint, canvas, w, h, control, frame, x, y);
    }
    GridDetermines(after, Painted(paint, canvas, w, h, control, frame), w, h);
  }

  // ----- the loops over the canvas

  method ClearRectangle(canvas: array<Byte>, w: Word, ghost h: Word, control: FrameControl)
    requires IsRaster(canvas[..], w, h) && InsideCanvas(control, w, h)
    modifies canvas
    ensures canvas[..] == Painted(Clear, old(canvas[..]), w, h, control, [])
  {
    hide PaintedPixel, Painted, Patched, PixelAt, PixelOffset;
    ghost var start := canvas[..];
    Uncovered(Clear, start, w, control, []);
    for y := 0 to control.height
      invariant IsRaster(canvas[..], w, h)
      invariant forall u: nat, v: nat | u < w && v < h :: PixelAt(canvas[..], u, v, w) ==
                  if v < control.yOffset + y then PaintedPixel(Clear, start, w, control, [], u, v) else PixelAt(start, u, v, w)
    {
      ghost var before := canvas[..];
      var begin := PixelOffset(control.xOffset, control.yOffset + y, w);
      RunInBuffer(control.xOffset, control.yOffset + y, w, h, control.width);
      forall i | begin <= i < begin + control.width * 4 {
        canvas[i] := 0;
      }
      ghost var zeros: seq<Byte> := seq(control.width * 4, _ => 0);
      PatchIs(before, canvas[..], control.xOffset, control.yOffset + y, w, zeros);
      forall u: nat, v: nat | u < w && v < h
        ensures PixelAt(canvas[..], u, v, w) ==
                if v < control.yOffset + y + 1 then PaintedPixel(Clear, start, w, control, [], u, v) else PixelAt(start, u, v, w)
      {
        PatchedRun(before, control.xOffset, control.yOffset + y, w, h, zeros, control.width, u, v);
        ClearedPixel(start, w, control, zeros, u, v);
      }
    }
    IsPainted(canvas[..], Clear, start, w, h, control, []);
  }

  lemma RunInBuffer(x: nat, y: nat, w: nat, h: nat, n: nat)
    requires x + n <= w && y < h
    ensures PixelOffset(x, y, w) + n * 4 <= 4 * RowStart(h, w)
  {
    RowsInOrder(y, h, w);
  }

  lemma PatchIs(before: seq<Byte>, after: seq<Byte>, x: nat, y: nat, w: nat, patch: seq<Byte>)
    requires PixelOffset(x, y, w) + |patch| <= |before| == |after|
    requires forall i | 0 <= i < |before| ::
               after[i] == if PixelOffset(x, y, w) <= i < PixelOffset(x, y, w) + |patch| then patch[i - PixelOffset(x, y, w)] else before[i]
    ensures after == Patched(before, x, y, w, patch)
  {
  }

  lemma ClearedPixel(canvas: seq<Byte>, w: nat, control: FrameControl, zeros: seq<Byte>, x: nat, y: nat)
    requires zeros == seq(control.width * 4, _ => 0)
    ensures Covers(control, x, y) ==> PixelAt(zeros, x - control.xOffset, 0, control.width) == PaintedPixel(Clear, canvas, w, control, [], x, y)
    ensures !Covers(control, x, y) ==> PixelAt(canvas, x, y, w) == PaintedPixel(Clear, canvas, w, control, [], x, y)
  {
  }

  /** Outside the rectangle nothing is painted. */
  lemma Uncovered(paint: Paint, canvas: seq<Byte>, w: nat, control: FrameControl, frame: seq<Byte>)
    ensures forall x: nat, y: nat {:trigger PaintedPixel(paint, canvas, w, control, frame, x, y)} ::
              !Covers(control, x, y) ==> PaintedPixel(paint, canvas, w, control, frame, x, y) == PixelAt(canvas, x, y, w)
  {
  }

  method SourceCopy(canvas: array<Byte>, w: Word, ghost h: Word, control: FrameControl, frame: seq<Byte>)
    requires IsRaster(canvas[..], w, h) && InsideCanvas(control, w, h)
    requires IsRaster(frame, control.width, control.height)
    modifies canvas
    ensures canvas[..] == Painted(Source, old(canvas[..]), w, h, control, frame)
  {
    hide PaintedPixel, Painted, Patched, PixelAt, PixelOffset;
    ghost var start := canvas[..];
    Uncovered(Source, start, w, control, frame);
    var rowSize := control.width * 4;
    for y := 0 to control.height
      invariant IsRaster(canvas[..], w, h)
      invariant forall u: nat, v: nat | u < w && v < h :: PixelAt(canvas[..], u, v, w) ==
                  if v < control.yOffset + y then PaintedPixel(Source, start, w, control, frame, u, v) else PixelAt(start, u, v, w)
    {
      ghost var before := canvas[..];
      var source := y * rowSize;
      var destination := PixelOffset(control.xOffset, control.yOffset + y, w);
      RunInBuffer(control.xOffset, control.yOffset + y, w, h, control.width);
      SourceRow(frame, control, y);
      forall i | 0 <= i < rowSize {
        canvas[destination + i] := frame[source + i];
      }
      ghost var row := frame[source..source + rowSize];
      PatchIs(before, canvas[..], control.xOffset, control.yOffset + y, w, row);
      forall u: nat, v: nat | u < w && v < h
        ensures PixelAt(canvas[..], u, v, w) ==
                if v < control.yOffset + y + 1 then PaintedPixel(Source, start, w, control, frame, u, v) else PixelAt(start, u, v, w)
      {
        PatchedRun(before, control.xOffset, control.yOffset + y, w, h, row, control.width, u, v);
        CopiedPixel(start, w, control, frame, y, u, v);
      }
    }
    IsPainted(canvas[..], Source, start, w, h, control, frame);
  }

  /** The y-th row of the frame starts at y times the row size. */
  lemma SourceRow(frame: seq<Byte>, control: FrameControl, y: nat)
    requires IsRaster(frame, control.width, control.height) && y < control.height
    ensures y * (control.width * 4) == PixelOffset(0, y, control.width)
    ensures PixelOffset(0, y, control.width) + control.width * 4 <= |frame|
  {
    PixelOffsetIsProduct(0, y, control.width);
    RunInBuffer(0, y, control.width, control.height, control.width);
  }

  lemma CopiedPixel(canvas: seq<Byte>, w: nat, control: FrameControl, frame: seq<Byte>, y: nat, u: nat, v: nat)
    requires IsRaster(frame, control.width, control.height) && y < control.height
    ensures y * (control.width * 4) == PixelOffset(0, y, control.width)
    ensures PixelOffset(0, y, control.width) + control.width * 4 <= |frame|
    ensures v == control.yOffset + y && Covers(control, u, v) ==>
              (var row := frame[y * (control.width * 4)..y * (control.width * 4) + control.width * 4];
               PixelAt(row, u - control.xOffset, 0, control.width) == PaintedPixel(Source, canvas, w, control, frame, u, v))
  {
    SourceRow(frame, control, y);
  }

  /** Blends the pixel at `source` of the frame over the one at `destination` of the canvas. */
  method SourceOverPixel(canvas: array<Byte>, destination: nat, frame: seq<Byte>, source: nat)
    requires destination + 4 <= canvas.Length && source + 4 <= |frame|
    modifies canvas
    ensures forall i | 0 <= i < canvas.Length && !(destination <= i < destination + 4) :: canvas[i] == old(canvas[i])
    ensures canvas[destination..destination + 4] == PixelBytes(OverPixel(
              Pixel(old(canvas[destination]), old(canvas[destination + 1]), old(canvas[destination + 2]), old(canvas[destination + 3])),
              Pixel(frame[source], frame[source + 1], frame[source + 2], frame[source + 3])))
  {
    hide RoundedDivide, ColorNumerator, AlphaNumerator;
    var sourceAlpha, destinationAlpha := frame[source + 3], canvas[destination + 3];
    if sourceAlpha == 0 {
      return;
    }
    if sourceAlpha == 255 || destinationAlpha == 0 {
      forall i | 0 <= i < 4 {
        canvas[destination + i] := frame[source + i];
      }
      assert canvas[destination + 0] == frame[source + 0];
      return;
    }
    var alphaNumerator := AlphaNumerator(sourceAlpha, destinationAlpha);
    for channel := 0 to 3
      invariant forall i | 0 <= i < canvas.Length && !(destination <= i < destination + channel) :: canvas[i] == old(canvas[i])
      invariant channel > 0 ==> canvas[destination] == OverColor(frame[source], sourceAlpha, old(canvas[destination]), destinationAlpha)
      invariant channel > 1 ==> canvas[destination + 1] == OverColor(frame[source + 1], sourceAlpha, old(canvas[destination + 1]), destinationAlpha)
      invariant channel > 2 ==> canvas[destination + 2] == OverColor(frame[source + 2], sourceAlpha, old(canvas[destination + 2]), destinationAlpha)
    {
      NumeratorsFit(frame[source + channel], sourceAlpha, canvas[destination + channel], destinationAlpha);
      var colorNumerator := ColorNumerator(frame[source + channel], sourceAlpha, canvas[destination + channel], destinationAlpha);
      canvas[destination + channel] := RoundedDivide(colorNumerator, alphaNumerator);
    }
    NumeratorsFit(0, sourceAlpha, 0, destinationAlpha);
    canvas[destination + 3] := RoundedDivide(alphaNumerator, 255);
  }

  method SourceOver(canvas: array<Byte>, w: Word, ghost h: Word, control: FrameControl, frame: seq<Byte>)
    requires IsRaster(canvas[..], w, h) && InsideCanvas(control, w, h)
    requires IsRaster(frame, control.width, control.height)
    modifies canvas
    ensures canvas[..] == Painted(Over, old(canvas[..]), w, h, control, frame)
  {
    hide PaintedPixel, Painted, Patched, PixelAt, PixelOffset, OverPixel;
    ghost var start := canvas[..];
    Uncovered(Over, start, w, control, frame);
    for y := 0 to control.height
      invariant IsRaster(canvas[..], w, h)
      invariant forall u: nat, v: nat | u < w && v < h :: PixelAt(canvas[..], u, v, w) ==
                  if v < control.yOffset + y then PaintedPixel(Over, start, w, control, frame, u, v) else PixelAt(start, u, v, w)
    {
      for x := 0 to control.width
        invariant IsRaster(canvas[..], w, h)
        invariant forall u: nat, v: nat | u < w && v < h :: PixelAt(canvas[..], u, v, w) ==
                    if v < control.yOffset + y || (v == control.yOffset + y && u < control.xOffset + x)
                    then PaintedPixel(Over, start, w, control, frame, u, v) else PixelAt(start, u, v, w)
      {
        ghost var before := canvas[..];
        var source := PixelOffset(x, y, control.width);
        var destination := PixelOffset(control.xOffset + x, control.yOffset + y, w);
        InBuffer(x, y, control.width, control.height);
        InBuffer(control.xOffset + x, control.yOffset + y, w, h);
        SourceOverPixel(canvas, destination, frame, source);
        ghost var patch := canvas[destination..destination + 4];
        PatchIs(before, canvas[..], control.xOffset + x, control.yOffset + y, w, patch);
        BlendedPixel(before, start, w, control, frame, x, y, patch);
        forall u: nat, v: nat | u < w && v < h
          ensures PixelAt(canvas[..], u, v, w) ==
                  if v < control.yOffset + y || (v == control.yOffset + y && u < control.xOffset + x + 1)
                  then PaintedPixel(Over, start, w, control, frame, u, v) else PixelAt(start, u, v, w)
        {
          PatchedRun(before, control.xOffset + x, control.yOffset + y, w, h, patch, 1, u, v);
        }
      }
    }
    IsPainted(canvas[..], Over, start, w, h, control, frame);
  }

  lemma BlendedPixel(before: seq<Byte>, start: seq<Byte>, w: nat, control: FrameControl, frame: seq<Byte>, x: nat, y: nat, patch: seq<Byte>)
    requires x < control.width && y < control.height
    requires PixelOffset(control.xOffset + x, control.yOffset + y, w) + 4 <= |before|
    requires PixelOffset(x, y, control.width) + 4 <= |frame|
    requires PixelAt(before, control.xOffset + x, control.yOffset + y, w) == PixelAt(start, control.xOffset + x, control.yOffset + y, w)
    requires var d, s := PixelOffset(control.xOffset + x, control.yOffset + y, w), PixelOffset(x, y, control.width);
             patch == PixelBytes(OverPixel(Pixel(before[d], before[d + 1], before[d + 2], before[d + 3]), Pixel(frame[s], frame[s + 1], frame[s + 2], frame[s + 3])))
    ensures PixelAt(patch, 0, 0, 1) == PaintedPixel(Over, start, w, control, frame, control.xOffset + x, control.yOffset + y)
  {
    hide OverPixel;
  }

  // ----- one frame

  /** The checks, first failure first. */
  function CompositionFailure(canvasBytes: nat, w: Word, h: Word, control: FrameControl, frameBytes: nat): Option<CompositionError> {
    if RgbaSize(w, h) != Some(canvasBytes) then Some(CanvasSize)
    else if RgbaSize(control.width, control.height) != Some(frameBytes) then Some(FrameSize)
    else if control.xOffset > w || control.width > w - control.xOffset || control.yOffset > h || control.height > h - control.yOffset then
      Some(RectangleOutside)
    else if control.blend > 1 then Some(UnknownBlend)
    else if control.dispose > 2 then Some(UnknownDispose)
    else None
  }

  /** A buffer of exactly the bytes of a w by h image that a `size_t` can count. */
  predicate IsSized(bytes: nat, w: Word, h: Word) {
    w > 0 && h > 0 && bytes == w * h * 4 <= SIZE_MAX
  }

  /** Nothing is refused that could be drawn, and each error names the first thing that is wrong. */
  lemma FailureIsJustified(canvasBytes: nat, w: Word, h: Word, control: FrameControl, frameBytes: nat)
    ensures var failure := CompositionFailure(canvasBytes, w, h, control, frameBytes);
            var canvasFits, frameFits := IsSized(canvasBytes, w, h), IsSized(frameBytes, control.width, control.height);
            var inside := control.xOffset + control.width <= w && control.yOffset + control.height <= h;
            && (failure == Some(CanvasSize) <==> !canvasFits)
            && (failure == Some(FrameSize) <==> canvasFits && !frameFits)
            && (failure == Some(RectangleOutside) <==> canvasFits && frameFits && !inside)
            && (failure == Some(UnknownBlend) <==> canvasFits && frameFits && inside && control.blend > 1)
            && (failure == Some(UnknownDispose) <==> canvasFits && frameFits && inside && control.blend <= 1 && control.dispose > 2)
            && (failure == None <==> canvasFits && frameFits && inside && control.blend <= 1 && control.dispose <= 2)
  {
    hide RgbaSize;
    RgbaSizeIsExact(w, h);
    RgbaSizeIsExact(control.width, control.height);
  }

  /** The canvas with the frame blended in: what is shown. */
  function Displayed(canvas: seq<Byte>, w: nat, h: nat, control: FrameControl, frame: seq<Byte>): (r: seq<Byte>)
    requires w > 0
    ensures IsRaster(r, w, h)
  {
    Painted(if control.blend == 0 then Source else Over, canvas, w, h, control, frame)
  }

  /** The canvas the next frame starts from. */
  function Disposed(canvas: seq<Byte>, w: nat, h: nat, control: FrameControl, frame: seq<Byte>): (r: seq<Byte>)
    requires w > 0
    ensures IsRaster(canvas, w, h) ==> IsRaster(r, w, h)
  {
    if control.dispose == 1 then Painted(Clear, Displayed(canvas, w, h, control, frame), w, h, control, [])
    else if control.dispose == 2 then canvas
    else Displayed(canvas, w, h, control, frame)
  }

  lemma SizedIsRaster(s: seq<Byte>, w: Word, h: Word)
    requires RgbaSize(w, h) == Some(|s|)
    ensures IsRaster(s, w, h) && h > 0
  {
    hide RgbaSize;
    RgbaSizeIsExact(w, h);
    PixelOffsetIsProduct(0, h, w);
    assert w * h * 4 == 4 * (h * w);
  }

  /** Clearing the rectangle first changes nothing that a copy over it does not overwrite. */
  lemma ClearThenCopy(canvas: seq<Byte>, w: nat, h: nat, control: FrameControl, frame: seq<Byte>)
    requires w > 0
    ensures Painted(Source, Painted(Clear, canvas, w, h, control, []), w, h, control, frame) == Painted(Source, canvas, w, h, control, frame)
  {
    hide Painted, PixelAt;
    var cleared := Painted(Clear, canvas, w, h, control, []);
    var copied := Painted(Source, cleared, w, h, control, frame);
    forall x: nat, y: nat | x < w && y < h
      ensures PixelAt(copied, x, y, w) == PaintedPixel(Source, canvas, w, control, frame, x, y)
    {
      PaintedAt(Clear, canvas, w, h, control, [], x, y);
      PaintedAt(Source, cleared, w, h, control, frame, x, y);
    }
    IsPainted(copied, Source, canvas, w, h, control, frame);
  }

  method ComposeApngFrame(canvas: array<Byte>, w: Word, h: Word, control: FrameControl, frame: seq<Byte>)
    returns (r: Result<seq<Byte>, CompositionError>)
    modifies canvas
    ensures var failure := CompositionFailure(canvas.Length, w, h, control, |frame|);
            if failure.Some? then r == Err(failure.value) && canvas[..] == old(canvas[..])
            else
              && w > 0
              && r == Ok(Displayed(old(canvas[..]), w, h, control, frame))
              && canvas[..] == Disposed(old(canvas[..]), w, h, control, frame)
  {
    hide RgbaSize, Painted, IsRaster;
    var canvasSize := RgbaSize(w, h);
    if canvasSize.None? || canvas.Length != canvasSize.value {
      return Err(CanvasSize);
    }
    var frameSize := RgbaSize(control.width, control.height);
    if frameSize.None? || |frame| != frameSize.value {
      return Err(FrameSize);
    }
    if control.xOffset > w || control.width > w - control.xOffset || control.yOffset > h || control.height > h - control.yOffset {
      return Err(RectangleOutside);
    }
    if control.blend > 1 {
      return Err(UnknownBlend);
    }
    if control.dispose > 2 {
      return Err(UnknownDispose);
    }

    var previousCanvas := canvas[..];
    SizedIsRaster(canvas[..], w, h);
    SizedIsRaster(frame, control.width, control.height);
    PositiveSides(canvas[..], w, h, frame, control);
    if control.blend == 0 {
      ClearRectangle(canvas, w, h, control);
      SourceCopy(canvas, w, h, control, frame);
      ClearThenCopy(previousCanvas, w, h, control, frame);
    } else {
      SourceOver(canvas, w, h, control, frame);
    }
    r := Ok(canvas[..]);
    if control.dispose == 1 {
      ClearRectangle(canvas, w, h, control);
    } else if control.dispose == 2 {
      forall i | 0 <= i < canvas.Length {
        canvas[i] := previousCanvas[i];
      }
      assert canvas[..] == previousCanvas;
    }
  }

  lemma PositiveSides(canvas: seq<Byte>, w: Word, h: Word, frame: seq<Byte>, control: FrameControl)
    requires RgbaSize(w, h) == Some(|canvas|) && RgbaSize(control.width, control.height) == Some(|frame|)
    ensures w > 0 && h > 0 && control.width > 0 && control.height > 0
  {
  }

  // ----- what the bytes mean, pixel by pixel

  /** The pixel shown at (x, y) by a frame over `under`. */
  function ShownPixel(under: Pixel, control: FrameControl, frame: seq<Byte>, x: nat, y: nat): Pixel {
    if !Covers(control, x, y) then under
    else
      var over := PixelAt(frame, x - control.xOffset, y - control.yOffset, control.width);
      if control.blend == 0 then over else OverPixel(under, over)
  }

  /** The pixel the frame leaves at (x, y). */
  function KeptPixel(under: Pixel, control: FrameControl, frame: seq<Byte>, x: nat, y: nat): Pixel {
    if control.dispose == 2 then under
    else if control.dispose == 1 && Covers(control, x, y) then TRANSPARENT
    else ShownPixel(under, control, frame, x, y)
  }

  /** A composition acts on every pixel by itself: no byte of one is mixed into another. */
  lemma ComposedPixel(canvas: seq<Byte>, w: nat, h: nat, control: FrameControl, frame: seq<Byte>, x: nat, y: nat)
    requires x < w && y < h
    ensures PixelAt(Displayed(canvas, w, h, control, frame), x, y, w) == ShownPixel(PixelAt(canvas, x, y, w), control, frame, x, y)
    ensures PixelAt(Disposed(canvas, w, h, control, frame), x, y, w) == KeptPixel(PixelAt(canvas, x, y, w), control, frame, x, y)
  {
    hide Painted, PixelAt, OverPixel;
    PaintedAt(if control.blend == 0 then Source else Over, canvas, w, h, control, frame, x, y);
    PaintedAt(Clear, Displayed(canvas, w, h, control, frame), w, h, control, [], x, y);
  }

  /** The pixel is four consecutive bytes at four times its number, counted row by row. */
  lemma PixelBytesAt(s: seq<Byte>, x: nat, y: nat, w: nat, h: nat, c: nat)
    requires x < w && y < h && |s| == w * h * 4 && c < 4
    ensures IsRaster(s, w, h) && (y * w + x) * 4 + 4 <= |s|
    ensures PixelAt(s, x, y, w) == Pixel(s[(y * w + x) * 4], s[(y * w + x) * 4 + 1], s[(y * w + x) * 4 + 2], s[(y * w + x) * 4 + 3])
    ensures Channel(PixelAt(s, x, y, w), c) == s[(y * w + x) * 4 + c]
  {
    PixelOffsetIsProduct(x, y, w);
    PixelOffsetIsProduct(0, h, w);
    assert w * h == h * w;
    InBuffer(x, y, w, h);
  }

  /**
   The whole composition, byte by byte. Outside the rectangle nothing changes; inside, SOURCE shows the frame's byte
   and OVER the exact blend rounded to nearest. Then NONE keeps what is shown, BACKGROUND clears it, PREVIOUS takes it back.
   */
  lemma ComposedBytes(canvas: seq<Byte>, w: nat, h: nat, control: FrameControl, frame: seq<Byte>, x: nat, y: nat, c: nat)
    requires |canvas| == w * h * 4 && |frame| == control.width * control.height * 4
    requires x < w && y < h && c < 4 && control.dispose <= 2
    ensures var pixel := (y * w + x) * 4;
            var shown, kept := Displayed(canvas, w, h, control, frame), Disposed(canvas, w, h, control, frame);
            && pixel + 4 <= |canvas| == |shown| == |kept|
            && if control.xOffset <= x < control.xOffset + control.width && control.yOffset <= y < control.yOffset + control.height then
                 var source := ((y - control.yOffset) * control.width + (x - control.xOffset)) * 4;
                 && 0 <= source && source + 4 <= |frame|
                 && (control.blend == 0 ==> shown[pixel + c] == frame[source + c])
                 && (control.blend == 1 ==> IsOver(shown[pixel + c], c, frame[source + c], frame[source + 3], canvas[pixel + c], canvas[pixel + 3]))
                 && kept[pixel + c] == (if control.dispose == 0 then shown[pixel + c] else if control.dispose == 1 then 0 else canvas[pixel + c])
               else shown[pixel + c] == kept[pixel + c] == canvas[pixel + c]
  {
    hide Displayed, Disposed, PixelAt, IsOver, OverPixel;
    var shown, kept := Displayed(canvas, w, h, control, frame), Disposed(canvas, w, h, control, frame);
    PixelBytesAt(canvas, x, y, w, h, c);
    PixelBytesAt(canvas, x, y, w, h, 3);
    PixelOffsetIsProduct(0, h, w);
    assert |shown| == |kept| == w * h * 4;
    PixelBytesAt(shown, x, y, w, h, c);
    PixelBytesAt(kept, x, y, w, h, c);
    ComposedPixel(canvas, w, h, control, frame, x, y);
    if Covers(control, x, y) {
      PixelBytesAt(frame, x - control.xOffset, y - control.yOffset, control.width, control.height, c);
      PixelBytesAt(frame, x - control.xOffset, y - control.yOffset, control.width, control.height, 3);
      OverChannel(PixelAt(canvas, x, y, w), PixelAt(frame, x - control.xOffset, y - control.yOffset, control.width), c);
    }
  }

  /** The channel is that of a source pixel over a destination pixel, off by at most half a step; a transparent source changes nothing. */
  predicate IsOver(result: Byte, channel: nat, source: Byte, sourceAlpha: Byte, destination: Byte, destinationAlpha: Byte) {
    var alpha := ExactAlpha(sourceAlpha, destinationAlpha);
    && (sourceAlpha == 0 ==> result == destination)
    && (channel == 3 ==> -0.5 <= result as real - 255.0 * alpha <= 0.5)
    && (channel < 3 ==>
          -0.5 * alpha <= result as real * alpha - ExactColorSum(source, sourceAlpha, destination, destinationAlpha) <= 0.5 * alpha)
  }

  lemma OverChannel(destination: Pixel, source: Pixel, c: nat)
    requires c < 4
    ensures IsOver(Channel(OverPixel(destination, source), c), c, Channel(source, c), source.alpha, Channel(destination, c), destination.alpha)
  {
    hide OverPixel, ExactAlpha, ExactColorSum;
    OverIsRoundedPorterDuff(destination, source, if c < 3 then c else 0);
  }

  /** Drawn with OVER, a frame that is transparent everywhere shows the canvas as it was. */
  lemma TransparentFrameShowsCanvas(canvas: seq<Byte>, w: nat, h: nat, control: FrameControl, frame: seq<Byte>)
    requires w > 0 && |canvas| == w * h * 4 && |frame| == control.width * control.height * 4
    requires control.blend == 1 && forall i | 0 <= i < |frame| && i % 4 == 3 :: frame[i] == 0
    ensures Displayed(canvas, w, h, control, frame) == canvas
  {
    hide Displayed, PixelAt, OverPixel;
    PixelOffsetIsProduct(0, h, w);
    forall x: nat, y: nat | x < w && y < h
      ensures PixelAt(Displayed(canvas, w, h, control, frame), x, y, w) == PixelAt(canvas, x, y, w)
    {
      ComposedPixel(canvas, w, h, control, frame, x, y);
      if Covers(control, x, y) {
        var u, v := x - control.xOffset, y - control.yOffset;
        PixelBytesAt(frame, u, v, control.width, control.height, 3);
        assert ((v * control.width + u) * 4 + 3) % 4 == 3;
        OverIsRoundedPorterDuff(PixelAt(canvas, x, y, w), PixelAt(frame, u, v, control.width), 0);
      }
    }
    GridDetermines(Displayed(canvas, w, h, control, frame), canvas, w, h);
  }

  /** A frame of the canvas's own size at its origin. */
  predicate CoversCanvas(control: FrameControl, w: nat, h: nat) {
    control.xOffset == control.yOffset == 0 && control.width == w && control.height == h
  }

  /** Shown with SOURCE, such a frame is shown as it is, whatever was on the canvas. */
  lemma FullSourceIsShown(canvas: seq<Byte>, w: nat, h: nat, control: FrameControl, frame: seq<Byte>)
    requires CoversCanvas(control, w, h) && control.blend == 0 && IsRaster(frame, w, h)
    ensures Displayed(canvas, w, h, control, frame) == frame
  {
    hide Painted, PixelAt, OverPixel;
    forall x: nat, y: nat | x < w && y < h
      ensures PixelAt(frame, x, y, w) == PixelAt(Displayed(canvas, w, h, control, frame), x, y, w)
    {
      PaintedAt(Source, canvas, w, h, control, frame, x, y);
    }
    GridDetermines(Displayed(canvas, w, h, control, frame), frame, w, h);
  }
}
