/**
 The frame loop of `convert_apng_to_webp`: one canvas threaded through all frames, each
 displayed copy handed to the encoder at the sum of the delays before it.
 */
module ApngConversion {
  import opened Arithmetic
  import opened Bytes
  import opened PngChunks
  import opened Rgba
  import opened Wrappers
  import opened AlphaBlending
  import opened Raster
  import opened ApngParser
  import opened ApngStream
  import opened ApngDecoder
  import opened ApngCompositor

  datatype ConversionError = DecodeFailed | BaseFrame | CanvasDimensions | Composition | Picture | Encoder

  /** What the encoder is given for a frame. */
  datatype Added = Added(image: seq<Byte>, timestamp: nat)

  /** Every answer of libwebp that the loop branches on, by frame where it is asked once a frame. */
  datatype Webp = Webp(ready: bool, picture: nat -> bool, accepts: nat -> bool, assemble: seq<Added> -> seq<Byte>)

  /** `apng_frame_duration_ms`: the product is of 32-bit numbers, the quotient is cast to a signed one. */
  function FrameDuration(numerator: Half, denominator: Half): (r: int)
    ensures 0 <= r <= INT_MAX
  {
    if denominator == 0 then 0 else numerator * 1000 % 0x1_0000_0000 / denominator
  }

  /** The product never wraps: the duration is the delay in whole milliseconds. */
  lemma DurationIsExact(numerator: Half, denominator: Half)
    requires denominator > 0
    ensures var r := FrameDuration(numerator, denominator);
            r * denominator <= numerator * 1000 < (r + 1) * denominator
  {
  }

  /** The sum of the delays of the first n frames. */
  function StartTime(frames: seq<DecodedFrame>, n: nat): nat
    requires n <= |frames|
  {
    if n == 0 then 0
    else StartTime(frames, n - 1) + FrameDuration(frames[n - 1].control.delayNumerator, frames[n - 1].control.delayDenominator)
  }

  /** The first frame starts at zero, and each next one as many whole milliseconds later as the delay before it is long. */
  lemma FramesLastTheirDelays(frames: seq<DecodedFrame>, k: nat)
    requires k < |frames| && frames[k].control.delayDenominator > 0
    ensures var control := frames[k].control;
            var lasts := StartTime(frames, k + 1) - StartTime(frames, k);
            && StartTime(frames, 0) == 0
            && lasts * control.delayDenominator <= control.delayNumerator * 1000 < (lasts + 1) * control.delayDenominator
  {
    hide FrameDuration;
    DurationIsExact(frames[k].control.delayNumerator, frames[k].control.delayDenominator);
  }

  lemma {:induction false} StartTimesInOrder(frames: seq<DecodedFrame>, a: nat, b: nat)
    requires a <= b <= |frames|
    ensures StartTime(frames, a) <= StartTime(frames, b)
  {
    if a < b {
      StartTimesInOrder(frames, a, b - 1);
    }
  }

  // ----- a run of the canvas machine

  /** The canvas after the first n frames. */
  function CanvasAfter(canvas: seq<Byte>, w: nat, h: nat, frames: seq<DecodedFrame>, n: nat): (r: seq<Byte>)
    requires w > 0 && n <= |frames|
    ensures IsRaster(canvas, w, h) ==> IsRaster(r, w, h)
  {
    if n == 0 then canvas
    else Disposed(CanvasAfter(canvas, w, h, frames, n - 1), w, h, frames[n - 1].control, frames[n - 1].rgba)
  }

  /** What is displayed for frame k. */
  function Display(canvas: seq<Byte>, w: nat, h: nat, frames: seq<DecodedFrame>, k: nat): seq<Byte>
    requires w > 0 && k < |frames|
  {
    Displayed(CanvasAfter(canvas, w, h, frames, k), w, h, frames[k].control, frames[k].rgba)
  }

  function Without<T>(s: seq<T>, i: nat): (r: seq<T>)
    requires i < |s|
    ensures |r| == |s| - 1
  {
    s[..i] + s[i + 1..]
  }

  /** Deleting a frame that restores the canvas leaves every other displayed canvas as it was. */
  lemma {:induction false} PreviousFrameIsInvisibleToOthers(canvas: seq<Byte>, w: nat, h: nat, frames: seq<DecodedFrame>, i: nat, k: nat)
    requires w > 0 && i < |frames| && frames[i].control.dispose == 2
    requires k < |frames| && k != i
    ensures Display(canvas, w, h, Without(frames, i), if k < i then k else k - 1) == Display(canvas, w, h, frames, k)
  {
    hide Displayed, Disposed;
    CanvasWithout(canvas, w, h, frames, i, k);
  }

  lemma {:induction false} CanvasWithout(canvas: seq<Byte>, w: nat, h: nat, frames: seq<DecodedFrame>, i: nat, k: nat)
    requires w > 0 && i < |frames| && frames[i].control.dispose == 2 && k <= |frames|
    ensures CanvasAfter(canvas, w, h, frames, k) == CanvasAfter(canvas, w, h, Without(frames, i), if k <= i then k else k - 1)
  {
    hide Displayed, Painted;
    if k > 0 {
      CanvasWithout(canvas, w, h, frames, i, k - 1);
      if k - 1 < i {
        assert Without(frames, i)[k - 1] == frames[k - 1];
      } else if k - 1 > i {
        assert Without(frames, i)[k - 2] == frames[k - 1];
      }
    }
  }

  /** A frame that wipes out the past: all of the canvas is replaced and not restored. */
  predicate Resets(f: DecodedFrame, w: nat, h: nat) {
    CoversCanvas(f.control, w, h) && f.control.blend == 0 && f.control.dispose != 2 && IsRaster(f.rgba, w, h)
  }

  /** Runs from different canvases show the same from the first resetting frame on. */
  lemma {:induction false} RunsAgreeAfterReset(a: seq<Byte>, b: seq<Byte>, w: nat, h: nat, frames: seq<DecodedFrame>, i: nat, k: nat)
    requires w > 0 && i <= k < |frames| && Resets(frames[i], w, h)
    ensures Display(a, w, h, frames, k) == Display(b, w, h, frames, k)
    ensures CanvasAfter(a, w, h, frames, k + 1) == CanvasAfter(b, w, h, frames, k + 1)
  {
    hide Displayed, Painted, IsRaster;
    if k == i {
      FullSourceIsShown(CanvasAfter(a, w, h, frames, i), w, h, frames[i].control, frames[i].rgba);
      FullSourceIsShown(CanvasAfter(b, w, h, frames, i), w, h, frames[i].control, frames[i].rgba);
    } else {
      RunsAgreeAfterReset(a, b, w, h, frames, i, k - 1);
    }
  }

  /** The pixel left at (x, y) after n frames, by a machine that knows no other pixel. */
  function PixelAfter(start: Pixel, frames: seq<DecodedFrame>, n: nat, x: nat, y: nat): Pixel
    requires n <= |frames|
  {
    if n == 0 then start
    else KeptPixel(PixelAfter(start, frames, n - 1, x, y), frames[n - 1].control, frames[n - 1].rgba, x, y)
  }

  /** The run of the canvas is the product of the runs of its pixels. */
  lemma {:induction false} RunIsPixelwise(canvas: seq<Byte>, w: nat, h: nat, frames: seq<DecodedFrame>, k: nat, x: nat, y: nat)
    requires k < |frames| && x < w && y < h
    ensures PixelAt(CanvasAfter(canvas, w, h, frames, k), x, y, w) == PixelAfter(PixelAt(canvas, x, y, w), frames, k, x, y)
    ensures PixelAt(Display(canvas, w, h, frames, k), x, y, w)
         == ShownPixel(PixelAfter(PixelAt(canvas, x, y, w), frames, k, x, y), frames[k].control, frames[k].rgba, x, y)
  {
    hide Displayed, Disposed, PixelAt, ShownPixel, KeptPixel;
    if k > 0 {
      RunIsPixelwise(canvas, w, h, frames, k - 1, x, y);
      ComposedPixel(CanvasAfter(canvas, w, h, frames, k - 1), w, h, frames[k - 1].control, frames[k - 1].rgba, x, y);
    }
    ComposedPixel(CanvasAfter(canvas, w, h, frames, k), w, h, frames[k].control, frames[k].rgba, x, y);
  }

  // ----- the loop

  /** Nothing the parser and the decoder let through can make the compositor refuse a frame. */
  lemma ComposableIsComposed(f: DecodedFrame, w: Word, h: Word, canvasBytes: nat)
    requires Composable(f, w, h) && RgbaSize(w, h) == Some(canvasBytes)
    ensures CompositionFailure(canvasBytes, w, h, f.control, |f.rgba|) == None
  {
    hide RgbaSize;
  }

  /** The start canvas. */
  function Blank(w: nat, h: nat): (r: seq<Byte>)
    requires w > 0
    ensures IsRaster(r, w, h)
  {
    seq(4 * RowStart(h, w), _ => 0)
  }

  /** It is transparent black everywhere, four bytes a pixel. */
  lemma BlankIsTransparent(w: nat, h: nat)
    requires w > 0
    ensures |Blank(w, h)| == w * h * 4 && forall i | 0 <= i < |Blank(w, h)| :: Blank(w, h)[i] == 0
  {
    PixelOffsetIsProduct(0, h, w);
    assert h * w == w * h;
  }

  predicate FitsEncoder(width: Word, height: Word) {
    0 < width <= INT_MAX && 0 < height <= INT_MAX
  }

  /** The frames the loop gets through: the clock can hold their start and libwebp takes them. */
  predicate Passes(webp: Webp, frames: seq<DecodedFrame>, k: nat)
    requires k < |frames|
  {
    StartTime(frames, k) <= INT_MAX && webp.picture(k) && webp.accepts(k)
  }

  /** What the encoder is given if nothing stops the run: on a blank canvas, every display at the sum of the delays before it. */
  function Run(a: DecodedAnimation): (r: seq<Added>)
    requires a.canvasWidth > 0
    ensures |r| == |a.frames|
  {
    var blank := Blank(a.canvasWidth, a.canvasHeight);
    seq(|a.frames|, k requires 0 <= k < |a.frames| => Added(Display(blank, a.canvasWidth, a.canvasHeight, a.frames, k), StartTime(a.frames, k)))
  }

  /** The conversion gets as far as its frames. */
  predicate Begins(webp: Webp, decoded: Result<DecodedAnimation, DecodeError>, targetWidth: Word, targetHeight: Word) {
    && FitsEncoder(targetWidth, targetHeight)
    && decoded.Ok? && 0 < decoded.value.canvasWidth <= INT_MAX / 4 && decoded.value.canvasHeight <= INT_MAX
    && webp.ready
  }

  /** Why the loop stops at a frame that does not pass. */
  function StopReason(webp: Webp, frames: seq<DecodedFrame>, k: nat): ConversionError
    requires k < |frames|
  {
    if StartTime(frames, k) > INT_MAX || webp.picture(k) then Encoder else Picture
  }

  /** The canvas size check cannot fail once the width and height checks have passed. */
  lemma CanvasFits(w: Word, h: Word)
    requires 0 < w <= INT_MAX / 4 && 0 < h <= INT_MAX
    ensures RgbaSize(w, h) == Some(4 * RowStart(h, w))
  {
    RgbaSizeIsExact(w, h);
    PixelOffsetIsProduct(0, h, w);
    ProductBound(w, h, INT_MAX / 4, INT_MAX);
    assert w * h * 4 == 4 * (h * w);
  }

  lemma RunStart(canvas: seq<Byte>, w: nat, h: nat, frames: seq<DecodedFrame>)
    requires w > 0
    ensures CanvasAfter(canvas, w, h, frames, 0) == canvas && StartTime(frames, 0) == 0
  {
  }

  lemma RunStep(canvas: seq<Byte>, w: nat, h: nat, frames: seq<DecodedFrame>, k: nat)
    requires w > 0 && k < |frames|
    ensures var f := frames[k];
            && Display(canvas, w, h, frames, k) == Displayed(CanvasAfter(canvas, w, h, frames, k), w, h, f.control, f.rgba)
            && CanvasAfter(canvas, w, h, frames, k + 1) == Disposed(CanvasAfter(canvas, w, h, frames, k), w, h, f.control, f.rgba)
            && StartTime(frames, k + 1) == StartTime(frames, k) + FrameDuration(f.control.delayNumerator, f.control.delayDenominator)
  {
    hide Displayed, Disposed, FrameDuration;
  }

  /** The frame loop: it stops at the first frame that does not pass, and never because of the compositor. */
  method AddFrames(webp: Webp, canvas: array<Byte>, w: Word, h: Word, frames: seq<DecodedFrame>) returns (failure: Option<ConversionError>, added: seq<Added>)
    requires w > 0 && canvas[..] == Blank(w, h) && canvas.Length == 4 * RowStart(h, w) && RgbaSize(w, h) == Some(canvas.Length)
    requires forall f | f in frames :: Composable(f, w, h)
    modifies canvas
    ensures |added| <= |frames|
    ensures forall k | 0 <= k < |added| :: Passes(webp, frames, k) && added[k] == Added(Display(Blank(w, h), w, h, frames, k), StartTime(frames, k))
    ensures failure.None? ==> |added| == |frames|
    ensures failure.Some? ==> |added| < |frames| && !Passes(webp, frames, |added|) && failure == Some(StopReason(webp, frames, |added|))
  {
    hide RgbaSize, Displayed, Disposed, Composable, IsRaster, CompositionFailure, FrameDuration, Blank, Display, CanvasAfter, StartTime;
    added := [];
    ghost var blank := Blank(w, h);
    RunStart(blank, w, h, frames);
    var timestamp := 0;
    for index := 0 to |frames|
      invariant |added| == index
      invariant canvas.Length == 4 * RowStart(h, w)
      invariant canvas[..] == CanvasAfter(blank, w, h, frames, index)
      invariant timestamp == (if index == 0 then 0 else StartTime(frames, index - 1)) <= INT_MAX
      invariant forall k | 0 <= k < index :: Passes(webp, frames, k) && added[k] == Added(Display(blank, w, h, frames, k), StartTime(frames, k))
    {
      if index != 0 {
        RunStep(blank, w, h, frames, index - 1);
        var previous := frames[index - 1].control;
        var duration := FrameDuration(previous.delayNumerator, previous.delayDenominator);
        if duration > INT_MAX - timestamp {
          return Some(Encoder), added;
        }
        timestamp := timestamp + duration;
      }
      RunStep(blank, w, h, frames, index);
      var frame := frames[index];
      ComposableIsComposed(frame, w, h, canvas.Length);
      var composed := ComposeApngFrame(canvas, w, h, frame.control, frame.rgba);
      if composed.Err? {
        assert false;
      }
      if !webp.picture(index) {
        return Some(Picture), added;
      }
      if !webp.accepts(index) {
        return Some(Encoder), added;
      }
      added := added + [Added(composed.value, timestamp)];
    }
    return None, added;
  }

  method ConvertApngToWebp(crc: Crc, reader: PngReader, webp: Webp, body: seq<Byte>, targetWidth: Word, targetHeight: Word)
    returns (r: Result<seq<Byte>, ConversionError>, added: seq<Added>)
    // It succeeds exactly when every frame passes and the encoder assembles something from the whole run.
    ensures var decoded := DecodedOf(crc, reader, body);
            r.Ok? <==>
              && 0 < targetWidth <= 0x7FFF_FFFF && 0 < targetHeight <= 0x7FFF_FFFF
              && decoded.Ok? && 0 < decoded.value.canvasWidth <= 0x7FFF_FFFF / 4 && decoded.value.canvasHeight <= 0x7FFF_FFFF
              && webp.ready
              && (forall k | 0 <= k < |decoded.value.frames| ::
                    StartTime(decoded.value.frames, k) <= 0x7FFF_FFFF && webp.picture(k) && webp.accepts(k))
              && webp.assemble(Run(decoded.value)) != []
    ensures r.Ok? ==> r.value == webp.assemble(Run(DecodedOf(crc, reader, body).value))
    // What reached the encoder is the run up to the first frame that does not pass.
    ensures !Begins(webp, DecodedOf(crc, reader, body), targetWidth, targetHeight) ==> added == []
    ensures var decoded := DecodedOf(crc, reader, body);
            Begins(webp, decoded, targetWidth, targetHeight) ==>
              && added <= Run(decoded.value)
              && (forall k | 0 <= k < |added| ::
                    StartTime(decoded.value.frames, k) <= 0x7FFF_FFFF && webp.picture(k) && webp.accepts(k))
              && (|added| < |decoded.value.frames| ==>
                    !(StartTime(decoded.value.frames, |added|) <= 0x7FFF_FFFF && webp.picture(|added|) && webp.accepts(|added|)))
    // The first thing that is wrong is what is reported; no composition failure and no base-frame failure is reachable.
    ensures var decoded := DecodedOf(crc, reader, body);
            r.Err? ==>
              r.error == if !FitsEncoder(targetWidth, targetHeight) then CanvasDimensions
                         else if decoded.Err? then DecodeFailed
                         else if decoded.value.canvasWidth > INT_MAX / 4 || decoded.value.canvasHeight > INT_MAX then CanvasDimensions
                         else if webp.ready && |added| < |decoded.value.frames| && StartTime(decoded.value.frames, |added|) <= 0x7FFF_FFFF
                                 && !webp.picture(|added|) then Picture
                         else Encoder
    ensures r != Err(Composition) && r != Err(BaseFrame)
  {
    hide RgbaSize, DecodedOf, Composable, IsRaster, Display;
    added := [];
    if !FitsEncoder(targetWidth, targetHeight) {
      return Err(CanvasDimensions), added;
    }
    var decoded := DecodeApngFrames(crc, reader, body);
    if decoded.Err? {
      return Err(DecodeFailed), added;
    }
    DecodedIsComposable(crc, reader, body);
    if decoded.value.frames == [] {
      assert false;
    }
    var frames, w, h := decoded.value.frames, decoded.value.canvasWidth, decoded.value.canvasHeight;
    if w > INT_MAX / 4 || h > INT_MAX {
      return Err(CanvasDimensions), added;
    }
    CanvasFits(w, h);
    var expectedCanvasSize := RgbaSize(w, h);
    if expectedCanvasSize.None? {
      assert false;
    }
    var canvas := new Byte[expectedCanvasSize.value](_ => 0);
    assert canvas[..] == Blank(w, h);
    if !webp.ready {
      return Err(Encoder), added;
    }

    var failure;
    failure, added := AddFrames(webp, canvas, w, h, frames);
    if failure.Some? {
      return Err(failure.value), added;
    }
    assert added == Run(decoded.value);
    var output := webp.assemble(added);
    if output == [] {
      return Err(Encoder), added;
    }
    return Ok(output), added;
  }
}
