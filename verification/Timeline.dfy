/**
 The clocks of `convert_animated_avif` and `convert_animated_jxl`. `U64` is a newtype, so each
 sum and product of the source's 64-bit arithmetic is proved to fit.
 */
module Timeline {
  import opened Arithmetic
  import opened Bytes
  import opened Wrappers

  newtype U64 = x: int | 0 <= x < 0x1_0000_0000_0000_0000

  /** The length of a frame in milliseconds: what the file says, rounded down, but never nothing. */
  function TrueDuration(ticks: int, denominator: int, numerator: int): (r: int)
    requires numerator > 0
    ensures r >= 1
  {
    var ms := ticks * denominator * 1000 / numerator;
    if ms < 1 then 1 else ms
  }

  /** The exact start of frame n. */
  function TrueStart(ticks: seq<Word>, denominator: int, numerator: int, n: nat): (r: int)
    requires numerator > 0 && n <= |ticks|
    ensures r >= n
  {
    if n == 0 then 0 else TrueStart(ticks, denominator, numerator, n - 1) + TrueDuration(ticks[n - 1], denominator, numerator)
  }

  /**
   Every frame lasts as many whole milliseconds as its ticks are worth, but at least one; the first starts at zero and
   each next one when the one before it is over.
   */
  lemma FramesLastTheirTicks(ticks: seq<Word>, denominator: Word, numerator: Word, k: nat)
    requires numerator > 0 && k < |ticks|
    ensures var lasts := TrueStart(ticks, denominator, numerator, k + 1) - TrueStart(ticks, denominator, numerator, k);
            var worth := ticks[k] * denominator * 1000;
            && TrueStart(ticks, denominator, numerator, 0) == 0
            && lasts >= 1 && (lasts == 1 || lasts * numerator <= worth) && worth < (lasts + 1) * numerator
  {
    var worth := ticks[k] * denominator * 1000;
    var q := worth / numerator;
    assert worth == q * numerator + worth % numerator;
    if q < 1 {
      ProductOrder(q + 1, 1, numerator);
    }
  }

  /** No two frames of an AVIF or JPEG XL animation are shown at the same time. */
  lemma {:induction false} StartsIncrease(ticks: seq<Word>, denominator: int, numerator: int, a: nat, b: nat)
    requires numerator > 0 && a < b <= |ticks|
    ensures TrueStart(ticks, denominator, numerator, a) < TrueStart(ticks, denominator, numerator, b)
  {
    hide TrueDuration;
    if a < b - 1 {
      StartsIncrease(ticks, denominator, numerator, a, b - 1);
    }
  }

  /** Splitting off whole seconds first loses nothing. */
  lemma SecondsAndRest(scaled: int, d: int)
    requires scaled >= 0 && d > 0
    ensures scaled / d * 1000 + scaled % d * 1000 / d == scaled * 1000 / d
  {
    var s, r := scaled / d, scaled % d;
    assert scaled == s * d + r;
    assert scaled * 1000 == s * 1000 * d + r * 1000;
    DivideSum(s * 1000, d, r * 1000);
  }

  lemma ProductFits(a: Word, b: Word)
    ensures 0 <= a * b < 0x1_0000_0000_0000_0000
  {
    ProductBound(a, b, 0xFFFF_FFFF, 0xFFFF_FFFF);
  }

  /** The JPEG XL clock: seconds and the rest of a second are converted apart. */
  method JxlTimeline(ticks: seq<Word>, ticksPerSecond: Word, tickDenominator: Word) returns (stamps: seq<int>, end: Option<int>)
    requires ticksPerSecond > 0
    ensures |stamps| <= |ticks|
    ensures forall k | 0 <= k < |stamps| :: stamps[k] == TrueStart(ticks, tickDenominator, ticksPerSecond, k) <= INT_MAX
    ensures end.Some? ==> |stamps| == |ticks| && end.value == TrueStart(ticks, tickDenominator, ticksPerSecond, |ticks|) <= INT_MAX
    ensures end.None? ==> |stamps| > 0 && TrueStart(ticks, tickDenominator, ticksPerSecond, |stamps|) > INT_MAX
  {
    hide TrueDuration;
    stamps := [];
    var timestampMs := 0;
    for index := 0 to |ticks|
      invariant |stamps| == index
      invariant timestampMs == TrueStart(ticks, tickDenominator, ticksPerSecond, index) <= INT_MAX
      invariant forall k | 0 <= k < index :: stamps[k] == TrueStart(ticks, tickDenominator, ticksPerSecond, k) <= INT_MAX
    {
      stamps := stamps + [timestampMs];
      var duration := JxlDuration(ticks[index], ticksPerSecond, tickDenominator);
      if duration.None? || duration.value > INT_MAX - timestampMs {
        return stamps, None;
      }
      timestampMs := timestampMs + duration.value;
    }
    end := Some(timestampMs);
  }

  /** One frame's duration; none when its whole seconds alone are more than the clock can hold. */
  method JxlDuration(frameDuration: Word, ticksPerSecond: Word, tickDenominator: Word) returns (r: Option<int>)
    requires ticksPerSecond > 0
    ensures r.Some? ==> r.value == TrueDuration(frameDuration, tickDenominator, ticksPerSecond)
    ensures r.None? ==> TrueDuration(frameDuration, tickDenominator, ticksPerSecond) > INT_MAX
  {
    ProductFits(frameDuration, tickDenominator);
    var scaledTicks := frameDuration as U64 * tickDenominator as U64;
    var seconds := scaledTicks / ticksPerSecond as U64;
    SecondsAndRest(scaledTicks as int, ticksPerSecond);
    if seconds > INT_MAX as U64 / 1000 {
      RestIsPositive(scaledTicks as int, ticksPerSecond);
      return None;
    }
    RestIsPositive(scaledTicks as int, ticksPerSecond);
    var ms := (seconds * 1000) + ((scaledTicks % ticksPerSecond as U64) * 1000 / ticksPerSecond as U64);
    return Some(if ms < 1 then 1 else ms as int);
  }

  lemma RestIsPositive(scaled: int, d: int)
    requires scaled >= 0 && d > 0
    ensures 0 <= scaled % d * 1000 / d < 1000
  {
    var r := scaled % d;
    var q, rest := r * 1000 / d, r * 1000 % d;
    assert r * 1000 == q * d + rest;
    if q >= 1000 {
      ProductOrder(1000, q, d);
    } else if q < 0 {
      ProductOrder(q, -1, d);
    }
  }

  /** The AVIF clock. */
  method AvifTimeline(ticks: seq<Word>, timescale: Word) returns (stamps: seq<int>, end: Option<int>)
    requires timescale > 0
    ensures |stamps| <= |ticks|
    ensures forall k | 0 <= k < |stamps| :: stamps[k] == TrueStart(ticks, 1, timescale, k) <= INT_MAX
    ensures end.Some? ==> |stamps| == |ticks| && end.value == TrueStart(ticks, 1, timescale, |ticks|) <= INT_MAX
    ensures end.None? ==> |stamps| > 0 && TrueStart(ticks, 1, timescale, |stamps|) > INT_MAX
  {
    hide TrueDuration;
    stamps := [];
    var timestampMs := 0;
    for index := 0 to |ticks|
      invariant |stamps| == index
      invariant timestampMs == TrueStart(ticks, 1, timescale, index) <= INT_MAX
      invariant forall k | 0 <= k < index :: stamps[k] == TrueStart(ticks, 1, timescale, k) <= INT_MAX
    {
      stamps := stamps + [timestampMs];
      var durationMs := AvifDuration(ticks[index], timescale);
      if durationMs > INT_MAX - timestampMs {
        return stamps, None;
      }
      timestampMs := timestampMs + durationMs;
    }
    end := Some(timestampMs);
  }

  method AvifDuration(frameDuration: Word, timescale: Word) returns (r: int)
    requires timescale > 0
    ensures r == TrueDuration(frameDuration, 1, timescale)
  {
    var ms := frameDuration as U64 * 1000 / timescale as U64;
    assert frameDuration * 1 * 1000 == frameDuration * 1000;
    return if ms < 1 then 1 else ms as int;
  }
}
