/**
 One pixel of `BLEND_OP_OVER`, in the 32-bit unsigned arithmetic of the source: `U32` is a
 newtype, so every sum and product below is proved to fit, and every divisor to be positive.
 */
module AlphaBlending {
  import opened Arithmetic
  import opened Bytes

  newtype U32 = x: int | 0 <= x < 0x1_0000_0000

  datatype Pixel = Pixel(red: Byte, green: Byte, blue: Byte, alpha: Byte)

  /** The four bytes of a pixel, in memory order. */
  function Channel(p: Pixel, c: nat): Byte
    requires c < 4
  {
    match c
    case 0 => p.red
    case 1 => p.green
    case 2 => p.blue
    case _ => p.alpha
  }

  const TRANSPARENT := Pixel(0, 0, 0, 0)

  /** The quotient is cast to eight bits. */
  function RoundedDivide(numerator: U32, denominator: U32): Byte
    requires denominator > 0 && numerator as int + denominator as int / 2 < 0x1_0000_0000
  {
    ((numerator + denominator / 2) / denominator) as int % 0x100
  }

  function AlphaNumerator(sourceAlpha: Byte, destinationAlpha: Byte): U32 {
    ProductBound(destinationAlpha, 255 - sourceAlpha, 255, 255);
    (sourceAlpha as U32 * 255) + (destinationAlpha as U32 * (255 - sourceAlpha as U32))
  }

  function ColorNumerator(source: Byte, sourceAlpha: Byte, destination: Byte, destinationAlpha: Byte): U32 {
    ProductBound(source, sourceAlpha, 255, 255);
    ProductBound(destination, destinationAlpha, 255, 255);
    ProductBound(destination * destinationAlpha, 255 - sourceAlpha, 255 * 255, 255);
    (source as U32 * sourceAlpha as U32 * 255) + (destination as U32 * destinationAlpha as U32 * (255 - sourceAlpha as U32))
  }

  function OverColor(source: Byte, sourceAlpha: Byte, destination: Byte, destinationAlpha: Byte): Byte
    requires sourceAlpha > 0
  {
    NumeratorsFit(source, sourceAlpha, destination, destinationAlpha);
    RoundedDivide(ColorNumerator(source, sourceAlpha, destination, destinationAlpha), AlphaNumerator(sourceAlpha, destinationAlpha))
  }

  function OverAlpha(sourceAlpha: Byte, destinationAlpha: Byte): Byte
    requires sourceAlpha > 0
  {
    NumeratorsFit(0, sourceAlpha, 0, destinationAlpha);
    RoundedDivide(AlphaNumerator(sourceAlpha, destinationAlpha), 255)
  }

  /** What `source_over_pixel` leaves at the destination. */
  function OverPixel(destination: Pixel, source: Pixel): Pixel {
    if source.alpha == 0 then destination
    else if source.alpha == 255 || destination.alpha == 0 then source
    else
      Pixel(
        OverColor(source.red, source.alpha, destination.red, destination.alpha),
        OverColor(source.green, source.alpha, destination.green, destination.alpha),
        OverColor(source.blue, source.alpha, destination.blue, destination.alpha),
        OverAlpha(source.alpha, destination.alpha))
  }

  lemma NumeratorsFit(source: Byte, sourceAlpha: Byte, destination: Byte, destinationAlpha: Byte)
    requires sourceAlpha > 0
    ensures 0 < AlphaNumerator(sourceAlpha, destinationAlpha) as int <= 255 * 255 * 2
    ensures ColorNumerator(source, sourceAlpha, destination, destinationAlpha) as int <= 255 * 255 * 255 * 2
  {
    ProductBound(destinationAlpha, 255 - sourceAlpha, 255, 255);
    ProductBound(source, sourceAlpha, 255, 255);
    ProductBound(destination, destinationAlpha, 255, 255);
    ProductBound(destination * destinationAlpha, 255 - sourceAlpha, 255 * 255, 255);
  }

  lemma QuotientBetween(n: int, d: int, low: int, high: int)
    requires d > 0 && low * d <= n <= high * d
    ensures var q := (n + d / 2) / d; low <= q <= high && 2 * n - d < 2 * (d * q) <= 2 * n + d
  {
    var m := n + d / 2;
    var q, rest := m / d, m % d;
    assert m == d * q + rest && 0 <= rest < d;
    EuclidBetween(n, d, low, high, q, d * q, rest);
  }

  lemma EuclidBetween(n: int, d: int, low: int, high: int, q: int, dq: int, rest: int)
    requires d > 0 && low * d <= n <= high * d
    requires dq == d * q && n + d / 2 == dq + rest && 0 <= rest < d
    ensures low <= q <= high && 2 * n - d < 2 * dq <= 2 * n + d
  {
    assert (q + 1) * d == dq + d && (high + 1) * d == high * d + d;
    if q < low {
      ProductOrder(q + 1, low, d);
    }
    if q > high {
      ProductOrder(high + 1, q, d);
    }
  }

  /** A rounded quotient lies between bounds of the exact one, so below 256 the cast loses nothing. */
  lemma RoundedBetween(numerator: U32, denominator: U32, low: Byte, high: Byte)
    requires denominator > 0 && numerator as int + denominator as int / 2 < 0x1_0000_0000
    requires low * denominator as int <= numerator as int <= high * denominator as int
    ensures var n, d, r := numerator as int, denominator as int, RoundedDivide(numerator, denominator);
            low <= r <= high && 2 * n - d < 2 * (d * r) <= 2 * n + d
  {
    var n, d := numerator as int, denominator as int;
    QuotientBetween(n, d, low, high);
    assert RoundedDivide(numerator, denominator) == (n + d / 2) / d;
  }

  lemma WeightedBetween(s: int, t: int, a: int, b: int, low: int, high: int)
    requires low <= s <= high && low <= t <= high && a >= 0 && b >= 0
    ensures low * (a + b) <= s * a + t * b <= high * (a + b)
  {
    ProductOrder(low, s, a);
    ProductOrder(low, t, b);
    ProductOrder(s, high, a);
    ProductOrder(t, high, b);
  }

  lemma Regroup(s: int, a: int, t: int, b: int, c: int)
    ensures s * a * 255 + t * b * c == s * (a * 255) + t * (b * c)
  {
  }

  /** The weighted sum lies between the two colours times the total weight. */
  lemma ColorBetween(source: Byte, sourceAlpha: Byte, destination: Byte, destinationAlpha: Byte, low: Byte, high: Byte)
    requires low <= source <= high && low <= destination <= high
    ensures var n, d := ColorNumerator(source, sourceAlpha, destination, destinationAlpha) as int, AlphaNumerator(sourceAlpha, destinationAlpha) as int;
            low * d <= n <= high * d
  {
    ProductBound(destinationAlpha, 255 - sourceAlpha, 255, 255);
    Regroup(source, sourceAlpha, destination, destinationAlpha, 255 - sourceAlpha);
    WeightedBetween(source, destination, sourceAlpha * 255, destinationAlpha * (255 - sourceAlpha), low, high);
  }

  /** Every blended colour lies between the two colours blended. */
  lemma OverColorBetween(source: Byte, sourceAlpha: Byte, destination: Byte, destinationAlpha: Byte)
    requires sourceAlpha > 0
    ensures var r := OverColor(source, sourceAlpha, destination, destinationAlpha);
            && (source <= r <= destination || destination <= r <= source)
            && var n, d := ColorNumerator(source, sourceAlpha, destination, destinationAlpha) as int, AlphaNumerator(sourceAlpha, destinationAlpha) as int;
               2 * n - d < 2 * (d * r) <= 2 * n + d
  {
    hide ColorNumerator, AlphaNumerator, RoundedDivide;
    var low, high := if source <= destination then source else destination, if source <= destination then destination else source;
    NumeratorsFit(source, sourceAlpha, destination, destinationAlpha);
    ColorBetween(source, sourceAlpha, destination, destinationAlpha, low, high);
    RoundedBetween(ColorNumerator(source, sourceAlpha, destination, destinationAlpha), AlphaNumerator(sourceAlpha, destinationAlpha), low, high);
  }

  /** Blending never makes a pixel more transparent than either input. */
  lemma OverAlphaGrows(sourceAlpha: Byte, destinationAlpha: Byte)
    requires sourceAlpha > 0
    ensures var r := OverAlpha(sourceAlpha, destinationAlpha);
            && sourceAlpha <= r && destinationAlpha <= r
            && 2 * AlphaNumerator(sourceAlpha, destinationAlpha) as int - 255 < 510 * r <= 2 * AlphaNumerator(sourceAlpha, destinationAlpha) as int + 255
  {
    hide RoundedDivide;
    var s: int, d: int := sourceAlpha, destinationAlpha;
    var n := AlphaNumerator(sourceAlpha, destinationAlpha) as int;
    assert n == s * 255 + d * (255 - s) == d * 255 + s * (255 - d);
    ProductBound(d, 255 - s, 255, 255 - s);
    ProductBound(s, 255 - d, 255, 255 - d);
    NumeratorsFit(0, sourceAlpha, 0, destinationAlpha);
    RoundedBetween(AlphaNumerator(sourceAlpha, destinationAlpha), 255, if s <= d then destinationAlpha else sourceAlpha, 255);
  }

  // ----- the same operation on fractions

  /** A channel as a fraction of full intensity. */
  function Fraction(b: Byte): real {
    b as real / 255.0
  }

  /** The alpha of A over B: what A covers, and what B covers of the rest. */
  function ExactAlpha(source: Byte, destination: Byte): real {
    Fraction(source) + Fraction(destination) * (1.0 - Fraction(source))
  }

  /** Both colours weighted by what they cover, before division by the alpha. */
  function ExactColorSum(source: Byte, sourceAlpha: Byte, destination: Byte, destinationAlpha: Byte): real {
    source as real * Fraction(sourceAlpha) + destination as real * (Fraction(destinationAlpha) * (1.0 - Fraction(sourceAlpha)))
  }

  lemma AlphaFraction(sourceAlpha: Byte, destinationAlpha: Byte)
    ensures AlphaNumerator(sourceAlpha, destinationAlpha) as real == 65025.0 * ExactAlpha(sourceAlpha, destinationAlpha)
  {
    var s, d := Fraction(sourceAlpha), Fraction(destinationAlpha);
    assert sourceAlpha as real == 255.0 * s && destinationAlpha as real == 255.0 * d;
    var n := AlphaNumerator(sourceAlpha, destinationAlpha) as int;
    assert n as real == (sourceAlpha as real * 255.0) + (destinationAlpha as real * (255.0 - sourceAlpha as real)) by {
      assert n == sourceAlpha * 255 + destinationAlpha * (255 - sourceAlpha);
    }
    assert 255.0 * d * (255.0 - 255.0 * s) == 65025.0 * (d * (1.0 - s));
  }

  lemma ColorFraction(source: Byte, sourceAlpha: Byte, destination: Byte, destinationAlpha: Byte)
    ensures ColorNumerator(source, sourceAlpha, destination, destinationAlpha) as real
         == 65025.0 * ExactColorSum(source, sourceAlpha, destination, destinationAlpha)
  {
    var s, d := Fraction(sourceAlpha), Fraction(destinationAlpha);
    var n := ColorNumerator(source, sourceAlpha, destination, destinationAlpha) as int;
    Regroup(source, sourceAlpha, destination, destinationAlpha, 255 - sourceAlpha);
    ProductAsReal(source, sourceAlpha * 255);
    ProductAsReal(destinationAlpha, 255 - sourceAlpha);
    ProductAsReal(destination, destinationAlpha * (255 - sourceAlpha));
    assert destinationAlpha as real * (255 - sourceAlpha) as real == 65025.0 * (d * (1.0 - s));
    assert destination as real * (65025.0 * (d * (1.0 - s))) == 65025.0 * (destination as real * (d * (1.0 - s)));
  }

  lemma ProductAsReal(a: int, b: int)
    ensures (a * b) as real == a as real * b as real
  {
  }

  /**
   For every two pixels, each channel is the exact Porter-Duff "over" of the two rounded to a
   nearest integer: off by at most half a step. The shortcuts for transparent and opaque pixels
   are no exception, and a transparent source leaves the destination as it is, colours included.
   */
  lemma OverIsRoundedPorterDuff(destination: Pixel, source: Pixel, channel: nat)
    requires channel < 3
    ensures var r := OverPixel(destination, source);
            var alpha := ExactAlpha(source.alpha, destination.alpha);
            var sum := ExactColorSum(Channel(source, channel), source.alpha, Channel(destination, channel), destination.alpha);
            && (alpha > 0.0 <==> source.alpha > 0 || destination.alpha > 0)
            && -0.5 <= r.alpha as real - 255.0 * alpha <= 0.5
            && -0.5 * alpha <= Channel(r, channel) as real * alpha - sum <= 0.5 * alpha
            && (source.alpha == 0 ==> r == destination)
  {
    hide OverColor, OverAlpha, ExactAlpha, ExactColorSum;
    var sc, dc := Channel(source, channel), Channel(destination, channel);
    if source.alpha == 0 || source.alpha == 255 || destination.alpha == 0 {
      ShortcutIsExact(sc, source.alpha, dc, destination.alpha);
    } else {
      RoundedAlpha(source.alpha, destination.alpha);
      RoundedColor(sc, source.alpha, dc, destination.alpha);
      assert Channel(OverPixel(destination, source), channel) == OverColor(sc, source.alpha, dc, destination.alpha);
    }
  }

  /** Where one of the two pixels hides or is hidden completely, there is nothing to round. */
  lemma ShortcutIsExact(source: Byte, sourceAlpha: Byte, destination: Byte, destinationAlpha: Byte)
    requires sourceAlpha == 0 || sourceAlpha == 255 || destinationAlpha == 0
    ensures var alpha, sum := ExactAlpha(sourceAlpha, destinationAlpha), ExactColorSum(source, sourceAlpha, destination, destinationAlpha);
            if sourceAlpha == 0 then 255.0 * alpha == destinationAlpha as real && sum == destination as real * alpha
            else 255.0 * alpha == sourceAlpha as real && sum == source as real * alpha
  {
    var s, d := Fraction(sourceAlpha), Fraction(destinationAlpha);
    if sourceAlpha == 0 {
      assert s == 0.0 && ExactAlpha(sourceAlpha, destinationAlpha) == d;
    } else if sourceAlpha == 255 {
      assert s == 1.0 && d * (1.0 - s) == 0.0;
    } else {
      assert d == 0.0 && d * (1.0 - s) == 0.0;
    }
  }

  lemma RoundedAlpha(sourceAlpha: Byte, destinationAlpha: Byte)
    requires sourceAlpha > 0
    ensures ExactAlpha(sourceAlpha, destinationAlpha) > 0.0
    ensures -0.5 <= OverAlpha(sourceAlpha, destinationAlpha) as real - 255.0 * ExactAlpha(sourceAlpha, destinationAlpha) <= 0.5
  {
    hide AlphaNumerator, ExactAlpha, OverAlpha;
    OverAlphaGrows(sourceAlpha, destinationAlpha);
    AlphaFraction(sourceAlpha, destinationAlpha);
    NumeratorsFit(0, sourceAlpha, 0, destinationAlpha);
  }

  lemma RoundedColor(source: Byte, sourceAlpha: Byte, destination: Byte, destinationAlpha: Byte)
    requires sourceAlpha > 0
    ensures var alpha, sum := ExactAlpha(sourceAlpha, destinationAlpha), ExactColorSum(source, sourceAlpha, destination, destinationAlpha);
            -0.5 * alpha <= OverColor(source, sourceAlpha, destination, destinationAlpha) as real * alpha - sum <= 0.5 * alpha
  {
    hide ColorNumerator, AlphaNumerator, ExactAlpha, ExactColorSum, OverColor;
    OverColorBetween(source, sourceAlpha, destination, destinationAlpha);
    AlphaFraction(sourceAlpha, destinationAlpha);
    ColorFraction(source, sourceAlpha, destination, destinationAlpha);
    var n, d := ColorNumerator(source, sourceAlpha, destination, destinationAlpha) as int, AlphaNumerator(sourceAlpha, destinationAlpha) as int;
    var c := OverColor(source, sourceAlpha, destination, destinationAlpha);
    ProductAsReal(d, c);
    ScaledBack(n, d, d * c, ExactAlpha(sourceAlpha, destinationAlpha), ExactColorSum(source, sourceAlpha, destination, destinationAlpha), c as real);
  }

  lemma ScaledBack(n: int, d: int, dc: int, alpha: real, sum: real, c: real)
    requires d as real == 65025.0 * alpha && n as real == 65025.0 * sum && dc as real == d as real * c
    requires 2 * n - d < 2 * dc <= 2 * n + d
    ensures -0.5 * alpha <= c * alpha - sum <= 0.5 * alpha
  {
    assert dc as real == 65025.0 * (c * alpha);
  }
}
