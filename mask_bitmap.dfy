/**
 * Turning a confidence mask (one value per pixel, nominally 0.0 .. 1.0) into
 * the grey ARGB bitmap the compositor samples.
 *
 * Mask values are modelled as reals: the rounding of the single-precision
 * product `value * 255` and NaN are not modelled.
 */
module MaskBitmap {
  import opened Common
  import opened Pixels

  /** Kotlin's `Float.toInt()` on a finite value: truncation toward zero. */
  function TruncateToInt(v: real): (n: int)
    ensures v >= 0.0 ==> n as real <= v < n as real + 1.0
    ensures v < 0.0 ==> n as real - 1.0 < v <= n as real
  {
    if v >= 0.0 then v.Floor else -((-v).Floor)
  }

  /** Gradient mode: `(value * 255).toInt().coerceIn(0, 255)`. */
  function GradientLevel(value: real): (level: int)
    ensures 0 <= level <= 255
    ensures value <= 0.0 ==> level == 0
    ensures value >= 1.0 ==> level == 255
    ensures 0.0 <= value <= 1.0 ==> level as real <= value * 255.0 < level as real + 1.0
  {
    Clamp(TruncateToInt(value * 255.0), 0, 255)
  }

  /** Binary mode: `if (value >= 0.5f) 255 else 0`. */
  function ThresholdLevel(value: real): (level: int)
    ensures level == 0 || level == 255
    ensures level == 255 <==> value >= 0.5
  {
    if value >= 0.5 then 255 else 0
  }

  /** A brighter mask value never gives a darker grey. */
  lemma GradientMonotone(a: real, b: real)
    requires a <= b
    ensures GradientLevel(a) <= GradientLevel(b)
  {
    TruncateMonotone(a * 255.0, b * 255.0);
  }

  /** Truncation toward zero is monotone. */
  lemma TruncateMonotone(a: real, b: real)
    requires a <= b
    ensures TruncateToInt(a) <= TruncateToInt(b)
  {
    if a >= 0.0 || b < 0.0 {
      // Both on one side of zero: floor, or minus the floor of the negation, each monotone.
    } else {
      assert TruncateToInt(a) <= 0 <= TruncateToInt(b);
    }
  }

  /** On a hard 0 / 1 mask both modes agree: black for 0, white for 1. */
  lemma ModesAgreeOnBinaryMask(value: real)
    requires value == 0.0 || value == 1.0
    ensures GradientLevel(value) == ThresholdLevel(value)
  {
  }

  /** The grey level of one pixel in the chosen mode. */
  function Level(value: real, useGradient: bool): (level: int)
    ensures 0 <= level <= 255
  {
    if useGradient then GradientLevel(value) else ThresholdLevel(value)
  }

  /**
   * createMaskBitmapFromFloat: `IntArray(width * height) { i -> ... }` reads
   * `maskArray[i]` for every pixel, so a mask shorter than the image throws
   * (None), and `Bitmap.createBitmap` throws for a zero width or height
   * (None). Extra mask values are ignored.
   */
  function MaskPixels(mask: seq<real>, width: nat, height: nat, useGradient: bool): (r: Option<seq<Argb>>)
    ensures r.None? <==> width == 0 || height == 0 || |mask| < width * height
    ensures r.Some? ==> |r.value| == width * height
    ensures r.Some? ==> forall i :: 0 <= i < width * height ==> r.value[i] == Gray(Level(mask[i], useGradient))
  {
    if |mask| < width * height || width == 0 || height == 0 then None
    else Some(seq(width * height, i requires 0 <= i < width * height => Gray(Level(mask[i], useGradient))))
  }

  /** Every mask pixel is an opaque grey whose level lies in 0..255. */
  lemma MaskPixelsGrey(mask: seq<real>, width: nat, height: nat, useGradient: bool, i: nat)
    requires |mask| >= width * height && i < width * height
    ensures var p := MaskPixels(mask, width, height, useGradient).value[i];
      Red(p) == Green(p) == Blue(p) == Level(mask[i], useGradient) && p / 0x100_0000 == 0xFF
  {
    assert width > 0 && height > 0 by {
      assert 0 < width * height;
    }
    GrayChannels(Level(mask[i], useGradient));
  }
}
