/**
 * Colour-space arithmetic of ColorMath: RGB <-> HSL after the EasyRGB
 * formulas, the complement (hue turned by 180 degrees), the BT.709 luma
 * weighting, the `#rrggbb` serialiser and the integer parts of the HSV and
 * HMMD conversions.
 *
 * The Java code computes in `float`; this model computes in exact `real`
 * arithmetic, so everything proved here holds for exact arithmetic and says
 * nothing about IEEE rounding. `Math.round(x)` is `Round(x)` (the nearest
 * integer, halves upwards, capped to the range of an int) and an `(int)`
 * cast is `Truncate(x)` (towards zero).
 */
module ColorMath {
  import opened Colors

  // ---------------------------------------------------------------------
  // Numeric helpers
  // ---------------------------------------------------------------------

  /** The range of a Java int. */
  const MinInt: int := -0x8000_0000
  const MaxInt: int := 0x7fff_ffff

  /**
   * Math.round(float): floor(x + 1/2), capped at Integer.MIN_VALUE and
   * Integer.MAX_VALUE.
   */
  function Round(x: real): (n: int)
    ensures MinInt <= n <= MaxInt
    ensures MinInt as real <= x < MaxInt as real ==> n as real - 0.5 <= x < n as real + 0.5
  {
    var n := (x + 0.5).Floor;
    if n > MaxInt then MaxInt else if n < MinInt then MinInt else n
  }

  /** An (int) cast: truncation towards zero. */
  function Truncate(x: real): (n: int)
    ensures x >= 0.0 ==> 0.0 <= n as real <= x < n as real + 1.0
    ensures x < 0.0 ==> n as real - 1.0 < x <= n as real <= 0.0
  {
    if x >= 0.0 then x.Floor else -((-x).Floor)
  }

  // Three kinds of max/min appear below. Min/Max (floats, used by rgb2hsl)
  // and IntMin/IntMax (ints, used by rgb2hmmd) mirror the Math.min/Math.max
  // calls of the source; Max3/Min3 are the reference definitions that the
  // source's selections are proved against.

  /** Math.min on floats. */
  function Min(a: real, b: real): (m: real) {
    if a <= b then a else b
  }

  /** Math.max on floats. */
  function Max(a: real, b: real): (m: real) {
    if a >= b then a else b
  }

  /** The largest of three channels, as a reference for the selections below. */
  function Max3(a: int, b: int, c: int): (m: int)
    ensures m >= a && m >= b && m >= c
    ensures m == a || m == b || m == c
  {
    if a >= b && a >= c then a else if b >= c then b else c
  }

  /** The smallest of three channels, as a reference for the selections below. */
  function Min3(a: int, b: int, c: int): (m: int)
    ensures m <= a && m <= b && m <= c
    ensures m == a || m == b || m == c
  {
    if a <= b && a <= c then a else if b <= c then b else c
  }

  /** Rounding a value between two ints of the int range stays between them. */
  lemma RoundWithin(x: real, lo: int, hi: int)
    requires MinInt <= lo && hi <= MaxInt
    requires lo as real <= x <= hi as real
    ensures lo <= Round(x) <= hi
  {
    var n := (x + 0.5).Floor;
    assert lo <= n <= hi;
  }

  // ---------------------------------------------------------------------
  // RGB -> HSL
  // ---------------------------------------------------------------------

  /** An HSL triple as rgb2hsl writes it into hsl[0..2]. */
  datatype Hsl = Hsl(hue: int, saturation: int, lightness: int)
  {
    /** Hue in degrees [0,360], saturation and lightness in percent. */
    predicate InRange() {
      0 <= hue <= 360 && 0 <= saturation <= 100 && 0 <= lightness <= 100
    }
  }

  /** The delta_r / delta_g / delta_b term of rgb2hsl for one channel value. */
  function HueOffset(max: real, channel: real, delta: real): (offset: real)
    requires delta != 0.0
  {
    (((max - channel) / 6.0) + (delta / 2.0)) / delta
  }

  /** The hue fraction before it is pulled back into [0,1]. */
  function RawHue(red: real, green: real, blue: real, max: real, delta: real): (raw: real)
    requires delta != 0.0
  {
    var deltaR := HueOffset(max, red, delta);
    var deltaG := HueOffset(max, green, delta);
    var deltaB := HueOffset(max, blue, delta);
    if red == max then deltaB - deltaG
    else if green == max then (1.0 / 3.0) + deltaR - deltaB
    else if blue == max then (2.0 / 3.0) + deltaG - deltaR
    else 0.0
  }

  /** Adds 1 to a negative hue, then subtracts 1 from a hue above 1. */
  function WrapHue(h: real): (wrapped: real) {
    var h1 := if h < 0.0 then h + 1.0 else h;
    if h1 > 1.0 then h1 - 1.0 else h1
  }

  /** The hue fraction of rgb2hsl: 0 for a grey, otherwise the wrapped raw hue. */
  function HueFraction(red: real, green: real, blue: real): (fraction: real) {
    var max, min := Max(red, Max(green, blue)), Min(red, Min(green, blue));
    if max == min then 0.0 else WrapHue(RawHue(red, green, blue, max, max - min))
  }

  /**
   * The saturation fraction of rgb2hsl: 0 for a grey, otherwise delta over
   * max + min when the lightness is below 1/2 and over 2 - max - min from there.
   */
  function SaturationFraction(max: real, min: real): (fraction: real)
    requires 0.0 <= min <= max <= 1.0
  {
    var delta, l := max - min, (max + min) / 2.0;
    if delta == 0.0 then 0.0
    else if l < 0.5 then delta / (max + min)
    else delta / (2.0 - max - min)
  }

  /** What rgb2hsl computes for channels r, g, b. */
  function HslOf(r: int, g: int, b: int): (hsl: Hsl)
    requires Rgb(r, g, b).Valid()
  {
    var red, green, blue := r as real / 255.0, g as real / 255.0, b as real / 255.0;
    var min := Min(red, Min(green, blue));
    var max := Max(red, Max(green, blue));
    Hsl(Round(360.0 * HueFraction(red, green, blue)),
        Round(SaturationFraction(max, min) * 100.0),
        Round((max + min) / 2.0 * 100.0))
  }

  /** A product d * a with d > 0 is zero only when a is. */
  lemma CancelPositive(a: real, d: real)
    requires d > 0.0 && a * d == 0.0
    ensures a == 0.0
  {
    calc {
      a;
      a * (d * (1.0 / d));
      (a * d) * (1.0 / d);
      0.0;
    }
  }

  /** A value within [-b, b] divided by 6b lies within [-1/6, 1/6]. */
  lemma SixthBound(a: real, b: real)
    requires b > 0.0 && -b <= a <= b
    ensures -1.0 / 6.0 <= a / (6.0 * b) <= 1.0 / 6.0
  {
    assert (a / (6.0 * b)) * (6.0 * b) == a;
  }

  /** A hue offset is (max - c) / (6 delta) + 1/2. */
  lemma HueOffsetSplit(max: real, c: real, delta: real)
    requires delta > 0.0
    ensures HueOffset(max, c, delta) == (max - c) / (6.0 * delta) + 0.5
  {
    var q := HueOffset(max, c, delta);
    var p := (max - c) / (6.0 * delta);
    assert q * delta == (max - c) / 6.0 + delta / 2.0;
    assert p * (6.0 * delta) == max - c;
    assert (q - p - 0.5) * delta == 0.0;
    CancelPositive(q - p - 0.5, delta);
  }

  /** The difference of two hue offsets is a sixth of the channel difference over delta. */
  lemma HueOffsetDifference(max: real, x: real, y: real, delta: real)
    requires delta > 0.0
    requires max - delta <= x <= max && max - delta <= y <= max
    ensures -1.0 / 6.0 <= HueOffset(max, x, delta) - HueOffset(max, y, delta) <= 1.0 / 6.0
  {
    HueOffsetSplit(max, x, delta);
    HueOffsetSplit(max, y, delta);
    var px := (max - x) / (6.0 * delta);
    var py := (max - y) / (6.0 * delta);
    var q := (y - x) / (6.0 * delta);
    assert px * (6.0 * delta) == max - x;
    assert py * (6.0 * delta) == max - y;
    assert q * (6.0 * delta) == y - x;
    assert (px - py - q) * (6.0 * delta) == 0.0;
    CancelPositive(px - py - q, 6.0 * delta);
    SixthBound(y - x, delta);
  }

  /** 0 < a <= b implies that a / b is a fraction in (0,1]. */
  lemma FractionWithinUnit(a: real, b: real)
    requires 0.0 < a <= b
    ensures 0.0 < a / b <= 1.0
  {
    assert (a / b) * b == a;
  }

  /** The hue before wrapping lies within [-1/6, 5/6]. */
  lemma RawHueBounds(red: real, green: real, blue: real, max: real, min: real)
    requires max > min
    requires min <= red <= max && min <= green <= max && min <= blue <= max
    requires max == red || max == green || max == blue
    ensures -1.0 / 6.0 <= RawHue(red, green, blue, max, max - min) <= 5.0 / 6.0
  {
    var delta := max - min;
    HueOffsetDifference(max, blue, green, delta);
    HueOffsetDifference(max, red, blue, delta);
    HueOffsetDifference(max, green, red, delta);
  }

  /**
   * For channels in [0,255] rgb2hsl divides by non-zero values only, and it
   * writes a hue in [0,360] (the hue fraction is pulled back into [0,1]
   * before it is scaled) and a saturation and lightness in [0,100].
   */
  lemma HslOfInRange(r: int, g: int, b: int)
    requires Rgb(r, g, b).Valid()
    ensures HslOf(r, g, b).InRange()
  {
    var red, green, blue := r as real / 255.0, g as real / 255.0, b as real / 255.0;
    var min := Min(red, Min(green, blue));
    var max := Max(red, Max(green, blue));
    RoundWithin((max + min) / 2.0 * 100.0, 0, 100);
    SaturationInRange(max, min);
    HueInRange(red, green, blue);
  }

  /** The saturation of channels in [0,1] rounds to a percentage. */
  lemma SaturationInRange(max: real, min: real)
    requires 0.0 <= min <= max <= 1.0
    ensures 0 <= Round(SaturationFraction(max, min) * 100.0) <= 100
  {
    var delta := max - min;
    if delta != 0.0 {
      if (max + min) / 2.0 < 0.5 {
        FractionWithinUnit(delta, max + min);
      } else {
        FractionWithinUnit(delta, 2.0 - max - min);
      }
    }
    RoundWithin(SaturationFraction(max, min) * 100.0, 0, 100);
  }

  /** The wrapped hue fraction scales and rounds to a hue in [0,360]. */
  lemma HueInRange(red: real, green: real, blue: real)
    ensures 0 <= Round(360.0 * HueFraction(red, green, blue)) <= 360
  {
    var max, min := Max(red, Max(green, blue)), Min(red, Min(green, blue));
    if max != min {
      RawHueBounds(red, green, blue, max, min);
    }
    var h := HueFraction(red, green, blue);
    assert 0.0 <= h <= 1.0;
    RoundWithin(360.0 * h, 0, 360);
  }

  /** A grey (r == g == b) has hue 0, saturation 0 and lightness round(100 r / 255). */
  lemma HslOfGrey(v: int)
    requires 0 <= v <= 255
    ensures HslOf(v, v, v) == Hsl(0, 0, Round(100.0 * v as real / 255.0))
  {
    var red := v as real / 255.0;
    assert (red + red) / 2.0 * 100.0 == 100.0 * v as real / 255.0;
  }

  /**
   * The hue can be 360 rather than wrap to 0: for (255, 0, 1) the hue
   * fraction is 1529/1530, which scales to 359.76 and rounds to 360.
   */
  lemma HueReaches360()
    ensures HslOf(255, 0, 1).hue == 360
  {
    var blue := 1.0 / 255.0;
    HueOffsetSplit(1.0, blue, 1.0);
    HueOffsetSplit(1.0, 0.0, 1.0);
    assert RawHue(1.0, 0.0, blue, 1.0, 1.0) == -1.0 / 1530.0;
  }

  /** HslOf rounds the hue, saturation and lightness fractions of rgb2hsl. */
  lemma HslOfFractions(r: int, g: int, b: int, h: real, s: real, l: real)
    requires Rgb(r, g, b).Valid()
    requires var red, green, blue := r as real / 255.0, g as real / 255.0, b as real / 255.0;
             var min, max := Min(red, Min(green, blue)), Max(red, Max(green, blue));
             h == HueFraction(red, green, blue) && s == SaturationFraction(max, min) && l == (max + min) / 2.0
    ensures HslOf(r, g, b) == Hsl(Round(360.0 * h), Round(s * 100.0), Round(l * 100.0))
  {
  }

  /**
   * rgb2hsl: writes HslOf(r, g, b) into hsl[0..2], the rest of the array
   * unchanged.
   */
  method Rgb2Hsl(r: int, g: int, b: int, hsl: array<int>)
    requires Rgb(r, g, b).Valid()
    requires hsl.Length >= 3
    modifies hsl
    ensures hsl[0] == HslOf(r, g, b).hue && hsl[1] == HslOf(r, g, b).saturation
         && hsl[2] == HslOf(r, g, b).lightness
    ensures hsl[3..] == old(hsl[3..])
  {
    var red := r as real / 255.0;
    var green := g as real / 255.0;
    var blue := b as real / 255.0;
    var min := Min(red, Min(green, blue));
    var max := Max(red, Max(green, blue));
    var delta := max - min;
    var h := 0.0;
    var s: real;
    var l := (max + min) / 2.0;
    if delta == 0.0 {
      h := 0.0;
      s := 0.0;
      assert h == HueFraction(red, green, blue) && s == SaturationFraction(max, min);
    } else {
      if l < 0.5 {
        s := delta / (max + min);
      } else {
        s := delta / (2.0 - max - min);
      }
      assert s == SaturationFraction(max, min);
      var deltaR := HueOffset(max, red, delta);
      var deltaG := HueOffset(max, green, delta);
      var deltaB := HueOffset(max, blue, delta);
      if red == max {
        h := deltaB - deltaG;
      } else if green == max {
        h := (1.0 / 3.0) + deltaR - deltaB;
      } else if blue == max {
        h := (2.0 / 3.0) + deltaG - deltaR;
      }
      assert h == RawHue(red, green, blue, max, delta);
      if h < 0.0 {
        h := h + 1.0;
      }
      if h > 1.0 {
        h := h - 1.0;
      }
      assert h == HueFraction(red, green, blue);
    }
    HslOfFractions(r, g, b, h, s, l);
    hsl[0] := Round(360.0 * h);
    hsl[1] := Round(s * 100.0);
    hsl[2] := Round(l * 100.0);
  }

  /** getHSL: the HSL triple of a colour, written into hsl[0..2]. */
  method GetHsl(color: Color, hsl: array<int>)
    requires hsl.Length >= 3
    modifies hsl
    ensures var t := HslOf(color.red, color.green, color.blue);
            hsl[0] == t.hue && hsl[1] == t.saturation && hsl[2] == t.lightness
    ensures hsl[3..] == old(hsl[3..])
  {
    Rgb2Hsl(color.red, color.green, color.blue, hsl);
  }

  // ---------------------------------------------------------------------
  // HSL -> RGB
  // ---------------------------------------------------------------------

  /** What hue2rgb returns. */
  function HueChannel(v1: real, v2: real, vH: real): (v: real) {
    var h := WrapHue(vH);
    if 6.0 * h < 1.0 then v1 + (v2 - v1) * 6.0 * h
    else if 2.0 * h < 1.0 then v2
    else if 3.0 * h < 2.0 then v1 + (v2 - v1) * ((2.0 / 3.0) - h) * 6.0
    else v1
  }

  /** Scaling by a fraction in [0,1] moves a value towards zero. */
  lemma ScaleWithin(a: real, t: real)
    requires 0.0 <= t <= 1.0
    ensures a >= 0.0 ==> 0.0 <= a * t <= a
    ensures a <= 0.0 ==> a <= a * t <= 0.0
  {
  }

  /** A point of the segment from v1 to v2 lies between the two ends. */
  lemma Interpolation(v1: real, v2: real, t: real)
    requires 0.0 <= t <= 1.0
    ensures Min(v1, v2) <= v1 + (v2 - v1) * t <= Max(v1, v2)
  {
    var d := v2 - v1;
    ScaleWithin(d, t);
    if v1 <= v2 {
      assert 0.0 <= d * t <= d;
    } else {
      assert d <= d * t <= 0.0;
    }
  }

  /** For vH in [-1,2], hue2rgb returns a value between v1 and v2 inclusive. */
  lemma HueChannelBetween(v1: real, v2: real, vH: real)
    requires -1.0 <= vH <= 2.0
    ensures Min(v1, v2) <= HueChannel(v1, v2, vH) <= Max(v1, v2)
  {
    var h := WrapHue(vH);
    assert 0.0 <= h <= 1.0;
    if 6.0 * h < 1.0 {
      Interpolation(v1, v2, 6.0 * h);
      assert (v2 - v1) * 6.0 * h == (v2 - v1) * (6.0 * h);
    } else if 2.0 * h < 1.0 {
    } else if 3.0 * h < 2.0 {
      Interpolation(v1, v2, ((2.0 / 3.0) - h) * 6.0);
      assert (v2 - v1) * ((2.0 / 3.0) - h) * 6.0 == (v2 - v1) * (((2.0 / 3.0) - h) * 6.0);
    }
  }

  /** hue2rgb: the parameter vH is pulled into [0,1] in place, then one of four pieces applies. */
  method Hue2Rgb(v1: real, v2: real, vH: real) returns (v: real)
    ensures v == HueChannel(v1, v2, vH)
    ensures -1.0 <= vH <= 2.0 ==> Min(v1, v2) <= v <= Max(v1, v2)
  {
    if -1.0 <= vH <= 2.0 {
      HueChannelBetween(v1, v2, vH);
    }
    var h := vH;
    if h < 0.0 {
      h := h + 1.0;
    }
    if h > 1.0 {
      h := h - 1.0;
    }
    if 6.0 * h < 1.0 {
      return v1 + (v2 - v1) * 6.0 * h;
    }
    if 2.0 * h < 1.0 {
      return v2;
    }
    if 3.0 * h < 2.0 {
      return v1 + (v2 - v1) * ((2.0 / 3.0) - h) * 6.0;
    }
    return v1;
  }

  /** tmp2 of hsl2rgb. */
  function UpperTemp(saturation: real, lightness: real): (tmp2: real) {
    if lightness < 0.5 then lightness * (1.0 + saturation)
    else (lightness + saturation) - (saturation * lightness)
  }

  /** With saturation and lightness in [0,1], 0 <= tmp1 <= tmp2 <= 1. */
  lemma TempsOrdered(saturation: real, lightness: real)
    requires 0.0 <= saturation <= 1.0 && 0.0 <= lightness <= 1.0
    ensures var tmp2 := UpperTemp(saturation, lightness);
            0.0 <= 2.0 * lightness - tmp2 <= tmp2 <= 1.0
  {
    var tmp2 := UpperTemp(saturation, lightness);
    if lightness < 0.5 {
      ScaleWithin(lightness, saturation);
      assert tmp2 == lightness + lightness * saturation;
    } else {
      var rest := 1.0 - lightness;
      ScaleWithin(rest, saturation);
      assert 0.0 <= rest * saturation <= rest;
      assert tmp2 == lightness + rest * saturation;
      assert tmp2 <= 1.0;
      assert lightness <= tmp2;
      assert 0.0 <= 2.0 * lightness - tmp2;
    }
  }

  /** What hsl2rgb computes for h, s, l. */
  function RgbOf(h: int, s: int, l: int): (rgb: Rgb) {
    var hue, saturation, lightness := h as real / 360.0, s as real / 100.0, l as real / 100.0;
    if saturation == 0.0 then
      Rgb(Round(lightness * 255.0), Round(lightness * 255.0), Round(lightness * 255.0))
    else
      var tmp2 := UpperTemp(saturation, lightness);
      var tmp1 := 2.0 * lightness - tmp2;
      Rgb(Round(255.0 * HueChannel(tmp1, tmp2, hue + (1.0 / 3.0))),
          Round(255.0 * HueChannel(tmp1, tmp2, hue)),
          Round(255.0 * HueChannel(tmp1, tmp2, hue - (1.0 / 3.0))))
  }

  /** A value between tmp1 and tmp2, scaled by 255 and rounded, is a channel. */
  lemma ScaledChannelValid(tmp1: real, tmp2: real, v: real)
    requires 0.0 <= tmp1 <= tmp2 <= 1.0
    requires Min(tmp1, tmp2) <= v <= Max(tmp1, tmp2)
    ensures 0 <= Round(255.0 * v) <= 255
  {
    RoundWithin(255.0 * v, 0, 255);
  }

  /**
   * For h in [0,360] and s, l in [0,100] every channel hsl2rgb writes lies in
   * [0,255].
   */
  lemma RgbOfValid(h: int, s: int, l: int)
    requires Hsl(h, s, l).InRange()
    ensures RgbOf(h, s, l).Valid()
  {
    var hue, saturation, lightness := h as real / 360.0, s as real / 100.0, l as real / 100.0;
    if saturation == 0.0 {
      RoundWithin(lightness * 255.0, 0, 255);
    } else {
      var tmp2 := UpperTemp(saturation, lightness);
      var tmp1 := 2.0 * lightness - tmp2;
      TempsOrdered(saturation, lightness);
      HueChannelBetween(tmp1, tmp2, hue + (1.0 / 3.0));
      HueChannelBetween(tmp1, tmp2, hue);
      HueChannelBetween(tmp1, tmp2, hue - (1.0 / 3.0));
      ScaledChannelValid(tmp1, tmp2, HueChannel(tmp1, tmp2, hue + (1.0 / 3.0)));
      ScaledChannelValid(tmp1, tmp2, HueChannel(tmp1, tmp2, hue));
      ScaledChannelValid(tmp1, tmp2, HueChannel(tmp1, tmp2, hue - (1.0 / 3.0)));
    }
  }

  /**
   * Math.round caps at Integer.MAX_VALUE: with saturation 0 and lightness
   * 10^9, every channel is 2147483647, not 2550000000.
   */
  lemma HugeLightnessCaps()
    ensures RgbOf(0, 0, 1000000000) == Rgb(MaxInt, MaxInt, MaxInt)
  {
    assert 1000000000 as real / 100.0 * 255.0 == 2550000000.0;
  }

  /** With saturation 0 the three channels are equal, round(l * 255 / 100). */
  lemma RgbOfGrey(h: int, l: int)
    ensures var v := Round(l as real * 255.0 / 100.0);
            RgbOf(h, 0, l) == Rgb(v, v, v)
  {
    assert (l as real / 100.0) * 255.0 == l as real * 255.0 / 100.0;
  }

  /**
   * hsl2rgb: writes RgbOf(h, s, l) into rgb[0..2], the rest of the array
   * unchanged.
   */
  method Hsl2Rgb(h: int, s: int, l: int, rgb: array<int>)
    requires rgb.Length >= 3
    modifies rgb
    ensures rgb[0] == RgbOf(h, s, l).red && rgb[1] == RgbOf(h, s, l).green
         && rgb[2] == RgbOf(h, s, l).blue
    ensures rgb[3..] == old(rgb[3..])
  {
    var hue := h as real / 360.0;
    var saturation := s as real / 100.0;
    var lightness := l as real / 100.0;
    var r: real;
    var g: real;
    var b: real;
    if saturation == 0.0 {
      r := lightness * 255.0;
      g := lightness * 255.0;
      b := lightness * 255.0;
      assert Rgb(Round(r), Round(g), Round(b)) == RgbOf(h, s, l);
    } else {
      var tmp2: real;
      if lightness < 0.5 {
        tmp2 := lightness * (1.0 + saturation);
      } else {
        tmp2 := (lightness + saturation) - (saturation * lightness);
      }
      assert tmp2 == UpperTemp(saturation, lightness);
      var tmp1 := 2.0 * lightness - tmp2;
      var vr := Hue2Rgb(tmp1, tmp2, hue + (1.0 / 3.0));
      var vg := Hue2Rgb(tmp1, tmp2, hue);
      var vb := Hue2Rgb(tmp1, tmp2, hue - (1.0 / 3.0));
      r := 255.0 * vr;
      g := 255.0 * vg;
      b := 255.0 * vb;
      assert Rgb(Round(r), Round(g), Round(b)) == RgbOf(h, s, l);
    }
    rgb[0] := Round(r);
    rgb[1] := Round(g);
    rgb[2] := Round(b);
  }

  /** fromHSL as a value: None stands for the exception of `new Color`. */
  function ColorOfHsl(h: int, s: int, l: int): (c: Option<Color>)
    ensures Hsl(h, s, l).InRange() ==> c.Some?
  {
    var rgb := RgbOf(h, s, l);
    assert Hsl(h, s, l).InRange() ==> rgb.Valid() by {
      if Hsl(h, s, l).InRange() {
        RgbOfValid(h, s, l);
      }
    }
    NewColor(rgb.red, rgb.green, rgb.blue)
  }

  /**
   * fromHSL: converts hsl[0..2] to RGB and builds a colour from it; the
   * exception for an out-of-range channel is None.
   */
  method FromHsl(hsl: array<int>) returns (c: Option<Color>)
    requires hsl.Length >= 3
    ensures c == ColorOfHsl(hsl[0], hsl[1], hsl[2])
    ensures Hsl(hsl[0], hsl[1], hsl[2]).InRange() ==> c.Some?
  {
    var rgb := new int[3];
    Hsl2Rgb(hsl[0], hsl[1], hsl[2], rgb);
    c := NewColor(rgb[0], rgb[1], rgb[2]);
  }

  // ---------------------------------------------------------------------
  // Complement
  // ---------------------------------------------------------------------

  /** Adds 180 degrees to a hue and subtracts 360 once if that reaches 360. */
  function RotateHue(h: int): (rotated: int)
    ensures 0 <= h <= 360 ==> 0 <= rotated < 360
    ensures rotated % 360 == (h + 180) % 360
  {
    var newH := h + 180;
    if newH >= 360 then newH - 360 else newH
  }

  /** The HSL triple of the complement: hue rotated, saturation and lightness kept. */
  function ComplementHsl(input: Color): (hsl: Hsl) {
    var t := HslOf(input.red, input.green, input.blue);
    Hsl(RotateHue(t.hue), t.saturation, t.lightness)
  }

  /** What getComplement returns: black when hsl2rgb gives an invalid channel. */
  function Complement(input: Color): (complement: Color) {
    var t := ComplementHsl(input);
    var rgb := RgbOf(t.hue, t.saturation, t.lightness);
    match NewColor(rgb.red, rgb.green, rgb.blue)
    case Some(c) => c
    case None => Black
  }

  /**
   * The complement keeps saturation and lightness and turns the hue by 180
   * degrees into [0,360); the black fallback is never taken, so the result is
   * exactly hsl2rgb of that triple.
   */
  lemma ComplementIsRotation(input: Color)
    ensures var t := HslOf(input.red, input.green, input.blue);
            var c := ComplementHsl(input);
            && c.saturation == t.saturation && c.lightness == t.lightness
            && 0 <= c.hue < 360 && c.hue % 360 == (t.hue + 180) % 360
            && Complement(input) == RgbOf(c.hue, c.saturation, c.lightness)
  {
    HslOfInRange(input.red, input.green, input.blue);
    var c := ComplementHsl(input);
    RgbOfValid(c.hue, c.saturation, c.lightness);
  }

  /** getComplement, with its int[] scratch arrays and the catch that yields black. */
  method GetComplement(input: Color) returns (c: Color)
    ensures c == Complement(input)
  {
    var hsl := new int[3];
    var rgb := new int[3];
    Rgb2Hsl(input.red, input.green, input.blue, hsl);
    var newH := hsl[0] + 180;
    if newH >= 360 {
      newH := newH - 360;
    }
    ghost var t := ComplementHsl(input);
    assert newH == t.hue && hsl[1] == t.saturation && hsl[2] == t.lightness;
    Hsl2Rgb(newH, hsl[1], hsl[2], rgb);
    var made := NewColor(rgb[0], rgb[1], rgb[2]);
    match made
    case Some(x) => c := x;
    case None => c := Black;
  }

  // ---------------------------------------------------------------------
  // Luminosity
  // ---------------------------------------------------------------------

  /**
   * getLuminosity: the ITU-R BT.709 luma weights applied to the raw channel
   * values. The weights are positive and sum to 1.
   */
  function Luminosity(color: Color): (lum: real)
    ensures 0.0 <= lum <= 255.0
    ensures lum == 0.0 <==> color == Black
    ensures color.red == color.green == color.blue ==> lum == color.red as real
  {
    0.2126 * color.red as real + 0.7152 * color.green as real + 0.0722 * color.blue as real
  }

  /** getLuminance: another name for getLuminosity. */
  function Luminance(color: Color): (lum: real)
    ensures lum == Luminosity(color)
  {
    Luminosity(color)
  }

  // ---------------------------------------------------------------------
  // #rrggbb
  // ---------------------------------------------------------------------

  /** A lower-case hexadecimal digit. */
  predicate IsHexDigit(ch: char) {
    '0' <= ch <= '9' || 'a' <= ch <= 'f'
  }

  /** The lower-case digit for 0..15. */
  function HexDigit(d: int): (ch: char)
    requires 0 <= d < 16
    ensures IsHexDigit(ch)
  {
    if d < 10 then ('0' as int + d) as char else ('a' as int + d - 10) as char
  }

  /** The value of a hexadecimal digit. */
  function DigitValue(ch: char): (v: int) {
    if '0' <= ch <= '9' then ch as int - '0' as int
    else if 'a' <= ch <= 'f' then ch as int - 'a' as int + 10
    else -1
  }

  /** The value of a two-digit hexadecimal string. */
  function PairValue(s: string): (v: int)
    requires |s| == 2
  {
    16 * DigitValue(s[0]) + DigitValue(s[1])
  }

  /** `%02x` of a channel: two lower-case, zero-padded digits. */
  function HexPair(n: int): (s: string)
    requires 0 <= n <= 255
    ensures |s| == 2 && IsHexDigit(s[0]) && IsHexDigit(s[1])
    ensures PairValue(s) == n
  {
    [HexDigit(n / 16), HexDigit(n % 16)]
  }

  /**
   * toHex: `#` followed by the red, green and blue channels, each as two
   * lower-case zero-padded hexadecimal digits; decoding the pairs gives the
   * channels back.
   */
  function ToHex(color: Color): (s: string)
    ensures |s| == 7 && s[0] == '#'
    ensures forall i | 1 <= i < 7 :: IsHexDigit(s[i])
    ensures PairValue(s[1..3]) == color.red
    ensures PairValue(s[3..5]) == color.green
    ensures PairValue(s[5..7]) == color.blue
  {
    var s := "#" + HexPair(color.red) + HexPair(color.green) + HexPair(color.blue);
    assert s[1..3] == HexPair(color.red);
    assert s[3..5] == HexPair(color.green);
    assert s[5..7] == HexPair(color.blue);
    s
  }

  /** Pure red serialises as "#ff0000". */
  lemma ToHexRed()
    ensures ToHex(Rgb(255, 0, 0)) == "#ff0000"
  {
  }

  // ---------------------------------------------------------------------
  // RGB -> HSV and RGB -> HMMD
  // ---------------------------------------------------------------------

  /** What rgb2hsv writes into hsv[0..2]. */
  function HsvOf(r: int, g: int, b: int): (hsv: seq<int>)
    ensures |hsv| == 3
    ensures hsv[2] == 100 * Max3(r, g, b)
    ensures Max3(r, g, b) == Min3(r, g, b) ==> hsv[0] == 0 && hsv[1] == 0
    ensures Max3(r, g, b) != Min3(r, g, b) ==>
              hsv[1] == Truncate((Max3(r, g, b) - Min3(r, g, b)) as real / 255.0 * 100.0)
  {
    var min0, max0 := if r > g then g else r, if r > g then r else g;
    var max := if b > max0 then b else max0;
    var min := if b < min0 then b else min0;
    var delMax := max - min;
    var v := max as real;
    if delMax == 0 then
      [Truncate(0.0), Truncate(0.0 * 100.0), Truncate(v * 100.0)]
    else
      var s := delMax as real / 255.0;
      var h :=
        if r == max then ((g - b) as real / delMax as real) * 60.0
        else if g == max then (2.0 + (b - r) as real / delMax as real) * 60.0
        else if b == max then (4.0 + (r - g) as real / delMax as real) * 60.0
        else 0.0;
      [Truncate(h), Truncate(s * 100.0), Truncate(v * 100.0)]
  }

  /**
   * rgb2hsv: selects min and max by successive updates and writes
   * HsvOf(r, g, b) into hsv[0..2].
   */
  method Rgb2Hsv(r: int, g: int, b: int, hsv: array<int>)
    requires hsv.Length >= 3
    modifies hsv
    ensures hsv[..3] == HsvOf(r, g, b)
    ensures hsv[3..] == old(hsv[3..])
  {
    var min: int;
    var max: int;
    if r > g {
      min := g;
      max := r;
    } else {
      min := r;
      max := g;
    }
    if b > max {
      max := b;
    }
    if b < min {
      min := b;
    }
    assert min == Min3(r, g, b) && max == Max3(r, g, b);
    var delMax := max - min;
    var h := 0.0;
    var s: real;
    var v := max as real;
    if delMax == 0 {
      h := 0.0;
      s := 0.0;
    } else {
      s := delMax as real / 255.0;
      if r == max {
        h := ((g - b) as real / delMax as real) * 60.0;
      } else if g == max {
        h := (2.0 + (b - r) as real / delMax as real) * 60.0;
      } else if b == max {
        h := (4.0 + (r - g) as real / delMax as real) * 60.0;
      }
    }
    assert [Truncate(h), Truncate(s * 100.0), Truncate(v * 100.0)] == HsvOf(r, g, b);
    hsv[0] := Truncate(h);
    hsv[1] := Truncate(s * 100.0);
    hsv[2] := Truncate(v * 100.0);
  }

  /** Math.max on ints, as rgb2hmmd calls it (Max3 is the reference). */
  function IntMax(a: int, b: int): (m: int) {
    if a >= b then a else b
  }

  /** Math.min on ints, as rgb2hmmd calls it (Min3 is the reference). */
  function IntMin(a: int, b: int): (m: int) {
    if a <= b then a else b
  }

  /** What rgb2hmmd writes into hmmd[0..3]: hue, max, min and diff. */
  function HmmdOf(r: int, g: int, b: int): (hmmd: seq<int>)
    ensures |hmmd| == 4
    ensures hmmd[1] == Max3(r, g, b) && hmmd[2] == Min3(r, g, b)
    ensures hmmd[3] == hmmd[1] - hmmd[2] >= 0
    ensures hmmd[3] == 0 ==> hmmd[0] == 0
  {
    var max := IntMax(IntMax(r, g), IntMax(g, b));
    var min := IntMin(IntMin(r, g), IntMin(g, b));
    var diff := max - min;
    var hue :=
      if diff == 0 then 0.0
      else if r == max && g - b > 0 then (60 * (g - b)) as real / diff as real
      else if r == max && g - b <= 0 then (60 * (g - b)) as real / diff as real + 360.0
      else if g == max then 60.0 * (2.0 + (b - r) as real / diff as real)
      else if b == max then 60.0 * (4.0 + (r - g) as real / diff as real)
      else 0.0;
    [Truncate(hue), max, min, diff]
  }

  /** rgb2hmmd: writes HmmdOf(r, g, b) into hmmd[0..3]. */
  method Rgb2Hmmd(r: int, g: int, b: int, hmmd: array<int>)
    requires hmmd.Length >= 4
    modifies hmmd
    ensures hmmd[..4] == HmmdOf(r, g, b)
    ensures hmmd[4..] == old(hmmd[4..])
  {
    var max := IntMax(IntMax(r, g), IntMax(g, b));
    var min := IntMin(IntMin(r, g), IntMin(g, b));
    var diff := max - min;
    var hue := 0.0;
    if diff == 0 {
      hue := 0.0;
    } else if r == max && g - b > 0 {
      hue := (60 * (g - b)) as real / diff as real;
    } else if r == max && g - b <= 0 {
      hue := (60 * (g - b)) as real / diff as real + 360.0;
    } else if g == max {
      hue := 60.0 * (2.0 + (b - r) as real / diff as real);
    } else if b == max {
      hue := 60.0 * (4.0 + (r - g) as real / diff as real);
    }
    assert [Truncate(hue), max, min, diff] == HmmdOf(r, g, b);
    hmmd[0] := Truncate(hue);
    hmmd[1] := max;
    hmmd[2] := min;
    hmmd[3] := diff;
  }
}
