/**
 * Readability of a foreground/background pair (ColorA11Y): three heuristics
 * selected by `Method`, and the search for a readable complement that steps
 * the complement's lightness one percent at a time.
 *
 * Luminosities are exact reals here (floats in the Java code); the cube
 * root of the LuminosityContrast test is replaced by the equivalent
 * comparison of cubes, and `CubeRootTest` shows the two agree.
 */
module ColorA11Y {
  import opened Colors
  import ColorMath

  /** The supported calculation algorithms. */
  datatype Method = W3C | Luminosity | LuminosityContrast

  function Abs(x: int): (abs: int) {
    if x < 0 then -x else x
  }

  function RealAbs(x: real): (abs: real) {
    if x < 0.0 then -x else x
  }

  // ---------------------------------------------------------------------
  // The three heuristics
  // ---------------------------------------------------------------------

  /**
   * The colour difference of the "color contrast" section of the W3C note
   * "Techniques For Accessibility Evaluation And Repair Tools": the sum of
   * the absolute channel differences. It lies in [0,765] and is 0 exactly
   * for equal colours.
   */
  function W3CColorDifference(a: Color, b: Color): (d: int)
    ensures 0 <= d <= 765
    ensures d == 0 <==> a == b
  {
    Abs(a.red - b.red) + Abs(a.green - b.green) + Abs(a.blue - b.blue)
  }

  /** The difference does not depend on the order of the colours. */
  lemma W3CColorDifferenceSymmetric(a: Color, b: Color)
    ensures W3CColorDifference(a, b) == W3CColorDifference(b, a)
  {
  }

  /**
   * The LuminosityContrast test with both sides cubed:
   * 116 * (d / 255)^(1/3) > 100 becomes 116^3 * d > 100^3 * 255.
   */
  predicate ContrastExceeds(d: real) {
    1560896.0 * d > 255000000.0
  }

  /**
   * isGoodColorMix. Any method the switch does not name takes the W3C
   * branch, as its `default` label shares that case.
   */
  function IsGoodColorMix(a: Color, b: Color, m: Method): (good: bool) {
    match m
    case Luminosity =>
      var la, lb := ColorMath.Luminosity(a), ColorMath.Luminosity(b);
      var lo, hi := ColorMath.Min(la, lb), ColorMath.Max(la, lb);
      // Two zero luminosities give 0f / 0f = NaN, and NaN <= 0.1 is false.
      hi != 0.0 && lo / hi <= 1.0 / 10.0
    case LuminosityContrast =>
      ContrastExceeds(RealAbs(ColorMath.Luminosity(a) - ColorMath.Luminosity(b)))
    case _ =>
      W3CColorDifference(a, b) >= 500
  }

  /** The product of two positive reals is positive. */
  lemma PositiveProduct(a: real, b: real)
    requires a > 0.0 && b > 0.0
    ensures a * b > 0.0
  {
  }

  /** The product of two non-negative reals is non-negative. */
  lemma NonNegativeProduct(a: real, b: real)
    requires a >= 0.0 && b >= 0.0
    ensures a * b >= 0.0
  {
  }

  /** Cubing is strictly increasing on the non-negative reals. */
  lemma CubeIncreasing(x: real, y: real)
    requires 0.0 <= x < y
    ensures x * x * x < y * y * y
  {
    NonNegativeProduct(x, y - x);
    PositiveProduct(y, y - x);
    assert x * x < y * y;
    NonNegativeProduct(x * x, y - x);
    PositiveProduct(y * y - x * x, y);
  }

  /**
   * The cube-root form of the LuminosityContrast test agrees with
   * ContrastExceeds: when x is the cube root of d / 255, 116 x > 100 exactly
   * when 116^3 d > 100^3 * 255.
   */
  lemma CubeRootTest(d: real, x: real)
    requires d >= 0.0 && x >= 0.0 && x * x * x == d / 255.0
    ensures 116.0 * x > 100.0 <==> ContrastExceeds(d)
  {
    var c := 100.0 / 116.0;
    assert c * c * c * 1560896.0 == 1000000.0;
    if 116.0 * x > 100.0 {
      CubeIncreasing(c, x);
    } else if x < c {
      CubeIncreasing(x, c);
    }
  }

  /** Under W3C a pair is readable exactly when the colour difference is at least 500. */
  lemma W3CRule(a: Color, b: Color)
    ensures IsGoodColorMix(a, b, W3C) <==> W3CColorDifference(a, b) >= 500
    ensures IsGoodColorMix(Black, White, W3C)
    ensures !IsGoodColorMix(Black, Rgb(10, 10, 10), W3C)
  {
  }

  /**
   * Under Luminosity a pair is readable exactly when the darker luminosity is
   * at most a tenth of the lighter one and the lighter one is not 0: two
   * black colours are not readable.
   */
  lemma LuminosityRule(a: Color, b: Color)
    ensures var la, lb := ColorMath.Luminosity(a), ColorMath.Luminosity(b);
            IsGoodColorMix(a, b, Luminosity) <==>
              0.0 < ColorMath.Max(la, lb) && 10.0 * ColorMath.Min(la, lb) <= ColorMath.Max(la, lb)
    ensures !IsGoodColorMix(Black, Black, Luminosity)
  {
    var la, lb := ColorMath.Luminosity(a), ColorMath.Luminosity(b);
    var lo, hi := ColorMath.Min(la, lb), ColorMath.Max(la, lb);
    if hi != 0.0 {
      TenthRatio(lo, hi);
    }
  }

  /** For a positive denominator, lo / hi <= 1/10 exactly when 10 lo <= hi. */
  lemma TenthRatio(lo: real, hi: real)
    requires hi > 0.0
    ensures lo / hi <= 1.0 / 10.0 <==> 10.0 * lo <= hi
  {
    var q := lo / hi;
    assert q * hi == lo;
    if q <= 1.0 / 10.0 {
      NonNegativeProduct(1.0 / 10.0 - q, hi);
    } else {
      PositiveProduct(q - 1.0 / 10.0, hi);
    }
  }

  /**
   * Under LuminosityContrast a pair is readable exactly when the luminosities
   * differ by more than 100^3 * 255 / 116^3 (about 163.37).
   */
  lemma LuminosityContrastRule(a: Color, b: Color)
    ensures IsGoodColorMix(a, b, LuminosityContrast) <==>
              RealAbs(ColorMath.Luminosity(a) - ColorMath.Luminosity(b)) > 255000000.0 / 1560896.0
  {
  }

  /** Swapping foreground and background never changes the verdict. */
  lemma IsGoodColorMixSymmetric(a: Color, b: Color, m: Method)
    ensures IsGoodColorMix(a, b, m) == IsGoodColorMix(b, a, m)
  {
    W3CColorDifferenceSymmetric(a, b);
  }

  /** No colour is readable on itself, whatever the method. */
  lemma NotReadableOnItself(c: Color, m: Method)
    ensures !IsGoodColorMix(c, c, m)
  {
    var l := ColorMath.Luminosity(c);
    if m == Luminosity && l != 0.0 {
      TenthRatio(l, l);
    }
  }

  // ---------------------------------------------------------------------
  // The readable-complement search
  // ---------------------------------------------------------------------

  /** Where the search stops: the complement it returns and the lightness it reached. */
  datatype SearchEnd = SearchEnd(complement: Color, lightness: int)

  /**
   * Whether the search may take another step from this lightness. The Java
   * loop requires 0 < lightness < 100 whichever way it moves; the corrected
   * guard only asks for room in the direction of the search.
   */
  predicate MayStep(corrected: bool, up: bool, lightness: int) {
    if corrected then (if up then lightness < 100 else lightness > 0)
    else lightness < 100 && lightness > 0
  }

  /**
   * The loop of getReadableComplement from one state onwards: while the
   * pair is not readable under LuminosityContrast and the guard allows it,
   * move the lightness one step (up or down) and rebuild the complement
   * from the adjusted HSL triple.
   */
  function Search(color: Color, up: bool, hue: int, saturation: int, lightness: int,
                  current: Color, corrected: bool): (e: SearchEnd)
    requires ColorMath.Hsl(hue, saturation, lightness).InRange()
    decreases if up then 100 - lightness else lightness
  {
    if IsGoodColorMix(color, current, LuminosityContrast) || !MayStep(corrected, up, lightness) then
      SearchEnd(current, lightness)
    else
      var next := if up then lightness + 1 else lightness - 1;
      Search(color, up, hue, saturation, next, ColorMath.ColorOfHsl(hue, saturation, next).value, corrected)
  }

  /**
   * What the search ends with: a lightness in [0,100] reached by moving
   * only in the chosen direction, where the pair is readable or the guard
   * stops it; the complement is the starting one if the lightness never
   * moved, and otherwise the colour of (hue, saturation, final lightness).
   */
  lemma {:induction false} SearchOutcome(color: Color, up: bool, hue: int, saturation: int,
                                         lightness: int, current: Color, corrected: bool)
    requires ColorMath.Hsl(hue, saturation, lightness).InRange()
    ensures var e := Search(color, up, hue, saturation, lightness, current, corrected);
            && 0 <= e.lightness <= 100
            && (IsGoodColorMix(color, e.complement, LuminosityContrast) || !MayStep(corrected, up, e.lightness))
            && (if up then lightness <= e.lightness else e.lightness <= lightness)
            && (e.lightness == lightness ==> e.complement == current)
            && (e.lightness != lightness ==>
                  ColorMath.ColorOfHsl(hue, saturation, e.lightness) == Some(e.complement))
    decreases if up then 100 - lightness else lightness
  {
    if IsGoodColorMix(color, current, LuminosityContrast) || !MayStep(corrected, up, lightness) {
    } else {
      var next := if up then lightness + 1 else lightness - 1;
      var c := ColorMath.ColorOfHsl(hue, saturation, next).value;
      SearchOutcome(color, up, hue, saturation, next, c, corrected);
    }
  }

  /** One step of the search: when the pair is unreadable and the guard allows it, the search continues from the next lightness. */
  lemma SearchStep(color: Color, up: bool, hue: int, saturation: int, lightness: int,
                   current: Color, corrected: bool)
    requires ColorMath.Hsl(hue, saturation, lightness).InRange()
    requires !IsGoodColorMix(color, current, LuminosityContrast) && MayStep(corrected, up, lightness)
    ensures var next := if up then lightness + 1 else lightness - 1;
            && ColorMath.ColorOfHsl(hue, saturation, next).Some?
            && Search(color, up, hue, saturation, lightness, current, corrected)
               == Search(color, up, hue, saturation, next, ColorMath.ColorOfHsl(hue, saturation, next).value, corrected)
  {
  }

  /** The search as getReadableComplement starts it, with the as-written or the corrected guard. */
  function StartSearch(color: Color, corrected: bool): (e: SearchEnd) {
    var complement := ColorMath.Complement(color);
    var t := ColorMath.HslOf(complement.red, complement.green, complement.blue);
    ColorMath.HslOfInRange(complement.red, complement.green, complement.blue);
    Search(color, ColorMath.Luminosity(color) < 128.0, t.hue, t.saturation, t.lightness, complement, corrected)
  }

  /** What getReadableComplement computes, with the guard as written. */
  function ReadableComplement(color: Color): (e: SearchEnd) {
    StartSearch(color, false)
  }

  /**
   * The search moves the lightness of the complement's HSL triple up when the
   * input's luminosity is below 128 and down otherwise, never touches hue or
   * saturation, runs at most 100 steps, and ends readable under
   * LuminosityContrast or with lightness 0 or 100. The result is the first
   * complement when no step ran and fromHSL of the final triple otherwise.
   */
  lemma ReadableComplementOutcome(color: Color)
    ensures var complement := ColorMath.Complement(color);
            var t := ColorMath.HslOf(complement.red, complement.green, complement.blue);
            var e := ReadableComplement(color);
            && 0 <= e.lightness <= 100
            && (IsGoodColorMix(color, e.complement, LuminosityContrast) || e.lightness == 0 || e.lightness == 100)
            && (if ColorMath.Luminosity(color) < 128.0 then t.lightness <= e.lightness else e.lightness <= t.lightness)
            && (e.lightness == t.lightness ==> e.complement == complement)
            && (e.lightness != t.lightness ==>
                  ColorMath.ColorOfHsl(t.hue, t.saturation, e.lightness) == Some(e.complement))
  {
    var complement := ColorMath.Complement(color);
    var t := ColorMath.HslOf(complement.red, complement.green, complement.blue);
    ColorMath.HslOfInRange(complement.red, complement.green, complement.blue);
    SearchOutcome(color, ColorMath.Luminosity(color) < 128.0, t.hue, t.saturation, t.lightness, complement, false);
  }

  /**
   * getReadableComplement: the complement of the colour, its HSL lightness
   * moved until the pair is readable (ReadableComplementOutcome says where
   * the search can stop).
   */
  method GetReadableComplement(color: Color) returns (result: Color)
    ensures result == ReadableComplement(color).complement
  {
    var complement := ColorMath.GetComplement(color);
    var textHsl := new int[3];
    ColorMath.GetHsl(complement, textHsl);
    ColorMath.HslOfInRange(complement.red, complement.green, complement.blue);
    var lumin := ColorMath.Luminosity(color);
    result := AdjustLightness(color, lumin, complement, textHsl);
  }

  /**
   * The loop of getReadableComplement on the textHSL array: while the pair is
   * not readable and 0 < textHSL[2] < 100, move textHSL[2] one step (up
   * when the luminosity `lumin` of the colour is below 128, down otherwise)
   * and rebuild the complement with fromHSL. Only textHSL[2] changes, and it
   * ends at the lightness where Search stops.
   */
  method AdjustLightness(color: Color, lumin: real, start: Color, textHsl: array<int>)
    returns (result: Color)
    requires textHsl.Length == 3
    requires ColorMath.Hsl(textHsl[0], textHsl[1], textHsl[2]).InRange()
    modifies textHsl
    ensures var e := Search(color, lumin < 128.0, old(textHsl[0]), old(textHsl[1]), old(textHsl[2]), start, false);
            result == e.complement && textHsl[2] == e.lightness
    ensures textHsl[0] == old(textHsl[0]) && textHsl[1] == old(textHsl[1])
  {
    ghost var hue, saturation, up := textHsl[0], textHsl[1], lumin < 128.0;
    ghost var target := Search(color, up, hue, saturation, textHsl[2], start, false);
    var complement := start;
    while !IsGoodColorMix(color, complement, LuminosityContrast) && textHsl[2] < 100 && textHsl[2] > 0
      invariant textHsl[0] == hue && textHsl[1] == saturation
      invariant 0 <= textHsl[2] <= 100
      invariant Search(color, up, hue, saturation, textHsl[2], complement, false) == target
      decreases if up then 100 - textHsl[2] else textHsl[2]
    {
      SearchStep(color, up, hue, saturation, textHsl[2], complement, false);
      ghost var lightness := if up then textHsl[2] + 1 else textHsl[2] - 1;
      ghost var following := Search(color, up, hue, saturation, lightness,
                                    ColorMath.ColorOfHsl(hue, saturation, lightness).value, false);
      assert following == target;
      if lumin < 128.0 {
        textHsl[2] := textHsl[2] + 1;
      } else {
        textHsl[2] := textHsl[2] - 1;
      }
      var next := ColorMath.FromHsl(textHsl);
      assert textHsl[2] == lightness;
      complement := next.value;
    }
    assert Search(color, up, hue, saturation, textHsl[2], complement, false)
        == SearchEnd(complement, textHsl[2]);
    result := complement;
  }

  /**
   * As written, black is its own complement with lightness 0 and the guard
   * `textHSL[2] > 0` fails before the first step upwards, so black comes
   * back; white likewise starts at lightness 100 and cannot step down.
   * Neither pair is readable.
   */
  lemma BlackAndWhiteStay()
    ensures ReadableComplement(Black).complement == Black
    ensures !IsGoodColorMix(Black, ReadableComplement(Black).complement, LuminosityContrast)
    ensures ReadableComplement(White).complement == White
    ensures !IsGoodColorMix(White, ReadableComplement(White).complement, LuminosityContrast)
  {
    assert ColorMath.HslOf(0, 0, 0) == ColorMath.Hsl(0, 0, 0);
    assert ColorMath.Complement(Black) == Black;
    assert ColorMath.HslOf(255, 255, 255) == ColorMath.Hsl(0, 0, 100);
    assert ColorMath.Complement(White) == White;
    NotReadableOnItself(Black, LuminosityContrast);
    NotReadableOnItself(White, LuminosityContrast);
  }

  /** getReadableComplement with the guard asking only for room in the direction of the search. */
  function ReadableComplementCorrected(color: Color): (e: SearchEnd) {
    StartSearch(color, true)
  }

  /**
   * With the corrected guard the search stops unreadable only at the far end
   * of its direction (100 going up, 0 going down).
   */
  lemma CorrectedSearchOutcome(color: Color)
    ensures var e := ReadableComplementCorrected(color);
            IsGoodColorMix(color, e.complement, LuminosityContrast)
              || (ColorMath.Luminosity(color) < 128.0 && e.lightness == 100)
              || (ColorMath.Luminosity(color) >= 128.0 && e.lightness == 0)
  {
    var complement := ColorMath.Complement(color);
    var t := ColorMath.HslOf(complement.red, complement.green, complement.blue);
    ColorMath.HslOfInRange(complement.red, complement.green, complement.blue);
    SearchOutcome(color, ColorMath.Luminosity(color) < 128.0, t.hue, t.saturation, t.lightness, complement, true);
  }

  /** With the corrected guard black gets a complement readable against it, so not black. */
  lemma CorrectedBlack()
    ensures IsGoodColorMix(Black, ReadableComplementCorrected(Black).complement, LuminosityContrast)
    ensures ReadableComplementCorrected(Black).complement != Black
  {
    assert ColorMath.HslOf(0, 0, 0) == ColorMath.Hsl(0, 0, 0);
    assert ColorMath.Complement(Black) == Black;
    SearchOutcome(Black, true, 0, 0, 0, Black, true);
    var e := ReadableComplementCorrected(Black);
    assert ColorMath.RgbOf(0, 0, 100) == Rgb(255, 255, 255);
    assert !IsGoodColorMix(Black, e.complement, LuminosityContrast) ==> e.complement == White;
    NotReadableOnItself(Black, LuminosityContrast);
  }

  /** With the corrected guard white gets a complement readable against it. */
  lemma CorrectedWhite()
    ensures IsGoodColorMix(White, ReadableComplementCorrected(White).complement, LuminosityContrast)
    ensures ReadableComplementCorrected(White).complement != White
  {
    assert ColorMath.HslOf(255, 255, 255) == ColorMath.Hsl(0, 0, 100);
    assert ColorMath.Complement(White) == White;
    SearchOutcome(White, false, 0, 0, 100, White, true);
    var e := ReadableComplementCorrected(White);
    assert ColorMath.RgbOf(0, 0, 0) == Rgb(0, 0, 0);
    assert !IsGoodColorMix(White, e.complement, LuminosityContrast) ==> e.complement == Black;
    NotReadableOnItself(White, LuminosityContrast);
  }
}
