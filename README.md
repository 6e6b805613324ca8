# ColorUtils in Dafny

A model of the exact layer of the ColorUtils library (`lu.albert.colorutils`):

- **ColorMath** (`color_math.dfy`). Covers RGB to HSL and back after the EasyRGB formulas (`rgb2hsl`, `hsl2rgb`, `hue2rgb`), `getHSL` and `fromHSL`, and the complement (`getComplement`: the hue turned by 180 degrees, with black as the fallback for an invalid colour). It also covers the ITU-R BT.709 luma weighting (`getLuminosity`, `getLuminance`), the `#rrggbb` serialiser (`toHex`), and the conversions to HSV and HMMD (`rgb2hsv`, `rgb2hmmd`).
- **ColorA11Y** (`color_a11y.dfy`). Covers the `Method` enumeration and `isGoodColorMix` with its three readability heuristics. These are the W3C colour difference (`W3CColorDifference`), the luminosity ratio, and the luminosity contrast. It also covers `getReadableComplement`, which moves the complement's lightness one percent at a time until the pair is readable or the lightness reaches a bound.
- **Colors** (`colors.dfy`). Holds the colour value. In Java this is `java.awt.Color`. Here it is a triple of integers (`Rgb`, what the `int[]` out-parameters hold) and the subset type `Color` of triples whose channels lie in [0,255]. `NewColor` is the constructor. `None` stands for the `IllegalArgumentException` it throws.

The Java methods that write into caller-supplied `int[]` arrays (`rgb2hsl`, `hsl2rgb`, `getHSL`, `rgb2hsv`, `rgb2hmmd`) are methods on `array<int>` here. Each follows the Java statements and is proved to write what a pure function computes (`HslOf`, `RgbOf`, `HsvOf`, `HmmdOf`). `hue2rgb` reassigns its parameter, so it is a method proved equal to `HueChannel`. The loop of `getReadableComplement` is a `while` loop over the `textHSL` array. It sits in its own method, `AdjustLightness`, which `GetReadableComplement` calls after the set-up statements, so the proof of the loop does not carry the HSL arithmetic of the set-up. The recursive function `Search` specifies the loop, and the loop invariants tie the two together. The lemmas then prove what the library promises about these functions.

The Java code computes in `float`. This model computes in exact `real` arithmetic. `Math.round(x)` is `Round(x)`, which is `floor(x + 1/2)` capped to the range of a Java `int` as `Math.round(float)` caps it, and an `(int)` cast is `Truncate(x)`, towards zero. Every claim holds for exact arithmetic. None of them says anything about IEEE rounding. The cube root in the LuminosityContrast test is replaced by the equivalent comparison of cubes, `116^3 * d > 100^3 * 255`. `CubeRootTest` proves that this agrees with the cube-root form.

The hue that `rgb2hsl` writes lies in [0,360], not [0,360). For (255, 0, 1) it is 360 (`HueReaches360`). The model follows the code. `getComplement` maps hue 360 to 180 like any other.

## Model

| member | source | states |
|---|---|---|
| `Colors.NewColor` | src/lu/albert/colorutils/ColorMath.java:30-35 | building a colour succeeds exactly when all three channels lie in [0,255] and then holds them; otherwise it fails (the exception caught there) |
| `ColorMath.Rgb2Hsl` | src/lu/albert/colorutils/ColorMath.java:52-105 | writes HslOf(r, g, b) into hsl[0..2] and leaves the rest of the array unchanged |
| `ColorMath.HslOfInRange` | src/lu/albert/colorutils/ColorMath.java:70-102 | for channels in [0,255] every division has a non-zero divisor, the hue written is in [0,360] and saturation and lightness are in [0,100] |
| `ColorMath.SaturationInRange` | src/lu/albert/colorutils/ColorMath.java:72-80 | for min <= max in [0,1] the saturation (0 for a grey, otherwise either formula) is a fraction in [0,1], so the rounded saturation is in [0,100] |
| `ColorMath.HueInRange` | src/lu/albert/colorutils/ColorMath.java:72-101 | the hue fraction (0 for a grey, otherwise the raw hue after the +1/-1 wrap) scales and rounds to a hue in [0,360] |
| `ColorMath.RawHueBounds` | src/lu/albert/colorutils/ColorMath.java:82-92 | before wrapping, the hue fraction of the red-, green- or blue-maximum branch lies in [-1/6, 5/6], so one +1 or -1 brings it into [0,1] |
| `ColorMath.HslOfGrey` | src/lu/albert/colorutils/ColorMath.java:70-102 | a grey r == g == b gives hue 0, saturation 0 and lightness round(100 r / 255) |
| `ColorMath.HueReaches360` | src/lu/albert/colorutils/ColorMath.java:93-100 | the wrapped hue can round to 360: (255, 0, 1) gets hue 360 |
| `ColorMath.GetHsl` | src/lu/albert/colorutils/ColorMath.java:204-206 | writes the HSL triple of the colour into hsl[0..2] and leaves the rest unchanged |
| `ColorMath.Hue2Rgb` | src/lu/albert/colorutils/ColorMath.java:164-186 | returns HueChannel(v1, v2, vH), and for vH in [-1,2] a value between min(v1, v2) and max(v1, v2) inclusive |
| `ColorMath.HueChannelBetween` | src/lu/albert/colorutils/ColorMath.java:164-186 | for vH in [-1,2] every piece of hue2rgb yields a value between v1 and v2 inclusive |
| `ColorMath.TempsOrdered` | src/lu/albert/colorutils/ColorMath.java:134-140 | for saturation and lightness in [0,1], 0 <= tmp1 <= tmp2 <= 1 |
| `ColorMath.RgbOfValid` | src/lu/albert/colorutils/ColorMath.java:129-149 | for h in [0,360] and s, l in [0,100] all three rounded channels lie in [0,255] |
| `ColorMath.RgbOfGrey` | src/lu/albert/colorutils/ColorMath.java:129-133 | with saturation 0 the three channels are equal, round(l * 255 / 100), whatever the hue |
| `ColorMath.Hsl2Rgb` | src/lu/albert/colorutils/ColorMath.java:115-153 | writes RgbOf(h, s, l) into rgb[0..2] and leaves the rest unchanged; every channel is rounded with the int cap of Math.round |
| `ColorMath.HugeLightnessCaps` | src/lu/albert/colorutils/ColorMath.java:129-149 | for an out-of-range lightness such as 10^9 at saturation 0, Math.round caps each channel at Integer.MAX_VALUE (2147483647) |
| `ColorMath.ColorOfHsl` | src/lu/albert/colorutils/ColorMath.java:193-197 | building a colour from an HSL triple in range never fails |
| `ColorMath.FromHsl` | src/lu/albert/colorutils/ColorMath.java:193-197 | returns the colour of hsl[0..2], or the failure of the constructor; it never fails for a triple in range |
| `ColorMath.RotateHue` | src/lu/albert/colorutils/ColorMath.java:23-26 | adding 180 and subtracting 360 once maps a hue in [0,360] into [0,360), congruent to hue + 180 modulo 360 |
| `ColorMath.ComplementIsRotation` | src/lu/albert/colorutils/ColorMath.java:19-35 | the complement keeps saturation and lightness and turns the hue by 180 degrees into [0,360); for a valid colour the black fallback is never taken, so the result is exactly hsl2rgb of the rotated triple |
| `ColorMath.GetComplement` | src/lu/albert/colorutils/ColorMath.java:19-36 | the array-based getComplement returns Complement(input) |
| `ColorMath.Luminosity` | src/lu/albert/colorutils/ColorMath.java:215-217 | the BT.709-weighted sum lies in [0,255], is 0 exactly for black, and equals the channel value for a grey (the weights sum to 1) |
| `ColorMath.Luminance` | src/lu/albert/colorutils/ColorMath.java:226-228 | returns the same value as getLuminosity |
| `ColorMath.HexPair` | src/lu/albert/colorutils/ColorMath.java:38-43 | `%02x` of a channel is two lower-case hexadecimal digits whose value is the channel |
| `ColorMath.ToHex` | src/lu/albert/colorutils/ColorMath.java:38-43 | exactly 7 characters: `#`, then red, green and blue as two lower-case zero-padded hex digits each; decoding each pair gives the channel back |
| `ColorMath.ToHexRed` | src/lu/albert/colorutils/ColorMath.java:38-43 | pure red serialises as `#ff0000` |
| `ColorMath.HsvOf` | src/lu/albert/colorutils/ColorMath.java:291-326 | the branchy selection gives the true maximum and minimum: hsv[2] is 100 times the maximum; equal max and min force hue 0 and saturation 0; otherwise hsv[1] is the truncated 100 (max - min) / 255 |
| `ColorMath.Rgb2Hsv` | src/lu/albert/colorutils/ColorMath.java:285-327 | the successive min/max updates and the writes store HsvOf(r, g, b) into hsv[0..2], the rest unchanged |
| `ColorMath.HmmdOf` | src/lu/albert/colorutils/ColorMath.java:259-283 | hmmd[1] and hmmd[2] are the true maximum and minimum, hmmd[3] their non-negative difference, and a zero difference forces hue 0 |
| `ColorMath.Rgb2Hmmd` | src/lu/albert/colorutils/ColorMath.java:259-283 | writes HmmdOf(r, g, b) into hmmd[0..3] and leaves the rest unchanged |
| `ColorA11Y.W3CColorDifference` | src/lu/albert/colorutils/ColorA11Y.java:95-103 | the sum of absolute channel differences lies in [0,765] and is 0 exactly when the colours are equal |
| `ColorA11Y.W3CColorDifferenceSymmetric` | src/lu/albert/colorutils/ColorA11Y.java:95-103 | the difference does not depend on the order of the colours |
| `ColorA11Y.W3CRule` | src/lu/albert/colorutils/ColorA11Y.java:39-42 | under W3C (and under any method the switch does not name) a pair is readable iff the difference is at least 500; black on white is readable and black on (10,10,10) is not |
| `ColorA11Y.LuminosityRule` | src/lu/albert/colorutils/ColorA11Y.java:43-47 | under Luminosity a pair is readable iff the larger luminosity is positive and at least ten times the smaller; two zero luminosities (0f/0f = NaN) are not readable |
| `ColorA11Y.CubeRootTest` | src/lu/albert/colorutils/ColorA11Y.java:48-54 | for x the cube root of d / 255, 116 x > 100 exactly when 116^3 d > 100^3 * 255, the form the model evaluates |
| `ColorA11Y.LuminosityContrastRule` | src/lu/albert/colorutils/ColorA11Y.java:48-54 | under LuminosityContrast a pair is readable iff the luminosities differ by more than 100^3 * 255 / 116^3 |
| `ColorA11Y.IsGoodColorMixSymmetric` | src/lu/albert/colorutils/ColorA11Y.java:35-57 | swapping the two colours never changes the verdict, for every method |
| `ColorA11Y.NotReadableOnItself` | src/lu/albert/colorutils/ColorA11Y.java:35-57 | no colour is readable against itself under any method |
| `ColorA11Y.SearchOutcome` | src/lu/albert/colorutils/ColorA11Y.java:72-84 | from any state the loop ends with lightness in [0,100], reached by moving only in the fixed direction, where the pair is readable or the guard stops it; the colour is the current one if the lightness never moved and otherwise fromHSL of (hue, saturation, final lightness) |
| `ColorA11Y.ReadableComplementOutcome` | src/lu/albert/colorutils/ColorA11Y.java:65-86 | lightness goes up if the input's luminosity is below 128 and down otherwise; hue and saturation never change; the loop ends readable under LuminosityContrast or at lightness 0 or 100; the result is the first complement if no step ran and fromHSL of the final triple otherwise |
| `ColorA11Y.SearchStep` | src/lu/albert/colorutils/ColorA11Y.java:72-83 | one iteration: when the pair is unreadable and the guard holds, fromHSL of the stepped triple succeeds and the search continues from there with the same outcome |
| `ColorA11Y.AdjustLightness` | src/lu/albert/colorutils/ColorA11Y.java:72-84 | the while loop over textHSL, stepping up when the luminosity is below 128 and down otherwise and rebuilding the complement with fromHSL, returns the complement Search reaches from the starting triple; it leaves textHSL[0] and textHSL[1] unchanged and leaves textHSL[2] at the lightness where Search stops |
| `ColorA11Y.GetReadableComplement` | src/lu/albert/colorutils/ColorA11Y.java:65-86 | the complement, its HSL triple and the luminosity feed the loop, and the method returns ReadableComplement(color), whose outcome ReadableComplementOutcome states |
| `ColorA11Y.BlackAndWhiteStay` | src/lu/albert/colorutils/ColorA11Y.java:72-74 | as written, black gets black back and white gets white back, and neither pair is readable |
| `ColorA11Y.CorrectedSearchOutcome` | src/lu/albert/colorutils/ColorA11Y.java:72-74 | with a guard that only asks for room in the search direction, the search stops unreadable only at lightness 100 going up or 0 going down |
| `ColorA11Y.CorrectedBlack` | src/lu/albert/colorutils/ColorA11Y.java:72-74 | with the corrected guard black gets a colour readable against it, so not black |
| `ColorA11Y.CorrectedWhite` | src/lu/albert/colorutils/ColorA11Y.java:72-74 | with the corrected guard white gets a colour readable against it |

## Findings

The Javadoc of `getReadableComplement` (src/lu/albert/colorutils/ColorA11Y.java:60 and :63) promises "the best complementary color for text readability". For black the code returns black itself, which is not readable against black. The model follows the code.

| source | as written | input that shows it | evidently intended | confidence | as-written member | corrected member |
|---|---|---|---|---|---|---|
| src/lu/albert/colorutils/ColorA11Y.java:72-74 | the loop runs only while 0 < lightness < 100, whichever way it moves | black (0,0,0): its complement is black with lightness 0, the search should step up but `textHSL[2] > 0` fails, and black is returned; white (255,255,255) fails `textHSL[2] < 100` the same way | stop only when there is no room in the search direction (lightness 100 going up, 0 going down), so that black and white get a readable complement | medium; not executed | `ColorA11Y.BlackAndWhiteStay` | `ColorA11Y.CorrectedBlack` |

## Left out

- `rgb2xyY`, `rgb2xyz`, `rgb2lab` and `rgb2luv` are not modelled. They rest on `Math.pow` (sRGB gamma 2.4, cube roots) and float matrix coefficients, which exact arithmetic cannot state faithfully.
- `rgb2ycbcr` and `rgb2yuv` are not modelled. They truncate float and double linear combinations, so IEEE rounding decides the result, for instance whether a grey's Y is r or r - 1.
- `rgb2hsb` is not modelled. It calls `java.awt.Color.RGBtoHSB`, which is not part of this model, and it discards the result without writing its out-parameter.
- Logger calls and `System.err.println` are instrumentation and are not modelled.
- `java.awt.Color` is not modelled beyond the range check of its constructor. Alpha and the class's other members are not part of this model.
- IEEE `float` and `double` behaviour is not modelled. This affects boundary cases such as a luminosity ratio of exactly 0.1, a luminosity of exactly 128, a contrast exactly at the threshold, a value exactly halfway between two integers before `Math.round`, and the double approximation of 1/3 that `Math.pow` uses.
- `ColorMath.Rgb2Hsl`: requires channels in [0,255]. Outside that range, Java's float division can yield an infinity or NaN, which exact reals cannot express. Every caller passes the channels of a colour.
- `ColorMath.HslOfInRange`: applies only to channels in [0,255], for the same reason.
- `ColorMath.Rgb2Hsl`, `ColorMath.Hsl2Rgb`, `ColorMath.GetHsl`, `ColorMath.FromHsl`, `ColorMath.Rgb2Hsv`, `ColorMath.Rgb2Hmmd`: require the array to be long enough (3 entries, or 4 for HMMD). Java would throw `ArrayIndexOutOfBoundsException` on a shorter one, and every caller allocates exactly that size.
- `ColorMath.HsvOf`, `ColorMath.HmmdOf`: take channels as unbounded integers. The 32-bit overflow of `60 * (g - b)`, the loss of float precision for channels beyond 2^24, and the cap of an `(int)` cast at the int range (which `Truncate` does not apply) are not modelled.
- The float hue of `rgb2hsv` and `rgb2hmmd` is computed in exact arithmetic and truncated. Beyond the zero-difference case, no property is stated about it.
- Neither an RGB to HSL to RGB round trip within ±1 nor complement(complement(c)) ≈ c is stated. The code does not promise either, and both depend on rounding.
- `getReadableComplement` can in principle throw, because `fromHSL` throws for an out-of-range triple. That exception path is not modelled as a result: the triple always stays in range, and `ColorMath.FromHsl` is proved to succeed there.
