/**
 * The colour arithmetic shared by the contrast and luminance nodes: the WCAG 2.1 relative
 * luminance and contrast ratio, and the argument-order plumbing around Python's
 * `colorsys` HLS conversions. The older node files carry identical local copies of the
 * luminance and contrast helpers; they are this module's functions too.
 */
module ColorMath {
  import opened PyNum
  import opened HexColor

  /**
   * The power term `x ** 2.4` is not modelled; it is a parameter. Every property below
   * that needs it asks only that it be non-negative on positive arguments.
   */
  ghost predicate NonNegativeOnPositives(pow: real -> real)
  {
    forall x :: x > 0.0 ==> pow(x) >= 0.0
  }

  /** One channel of relative luminance: linear below 0.03928, the power curve above. */
  function Linearize(c: real, pow: real -> real): (v: real)
    ensures c <= 0.03928 ==> v == c / 12.92
    ensures 0.0 <= c && NonNegativeOnPositives(pow) ==> v >= 0.0
  {
    if c <= 0.03928 then c / 12.92 else pow((c + 0.055) / 1.055)
  }

  /** `relative_luminance(r, g, b)` on 0..255 channels, weights 0.2126, 0.7152, 0.0722. */
  function RelativeLuminance(r: int, g: int, b: int, pow: real -> real): (l: real)
    ensures 0 <= r && 0 <= g && 0 <= b && NonNegativeOnPositives(pow) ==> l >= 0.0
  {
    0.2126 * Linearize(r as real / 255.0, pow) + 0.7152 * Linearize(g as real / 255.0, pow) +
    0.0722 * Linearize(b as real / 255.0, pow)
  }

  /** The relative luminance of an RGB triple. */
  function LuminanceOf(c: Rgb, pow: real -> real): (l: real)
    ensures InRange(c) && NonNegativeOnPositives(pow) ==> l >= 0.0
  {
    RelativeLuminance(c.r, c.g, c.b, pow)
  }

  /** Black has luminance 0 whatever the power term. */
  lemma LuminanceOfBlack(pow: real -> real)
    ensures RelativeLuminance(0, 0, 0, pow) == 0.0
  {
  }

  /** White has luminance 1 when `1 ** 2.4 == 1`: the three weights sum to one. */
  lemma LuminanceOfWhite(pow: real -> real)
    requires pow(1.0) == 1.0
    ensures RelativeLuminance(255, 255, 255, pow) == 1.0
    ensures 0.2126 + 0.7152 + 0.0722 == 1.0
  {
    assert (255.0 / 255.0 + 0.055) / 1.055 == 1.0;
  }

  /** `contrast_ratio(l1, l2)`: the brighter plus 0.05 over the darker plus 0.05. */
  function ContrastRatio(l1: real, l2: real): (c: real)
    requires (if l1 < l2 then l1 else l2) + 0.05 != 0.0
    ensures l1 >= 0.0 && l2 >= 0.0 ==> c >= 1.0
    ensures l1 >= 0.0 && l2 >= 0.0 ==> (c == 1.0 <==> l1 == l2)
  {
    var (hi, lo) := if l1 < l2 then (l2, l1) else (l1, l2);
    (hi + 0.05) / (lo + 0.05)
  }

  /** The order of the two luminances does not matter. */
  lemma ContrastRatioSymmetric(l1: real, l2: real)
    requires (if l1 < l2 then l1 else l2) + 0.05 != 0.0
    ensures ContrastRatio(l1, l2) == ContrastRatio(l2, l1)
  {
  }

  /** The contrast of two non-negative luminances is defined. */
  lemma ContrastDefined(l1: real, l2: real)
    requires l1 >= 0.0 && l2 >= 0.0
    ensures (if l1 < l2 then l1 else l2) + 0.05 != 0.0
  {
  }

  /** A colorsys triple. */
  type Triple = (real, real, real)

  /** `rgb_to_hsl`: colorsys returns `(h, l, s)`; the node returns `(h, s, l)`. */
  function RgbToHsl(c: Rgb, rgbToHls: Triple -> Triple): (hsl: Triple)
  {
    var (h, l, s) := rgbToHls((c.r as real / 255.0, c.g as real / 255.0, c.b as real / 255.0));
    (h, s, l)
  }

  /** `hsl_to_rgb`: passes `(h, l, s)` to colorsys and truncates each channel times 255. */
  function HslToRgb(hsl: Triple, hlsToRgb: Triple -> Triple): Rgb
  {
    var (h, s, l) := hsl;
    var (r, g, b) := hlsToRgb((h, l, s));
    Rgb(Trunc(r * 255.0), Trunc(g * 255.0), Trunc(b * 255.0))
  }

  /**
   * The two reorderings undo each other: when colorsys's conversions are inverse at this
   * colour, `hsl_to_rgb(rgb_to_hsl(c)) == c` for every in-range colour.
   */
  lemma HslRoundTrip(c: Rgb, rgbToHls: Triple -> Triple, hlsToRgb: Triple -> Triple)
    requires InRange(c)
    requires var t := (c.r as real / 255.0, c.g as real / 255.0, c.b as real / 255.0);
      hlsToRgb(rgbToHls(t)) == t
    ensures HslToRgb(RgbToHsl(c, rgbToHls), hlsToRgb) == c
  {
    var t := (c.r as real / 255.0, c.g as real / 255.0, c.b as real / 255.0);
    var u := rgbToHls(t);
    assert RgbToHsl(c, rgbToHls) == (u.0, u.2, u.1);
    assert (u.0, u.1, u.2) == u;
    assert t.0 * 255.0 == c.r as real && t.1 * 255.0 == c.g as real && t.2 * 255.0 == c.b as real;
    TruncOfInt(c.r);
    TruncOfInt(c.g);
    TruncOfInt(c.b);
  }

  /** The saturation slot of the node's triple is colorsys's third component, lightness its second. */
  lemma RgbToHslOrder(c: Rgb, rgbToHls: Triple -> Triple)
    ensures var t := rgbToHls((c.r as real / 255.0, c.g as real / 255.0, c.b as real / 255.0));
      RgbToHsl(c, rgbToHls) == (t.0, t.2, t.1)
  {
  }
}
