/**
 * The older colour-limit node at the repository root: the same limits applied in HSL
 * instead of HSV, no preview, and a one-element result holding the hex string. Its local
 * `rgb_to_hsl` and `hsl_to_rgb` are the shared ones of `ColorMath`, argument swap included.
 */
module LegacyColorLimit {
  import opened Wrappers
  import opened PyNum
  import opened HexColor
  import opened ColorMath
  import ColorLimit

  /** The conversions the node borrows: colorsys's HLS pair and `round(x, 6)`. */
  datatype Conversions = Conversions(rgbToHls: Triple -> Triple, hlsToRgb: Triple -> Triple, round6: real -> real)

  /** The sliders' defaults: brightness stops at 0.5 here. */
  const DefaultLimits := ColorLimit.Limits(0.0, 1.0, 0.0, 0.5)

  /**
   * The triple handed to `hsl_to_rgb`: the rounded hue unchanged, the rounded saturation and
   * lightness each clamped into its slider range.
   */
  function LimitedHsl(c: Rgb, lim: ColorLimit.Limits, conv: Conversions): (t: Triple)
    ensures var hsl := RgbToHsl(c, conv.rgbToHls);
      && t.0 == conv.round6(hsl.0)
      && t.1 == ClampReal(conv.round6(hsl.1), lim.satStart, lim.satEnd)
      && t.2 == ClampReal(conv.round6(hsl.2), lim.brStart, lim.brEnd)
  {
    var (h, s, l) := RgbToHsl(c, conv.rgbToHls);
    var (h', s', l') := (conv.round6(h), conv.round6(s), conv.round6(l));
    (h', ClampReal(s', lim.satStart, lim.satEnd), ClampReal(l', lim.brStart, lim.brEnd))
  }

  /**
   * `color_limit` of the older node: the text after its leading `#`s is read two digits at a
   * time (a malformed pair raises), and the limited colour is formatted as lower-case `#rrggbb`.
   */
  function Limit(hexColor: string, lim: ColorLimit.Limits, conv: Conversions): (r: Result<string, ColorLimit.ParseError>)
    ensures r.Ok? <==> ParseStripped(hexColor).Some?
    ensures r.Ok? ==> r.value == FormatHex(HslToRgb(LimitedHsl(ParseStripped(hexColor).value, lim, conv), conv.hlsToRgb))
    ensures r.Ok? ==>
      var t := LimitedHsl(ParseStripped(hexColor).value, lim, conv);
      ColorLimit.InUnitCube(conv.hlsToRgb((t.0, t.2, t.1))) ==> IsLowerHex6(r.value)
  {
    match ParseStripped(hexColor)
    case None => Err(ColorLimit.InvalidHex)
    case Some(c) =>
      var rgbNew := HslToRgb(LimitedHsl(c, lim, conv), conv.hlsToRgb);
      HslToRgbInRange(LimitedHsl(c, lim, conv), conv.hlsToRgb);
      FormatInRange(rgbNew);
      Ok(FormatHex(rgbNew))
  }

  /** `hsl_to_rgb` gives bytes when colorsys's answer is in the unit cube. */
  lemma HslToRgbInRange(hsl: Triple, hlsToRgb: Triple -> Triple)
    ensures ColorLimit.InUnitCube(hlsToRgb((hsl.0, hsl.2, hsl.1))) ==> InRange(HslToRgb(hsl, hlsToRgb))
  {
    var (h, s, l) := hsl;
    var (r, g, b) := hlsToRgb((h, l, s));
    ColorLimit.UnitToByte(r);
    ColorLimit.UnitToByte(g);
    ColorLimit.UnitToByte(b);
  }

  /**
   * With sliders in `[0, 1]` and conversions and rounding that keep the unit range, the
   * limited colour is always a lower-case `#rrggbb`.
   */
  lemma LimitShape(hexColor: string, lim: ColorLimit.Limits, conv: Conversions)
    requires ParseStripped(hexColor).Some?
    requires ColorLimit.UnitSliders(lim)
    requires ColorLimit.MapsCubeToCube(conv.rgbToHls) && ColorLimit.MapsCubeToCube(conv.hlsToRgb)
    requires ColorLimit.KeepsUnitInterval(conv.round6)
    ensures IsLowerHex6(Limit(hexColor, lim, conv).value)
  {
    var c := ParseStripped(hexColor).value;
    var u := (c.r as real / 255.0, c.g as real / 255.0, c.b as real / 255.0);
    assert ColorLimit.InUnitCube(u);
    var hls := conv.rgbToHls(u);
    assert ColorLimit.InUnitCube(hls);
    var t := LimitedHsl(c, lim, conv);
    assert 0.0 <= conv.round6(hls.0) <= 1.0;
    assert ColorLimit.InUnitCube((t.0, t.2, t.1));
  }

  /** With the default sliders lightness ends up in `[0, 0.5]` and saturation in `[0, 1]`. */
  lemma DefaultCapsLightness(c: Rgb, conv: Conversions)
    ensures var t := LimitedHsl(c, DefaultLimits, conv);
      0.0 <= t.1 <= 1.0 && 0.0 <= t.2 <= 0.5
  {
  }

  /**
   * A colour already inside the limits comes back as itself, when colorsys's conversions
   * are inverse at it and rounding leaves its HSL values alone.
   */
  lemma LimitKeepsColourInside(c: Rgb, lim: ColorLimit.Limits, conv: Conversions)
    requires InRange(c)
    requires var t := (c.r as real / 255.0, c.g as real / 255.0, c.b as real / 255.0);
      conv.hlsToRgb(conv.rgbToHls(t)) == t
    requires var u := RgbToHsl(c, conv.rgbToHls);
      && conv.round6(u.0) == u.0 && conv.round6(u.1) == u.1 && conv.round6(u.2) == u.2
      && lim.satStart <= u.1 <= lim.satEnd && lim.brStart <= u.2 <= lim.brEnd
    ensures Limit(FormatHex(c), lim, conv) == Ok(FormatHex(c))
  {
    ParseStrippedFormat(c);
    var u := RgbToHsl(c, conv.rgbToHls);
    assert LimitedHsl(c, lim, conv) == (u.0, u.1, u.2) == u;
    HslRoundTrip(c, conv.rgbToHls, conv.hlsToRgb);
  }
}
