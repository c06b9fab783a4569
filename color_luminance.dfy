/**
 * The colour-luminance node: dark text on a background whose relative luminance exceeds
 * the threshold, light text otherwise. Only the background is parsed.
 */
module ColorLuminance {
  import opened Wrappers
  import opened HexColor
  import opened ColorMath
  import ColorContrast

  /** The ui entry (`bg_color`, `front_color`) and the result pair. */
  datatype Output = Output(uiBgColor: string, uiFrontColor: string, bg: string, text: string)

  /** `hex_to_rgb`: the slices at 1, 3 and 5; `None` where `int(…, 16)` raises. */
  function HexToRgb(hex: string): Option<Rgb>
  {
    ParseAt1(hex)
  }

  /**
   * `exec`: empty text colours default to `#FFFFFF` and `#000000`; the background comes
   * back unchanged; the text is the dark colour exactly when the background luminance is
   * strictly above the threshold, so equal luminance gives light text.
   */
  function Exec(bgHex: string, threshold: real, lightHex: string, darkHex: string, pow: real -> real)
    : (r: Result<Output, ColorContrast.ParseError>)
    ensures r.Ok? <==> HexToRgb(bgHex).Some?
    ensures r.Ok? ==>
      var light := ColorContrast.OrDefault(lightHex, "#FFFFFF");
      var dark := ColorContrast.OrDefault(darkHex, "#000000");
      var lum := LuminanceOf(HexToRgb(bgHex).value, pow);
      && r.value.bg == r.value.uiBgColor == bgHex
      && r.value.text == r.value.uiFrontColor
      && (lum > threshold ==> r.value.text == dark)
      && (lum <= threshold ==> r.value.text == light)
  {
    var light := ColorContrast.OrDefault(lightHex, "#FFFFFF");
    var dark := ColorContrast.OrDefault(darkHex, "#000000");
    match HexToRgb(bgHex)
    case Some(c) =>
      var text := if LuminanceOf(c, pow) > threshold then dark else light;
      Ok(Output(bgHex, text, bgHex, text))
    case None => Err(ColorContrast.InvalidHex)
  }

  /** The text colours are never parsed: malformed ones are returned as they are. */
  lemma TextColoursNotParsed(bgHex: string, threshold: real, pow: real -> real)
    requires HexToRgb(bgHex).Some?
    ensures Exec(bgHex, threshold, "light", "dark", pow).Ok?
    ensures Exec(bgHex, threshold, "light", "dark", pow).value.text in {"light", "dark"}
  {
  }

  /** A black background is at most any non-negative threshold, so it gets light text. */
  lemma LightTextOnBlack(threshold: real, lightHex: string, darkHex: string, pow: real -> real)
    requires threshold >= 0.0
    ensures Exec("#000000", threshold, lightHex, darkHex, pow).Ok?
    ensures Exec("#000000", threshold, lightHex, darkHex, pow).value.text ==
      ColorContrast.OrDefault(lightHex, "#FFFFFF")
  {
    WhiteAndBlackParse();
    LuminanceOfBlack(pow);
  }
}
