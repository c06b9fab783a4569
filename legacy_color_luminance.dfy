/**
 * The older colour-luminance node at the repository root: the same rule, with the
 * background channels sliced out inline and one `(bg, text)` pair for ui and result.
 */
module LegacyColorLuminance {
  import opened Wrappers
  import opened PyText
  import opened HexColor
  import opened ColorMath
  import ColorContrast
  import ColorLuminance

  /** The ui text and the result, the same pair of background and text colour. */
  datatype Output = Output(uiText: (string, string), result: (string, string))

  /** `exec` of the older node: dark text exactly when the luminance is strictly above the threshold. */
  function Exec(bgHex: string, threshold: real, lightHex: string, darkHex: string, pow: real -> real)
    : (r: Result<Output, ColorContrast.ParseError>)
    ensures r.Ok? <==>
      ParseInt(Slice(bgHex, 1, 3), 16).Some? && ParseInt(Slice(bgHex, 3, 5), 16).Some? &&
      ParseInt(Slice(bgHex, 5, 7), 16).Some?
    ensures r.Ok? ==>
      var light := ColorContrast.OrDefault(lightHex, "#FFFFFF");
      var dark := ColorContrast.OrDefault(darkHex, "#000000");
      var lum := LuminanceOf(ParseAt1(bgHex).value, pow);
      && r.value.uiText == r.value.result
      && r.value.result.0 == bgHex
      && (lum > threshold ==> r.value.result.1 == dark)
      && (lum <= threshold ==> r.value.result.1 == light)
  {
    var light := ColorContrast.OrDefault(lightHex, "#FFFFFF");
    var dark := ColorContrast.OrDefault(darkHex, "#000000");
    match (ParseInt(Slice(bgHex, 1, 3), 16), ParseInt(Slice(bgHex, 3, 5), 16), ParseInt(Slice(bgHex, 5, 7), 16))
    case (Some(r), Some(g), Some(b)) =>
      var lum := RelativeLuminance(r, g, b, pow);
      var text := if lum > threshold then dark else light;
      Ok(Output((bgHex, text), (bgHex, text)))
    case _ => Err(ColorContrast.InvalidHex)
  }

  /** The older node and the newer one fail on the same inputs and return the same pair. */
  lemma AgreesWithNewer(bgHex: string, threshold: real, lightHex: string, darkHex: string, pow: real -> real)
    ensures var old_ := Exec(bgHex, threshold, lightHex, darkHex, pow);
      var new_ := ColorLuminance.Exec(bgHex, threshold, lightHex, darkHex, pow);
      old_.Ok? == new_.Ok? && (old_.Ok? ==> old_.value.result == (new_.value.bg, new_.value.text))
  {
  }
}
