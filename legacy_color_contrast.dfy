/**
 * The older colour-contrast node at the repository root. Its local luminance and contrast
 * helpers are the same formulas as the shared ones; only the ui shape differs: ui and
 * result carry the same `(bg, text)` pair.
 */
module LegacyColorContrast {
  import opened Wrappers
  import opened HexColor
  import opened ColorMath
  import ColorContrast

  /** The ui text and the result, the same pair of background and text colour. */
  datatype Output = Output(uiText: (string, string), result: (string, string))

  /** `exec` of the older node. */
  function Exec(bgHex: string, level: string, lightHex: string, darkHex: string, pow: real -> real)
    : (r: Result<Output, ColorContrast.ParseError>)
    requires NonNegativeOnPositives(pow)
    ensures var light := ColorContrast.OrDefault(lightHex, "#FFFFFF");
      var dark := ColorContrast.OrDefault(darkHex, "#000000");
      r.Ok? <==> ParseAt1(bgHex).Some? && ParseAt1(light).Some? && ParseAt1(dark).Some?
    ensures r.Ok? ==>
      var light := ColorContrast.OrDefault(lightHex, "#FFFFFF");
      var dark := ColorContrast.OrDefault(darkHex, "#000000");
      var lc := ColorContrast.ContrastAgainst(ParseAt1(light).value, ParseAt1(bgHex).value, pow);
      && r.value.uiText == r.value.result
      && r.value.result.0 == bgHex
      && (lc >= ColorContrast.Threshold(level) ==> r.value.result.1 == light)
      && (lc < ColorContrast.Threshold(level) ==> r.value.result.1 == dark)
  {
    var light := ColorContrast.OrDefault(lightHex, "#FFFFFF");
    var dark := ColorContrast.OrDefault(darkHex, "#000000");
    match (ParseAt1(bgHex), ParseAt1(light), ParseAt1(dark))
    case (Some(b), Some(l), Some(d)) =>
      var lc := ColorContrast.ContrastAgainst(l, b, pow);
      var dc := ColorContrast.ContrastAgainst(d, b, pow);
      var out := ColorContrast.Choose(lc, dc, ColorContrast.Threshold(level), light, dark);
      Ok(Output((bgHex, out), (bgHex, out)))
    case _ => Err(ColorContrast.InvalidHex)
  }

  /** The older node and the newer one fail on the same inputs and return the same pair. */
  lemma AgreesWithNewer(bgHex: string, level: string, lightHex: string, darkHex: string, pow: real -> real)
    requires NonNegativeOnPositives(pow)
    ensures var old_ := Exec(bgHex, level, lightHex, darkHex, pow);
      var new_ := ColorContrast.Exec(bgHex, level, lightHex, darkHex, pow);
      old_.Ok? == new_.Ok? && (old_.Ok? ==> old_.value.result == (new_.value.bg, new_.value.text))
  {
  }
}
