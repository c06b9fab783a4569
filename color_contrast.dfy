/**
 * The colour-contrast node: parse the background and the two text colours, compute their
 * WCAG contrast with the background, and pick the light text colour when it meets the
 * AA (4.5:1) or AAA (7:1) threshold, the dark one otherwise.
 */
module ColorContrast {
  import opened Wrappers
  import opened HexColor
  import opened ColorMath

  /** `int(text[i:i+2], 16)` raised `ValueError` for one of the three colours. */
  datatype ParseError = InvalidHex

  /** The ui entry (`bg_color`, `front_color`) and the result pair. */
  datatype Output = Output(uiBgColor: string, uiFrontColor: string, bg: string, text: string)

  /** Python's `text or default` for strings: the default replaces only the empty string. */
  function OrDefault(text: string, default: string): (r: string)
    ensures text != [] ==> r == text
    ensures text == [] ==> r == default
  {
    if text == [] then default else text
  }

  /** `7.0 if WCAG_level == "AAA" else 4.5`. */
  function Threshold(level: string): (t: real)
    ensures level == "AAA" <==> t == 7.0
    ensures level != "AAA" <==> t == 4.5
  {
    if level == "AAA" then 7.0 else 4.5
  }

  /** The if / elif / else of `exec`, given both contrasts. */
  function Choose(lightContrast: real, darkContrast: real, threshold: real, light: string, dark: string): string
  {
    if lightContrast >= threshold then light
    else if darkContrast >= threshold then dark
    else dark
  }

  /** The elif and the else pick the same colour: dark whenever light fails the threshold. */
  lemma ChooseRule(lightContrast: real, darkContrast: real, threshold: real, light: string, dark: string)
    ensures lightContrast >= threshold ==> Choose(lightContrast, darkContrast, threshold, light, dark) == light
    ensures lightContrast < threshold ==> Choose(lightContrast, darkContrast, threshold, light, dark) == dark
  {
  }

  /** The contrast of text colour `fg` against background `bg`, both parsed at 1, 3, 5. */
  function ContrastAgainst(fg: Rgb, bg: Rgb, pow: real -> real): (c: real)
    requires InRange(fg) && InRange(bg) && NonNegativeOnPositives(pow)
    ensures c >= 1.0
  {
    var lf, lb := LuminanceOf(fg, pow), LuminanceOf(bg, pow);
    ContrastDefined(lf, lb);
    ContrastRatio(lf, lb)
  }

  /**
   * `exec`: empty text colours default to `#FFFFFF` and `#000000`; a colour that does not
   * parse raises; otherwise the background comes back unchanged and the text colour is
   * the light one exactly when its contrast meets the threshold, identically in the ui.
   */
  function Exec(bgHex: string, level: string, lightHex: string, darkHex: string, pow: real -> real)
    : (r: Result<Output, ParseError>)
    requires NonNegativeOnPositives(pow)
    ensures var light, dark := OrDefault(lightHex, "#FFFFFF"), OrDefault(darkHex, "#000000");
      r.Ok? <==> ParseAt1(bgHex).Some? && ParseAt1(light).Some? && ParseAt1(dark).Some?
    ensures r.Ok? ==>
      var light, dark := OrDefault(lightHex, "#FFFFFF"), OrDefault(darkHex, "#000000");
      var lc := ContrastAgainst(ParseAt1(light).value, ParseAt1(bgHex).value, pow);
      && r.value.bg == r.value.uiBgColor == bgHex
      && r.value.text == r.value.uiFrontColor
      && (lc >= Threshold(level) ==> r.value.text == light)
      && (lc < Threshold(level) ==> r.value.text == dark)
  {
    var light, dark := OrDefault(lightHex, "#FFFFFF"), OrDefault(darkHex, "#000000");
    match (ParseAt1(bgHex), ParseAt1(light), ParseAt1(dark))
    case (Some(b), Some(l), Some(d)) =>
      var lc, dc := ContrastAgainst(l, b, pow), ContrastAgainst(d, b, pow);
      var out := Choose(lc, dc, Threshold(level), light, dark);
      Ok(Output(bgHex, out, bgHex, out))
    case _ => Err(InvalidHex)
  }

  /** With both text colours left empty, the answer is white or black, and only the background can fail. */
  lemma ExecDefaults(bgHex: string, level: string, pow: real -> real)
    requires NonNegativeOnPositives(pow)
    ensures Exec(bgHex, level, "", "", pow).Ok? <==> ParseAt1(bgHex).Some?
    ensures Exec(bgHex, level, "", "", pow).Ok? ==>
      Exec(bgHex, level, "", "", pow).value.text in {"#FFFFFF", "#000000"}
  {
    WhiteAndBlackParse();
  }

  /** On black, white text has contrast 21:1 and is chosen at either level. */
  lemma WhiteOnBlack(level: string, pow: real -> real)
    requires NonNegativeOnPositives(pow) && pow(1.0) == 1.0
    ensures Exec("#000000", level, "", "", pow) == Ok(Output("#000000", "#FFFFFF", "#000000", "#FFFFFF"))
  {
    WhiteAndBlackParse();
    LuminanceOfWhite(pow);
    LuminanceOfBlack(pow);
    assert ContrastAgainst(Rgb(255, 255, 255), Rgb(0, 0, 0), pow) == 21.0;
  }
}
