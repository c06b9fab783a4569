/**
 * `getBestTextColor` of the web front end: the hex colour is read with JavaScript's
 * `parseInt(…, 16)`, its bytes 2, 1 and 0 become red, green and blue, and the answer is white
 * or black text, whichever contrasts more with that background.
 */
module BestTextColor {
  import opened Wrappers
  import opened PyText
  import opened HexColor
  import opened ColorMath

  /** The length of the longest prefix of `s` made of hexadecimal digits. */
  function HexPrefixLen(s: string): (k: nat)
    ensures k <= |s|
    ensures AllDigits(s[..k], 16)
    ensures k < |s| ==> DigitValue(s[k]) >= 16
  {
    if |s| == 0 || DigitValue(s[0]) >= 16 then 0
    else
      var k := 1 + HexPrefixLen(s[1..]);
      assert forall i :: 1 <= i < k ==> s[..k][i] == s[1..][..k - 1][i - 1];
      k
  }

  /** What `parseInt(s, 16)` reads after an optional sign: the text without a `0x` or `0X` prefix. */
  function Unprefixed(t: string): (u: string)
    ensures |u| <= |t|
  {
    if |t| >= 2 && t[0] == '0' && (t[1] == 'x' || t[1] == 'X') then t[2..] else t
  }

  /** `s` without its leading `+` or `-`, if any. */
  function Unsigned(s: string): (t: string)
    ensures |t| <= |s|
  {
    if |s| > 0 && (s[0] == '-' || s[0] == '+') then s[1..] else s
  }

  /**
   * JavaScript `parseInt(s, 16)` on text without leading white space: an optional sign, an
   * optional `0x`, then the longest run of hex digits; no digits at all is NaN (None).
   */
  function ParseIntHex(s: string): (r: Option<int>)
    ensures var u := Unprefixed(Unsigned(s)); var k := HexPrefixLen(u);
      && (r.None? <==> k == 0)
      && (r.Some? && (|s| == 0 || s[0] != '-') ==> r.value == DigitsValue(u[..k], 16))
      && (r.Some? && |s| > 0 && s[0] == '-' ==> r.value == -(DigitsValue(u[..k], 16) as int))
  {
    var u := Unprefixed(Unsigned(s));
    var k := HexPrefixLen(u);
    if k == 0 then None
    else
      var m := DigitsValue(u[..k], 16) as int;
      Some(if |s| > 0 && s[0] == '-' then -m else m)
  }

  /** On a non-empty string of hex digits `parseInt` and Python's `int(…, 16)` agree. */
  lemma ParseIntHexDigits(d: string)
    requires |d| > 0 && AllDigits(d, 16)
    ensures ParseIntHex(d) == Some(DigitsValue(d, 16) as int)
    ensures ParseInt(d, 16) == Some(DigitsValue(d, 16))
  {
    assert DigitValue(d[0]) < 16;
    assert Unprefixed(Unsigned(d)) == d by {
      if |d| >= 2 { assert DigitValue(d[1]) < 16; }
    }
    assert HexPrefixLen(d) == |d|;
    assert d[..|d|] == d;
  }

  /**
   * `parseInt` stops at the first character that is not a hex digit and ignores the rest,
   * unless that character turns a lone `0` into a `0x` prefix.
   */
  lemma ParseIntHexStops(d: string, rest: string)
    requires |d| > 0 && AllDigits(d, 16)
    requires |rest| > 0 && DigitValue(rest[0]) >= 16
    requires !(d == "0" && (rest[0] == 'x' || rest[0] == 'X'))
    ensures ParseIntHex(d + rest) == ParseIntHex(d)
  {
    var s := d + rest;
    assert s[0] == d[0] && DigitValue(d[0]) < 16;
    assert Unsigned(s) == s;
    if |d| == 1 {
      assert s[1] == rest[0];
      assert d[0] != '0' || (s[1] != 'x' && s[1] != 'X');
    } else {
      assert s[1] == d[1] && DigitValue(d[1]) < 16;
    }
    assert Unprefixed(s) == s;
    HexPrefixOfDigits(d, rest);
    assert s[..|d|] == d;
    ParseIntHexDigits(d);
  }

  /** The hex prefix of `d + rest` is `d` when `rest` starts with a non-digit. */
  lemma {:induction false} HexPrefixOfDigits(d: string, rest: string)
    requires AllDigits(d, 16)
    requires |rest| > 0 && DigitValue(rest[0]) >= 16
    ensures HexPrefixLen(d + rest) == |d|
    decreases |d|
  {
    if |d| > 0 {
      assert (d + rest)[1..] == d[1..] + rest;
      HexPrefixOfDigits(d[1..], rest);
    } else {
      assert d + rest == rest;
    }
  }

  /** JavaScript's ToInt32: NaN is 0, every number is taken modulo 2^32 into the signed range. */
  function ToInt32(v: Option<int>): (r: int)
    ensures -0x8000_0000 <= r < 0x8000_0000
    ensures v.None? ==> r == 0
    ensures v.Some? ==> (r - v.value) % 0x1_0000_0000 == 0
    ensures v.Some? && 0 <= v.value < 0x8000_0000 ==> r == v.value
  {
    match v
    case None => 0
    case Some(n) =>
      var m := n % 0x1_0000_0000;
      if m >= 0x8000_0000 then m - 0x1_0000_0000 else m
  }

  /** `2 ** k`. */
  function Pow2(k: nat): (p: nat)
    ensures p >= 1
  {
    if k == 0 then 1 else 2 * Pow2(k - 1)
  }

  /** `(v >> k) & 0xff` on a signed 32-bit value: the arithmetic shift rounds down, the mask keeps eight bits. */
  function ByteAt(v: int, k: nat): (b: int)
    ensures 0 <= b < 256
  {
    (v / Pow2(k)) % 256
  }

  /** The channels `getBestTextColor` reads from `hexColor.slice(1)`: bytes 2, 1 and 0. */
  function Channels(hexColor: string): (c: Rgb)
    ensures InRange(c)
    ensures ParseIntHex(Slice(hexColor, 1, |hexColor|)).None? ==> c == Rgb(0, 0, 0)
  {
    var v := ToInt32(ParseIntHex(Slice(hexColor, 1, |hexColor|)));
    Rgb(ByteAt(v, 16), ByteAt(v, 8), ByteAt(v, 0))
  }

  /**
   * The comparison of the two contrasts, cleared of denominators: `contrastWithWhite` is
   * `1.05 / x` and `contrastWithBlack` is `x / 0.05`, for `x` the background luminance plus 0.05.
   */
  lemma CompareContrasts(x: real, contrastWithWhite: real, contrastWithBlack: real)
    requires x > 0.0
    requires contrastWithWhite * x == 1.05 && contrastWithBlack == 20.0 * x
    ensures contrastWithWhite > contrastWithBlack <==> x * x < 1.05 * 0.05
  {
    var d := contrastWithWhite - contrastWithBlack;
    assert d * x == 1.05 - 20.0 * (x * x);
    if d > 0.0 {
      PositiveProduct(d, x);
    } else if d < 0.0 {
      PositiveProduct(-d, x);
    }
  }

  /** A product of two positive reals is positive. */
  lemma PositiveProduct(a: real, b: real)
    requires a > 0.0 && b > 0.0
    ensures a * b > 0.0
  {
  }

  /**
   * The choice on a background luminance `l`: the contrast with white (luminance 1) against
   * the contrast with black (luminance 0); white only when the first is strictly greater.
   */
  function Choose(l: real): (r: string)
    requires l >= 0.0
    ensures r == "#FFFFFF" || r == "#000000"
    ensures r == "#FFFFFF" <==> (l + 0.05) * (l + 0.05) < 1.05 * 0.05
  {
    var whiteLuminance := 1.0;
    var blackLuminance := 0.0;
    var contrastWithWhite := (whiteLuminance + 0.05) / (l + 0.05);
    var contrastWithBlack := (l + 0.05) / (blackLuminance + 0.05);
    assert contrastWithWhite * (l + 0.05) == 1.05;
    CompareContrasts(l + 0.05, contrastWithWhite, contrastWithBlack);
    if contrastWithWhite > contrastWithBlack then "#FFFFFF" else "#000000"
  }

  /** The choice agrees with the contrast ratio: white exactly when white contrasts more than black. */
  lemma ChooseByContrastRatio(l: real)
    requires l >= 0.0
    ensures Choose(l) == "#FFFFFF" <==> ContrastRatio(1.0, l) > ContrastRatio(l, 0.0)
  {
  }

  /** A darker background never turns white text into black text. */
  lemma ChooseMonotone(l1: real, l2: real)
    requires 0.0 <= l1 <= l2
    requires Choose(l2) == "#FFFFFF"
    ensures Choose(l1) == "#FFFFFF"
  {
    assert (l1 + 0.05) * (l1 + 0.05) <= (l2 + 0.05) * (l1 + 0.05) <= (l2 + 0.05) * (l2 + 0.05);
  }

  /** `getBestTextColor` on the channels read from `hexColor`. */
  function GetBestTextColor(hexColor: string, pow: real -> real): (r: string)
    requires NonNegativeOnPositives(pow)
    ensures r == "#FFFFFF" || r == "#000000"
    ensures var l := LuminanceOf(Channels(hexColor), pow);
      r == "#FFFFFF" <==> (l + 0.05) * (l + 0.05) < 1.05 * 0.05
  {
    var c := Channels(hexColor);
    assert InRange(c);
    var l := LuminanceOf(c, pow);
    assert l >= 0.0;
    Choose(l)
  }

  /** The value of a digit string with two more digits appended. */
  lemma AppendTwoDigits(a: string, b: string)
    requires |b| == 2
    ensures DigitsValue(a + b, 16) == DigitsValue(a, 16) * 256 + DigitsValue(b, 16)
  {
    var s := a + b;
    var v0 := DigitValue(b[0]);
    var v1 := DigitValue(b[1]);
    assert s[..|s| - 1] == a + [b[0]];
    assert (a + [b[0]])[..|a|] == a;
    assert DigitsValue(a + [b[0]], 16) == DigitsValue(a, 16) * 16 + v0;
    assert DigitsValue(s, 16) == DigitsValue(a + [b[0]], 16) * 16 + v1;
    assert b[..1] == [b[0]] && [b[0]][..0] == [];
    assert DigitsValue(b[..1], 16) == DigitsValue([], 16) * 16 + v0;
    assert DigitsValue(b, 16) == DigitsValue(b[..1], 16) * 16 + v1;
  }

  /** The value of six hex digits, read two at a time. */
  lemma SixDigits(d: string)
    requires |d| == 6
    ensures DigitsValue(d, 16) ==
      DigitsValue(d[0..2], 16) * 65536 + DigitsValue(d[2..4], 16) * 256 + DigitsValue(d[4..6], 16)
  {
    assert d == d[..4] + d[4..6];
    AppendTwoDigits(d[..4], d[4..6]);
    assert d[..4] == d[0..2] + d[2..4];
    AppendTwoDigits(d[0..2], d[2..4]);
    assert d[0..2] == [] + d[0..2];
    AppendTwoDigits([], d[0..2]);
  }

  /** `2 ** 8` and `2 ** 16`. */
  lemma Pow2Bytes()
    ensures Pow2(0) == 1 && Pow2(8) == 256 && Pow2(16) == 65536
  {
    assert Pow2(4) == 16;
    assert Pow2(12) == 4096;
  }

  /** The three bytes of `a * 65536 + b * 256 + c`. */
  lemma BytesOf(a: int, b: int, c: int)
    requires 0 <= a < 256 && 0 <= b < 256 && 0 <= c < 256
    ensures var v := a * 65536 + b * 256 + c;
      ByteAt(v, 16) == a && ByteAt(v, 8) == b && ByteAt(v, 0) == c
  {
    Pow2Bytes();
    var v := a * 65536 + b * 256 + c;
    assert v / 65536 == a;
    assert v / 256 == a * 256 + b;
    assert (a * 256 + b) % 256 == b;
  }

  /** The six digits after `#`, as `parseInt` reads them and as three two-digit pairs. */
  lemma SixDigitsRead(s: string)
    requires |s| == 7 && AllDigits(s[1..], 16)
    ensures ParseIntHex(Slice(s, 1, |s|)) ==
      Some(DigitsValue(s[1..3], 16) * 65536 + DigitsValue(s[3..5], 16) * 256 + DigitsValue(s[5..7], 16))
  {
    var d := s[1..];
    assert Slice(s, 1, |s|) == d;
    SixDigitsParse(d);
    assert d[0..2] == s[1..3] && d[2..4] == s[3..5] && d[4..6] == s[5..7];
  }

  /** `parseInt` on six hex digits reads them as three bytes, high byte first. */
  lemma SixDigitsParse(d: string)
    requires |d| == 6 && AllDigits(d, 16)
    ensures ParseIntHex(d) ==
      Some(DigitsValue(d[0..2], 16) * 65536 + DigitsValue(d[2..4], 16) * 256 + DigitsValue(d[4..6], 16))
  {
    ParseIntHexDigits(d);
    SixDigits(d);
  }

  /** The Python parser reads the same six digits as three pairs. */
  lemma SixDigitsPairs(s: string)
    requires |s| == 7 && AllDigits(s[1..], 16)
    ensures ParseAt1(s) == Some(Rgb(DigitsValue(s[1..3], 16), DigitsValue(s[3..5], 16), DigitsValue(s[5..7], 16)))
  {
    PairOfDigits(s, 1);
    PairOfDigits(s, 3);
    PairOfDigits(s, 5);
    ParsePairsOf(s, 1, Rgb(DigitsValue(s[1..3], 16), DigitsValue(s[3..5], 16), DigitsValue(s[5..7], 16)));
  }

  /** Two hex digits at `k`, after the `#`, parse as their value. */
  lemma PairOfDigits(s: string, k: nat)
    requires 1 <= k && k + 2 <= |s| && AllDigits(s[1..], 16)
    ensures ParseInt(Slice(s, k, k + 2), 16) == Some(DigitsValue(s[k..k + 2], 16))
  {
    assert s[k..k + 2] == s[1..][k - 1..k + 1];
  }

  /** On `#` and six hex digits the JavaScript bytes are the channels the Python nodes parse. */
  lemma ChannelsOfSixDigits(s: string)
    requires |s| == 7 && AllDigits(s[1..], 16)
    ensures ParseAt1(s).Some?
    ensures Channels(s) == ParseAt1(s).value
  {
    SixDigitsRead(s);
    SixDigitsPairs(s);
    var c := ParseAt1(s).value;
    var v := c.r * 65536 + c.g * 256 + c.b;
    assert ToInt32(Some(v)) == v;
    BytesOf(c.r, c.g, c.b);
  }

  /** Text that `parseInt` cannot read at all is treated as black and gets white text. */
  lemma UnreadableGetsWhite(hexColor: string, pow: real -> real)
    requires NonNegativeOnPositives(pow)
    requires ParseIntHex(Slice(hexColor, 1, |hexColor|)).None?
    ensures GetBestTextColor(hexColor, pow) == "#FFFFFF"
  {
    LuminanceOfBlack(pow);
  }

  /** A black background gets white text. */
  lemma BlackGetsWhite(pow: real -> real)
    requires NonNegativeOnPositives(pow)
    ensures GetBestTextColor("#000000", pow) == "#FFFFFF"
  {
    ChannelsOfSixDigits("#000000");
    WhiteAndBlackParse();
    LuminanceOfBlack(pow);
  }

  /** A white background gets black text once `1 ** 2.4 == 1`. */
  lemma WhiteGetsBlack(pow: real -> real)
    requires NonNegativeOnPositives(pow) && pow(1.0) == 1.0
    ensures GetBestTextColor("#FFFFFF", pow) == "#000000"
  {
    ChannelsOfSixDigits("#FFFFFF");
    WhiteAndBlackParse();
    LuminanceOfWhite(pow);
  }

  /** `fff` is 4095. */
  lemma FffValue()
    ensures DigitsValue("fff", 16) == 4095
  {
    assert "fff"[..2] == "ff" && "ff"[..1] == "f" && "f"[..0] == [];
  }

  /** A three-digit colour is read as one number, not as doubled digits: `#fff` is blue. */
  lemma ShortHexMisread()
    ensures Channels("#fff") == Rgb(0, 15, 255)
  {
    FffParses();
    assert ToInt32(Some(4095)) == 4095;
    BytesOf4095();
  }

  /** `parseInt("fff", 16)` is 4095. */
  lemma FffParses()
    ensures ParseIntHex(Slice("#fff", 1, 4)) == Some(4095)
  {
    assert Slice("#fff", 1, 4) == "fff";
    ParseIntHexDigits("fff");
    FffValue();
  }

  /** 4095 is the bytes 0, 15 and 255. */
  lemma BytesOf4095()
    ensures ByteAt(4095, 16) == 0 && ByteAt(4095, 8) == 15 && ByteAt(4095, 0) == 255
  {
    Pow2Bytes();
  }
}
