/**
 * `#rrggbb` colours: the RGB triple, the `f"#{r:02x}{g:02x}{b:02x}"` formatter, the two
 * parsing conventions found in the nodes (slices at 1, 3, 5 of the raw text, or slices at
 * 0, 2, 4 after `lstrip('#')`) and the channel-wise complement.
 */
module HexColor {
  import opened Wrappers
  import opened PyText

  /** A colour as three integer channels; in-range channels are bytes. */
  datatype Rgb = Rgb(r: int, g: int, b: int)

  /** Every channel lies in 0..255. */
  predicate InRange(c: Rgb)
  {
    0 <= c.r < 256 && 0 <= c.g < 256 && 0 <= c.b < 256
  }

  /** `f"#{r:02x}{g:02x}{b:02x}"`. */
  function FormatHex(c: Rgb): string
  {
    "#" + FormatHex02(c.r) + FormatHex02(c.g) + FormatHex02(c.b)
  }

  /** `#` followed by six lower-case hexadecimal digits. */
  predicate IsLowerHex6(s: string)
  {
    |s| == 7 && s[0] == '#' && forall i :: 1 <= i < 7 ==> IsLowerHexDigit(s[i])
  }

  /** An in-range colour formats as `#` and six lower-case hex digits, two per channel. */
  lemma FormatHexShape(c: Rgb)
    requires InRange(c)
    ensures IsLowerHex6(FormatHex(c))
    ensures FormatHex(c)[1..3] == FormatHex02(c.r)
    ensures FormatHex(c)[3..5] == FormatHex02(c.g)
    ensures FormatHex(c)[5..7] == FormatHex02(c.b)
  {
    FormatHex02Byte(c.r);
    FormatHex02Byte(c.g);
    FormatHex02Byte(c.b);
  }

  /** `int(s[at:at+2], 16)` for the three channels, `None` where Python raises `ValueError`. */
  function ParsePairs(s: string, at: nat): (r: Option<Rgb>)
    ensures r.Some? <==>
      ParseInt(Slice(s, at, at + 2), 16).Some? && ParseInt(Slice(s, at + 2, at + 4), 16).Some? &&
      ParseInt(Slice(s, at + 4, at + 6), 16).Some?
    ensures r.Some? ==> InRange(r.value)
  {
    match (ParseInt(Slice(s, at, at + 2), 16), ParseInt(Slice(s, at + 2, at + 4), 16),
           ParseInt(Slice(s, at + 4, at + 6), 16))
    case (Some(r), Some(g), Some(b)) =>
      TwoHexDigitsByte(Slice(s, at, at + 2));
      TwoHexDigitsByte(Slice(s, at + 2, at + 4));
      TwoHexDigitsByte(Slice(s, at + 4, at + 6));
      Some(Rgb(r, g, b))
    case _ => None
  }

  /** At most two hexadecimal digits are worth less than 256. */
  lemma TwoHexDigitsByte(s: string)
    requires |s| <= 2
    requires AllDigits(s, 16)
    ensures DigitsValue(s, 16) < 256
  {
    if |s| == 2 {
      assert s[..1][..0] == [];
    } else if |s| == 1 {
      assert s[..0] == [];
    }
  }

  /** Parsing at 1, 3, 5 of the raw text (`functions_color.hex_to_rgb` and its copies). */
  function ParseAt1(s: string): Option<Rgb>
  {
    ParsePairs(s, 1)
  }

  /** Parsing at 0, 2, 4 after removing every leading `#`. */
  function ParseStripped(s: string): Option<Rgb>
  {
    ParsePairs(LStripChar(s, '#'), 0)
  }

  /** In-range colours format as `#rrggbb` in lower case. */
  lemma FormatInRange(c: Rgb)
    ensures InRange(c) ==> IsLowerHex6(FormatHex(c))
  {
    if InRange(c) {
      FormatHexShape(c);
    }
  }

  /** Reading a formatted in-range colour at offset `at` gives the colour back. */
  lemma ParsePairsFormat(c: Rgb, pre: string)
    requires InRange(c)
    ensures ParsePairs(pre + FormatHex(c)[1..], |pre|) == Some(c)
  {
    var h := FormatHex(c);
    FormatHexShape(c);
    var t := h[1..];
    assert t[0..2] == h[1..3] && t[2..4] == h[3..5] && t[4..6] == h[5..7];
    PairReadsByte(pre, t, 0, c.r);
    PairReadsByte(pre, t, 2, c.g);
    PairReadsByte(pre, t, 4, c.b);
    ParsePairsOf(pre + t, |pre|, c);
  }

  /** Three pairs that read as the channels of `c` parse as `c`. */
  lemma ParsePairsOf(s: string, at: nat, c: Rgb)
    requires ParseInt(Slice(s, at, at + 2), 16) == Some(c.r)
    requires ParseInt(Slice(s, at + 2, at + 4), 16) == Some(c.g)
    requires ParseInt(Slice(s, at + 4, at + 6), 16) == Some(c.b)
    ensures ParsePairs(s, at) == Some(c)
  {
  }

  /** The two formatted digits of a byte, read through a prefix, give the byte. */
  lemma PairReadsByte(pre: string, t: string, k: nat, n: int)
    requires 0 <= n < 256 && k + 2 <= |t| && t[k..k + 2] == FormatHex02(n)
    ensures ParseInt(Slice(pre + t, |pre| + k, |pre| + k + 2), 16) == Some(n)
  {
    assert (pre + t)[|pre| + k..|pre| + k + 2] == t[k..k + 2];
    ParseFormatHex02(n);
  }

  /** The round trip `hex_to_rgb(rgb_to_hex(c)) == c` for the `lstrip('#')` parser. */
  lemma ParseStrippedFormat(c: Rgb)
    requires InRange(c)
    ensures ParseStripped(FormatHex(c)) == Some(c)
  {
    var h := FormatHex(c);
    FormatHexShape(c);
    assert LStripChar(h, '#') == h[1..];
    ParsePairsFormat(c, []);
    assert [] + h[1..] == h[1..];
  }

  /** The same round trip for the parser that reads at 1, 3, 5. */
  lemma ParseAt1Format(c: Rgb)
    requires InRange(c)
    ensures ParseAt1(FormatHex(c)) == Some(c)
  {
    var h := FormatHex(c);
    FormatHexShape(c);
    ParsePairsFormat(c, "#");
    assert "#" + h[1..] == h;
  }

  /**
   * The parser at 1, 3, 5 looks only at characters 1..6: the first character is never
   * checked and anything after the sixth digit is ignored.
   */
  lemma ParseAt1Window(a: string, b: string)
    requires |a| >= 7 && |b| >= 7 && a[1..7] == b[1..7]
    ensures ParseAt1(a) == ParseAt1(b)
  {
    forall i | 1 <= i < 7
      ensures a[i] == b[i]
    {
      assert a[i] == a[1..7][i - 1];
    }
    assert a[1..3] == b[1..3];
    assert a[3..5] == b[3..5];
    assert a[5..7] == b[5..7];
  }

  /** `(255 - r, 255 - g, 255 - b)`. */
  function Complement(c: Rgb): (k: Rgb)
    ensures c.r + k.r == 255 && c.g + k.g == 255 && c.b + k.b == 255
  {
    Rgb(255 - c.r, 255 - c.g, 255 - c.b)
  }

  /** The complement is an involution and keeps channels in range. */
  lemma ComplementInvolution(c: Rgb)
    ensures Complement(Complement(c)) == c
    ensures InRange(c) ==> InRange(Complement(c))
  {
  }

  /** `[complement(c) for c in colors]`. */
  function ComplementAll(cs: seq<Rgb>): (ks: seq<Rgb>)
    ensures |ks| == |cs|
    ensures forall i :: 0 <= i < |cs| ==> ks[i] == Complement(cs[i])
  {
    seq(|cs|, i requires 0 <= i < |cs| => Complement(cs[i]))
  }

  /** Complementing a list twice gives the list back. */
  lemma ComplementAllInvolution(cs: seq<Rgb>)
    ensures ComplementAll(ComplementAll(cs)) == cs
  {
  }

  /** `int("FF", 16) == 255` and `int("00", 16) == 0`. */
  lemma ByteLiterals()
    ensures ParseInt("FF", 16) == Some(255)
    ensures ParseInt("00", 16) == Some(0)
  {
    assert "FF"[..1] == "F" && "F"[..0] == [];
    assert "00"[..1] == "0" && "0"[..0] == [];
  }

  /** `#FFFFFF` and `#000000` parse to white and black. */
  lemma WhiteAndBlackParse()
    ensures ParseAt1("#FFFFFF") == Some(Rgb(255, 255, 255))
    ensures ParseAt1("#000000") == Some(Rgb(0, 0, 0))
  {
    ByteLiterals();
    assert Slice("#FFFFFF", 1, 3) == "FF" && Slice("#FFFFFF", 3, 5) == "FF";
    assert Slice("#FFFFFF", 5, 7) == "FF";
    assert Slice("#000000", 1, 3) == "00" && Slice("#000000", 3, 5) == "00";
    assert Slice("#000000", 5, 7) == "00";
  }
}
