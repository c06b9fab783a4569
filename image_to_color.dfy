/**
 * The image-to-colour node's post-processing of k-means output: clamp and truncate the
 * cluster centres, optionally complement them, format them as hex, drop excluded colours,
 * fall back to grey, join, and pick one with a clamped 1-based index.
 */
module ImageToColor {
  import opened Wrappers
  import opened PyText
  import opened PyNum
  import opened HexColor

  /** A k-means cluster centre scaled to 0..255, as floats. */
  datatype Centre = Centre(r: real, g: real, b: real)

  /** `int(min(255, max(0, x)))`. */
  function ChannelToByte(x: real): (n: int)
    ensures 0 <= n < 256
    ensures 0.0 <= x <= 255.0 ==> n as real <= x < n as real + 1.0
    ensures x <= 0.0 ==> n == 0
    ensures x >= 255.0 ==> n == 255
  {
    var lower := if 0.0 > x then 0.0 else x;
    Trunc(if 255.0 < lower then 255.0 else lower)
  }

  /** `ndarrays_to_rgb`: every channel clamped into 0..255 and then truncated. */
  function NdarraysToRgb(cs: seq<Centre>): (rs: seq<Rgb>)
    ensures |rs| == |cs|
    ensures forall i :: 0 <= i < |cs| ==> InRange(rs[i])
    ensures forall i :: 0 <= i < |cs| ==>
      rs[i] == Rgb(ChannelToByte(cs[i].r), ChannelToByte(cs[i].g), ChannelToByte(cs[i].b))
  {
    seq(|cs|, i requires 0 <= i < |cs| =>
      Rgb(ChannelToByte(cs[i].r), ChannelToByte(cs[i].g), ChannelToByte(cs[i].b)))
  }

  /** `[rgb_to_hex(c) for c in colors]`. */
  function HexAll(cs: seq<Rgb>): (hs: seq<string>)
    ensures |hs| == |cs|
    ensures forall i :: 0 <= i < |cs| ==> hs[i] == FormatHex(cs[i])
  {
    seq(|cs|, i requires 0 <= i < |cs| => FormatHex(cs[i]))
  }

  /** `[color for color in colors if color.lower() not in excluded]`. */
  function KeepNotExcluded(colors: seq<string>, excluded: seq<string>): (r: seq<string>)
    ensures |r| <= |colors|
    ensures forall c :: c in r <==> c in colors && Lower(c) !in excluded
  {
    if |colors| == 0 then []
    else (if Lower(colors[0]) in excluded then [] else [colors[0]]) + KeepNotExcluded(colors[1..], excluded)
  }

  /** The filter works colour by colour, so the kept colours stay in their original order. */
  lemma {:induction false} KeepNotExcludedConcat(a: seq<string>, b: seq<string>, excluded: seq<string>)
    ensures KeepNotExcluded(a + b, excluded) == KeepNotExcluded(a, excluded) + KeepNotExcluded(b, excluded)
  {
    if |a| == 0 {
      assert a + b == b;
    } else {
      assert (a + b)[1..] == a[1..] + b;
      KeepNotExcludedConcat(a[1..], b, excluded);
    }
  }

  /** With nothing to exclude, the filter keeps every colour. */
  lemma {:induction false} KeepNothingExcluded(colors: seq<string>)
    ensures KeepNotExcluded(colors, []) == colors
  {
    if |colors| > 0 {
      KeepNothingExcluded(colors[1..]);
    }
  }

  /** `filter_excluded_colors`: the identity for an empty exclusion list, otherwise the filter. */
  function FilterExcludedColors(colors: seq<string>, excluded: seq<string>): (r: seq<string>)
    ensures forall c :: c in r <==> c in colors && Lower(c) !in excluded
    ensures r == KeepNotExcluded(colors, excluded)
  {
    if |excluded| == 0 then KeepNothingExcluded(colors); colors else KeepNotExcluded(colors, excluded)
  }

  /** A parsed exclusion item: non-empty, lower-case and without whitespace at either end. */
  predicate IsExcludeItem(e: string)
  {
    e != [] && IsLowerCase(e) && Strip(e) == e
  }

  /** `color.strip().lower()` for each piece whose stripped form is not empty. */
  function StripLowerNonEmpty(pieces: seq<string>): (r: seq<string>)
    ensures |r| <= |pieces|
    ensures forall e :: e in r ==> IsExcludeItem(e)
  {
    if |pieces| == 0 then []
    else
      var t := Strip(pieces[0]);
      LowerKeepsTrimmed(t);
      (if t == [] then [] else [Lower(t)]) + StripLowerNonEmpty(pieces[1..])
  }

  /** Lower-casing never creates or removes whitespace at the ends. */
  lemma LowerKeepsTrimmed(t: string)
    requires t == [] || (!IsSpace(t[0]) && !IsSpace(t[|t| - 1]))
    ensures Strip(Lower(t)) == Lower(t) && IsLowerCase(Lower(t))
  {
    LowerIsLowerCase(t);
    StripKeepsTrimmed(Lower(t));
  }

  /**
   * `[c.strip().lower() for c in exclude_colors.strip().split(",") if c.strip()]`: only
   * non-empty, trimmed, lower-case items survive.
   */
  function ParseExcluded(text: string): (r: seq<string>)
    ensures forall e :: e in r ==> IsExcludeItem(e)
  {
    StripLowerNonEmpty(Split(Strip(text), ","))
  }

  /** Blank exclusion text excludes nothing. */
  lemma ParseExcludedBlank(text: string)
    requires Strip(text) == []
    ensures ParseExcluded(text) == []
  {
    var t := Strip(text);
    assert ParseExcluded(text) == StripLowerNonEmpty(Split(t, ","));
    NoPiecesOfEmpty();
  }

  /** The one piece of an empty text is empty and is dropped. */
  lemma NoPiecesOfEmpty()
    ensures StripLowerNonEmpty(Split([], ",")) == []
  {
    SplitOfEmpty();
    DropsEmptyPiece();
  }

  /** Splitting the empty text gives one empty piece. */
  lemma SplitOfEmpty()
    ensures Split([], ",") == [[]]
  {
    assert IndexOfFrom([], ",", 0).None?;
  }

  /** An empty piece strips to nothing and is dropped. */
  lemma DropsEmptyPiece()
    ensures StripLowerNonEmpty([[]]) == []
  {
    var ps: seq<string> := [[]];
    assert LStrip([]) == [] && RStrip([]) == [];
    assert Strip(ps[0]) == [];
    assert ps[1..] == [];
  }

  /** The clamped node parameters and the derived k-means iteration count. */
  datatype Settings = Settings(numColors: int, accuracy: int, maxIterations: int, selectColor: int)

  /**
   * `num_colors` clamped to 1..20, `accuracy` to 1..100, `select_color` to at least 1, and
   * `max_iterations = int(512 * (accuracy / 100))`, which then lies in 5..512.
   */
  function MakeSettings(numColors: int, accuracy: int, selectColor: int): (s: Settings)
    ensures 1 <= s.numColors <= 20 && 1 <= s.accuracy <= 100 && s.selectColor >= 1
    ensures 1 <= numColors <= 20 ==> s.numColors == numColors
    ensures 1 <= accuracy <= 100 ==> s.accuracy == accuracy
    ensures selectColor >= 1 ==> s.selectColor == selectColor
    ensures 5 <= s.maxIterations <= 512
    ensures s.maxIterations as real <= 512.0 * s.accuracy as real / 100.0 < s.maxIterations as real + 1.0
  {
    var acc := ClampInt(accuracy, 1, 100);
    Settings(ClampInt(numColors, 1, 20), acc, Trunc(512.0 * (acc as real / 100.0)),
             if selectColor > 1 then selectColor else 1)
  }

  /**
   * What `extract_colors` returns: the clamped centres, or the single grey `(128, 128, 128)`
   * when the clustering raises (`None`). The clustering itself is an input.
   */
  function ExtractedColors(clusters: Option<seq<Centre>>): (rs: seq<Rgb>)
    ensures forall i :: 0 <= i < |rs| ==> InRange(rs[i])
    ensures clusters.None? ==> rs == [Rgb(128, 128, 128)]
    ensures clusters.Some? ==> rs == NdarraysToRgb(clusters.value)
  {
    match clusters
    case None => [Rgb(128, 128, 128)]
    case Some(cs) => NdarraysToRgb(cs)
  }

  /** The element at the clamped 1-based index: the last one when the index is past the end. */
  function SelectAt(colors: seq<string>, select: int): (c: string)
    requires |colors| >= 1 && select >= 1
    ensures select <= |colors| ==> c == colors[select - 1]
    ensures select > |colors| ==> c == colors[|colors| - 1]
    ensures c in colors
  {
    if select > |colors| then colors[|colors| - 1] else colors[select - 1]
  }

  /** Both outputs: all colours joined with `", "` and the selected one. */
  datatype Pair = Pair(colorString: string, selectedColor: string)

  /** The ui text and the result carry the same pair. */
  datatype Output = Output(uiText: Pair, result: Pair)

  /** `[rgb_to_hex(c) for c in rgb_colors]` after the optional complement. */
  function HexColors(clusters: Option<seq<Centre>>, complementary: bool): (hs: seq<string>)
    ensures forall c :: c in hs ==> IsLowerHex6(c)
    ensures var rgb := ExtractedColors(clusters);
      hs == HexAll(if complementary then ComplementAll(rgb) else rgb)
  {
    var rgb := ExtractedColors(clusters);
    var rgb' := if complementary then ComplementAll(rgb) else rgb;
    forall i | 0 <= i < |rgb'|
      ensures InRange(rgb'[i])
    {
      if complementary {
        ComplementInvolution(rgb[i]);
      }
    }
    forall i | 0 <= i < |rgb'|
      ensures IsLowerHex6(FormatHex(rgb'[i]))
    {
      FormatHexShape(rgb'[i]);
    }
    HexAll(rgb')
  }

  /** The fallback grey is itself a lower-case `#rrggbb`. */
  lemma GreyIsLowerHex6()
    ensures IsLowerHex6("#808080")
  {
  }

  /** The colours that survive exclusion, or `["#808080"]` when none does. */
  function Remaining(clusters: Option<seq<Centre>>, complementary: bool, excludeColors: string): (fs: seq<string>)
    ensures |fs| >= 1
    ensures forall c :: c in fs ==> IsLowerHex6(c)
    ensures var kept := KeepNotExcluded(HexColors(clusters, complementary), ParseExcluded(excludeColors));
      && (kept == [] ==> fs == ["#808080"])
      && (kept != [] ==> fs == kept)
  {
    var hex := HexColors(clusters, complementary);
    var kept := FilterExcludedColors(hex, ParseExcluded(excludeColors));
    if |kept| == 0 then
      GreyIsLowerHex6();
      ["#808080"]
    else kept
  }

  /**
   * `main`: the joined list and the selected colour, which always belongs to the list and
   * is a lower-case `#rrggbb`, identically in the ui and the result.
   */
  function Extract(clusters: Option<seq<Centre>>, numColors: int, accuracy: int, complementary: bool,
                excludeColors: string, selectColor: int): (out: Output)
    ensures var fs := Remaining(clusters, complementary, excludeColors);
      && out.uiText == out.result
      && out.result.colorString == Join(fs, ", ")
      && out.result.selectedColor in fs
      && IsLowerHex6(out.result.selectedColor)
  {
    var settings := MakeSettings(numColors, accuracy, selectColor);
    var fs := Remaining(clusters, complementary, excludeColors);
    var pair := Pair(Join(fs, ", "), SelectAt(fs, settings.selectColor));
    Output(pair, pair)
  }

  /**
   * `sel` is the `k`-th of `fs` (1-based), or the last one when `k` runs past the end.
   */
  predicate PicksIndex(fs: seq<string>, k: int, sel: string)
  {
    && (1 <= k <= |fs| ==> sel == fs[k - 1])
    && (1 <= |fs| < k ==> sel == fs[|fs| - 1])
  }

  /**
   * The selected colour is the `select_color`-th of the list (1-based, at least 1), or the
   * last one when the index runs past the end.
   */
  lemma ExtractSelects(clusters: Option<seq<Centre>>, numColors: int, accuracy: int, complementary: bool,
                       excludeColors: string, selectColor: int)
    ensures PicksIndex(Remaining(clusters, complementary, excludeColors), if selectColor > 1 then selectColor else 1,
                       Extract(clusters, numColors, accuracy, complementary, excludeColors, selectColor).result.selectedColor)
  {
    var fs := Remaining(clusters, complementary, excludeColors);
    var k := MakeSettings(numColors, accuracy, selectColor).selectColor;
    assert k == if selectColor > 1 then selectColor else 1;
    SelectAtIndex(fs, k);
  }

  /** `SelectAt` picks by the clamped index. */
  lemma SelectAtIndex(fs: seq<string>, k: int)
    requires |fs| >= 1 && k >= 1
    ensures PicksIndex(fs, k, SelectAt(fs, k))
  {
  }

  /**
   * With nothing excluded, the list is every extracted colour in cluster order, formatted
   * as `#rrggbb` after the optional complement (`HexColors`).
   */
  lemma RemainingWithoutExclusions(clusters: Option<seq<Centre>>, complementary: bool, excludeColors: string)
    requires Strip(excludeColors) == []
    requires ExtractedColors(clusters) != []
    ensures Remaining(clusters, complementary, excludeColors) == HexColors(clusters, complementary)
  {
    ParseExcludedBlank(excludeColors);
    var hex := HexColors(clusters, complementary);
    KeepNothingExcluded(hex);
    HexColorsNonEmpty(clusters, complementary);
    assert KeepNotExcluded(hex, ParseExcluded(excludeColors)) == hex;
  }

  /** Formatting keeps one text per extracted colour. */
  lemma HexColorsNonEmpty(clusters: Option<seq<Centre>>, complementary: bool)
    requires ExtractedColors(clusters) != []
    ensures HexColors(clusters, complementary) != []
  {
    var rgb := ExtractedColors(clusters);
    assert |HexAll(if complementary then ComplementAll(rgb) else rgb)| == |rgb|;
  }

  /** A colour that is listed in the clustering output and not excluded stays in the list. */
  lemma NotExcludedIsListed(clusters: Option<seq<Centre>>, complementary: bool, excludeColors: string, c: string)
    requires c in HexColors(clusters, complementary)
    requires Lower(c) !in ParseExcluded(excludeColors)
    ensures c in Remaining(clusters, complementary, excludeColors)
  {
  }

  /** The list holds only colours that are not excluded, compared case-insensitively. */
  lemma RemainingNotExcluded(clusters: Option<seq<Centre>>, complementary: bool, excludeColors: string, c: string)
    requires c in Remaining(clusters, complementary, excludeColors)
    requires c != "#808080"
    ensures Lower(c) !in ParseExcluded(excludeColors)
  {
  }

  /**
   * Splitting a colour string on `", "` gives back its list (as `Remaining` always provides):
   * no hex colour holds `,` or a space.
   */
  lemma ColorStringSplits(fs: seq<string>)
    requires |fs| >= 1
    requires forall c :: c in fs ==> IsLowerHex6(c)
    ensures Split(Join(fs, ", "), ", ") == fs
  {
    forall k | 0 <= k < |fs|
      ensures Avoids(fs[k], ", ")
    {
      assert fs[k] in fs;
      LowerHex6Avoids(fs[k], ", ");
    }
    SplitJoinAvoiding(fs, ", ");
  }

  /** A lower-case `#rrggbb` shares no character with a separator made of commas and spaces. */
  lemma LowerHex6Avoids(c: string, sep: string)
    requires IsLowerHex6(c)
    requires forall i :: 0 <= i < |sep| ==> sep[i] == ',' || sep[i] == ' '
    ensures Avoids(c, sep)
  {
    forall i | 0 <= i < |c|
      ensures c[i] !in sep
    {
      assert i == 0 || IsLowerHexDigit(c[i]);
    }
  }
}
