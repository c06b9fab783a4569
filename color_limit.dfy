/**
 * The colour-limit node: a hex colour is converted to HSV, its saturation and value are
 * clamped into the user's ranges, and it is converted back and formatted. A 512 x 512
 * preview shows the saturation/value plane of the colour's hue, a dashed box around the
 * allowed ranges and two markers.
 */
module ColorLimit {
  import opened Wrappers
  import opened PyNum
  import opened HexColor
  import opened ColorMath

  /** The conversions the node borrows: colorsys's HSV pair and `round(x, 6)`. */
  datatype Conversions = Conversions(rgbToHsv: Triple -> Triple, hsvToRgb: Triple -> Triple, round6: real -> real)

  /** The four slider values. */
  datatype Limits = Limits(satStart: real, satEnd: real, brStart: real, brEnd: real)

  /** The sliders' defaults: the whole range. */
  const DefaultLimits := Limits(0.0, 1.0, 0.0, 1.0)

  /** Side length of the preview. */
  const ImgSize: nat := 512

  /** `int(x, 16)` raised `ValueError` on the hex text. */
  datatype ParseError = InvalidHex

  /** Every component of `t` is in `[0, 1]`. */
  predicate InUnitCube(t: Triple)
  {
    0.0 <= t.0 <= 1.0 && 0.0 <= t.1 <= 1.0 && 0.0 <= t.2 <= 1.0
  }

  /** `f` answers inside the unit cube for every input inside it, as colorsys's conversions do. */
  ghost predicate MapsCubeToCube(f: Triple -> Triple)
  {
    forall t :: InUnitCube(t) ==> InUnitCube(f(t))
  }

  /** `round(x, 6)` keeps a fraction in `[0, 1]`. */
  ghost predicate KeepsUnitInterval(round6: real -> real)
  {
    forall x :: 0.0 <= x <= 1.0 ==> 0.0 <= round6(x) <= 1.0
  }

  /** All four sliders lie in `[0, 1]`, as the node's inputs allow. */
  predicate UnitSliders(lim: Limits)
  {
    && 0.0 <= lim.satStart <= 1.0 && 0.0 <= lim.satEnd <= 1.0
    && 0.0 <= lim.brStart <= 1.0 && 0.0 <= lim.brEnd <= 1.0
  }

  /** A fraction in `[0, 1]` times 255, truncated, is a byte. */
  lemma UnitToByte(x: real)
    ensures 0.0 <= x <= 1.0 ==> 0 <= Trunc(x * 255.0) <= 255
  {
  }

  /** `rgb_to_hsv`: channels over 255, handed to colorsys. */
  function RgbToHsv(c: Rgb, conv: Conversions): Triple
  {
    conv.rgbToHsv((c.r as real / 255.0, c.g as real / 255.0, c.b as real / 255.0))
  }

  /** `hsv_to_rgb`: colorsys's answer times 255, each truncated by `int`. */
  function HsvToRgb(hsv: Triple, conv: Conversions): (c: Rgb)
    ensures InUnitCube(conv.hsvToRgb(hsv)) ==> InRange(c)
  {
    var (r, g, b) := conv.hsvToRgb(hsv);
    UnitToByte(r);
    UnitToByte(g);
    UnitToByte(b);
    Rgb(Trunc(r * 255.0), Trunc(g * 255.0), Trunc(b * 255.0))
  }

  /** The colour before and after the limits. */
  datatype Limited = Limited(h: real, s: real, v: real, sNew: real, vNew: real, hexNew: string)

  /**
   * The colour part of `color_limit`: the text after its leading `#`s is read two digits at
   * a time, and a malformed pair raises. Hue, saturation and value are rounded to six
   * places; hue is kept, saturation and value are clamped, and the result is formatted as
   * lower-case `#rrggbb`.
   */
  function Limit(hexColor: string, lim: Limits, conv: Conversions): (r: Result<Limited, ParseError>)
    ensures r.Ok? <==> ParseStripped(hexColor).Some?
    ensures r.Ok? ==>
      var hsv := RgbToHsv(ParseStripped(hexColor).value, conv);
      var a := r.value;
      && a.h == conv.round6(hsv.0) && a.s == conv.round6(hsv.1) && a.v == conv.round6(hsv.2)
      && a.sNew == ClampReal(a.s, lim.satStart, lim.satEnd)
      && a.vNew == ClampReal(a.v, lim.brStart, lim.brEnd)
      && a.hexNew == FormatHex(HsvToRgb((a.h, a.sNew, a.vNew), conv))
      && (InUnitCube(conv.hsvToRgb((a.h, a.sNew, a.vNew))) ==> IsLowerHex6(a.hexNew))
  {
    match ParseStripped(hexColor)
    case None => Err(InvalidHex)
    case Some(c) =>
      var (h0, s0, v0) := RgbToHsv(c, conv);
      var (h, s, v) := (conv.round6(h0), conv.round6(s0), conv.round6(v0));
      var sNew := ClampReal(s, lim.satStart, lim.satEnd);
      var vNew := ClampReal(v, lim.brStart, lim.brEnd);
      var rgbNew := HsvToRgb((h, sNew, vNew), conv);
      FormatInRange(rgbNew);
      Ok(Limited(h, s, v, sNew, vNew, FormatHex(rgbNew)))
  }

  /**
   * With sliders in `[0, 1]` and conversions and rounding that keep the unit range, the
   * limited colour is always a lower-case `#rrggbb`.
   */
  lemma LimitShape(hexColor: string, lim: Limits, conv: Conversions)
    requires ParseStripped(hexColor).Some?
    requires UnitSliders(lim)
    requires MapsCubeToCube(conv.rgbToHsv) && MapsCubeToCube(conv.hsvToRgb)
    requires KeepsUnitInterval(conv.round6)
    ensures IsLowerHex6(Limit(hexColor, lim, conv).value.hexNew)
  {
    var c := ParseStripped(hexColor).value;
    var t := (c.r as real / 255.0, c.g as real / 255.0, c.b as real / 255.0);
    assert InUnitCube(t);
    var hsv := conv.rgbToHsv(t);
    assert InUnitCube(hsv);
    var a := Limit(hexColor, lim, conv).value;
    assert 0.0 <= conv.round6(hsv.0) <= 1.0;
    assert InUnitCube((a.h, a.sNew, a.vNew));
  }

  /** colorsys's HSV pair, when inverse at `c`, makes `hsv_to_rgb(rgb_to_hsv(c)) == c`. */
  lemma HsvRoundTrip(c: Rgb, conv: Conversions)
    requires InRange(c)
    requires var t := (c.r as real / 255.0, c.g as real / 255.0, c.b as real / 255.0);
      conv.hsvToRgb(conv.rgbToHsv(t)) == t
    ensures HsvToRgb(RgbToHsv(c, conv), conv) == c
  {
    var t := (c.r as real / 255.0, c.g as real / 255.0, c.b as real / 255.0);
    assert t.0 * 255.0 == c.r as real && t.1 * 255.0 == c.g as real && t.2 * 255.0 == c.b as real;
    TruncOfInt(c.r);
    TruncOfInt(c.g);
    TruncOfInt(c.b);
  }

  /**
   * A colour already inside the limits comes back as itself, when colorsys's conversions
   * are inverse at it and rounding leaves its HSV values alone.
   */
  lemma LimitKeepsColourInside(c: Rgb, lim: Limits, conv: Conversions)
    requires InRange(c)
    requires var u := RgbToHsv(c, conv);
      && HsvToRgb(u, conv) == c
      && conv.round6(u.0) == u.0 && conv.round6(u.1) == u.1 && conv.round6(u.2) == u.2
      && lim.satStart <= u.1 <= lim.satEnd && lim.brStart <= u.2 <= lim.brEnd
    ensures Limit(FormatHex(c), lim, conv).Ok?
    ensures ParseStripped(Limit(FormatHex(c), lim, conv).value.hexNew) == Some(c)
  {
    ParseStrippedFormat(c);
    var u := RgbToHsv(c, conv);
    var a := Limit(FormatHex(c), lim, conv).value;
    assert (a.h, a.sNew, a.vNew) == (u.0, u.1, u.2) == u;
    assert a.hexNew == FormatHex(c);
  }

  // ------------------------------------------------------------------
  // The preview
  // ------------------------------------------------------------------

  /** The colour drawn at column `x`, row `y` of the preview: saturation grows to the right, value upwards. */
  function DomainPixel(h: real, x: int, y: int, conv: Conversions): Rgb
  {
    HsvToRgb((h, x as real / 511.0, 1.0 - y as real / 511.0), conv)
  }

  /** `img` is the preview's size and shows the hue's saturation/value plane. */
  predicate ShowsPlane(img: array2<Rgb>, h: real, conv: Conversions)
    reads img
  {
    && img.Length0 == ImgSize && img.Length1 == ImgSize
    && forall y, x :: 0 <= y < ImgSize && 0 <= x < ImgSize ==> img[y, x] == DomainPixel(h, x, y, conv)
  }

  /**
   * The nested loop that paints the saturation/value plane. The loop variables `s` and `v`
   * are the node's own, so after the loop they hold the last pixel's values, 1 and 0.
   */
  method DrawDomain(h: real, s0: real, v0: real, conv: Conversions) returns (img: array2<Rgb>, s: real, v: real)
    ensures fresh(img)
    ensures ShowsPlane(img, h, conv)
    ensures s == 1.0 && v == 0.0
  {
    img := new Rgb[ImgSize, ImgSize]((_, _) => Rgb(255, 255, 255));
    s, v := s0, v0;
    for x := 0 to ImgSize
      invariant forall y, x' :: 0 <= y < ImgSize && 0 <= x' < x ==> img[y, x'] == DomainPixel(h, x', y, conv)
      invariant x > 0 ==> s == (x - 1) as real / 511.0 && v == 0.0
    {
      for y := 0 to ImgSize
        invariant forall y', x' :: 0 <= y' < ImgSize && 0 <= x' < x ==> img[y', x'] == DomainPixel(h, x', y', conv)
        invariant forall y' :: 0 <= y' < y ==> img[y', x] == DomainPixel(h, x, y', conv)
        invariant y > 0 ==> s == x as real / 511.0 && v == 1.0 - (y - 1) as real / 511.0
        invariant y == 0 && x > 0 ==> s == (x - 1) as real / 511.0 && v == 0.0
      {
        s := x as real / 511.0;
        v := 1.0 - y as real / 511.0;
        img[y, x] := HsvToRgb((h, s, v), conv);
      }
    }
  }

  /** One `draw.line` call from `(x0, y0)` to `(x1, y1)`. */
  datatype Line = Line(x0: int, y0: int, x1: int, y1: int)

  /**
   * The dashes `range(lo, hi, 2 * d)` lays along an edge: the first starts at `lo`, each
   * next one `2d` further on, all below `hi`; each ends at `min(start + d, hi)`. So they stay
   * inside `[lo, hi]`, do not overlap, and there are none when `lo >= hi`.
   */
  function Dashes(lo: int, hi: int, d: nat): (ds: seq<(int, int)>)
    requires d > 0
    decreases hi - lo
  {
    if lo >= hi then []
    else [(lo, if lo + d < hi then lo + d else hi)] + Dashes(lo + 2 * d, hi, d)
  }

  /** The dashes' positions, as the comment on `Dashes` describes them. */
  lemma {:induction false} DashesShape(lo: int, hi: int, d: nat)
    requires d > 0
    ensures var ds := Dashes(lo, hi, d);
      && (lo >= hi <==> ds == [])
      && (ds != [] ==> ds[0].0 == lo)
      && (forall k :: 0 <= k < |ds| - 1 ==> ds[k + 1].0 == ds[k].0 + 2 * d)
      && (forall k :: 0 <= k < |ds| ==> DashWithin(ds[k], lo, hi, d))
      && (forall k :: 0 <= k < |ds| - 1 ==> ds[k].1 < ds[k + 1].0)
    decreases hi - lo
  {
    if lo < hi {
      DashesShape(lo + 2 * d, hi, d);
      var ds := Dashes(lo, hi, d);
      assert forall k :: 1 <= k < |ds| ==> ds[k] == Dashes(lo + 2 * d, hi, d)[k - 1];
    }
  }

  /** A dash `(a, b)` starts inside `[lo, hi)`, ends at `min(a + d, hi)` and is not empty. */
  predicate DashWithin(dash: (int, int), lo: int, hi: int, d: nat)
  {
    && lo <= dash.0 < hi
    && dash.1 == (if dash.0 + d < hi then dash.0 + d else hi)
    && dash.0 < dash.1 <= hi
  }

  /** The two horizontal lines, on rows `y0` and `y1`, for each dash. */
  function HorizontalLines(ds: seq<(int, int)>, y0: int, y1: int): (ls: seq<Line>)
    ensures |ls| == 2 * |ds|
  {
    if ds == [] then []
    else [Line(ds[0].0, y0, ds[0].1, y0), Line(ds[0].0, y1, ds[0].1, y1)] + HorizontalLines(ds[1..], y0, y1)
  }

  /** The two vertical lines, on columns `x0` and `x1`, for each dash. */
  function VerticalLines(ds: seq<(int, int)>, x0: int, x1: int): (ls: seq<Line>)
    ensures |ls| == 2 * |ds|
  {
    if ds == [] then []
    else [Line(x0, ds[0].0, x0, ds[0].1), Line(x1, ds[0].0, x1, ds[0].1)] + VerticalLines(ds[1..], x0, x1)
  }

  /** A horizontal line on row `y0` or `y1` between columns `lo` and `hi`, drawn left to right. */
  predicate HorizontalWithin(l: Line, lo: int, hi: int, y0: int, y1: int)
  {
    l.y0 == l.y1 && (l.y0 == y0 || l.y0 == y1) && lo <= l.x0 < l.x1 <= hi
  }

  /** A vertical line on column `x0` or `x1` between rows `lo` and `hi`, drawn top to bottom. */
  predicate VerticalWithin(l: Line, lo: int, hi: int, x0: int, x1: int)
  {
    l.x0 == l.x1 && (l.x0 == x0 || l.x0 == x1) && lo <= l.y0 < l.y1 <= hi
  }

  /** Lines drawn for dashes within `[lo, hi]` stay on the two edges and within `[lo, hi]`. */
  lemma {:induction false} HorizontalLinesWithin(ds: seq<(int, int)>, lo: int, hi: int, d: nat, y0: int, y1: int)
    requires forall k :: 0 <= k < |ds| ==> DashWithin(ds[k], lo, hi, d)
    ensures forall l :: l in HorizontalLines(ds, y0, y1) ==> HorizontalWithin(l, lo, hi, y0, y1)
  {
    if ds != [] {
      assert forall k :: 0 <= k < |ds[1..]| ==> ds[1..][k] == ds[k + 1];
      HorizontalLinesWithin(ds[1..], lo, hi, d, y0, y1);
    }
  }

  /** Lines drawn for dashes within `[lo, hi]` stay on the two edges and within `[lo, hi]`. */
  lemma {:induction false} VerticalLinesWithin(ds: seq<(int, int)>, lo: int, hi: int, d: nat, x0: int, x1: int)
    requires forall k :: 0 <= k < |ds| ==> DashWithin(ds[k], lo, hi, d)
    ensures forall l :: l in VerticalLines(ds, x0, x1) ==> VerticalWithin(l, lo, hi, x0, x1)
  {
    if ds != [] {
      assert forall k :: 0 <= k < |ds[1..]| ==> ds[1..][k] == ds[k + 1];
      VerticalLinesWithin(ds[1..], lo, hi, d, x0, x1);
    }
  }

  /** Every line of the dashed rectangle lies on its border. */
  lemma DashedRectangleOnBorder(x0: int, y0: int, x1: int, y1: int, d: nat)
    requires d > 0
    ensures forall l :: l in HorizontalLines(Dashes(x0, x1, d), y0, y1) ==> HorizontalWithin(l, x0, x1, y0, y1)
    ensures forall l :: l in VerticalLines(Dashes(y0, y1, d), x0, x1) ==> VerticalWithin(l, y0, y1, x0, x1)
  {
    DashesShape(x0, x1, d);
    DashesShape(y0, y1, d);
    HorizontalLinesWithin(Dashes(x0, x1, d), x0, x1, d, y0, y1);
    VerticalLinesWithin(Dashes(y0, y1, d), y0, y1, d, x0, x1);
  }

  /**
   * `draw_dashed_rectangle`: the two loops over `range(x0, x1, 2d)` and `range(y0, y1, 2d)`,
   * as the list of lines they draw, top and bottom edges first, then left and right.
   */
  method DrawDashedRectangle(x0: int, y0: int, x1: int, y1: int, d: nat) returns (lines: seq<Line>)
    requires d > 0
    ensures lines == HorizontalLines(Dashes(x0, x1, d), y0, y1) + VerticalLines(Dashes(y0, y1, d), x0, x1)
  {
    lines := [];
    var i := x0;
    while i < x1
      invariant lines + HorizontalLines(Dashes(i, x1, d), y0, y1) == HorizontalLines(Dashes(x0, x1, d), y0, y1)
      decreases x1 - i
    {
      var e := if i + d < x1 then i + d else x1;
      var pair := [Line(i, y0, e, y0), Line(i, y1, e, y1)];
      HorizontalStep(i, x1, d, y0, y1);
      Regroup(lines, pair, HorizontalLines(Dashes(i + 2 * d, x1, d), y0, y1));
      lines := lines + pair;
      i := i + 2 * d;
    }
    assert HorizontalLines(Dashes(i, x1, d), y0, y1) == [];
    assert lines + [] == lines;
    var top := lines;
    i := y0;
    while i < y1
      invariant lines + VerticalLines(Dashes(i, y1, d), x0, x1) == top + VerticalLines(Dashes(y0, y1, d), x0, x1)
      decreases y1 - i
    {
      var e := if i + d < y1 then i + d else y1;
      var pair := [Line(x0, i, x0, e), Line(x1, i, x1, e)];
      VerticalStep(i, y1, d, x0, x1);
      Regroup(lines, pair, VerticalLines(Dashes(i + 2 * d, y1, d), x0, x1));
      lines := lines + pair;
      i := i + 2 * d;
    }
    assert VerticalLines(Dashes(i, y1, d), x0, x1) == [];
    assert lines + [] == lines;
  }

  /** Moving the lines of one turn from what is left to draw onto what is drawn. */
  lemma Regroup(drawn: seq<Line>, pair: seq<Line>, rest: seq<Line>)
    ensures drawn + (pair + rest) == (drawn + pair) + rest
  {
  }

  /** One turn of the first loop draws the first dash's two lines. */
  lemma HorizontalStep(i: int, hi: int, d: nat, y0: int, y1: int)
    requires d > 0 && i < hi
    ensures var e := if i + d < hi then i + d else hi;
      HorizontalLines(Dashes(i, hi, d), y0, y1) ==
      [Line(i, y0, e, y0), Line(i, y1, e, y1)] + HorizontalLines(Dashes(i + 2 * d, hi, d), y0, y1)
  {
    assert Dashes(i, hi, d)[1..] == Dashes(i + 2 * d, hi, d);
  }

  /** One turn of the second loop draws the first dash's two lines. */
  lemma VerticalStep(i: int, hi: int, d: nat, x0: int, x1: int)
    requires d > 0 && i < hi
    ensures var e := if i + d < hi then i + d else hi;
      VerticalLines(Dashes(i, hi, d), x0, x1) ==
      [Line(x0, i, x0, e), Line(x1, i, x1, e)] + VerticalLines(Dashes(i + 2 * d, hi, d), x0, x1)
  {
    assert Dashes(i, hi, d)[1..] == Dashes(i + 2 * d, hi, d);
  }

  /** The corners of the dashed box, in preview pixels. */
  datatype Box = Box(x1: int, y1: int, x2: int, y2: int)

  /**
   * The box around the allowed ranges: saturation left to right, brightness bottom to top.
   * For sliders in `[0, 1]` it lies in the preview, and it is not inverted when each range is not.
   */
  function LimitBox(lim: Limits): (b: Box)
    ensures InSliderRange(lim) ==>
      0 <= b.x1 <= ImgSize - 1 && 0 <= b.x2 <= ImgSize - 1 && 0 <= b.y1 <= ImgSize - 1 && 0 <= b.y2 <= ImgSize - 1
    ensures InSliderRange(lim) && lim.satStart <= lim.satEnd ==> b.x1 <= b.x2
    ensures InSliderRange(lim) && lim.brStart <= lim.brEnd ==> b.y1 <= b.y2
  {
    var n := 511.0;
    TruncMonotone(lim.satStart * n, lim.satEnd * n);
    TruncMonotone((1.0 - lim.brEnd) * n, (1.0 - lim.brStart) * n);
    Box(Trunc(lim.satStart * n), Trunc((1.0 - lim.brEnd) * n), Trunc(lim.satEnd * n), Trunc((1.0 - lim.brStart) * n))
  }

  /** Every slider is in `[0, 1]`, as the node's inputs declare. */
  predicate InSliderRange(lim: Limits)
  {
    0.0 <= lim.satStart <= 1.0 && 0.0 <= lim.satEnd <= 1.0 && 0.0 <= lim.brStart <= 1.0 && 0.0 <= lim.brEnd <= 1.0
  }

  /** The centre of a marker circle. */
  datatype Marker = Marker(x: int, y: int)

  /** The "after" marker: the limited saturation across, the limited value up. */
  function AfterMarker(sNew: real, vNew: real): Marker
  {
    Marker(Trunc(sNew * 511.0), Trunc((1.0 - vNew) * 511.0))
  }

  /** A marker for values within the slider ranges lies in the dashed box. */
  lemma MarkerInBox(sNew: real, vNew: real, lim: Limits)
    requires InSliderRange(lim)
    requires lim.satStart <= sNew <= lim.satEnd && lim.brStart <= vNew <= lim.brEnd
    ensures var m := AfterMarker(sNew, vNew);
      var b := LimitBox(lim);
      b.x1 <= m.x <= b.x2 && b.y1 <= m.y <= b.y2
  {
    ScaledBetween(lim.satStart, sNew, lim.satEnd);
    ScaledBetween(1.0 - lim.brEnd, 1.0 - vNew, 1.0 - lim.brStart);
  }

  /** With sliders in range and ranges not inverted, the "after" marker lies in the dashed box. */
  lemma AfterMarkerInBox(s: real, v: real, lim: Limits)
    requires InSliderRange(lim) && lim.satStart <= lim.satEnd && lim.brStart <= lim.brEnd
    ensures var m := AfterMarker(ClampReal(s, lim.satStart, lim.satEnd), ClampReal(v, lim.brStart, lim.brEnd));
      var b := LimitBox(lim);
      b.x1 <= m.x <= b.x2 && b.y1 <= m.y <= b.y2
  {
    MarkerInBox(ClampReal(s, lim.satStart, lim.satEnd), ClampReal(v, lim.brStart, lim.brEnd), lim);
  }

  /** Scaling to preview pixels and truncating keeps the order of fractions. */
  lemma ScaledBetween(a: real, x: real, b: real)
    requires 0.0 <= a <= x <= b
    ensures var n := 511.0; Trunc(a * n) <= Trunc(x * n) <= Trunc(b * n)
  {
    var n := 511.0;
    TruncMonotone(a * n, x * n);
    TruncMonotone(x * n, b * n);
  }

  /** What the preview shows. */
  datatype Preview = Preview(domain: array2<Rgb>, box: seq<Line>, before: Marker, after: Marker)

  /** The ui entry's `bg_color` and the returned hex string. */
  datatype Output = Output(uiBgColor: string, hexNew: string)

  /** The preview's box, markers and plane for the limited colour `a`. */
  predicate PreviewOf(p: Preview, a: Limited, lim: Limits, conv: Conversions)
    reads p.domain
  {
    var b := LimitBox(lim);
    && ShowsPlane(p.domain, a.h, conv)
    && p.box == HorizontalLines(Dashes(b.x1, b.x2, 4), b.y1, b.y2) + VerticalLines(Dashes(b.y1, b.y2, 4), b.x1, b.x2)
    && p.before == Marker(ImgSize - 1, 0)
    && p.after == AfterMarker(a.sNew, a.vNew)
  }

  /** `int(s * 511)` and `int(v * 511)` for the values the plane's loop leaves behind. */
  lemma BeforeMarkerCorner(s: real, v: real)
    requires s == 1.0 && v == 0.0
    ensures Trunc(s * 511.0) == ImgSize - 1 && Trunc(v * 511.0) == 0
  {
    TruncOfInt(ImgSize - 1);
    TruncOfInt(0);
  }

  /**
   * `color_limit`: the limited colour, shown in the ui and returned; a preview of the hue's
   * plane with the dashed box (dash length 4), and the markers. The "before" marker reads
   * `s` and `v` after the plane's loop has overwritten them, so it always sits at the
   * top-right corner `(511, 0)`.
   */
  method ColorLimitNode(hexColor: string, lim: Limits, conv: Conversions) returns (r: Result<(Output, Preview), ParseError>)
    ensures r.Ok? <==> Limit(hexColor, lim, conv).Ok?
    ensures r.Ok? ==>
      var a := Limit(hexColor, lim, conv).value;
      && r.value.0 == Output(a.hexNew, a.hexNew)
      && fresh(r.value.1.domain)
      && PreviewOf(r.value.1, a, lim, conv)
  {
    var lr := Limit(hexColor, lim, conv);
    if lr.Err? {
      return Err(lr.error);
    }
    var a := lr.value;
    var img, s, v := DrawDomain(a.h, a.s, a.v, conv);
    var b := LimitBox(lim);
    var box := DrawDashedRectangle(b.x1, b.y1, b.x2, b.y2, 4);
    BeforeMarkerCorner(s, v);
    var before := Marker(Trunc(s * 511.0), Trunc(v * 511.0));
    var p := Preview(img, box, before, AfterMarker(a.sNew, a.vNew));
    assert PreviewOf(p, a, lim, conv);
    r := Ok((Output(a.hexNew, a.hexNew), p));
  }
}
