/**
 * The gradient-image node: an RGBA buffer of one colour whose alpha ramps from 0 to 255
 * between a start and an end position along one axis and is opaque after it; the gradient
 * can be mirrored along its axis.
 */
module GradientImage {
  import opened Wrappers
  import opened PyText
  import opened PyNum
  import opened HexColor

  /** One pixel of the RGBA buffer, each channel a byte. */
  datatype Rgba = Rgba(r: int, g: int, b: int, a: int)

  const White := Rgb(255, 255, 255)

  /** `FFFFFF` reads as white. */
  lemma WhiteText()
    ensures ParsePairs("FFFFFF", 0) == Some(White)
  {
    ByteLiterals();
    assert Slice("FFFFFF", 0, 2) == "FF" && Slice("FFFFFF", 2, 4) == "FF" && Slice("FFFFFF", 4, 6) == "FF";
  }

  /**
   * `hex_to_rgb`: leading `#`s are stripped; text of any length but six is replaced by
   * `FFFFFF`, and six characters that do not parse give white too.
   */
  function HexToRgb(hexColor: string): (c: Rgb)
    ensures InRange(c)
    ensures |LStripChar(hexColor, '#')| != 6 ==> c == White
    ensures |LStripChar(hexColor, '#')| == 6 && ParseStripped(hexColor).None? ==> c == White
    ensures |LStripChar(hexColor, '#')| == 6 && ParseStripped(hexColor).Some? ==> c == ParseStripped(hexColor).value
  {
    var h := LStripChar(hexColor, '#');
    var t := if |h| != 6 then "FFFFFF" else h;
    WhiteText();
    match ParsePairs(t, 0)
    case Some(c) => c
    case None => White
  }

  /** A formatted colour reads back, with or without its `#`. */
  lemma HexToRgbFormat(c: Rgb)
    requires InRange(c)
    ensures HexToRgb(FormatHex(c)) == c
    ensures HexToRgb(FormatHex(c)[1..]) == c
  {
    var h := FormatHex(c);
    FormatHexShape(c);
    ParseStrippedFormat(c);
    HashStripped(h);
  }

  /** `#rrggbb` and `rrggbb` strip to the same six digits. */
  lemma HashStripped(h: string)
    requires IsLowerHex6(h)
    ensures LStripChar(h, '#') == h[1..] && LStripChar(h[1..], '#') == h[1..]
    ensures ParseStripped(h[1..]) == ParseStripped(h)
  {
    assert h[1..][0] == h[1] != '#';
    assert LStripChar(h[1..], '#') == h[1..];
    assert LStripChar(h, '#') == LStripChar(h[1..], '#');
  }

  /** `max(0, min(size - 1, int(size * start_pos)))`. */
  function StartPixel(size: int, startPos: real): (start: int)
    ensures size >= 1 ==> 0 <= start < size
  {
    ClampInt(Trunc(size as real * startPos), 0, size - 1)
  }

  /** `max(start + 1, min(size, int(size * end_pos)))`. */
  function EndPixel(size: int, start: int, endPos: real): (end: int)
    ensures end >= start + 1
    ensures 0 <= start < size ==> end <= size
  {
    ClampInt(Trunc(size as real * endPos), start + 1, size)
  }

  /** On a non-empty axis the ramp is a non-empty span inside it. */
  lemma SpanInside(size: int, startPos: real, endPos: real)
    requires size >= 1
    ensures var start := StartPixel(size, startPos);
      0 <= start < EndPixel(size, start, endPos) <= size
  {
  }

  /**
   * `np.linspace(0, 255, n).astype(np.uint8)[i]` over exact reals: `255 i / (n - 1)` rounded
   * down, and `0` when there is a single point.
   */
  function Linspace(i: nat, n: nat): (a: int)
    requires i < n
    ensures 0 <= a <= 255
    ensures i == 0 ==> a == 0
    ensures n >= 2 && i == n - 1 ==> a == 255
  {
    if n == 1 then 0
    else
      LinspaceBelow(i, n);
      (255 * i) / (n - 1)
  }

  /** `255 i / (n - 1)` is at most 255 for `i < n`, and exactly 255 at `i == n - 1`. */
  lemma LinspaceBelow(i: nat, n: nat)
    requires i < n && n >= 2
    ensures (255 * i) / (n - 1) <= 255
    ensures i == n - 1 ==> (255 * i) / (n - 1) == 255
  {
    DivMonotone(255 * i, 255 * (n - 1), n - 1);
    assert 255 * (n - 1) == 255 * (n - 1) + 0;
    assert (255 * (n - 1)) / (n - 1) == 255 by {
      DivExact(255, n - 1);
    }
  }

  /** The ramp never goes down. */
  lemma LinspaceMonotone(i: nat, j: nat, n: nat)
    requires i <= j < n
    ensures Linspace(i, n) <= Linspace(j, n)
  {
    if n > 1 {
      assert 255 * i <= 255 * j;
      DivMonotone(255 * i, 255 * j, n - 1);
    }
  }

  /** Division by a positive number keeps the order. */
  lemma DivMonotone(a: nat, b: nat, d: nat)
    requires a <= b && d > 0
    ensures a / d <= b / d
  {
    var qa, qb := a / d, b / d;
    assert qa * d <= a;
    assert b < (qb + 1) * d;
    PositiveFactor(qb + 1 - qa, d);
  }

  /** `(k * d) / d == k`. */
  lemma DivExact(k: nat, d: nat)
    requires d > 0
    ensures (k * d) / d == k
  {
    var q, r := (k * d) / d, (k * d) % d;
    assert (k - q) * d == r;
    PositiveFactor(1 - (k - q), d);
    PositiveFactor(k - q + 1, d);
  }

  /** A product with a positive factor is positive only if the other factor is. */
  lemma PositiveFactor(p: int, d: int)
    requires d > 0 && p * d > 0
    ensures p > 0
  {
  }

  /** The alpha at position `q` of the gradient axis: clear before the ramp, opaque after it. */
  function Alpha(q: int, start: int, end: int): (a: int)
    requires start < end
    ensures 0 <= a <= 255
    ensures q < start ==> a == 0
    ensures q >= end ==> a == 255
  {
    if q < start then 0 else if q < end then Linspace(q - start, end - start) else 255
  }

  /** Alpha never goes down along the axis. */
  lemma AlphaMonotone(p: int, q: int, start: int, end: int)
    requires start < end && p <= q
    ensures Alpha(p, start, end) <= Alpha(q, start, end)
  {
    if start <= p && q < end {
      LinspaceMonotone(p - start, q - start, end - start);
    }
  }

  /** Where pixel `(y, x)` lies on the gradient axis, counted from the far end when reversed. */
  function AxisPos(y: int, x: int, width: int, height: int, horizontal: bool, reverse: bool): int
  {
    var q := if horizontal then x else y;
    var size := if horizontal then width else height;
    if reverse then size - 1 - q else q
  }

  /** Every pixel has the colour `rgb` and the alpha `alpha` gives its axis position. */
  predicate Filled(g: array2<Rgba>, rgb: Rgb, horizontal: bool, alpha: int -> int)
    reads g
  {
    forall y, x :: 0 <= y < g.Length0 && 0 <= x < g.Length1 ==>
      g[y, x] == Rgba(rgb.r, rgb.g, rgb.b, alpha(if horizontal then x else y))
  }

  /** The finished gradient: colour `rgb` everywhere, alpha by axis position, mirrored when `reverse`. */
  predicate IsGradient(g: array2<Rgba>, rgb: Rgb, horizontal: bool, reverse: bool, start: int, end: int)
    reads g
    requires start < end
  {
    forall y, x :: 0 <= y < g.Length0 && 0 <= x < g.Length1 ==>
      g[y, x] == Rgba(rgb.r, rgb.g, rgb.b, Alpha(AxisPos(y, x, g.Length1, g.Length0, horizontal, reverse), start, end))
  }

  /** `gradient[:, x, 3] = a`, or `gradient[x, :, 3] = a` across a row. */
  method SetAlphaLine(g: array2<Rgba>, horizontal: bool, k: int, a: int)
    modifies g
    ensures forall y, x :: 0 <= y < g.Length0 && 0 <= x < g.Length1 ==>
      g[y, x] == if (if horizontal then x else y) == k then old(g[y, x]).(a := a) else old(g[y, x])
  {
    if horizontal {
      if 0 <= k < g.Length1 {
        for y := 0 to g.Length0
          invariant forall y', x :: 0 <= y' < g.Length0 && 0 <= x < g.Length1 ==>
            g[y', x] == if x == k && y' < y then old(g[y', x]).(a := a) else old(g[y', x])
        {
          g[y, k] := g[y, k].(a := a);
        }
      }
    } else {
      if 0 <= k < g.Length0 {
        for x := 0 to g.Length1
          invariant forall y, x' :: 0 <= y < g.Length0 && 0 <= x' < g.Length1 ==>
            g[y, x'] == if y == k && x' < x then old(g[y, x']).(a := a) else old(g[y, x'])
        {
          g[k, x] := g[k, x].(a := a);
        }
      }
    }
  }

  /** The ramp after its first `i` positions have been written. */
  function RampSoFar(q: int, start: int, i: nat, n: nat): int
    requires i <= n
  {
    if start <= q < start + i then Linspace(q - start, n) else 0
  }

  /** `gradient[:, ::-1, :]` or `gradient[::-1, :, :]`: a copy mirrored along the gradient axis only. */
  method Mirrored(src: array2<Rgba>, horizontal: bool) returns (dst: array2<Rgba>)
    ensures fresh(dst)
    ensures dst.Length0 == src.Length0 && dst.Length1 == src.Length1
    ensures forall y, x :: 0 <= y < dst.Length0 && 0 <= x < dst.Length1 ==>
      dst[y, x] == if horizontal then src[y, src.Length1 - 1 - x] else src[src.Length0 - 1 - y, x]
  {
    dst := new Rgba[src.Length0, src.Length1]((_, _) => Rgba(0, 0, 0, 0));
    for y := 0 to src.Length0
      invariant forall y', x :: 0 <= y' < y && 0 <= x < dst.Length1 ==>
        dst[y', x] == if horizontal then src[y', src.Length1 - 1 - x] else src[src.Length0 - 1 - y', x]
    {
      for x := 0 to src.Length1
        invariant forall y', x' :: 0 <= y' < y && 0 <= x' < dst.Length1 ==>
          dst[y', x'] == if horizontal then src[y', src.Length1 - 1 - x'] else src[src.Length0 - 1 - y', x']
        invariant forall x' :: 0 <= x' < x ==>
          dst[y, x'] == if horizontal then src[y, src.Length1 - 1 - x'] else src[src.Length0 - 1 - y, x']
      {
        dst[y, x] := if horizontal then src[y, src.Length1 - 1 - x] else src[src.Length0 - 1 - y, x];
      }
    }
  }

  /** The ramp loop: position `start + i` of the axis gets `alpha_range[i]`, for every `i < n`. */
  method ApplyRamp(g: array2<Rgba>, rgb: Rgb, horizontal: bool, start: int, n: nat)
    modifies g
    requires Filled(g, rgb, horizontal, q => 0)
    ensures Filled(g, rgb, horizontal, q => RampSoFar(q, start, n, n))
  {
    for i := 0 to n
      invariant Filled(g, rgb, horizontal, q => RampSoFar(q, start, i, n))
    {
      SetAlphaLine(g, horizontal, start + i, Linspace(i, n));
    }
  }

  /** The tail fill: every position from `end` to the end of the axis becomes opaque. */
  method FillTail(g: array2<Rgba>, rgb: Rgb, horizontal: bool, start: int, end: int)
    modifies g
    requires start < end
    requires Filled(g, rgb, horizontal, q => RampSoFar(q, start, end - start, end - start))
    ensures Filled(g, rgb, horizontal, q => Alpha(q, start, end))
  {
    var size := if horizontal then g.Length1 else g.Length0;
    var k := end;
    while k < size
      invariant Filled(g, rgb, horizontal, q => if q < end then RampSoFar(q, start, end - start, end - start) else if q < k then 255 else 0)
      decreases size - k
    {
      SetAlphaLine(g, horizontal, k, 255);
      k := k + 1;
    }
  }

  /**
   * `create_gradient_array`: every pixel gets `rgb`, alpha 0; positions `start..end-1` of
   * the axis get the ramp, positions from `end` on are opaque, and `reverse` mirrors the
   * axis. `direction` is horizontal only when it is exactly `"horizontal"`.
   */
  method CreateGradientArray(width: nat, height: nat, rgb: Rgb, startPos: real, endPos: real, direction: string, reverse: bool)
    returns (g: array2<Rgba>)
    ensures fresh(g)
    ensures g.Length0 == height && g.Length1 == width
    ensures var horizontal := direction == "horizontal";
      var size := if horizontal then width else height;
      var start := StartPixel(size, startPos);
      IsGradient(g, rgb, horizontal, reverse, start, EndPixel(size, start, endPos))
  {
    g := new Rgba[height, width]((_, _) => Rgba(rgb.r, rgb.g, rgb.b, 0));
    var horizontal := direction == "horizontal";
    var size := if horizontal then width else height;
    var start := StartPixel(size, startPos);
    var end := EndPixel(size, start, endPos);
    ApplyRamp(g, rgb, horizontal, start, end - start);
    FillTail(g, rgb, horizontal, start, end);
    if reverse {
      var src := g;
      g := Mirrored(src, horizontal);
    }
  }

  /** `max(1, n)`. */
  function AtLeastOne(n: int): (m: nat)
    ensures m >= 1 && m >= n
    ensures n >= 1 ==> m == n
  {
    if n < 1 then 1 else n
  }

  /**
   * `main`: width and height are raised to at least 1, the start position is clamped into
   * `[0, 1]` and the end position into `[start + 0.01, 1]`, then the gradient is built.
   */
  method Generate(hexColor: string, width: int, height: int, startPosition: real, endPosition: real, direction: string, reverse: bool)
    returns (g: array2<Rgba>)
    ensures fresh(g)
    ensures g.Length0 == AtLeastOne(height) && g.Length1 == AtLeastOne(width)
    ensures var sp := ClampReal(startPosition, 0.0, 1.0);
      var ep := ClampReal(endPosition, sp + 0.01, 1.0);
      var horizontal := direction == "horizontal";
      var size := if horizontal then AtLeastOne(width) else AtLeastOne(height);
      var start := StartPixel(size, sp);
      IsGradient(g, HexToRgb(hexColor), horizontal, reverse, start, EndPixel(size, start, ep))
  {
    var w := AtLeastOne(width);
    var h := AtLeastOne(height);
    var sp := ClampReal(startPosition, 0.0, 1.0);
    var ep := ClampReal(endPosition, sp + 0.01, 1.0);
    g := CreateGradientArray(w, h, HexToRgb(hexColor), sp, ep, direction, reverse);
  }

  /** After `main`'s clamps the positions are ordered fractions and the end lies past the start. */
  lemma GeneratePositions(startPosition: real, endPosition: real)
    ensures var sp := ClampReal(startPosition, 0.0, 1.0);
      var ep := ClampReal(endPosition, sp + 0.01, 1.0);
      0.0 <= sp <= 1.0 && sp + 0.01 <= ep && (sp <= 0.99 ==> ep <= 1.0)
  {
  }
}
