/**
 * The older gradient-image node at the repository root: a transparent black RGBA image on
 * which one line per column (or row) is drawn from `start` to `mid` with a rising alpha,
 * then an opaque rectangle from `mid` to the far edge; `reverse` turns the image by 180
 * degrees.
 */
module LegacyGradientImage {
  import opened Wrappers
  import opened PyText
  import opened PyNum
  import opened HexColor
  import opened GradientImage

  /** `int(…, 16)` raised `ValueError` on one of the three pairs. */
  datatype ParseError = InvalidHex

  /** `int(255 * (q - start) / (mid - start))` for `start <= q < mid`: 0 at the start, below 255 throughout. */
  function RampAlpha(q: int, start: int, mid: int): (a: int)
    requires start <= q < mid
    ensures 0 <= a < 255
    ensures q == start ==> a == 0
  {
    RampBelow(q - start, mid - start);
    (255 * (q - start)) / (mid - start)
  }

  /** `255 k / n` is below 255 when `k < n`. */
  lemma RampBelow(k: nat, n: nat)
    requires k < n
    ensures (255 * k) / n < 255
  {
    assert 255 * k < 255 * n;
    var q := (255 * k) / n;
    assert q * n <= 255 * k;
    PositiveFactor(255 - q, n);
  }

  /** The pixel at axis position `q`: opaque from `mid` on, on the ramp from `start`, transparent black before. */
  function LegacyPixel(q: int, start: int, mid: int, c: Rgb): Rgba
  {
    if q >= mid then Rgba(c.r, c.g, c.b, 255)
    else if q >= start then Rgba(c.r, c.g, c.b, RampAlpha(q, start, mid))
    else Rgba(0, 0, 0, 0)
  }

  /** Along the axis alpha never goes down. */
  lemma LegacyAlphaMonotone(p: int, q: int, start: int, mid: int, c: Rgb)
    requires p <= q
    ensures LegacyPixel(p, start, mid, c).a <= LegacyPixel(q, start, mid, c).a
  {
    if start <= p && q < mid {
      DivMonotone(255 * (p - start), 255 * (q - start), mid - start);
    }
  }

  /** Every pixel shows `LegacyPixel` of its axis position. */
  predicate Drawn(img: array2<Rgba>, horizontal: bool, start: int, mid: int, c: Rgb)
    reads img
  {
    forall y, x :: 0 <= y < img.Length0 && 0 <= x < img.Length1 ==>
      img[y, x] == LegacyPixel(if horizontal then x else y, start, mid, c)
  }

  /** `draw.line` across the image at axis position `k`, clipped to the image. */
  method DrawLine(img: array2<Rgba>, horizontal: bool, k: int, p: Rgba)
    modifies img
    ensures forall y, x :: 0 <= y < img.Length0 && 0 <= x < img.Length1 ==>
      img[y, x] == if (if horizontal then x else y) == k then p else old(img[y, x])
  {
    if horizontal {
      if 0 <= k < img.Length1 {
        for y := 0 to img.Length0
          invariant forall y', x :: 0 <= y' < img.Length0 && 0 <= x < img.Length1 ==>
            img[y', x] == if x == k && y' < y then p else old(img[y', x])
        {
          img[y, k] := p;
        }
      }
    } else {
      if 0 <= k < img.Length0 {
        for x := 0 to img.Length1
          invariant forall y, x' :: 0 <= y < img.Length0 && 0 <= x' < img.Length1 ==>
            img[y, x'] == if y == k && x' < x then p else old(img[y, x'])
        {
          img[k, x] := p;
        }
      }
    }
  }

  /**
   * The drawing of `main` on a transparent black image: one line per axis position in
   * `range(start, mid)`, then the opaque rectangle from `mid` to the far edge.
   */
  method DrawGradient(img: array2<Rgba>, horizontal: bool, start: int, mid: int, c: Rgb)
    modifies img
    requires forall y, x :: 0 <= y < img.Length0 && 0 <= x < img.Length1 ==> img[y, x] == Rgba(0, 0, 0, 0)
    ensures Drawn(img, horizontal, start, mid, c)
  {
    var k := start;
    while k < mid
      invariant forall y, x :: 0 <= y < img.Length0 && 0 <= x < img.Length1 ==>
        img[y, x] == (var q := if horizontal then x else y; if start <= q < k then LegacyPixel(q, start, mid, c) else Rgba(0, 0, 0, 0))
      decreases mid - k
    {
      DrawLine(img, horizontal, k, Rgba(c.r, c.g, c.b, RampAlpha(k, start, mid)));
      k := k + 1;
    }
    var size := if horizontal then img.Length1 else img.Length0;
    var j := if mid < 0 then 0 else mid;
    while j < size
      invariant forall y, x :: 0 <= y < img.Length0 && 0 <= x < img.Length1 ==>
        img[y, x] == (var q := if horizontal then x else y;
          if q >= mid && q >= j then (if start <= q < k then LegacyPixel(q, start, mid, c) else Rgba(0, 0, 0, 0))
          else LegacyPixel(q, start, mid, c))
      decreases size - j
    {
      DrawLine(img, horizontal, j, Rgba(c.r, c.g, c.b, 255));
      j := j + 1;
    }
  }

  /** `image.rotate(180)`: both axes mirrored. */
  method Rotated180(src: array2<Rgba>) returns (dst: array2<Rgba>)
    ensures fresh(dst)
    ensures dst.Length0 == src.Length0 && dst.Length1 == src.Length1
    ensures forall y, x :: 0 <= y < dst.Length0 && 0 <= x < dst.Length1 ==>
      dst[y, x] == src[src.Length0 - 1 - y, src.Length1 - 1 - x]
  {
    dst := new Rgba[src.Length0, src.Length1]((_, _) => Rgba(0, 0, 0, 0));
    for y := 0 to src.Length0
      invariant forall y', x :: 0 <= y' < y && 0 <= x < dst.Length1 ==>
        dst[y', x] == src[src.Length0 - 1 - y', src.Length1 - 1 - x]
    {
      for x := 0 to src.Length1
        invariant forall y', x' :: 0 <= y' < y && 0 <= x' < dst.Length1 ==>
          dst[y', x'] == src[src.Length0 - 1 - y', src.Length1 - 1 - x']
        invariant forall x' :: 0 <= x' < x ==> dst[y, x'] == src[src.Length0 - 1 - y, src.Length1 - 1 - x']
      {
        dst[y, x] := src[src.Length0 - 1 - y, src.Length1 - 1 - x];
      }
    }
  }

  /** The finished picture: `LegacyPixel` of the axis position, counted from the far edge when `reverse`. */
  predicate Shown(img: array2<Rgba>, horizontal: bool, reverse: bool, start: int, mid: int, c: Rgb)
    reads img
  {
    forall y, x :: 0 <= y < img.Length0 && 0 <= x < img.Length1 ==>
      img[y, x] == LegacyPixel(AxisPos(y, x, img.Length1, img.Length0, horizontal, reverse), start, mid, c)
  }

  /** Turning a drawn image by 180 degrees counts the axis from the far edge. */
  method Orient(img: array2<Rgba>, horizontal: bool, reverse: bool, start: int, mid: int, c: Rgb)
    returns (out: array2<Rgba>)
    requires Drawn(img, horizontal, start, mid, c)
    ensures out == img || fresh(out)
    ensures out.Length0 == img.Length0 && out.Length1 == img.Length1
    ensures Shown(out, horizontal, reverse, start, mid, c)
  {
    if reverse {
      out := Rotated180(img);
    } else {
      out := img;
    }
  }

  /** `int(size * position)`: the pixel a fractional position falls on. */
  function AxisPixel(size: nat, position: real): int
  {
    Trunc(size as real * position)
  }

  /** A transparent black `width` by `height` image with the gradient drawn and oriented. */
  method Draw(width: nat, height: nat, horizontal: bool, reverse: bool, start: int, mid: int, c: Rgb)
    returns (img: array2<Rgba>)
    ensures fresh(img) && img.Length0 == height && img.Length1 == width
    ensures Shown(img, horizontal, reverse, start, mid, c)
  {
    var blank := new Rgba[height, width]((_, _) => Rgba(0, 0, 0, 0));
    DrawGradient(blank, horizontal, start, mid, c);
    img := Orient(blank, horizontal, reverse, start, mid, c);
  }

  /**
   * `main` of the older node: `start` and `mid` are `int(size * position)` on the chosen
   * axis; the drawing is turned by 180 degrees when `reverse`.
   */
  method Generate(hexColor: string, width: nat, height: nat, startPosition: real, endPosition: real, direction: string, reverse: bool)
    returns (r: Result<array2<Rgba>, ParseError>)
    ensures r.Ok? <==> ParseAt1(hexColor).Some?
    ensures r.Ok? ==>
      var horizontal := direction == "horizontal";
      var size := if horizontal then width else height;
      && fresh(r.value) && r.value.Length0 == height && r.value.Length1 == width
      && Shown(r.value, horizontal, reverse, AxisPixel(size, startPosition), AxisPixel(size, endPosition),
               ParseAt1(hexColor).value)
  {
    var parsed := ParseAt1(hexColor);
    if parsed.None? {
      return Err(InvalidHex);
    }
    var horizontal := direction == "horizontal";
    var size := if horizontal then width else height;
    var img := Draw(width, height, horizontal, reverse, AxisPixel(size, startPosition), AxisPixel(size, endPosition), parsed.value);
    r := Ok(img);
  }
}
