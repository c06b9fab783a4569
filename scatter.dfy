/**
 * What the two scatter-layout nodes share: drawing a placement point from the path (or
 * anywhere in the image when the path is empty), random offset, rotation and scale, and
 * the paste origin that centres the transformed image on the point. Random draws come from
 * a supplied oracle, and the canvas records the composites made onto it.
 */
module Scatter {
  import opened Wrappers
  import opened PyNum
  import opened Images

  /** A path pixel as `np.where` reports it: row first, then column. */
  datatype Point = Point(row: int, col: int)

  /** What `random.random()` returns. */
  type Unit = u: real | 0.0 <= u < 1.0 witness 0.0

  /**
   * The random draws of one loop iteration, in the order the source makes them: the image,
   * the path point (or two `randint`s), the two offsets, the rotation and the scale.
   */
  datatype Draw = Draw(imagePick: nat, pointPick: nat, randX: nat, randY: nat,
                       offsetX: Unit, offsetY: Unit, rotation: Unit, scale: Unit)

  /** The node's slider settings. */
  datatype Settings = Settings(maxOffset: int, maxRotation: real, minScale: real, maxScale: real)

  /** An IMAGE tensor `(batch, height, width, channels)`; `tag` tells inputs apart. */
  datatype Tensor = Tensor(tag: nat, batch: nat, height: nat, width: nat, channels: nat)

  /** A MASK input. */
  datatype Mask = Mask(tag: nat)

  /** An alpha channel appended to an image: all ones, or `1 - mask`. */
  datatype Alpha = Opaque | InverseOf(mask: Mask)

  /** An image ready to scatter: the input tensor and the alpha channel appended to it, if any. */
  datatype Source = Source(image: Tensor, appended: Option<Alpha>)

  /** The transformed copy of a source: rotated by `rotation` degrees, scaled, with its final size. */
  datatype Sprite = Sprite(source: Source, rotation: real, scale: real, width: int, height: int)

  /** One composite recorded on a canvas: the path image at the origin, or a sprite at `(x, y)`. */
  datatype Layer = Backdrop(picture: Picture) | Pasted(sprite: Sprite, x: int, y: int)

  /** `random.uniform(a, b)` as CPython computes it. */
  function Uniform(a: real, b: real, u: Unit): real
  {
    a + (b - a) * u
  }

  /** Uniform draws stay within their bounds. */
  lemma UniformBetween(a: real, b: real, u: Unit)
    requires a <= b
    ensures a <= Uniform(a, b, u) <= b
  {
    NonNegativeProduct(b - a, u);
    NonNegativeProduct(b - a, 1.0 - u);
    assert (b - a) * u + (b - a) * (1.0 - u) == b - a;
  }

  lemma NonNegativeProduct(c: real, d: real)
    requires c >= 0.0 && d >= 0.0
    ensures c * d >= 0.0
  {
  }

  /** `random.randint(a, b)` for `a <= b`; the draw is reduced into the range. */
  function RandInt(a: int, b: int, pick: nat): (r: int)
    requires a <= b
    ensures a <= r <= b
  {
    a + pick % (b - a + 1)
  }

  /** `extract_path`: the detected points, or no points when extraction raised. */
  function PathOf(extracted: Option<seq<Point>>): seq<Point>
  {
    if extracted.Some? then extracted.value else []
  }

  /** A placement point can be drawn: the path has a point, or the image has at least one pixel. */
  predicate CanDraw(path: seq<Point>, canvas: Picture)
  {
    |path| > 0 || (canvas.width >= 1 && canvas.height >= 1)
  }

  /** The point before the offsets: a random path point with its coordinates swapped, or a random pixel. */
  function BasePoint(path: seq<Point>, canvas: Picture, d: Draw): (r: (int, int))
    requires CanDraw(path, canvas)
    ensures |path| > 0 ==> exists p :: p in path && r == (p.col, p.row)
    ensures |path| == 0 ==> 0 <= r.0 < canvas.width && 0 <= r.1 < canvas.height
  {
    if |path| > 0 then
      var p := path[d.pointPick % |path|];
      (p.col, p.row)
    else
      (RandInt(0, canvas.width - 1, d.randX), RandInt(0, canvas.height - 1, d.randY))
  }

  /** `int(x - size // 2)`: the top-left coordinate that centres `size` pixels on `x`. */
  function Origin(x: real, size: int): int
  {
    Trunc(x - FloorDiv(size, 2) as real)
  }

  /** The origin puts the middle of the sprite within one pixel of the point (half a pixel more for odd sizes). */
  lemma OriginCentres(x: real, size: nat)
    ensures x - 1.0 < Origin(x, size) as real + (size / 2) as real < x + 1.0
  {
  }

  /** The size after `rotate(expand=True)` and `resize((int(w * scale), int(h * scale)))`. */
  function Transformed(source: Source, rotation: real, scale: real, rotatedSize: (nat, nat, real) -> (nat, nat)): (s: Sprite)
    ensures s.source == source && s.rotation == rotation && s.scale == scale
  {
    var (rw, rh) := rotatedSize(source.image.width, source.image.height, rotation);
    Sprite(source, rotation, scale, Trunc(rw as real * scale), Trunc(rh as real * scale))
  }

  /** One iteration of the scatter loop: the composite it makes for the draw `d`. */
  function Placement(source: Source, path: seq<Point>, canvas: Picture, st: Settings, d: Draw,
                     rotatedSize: (nat, nat, real) -> (nat, nat)): (l: Layer)
    requires CanDraw(path, canvas)
    ensures l.Pasted?
  {
    var (px, py) := BasePoint(path, canvas, d);
    var x := px as real + Uniform(-st.maxOffset as real, st.maxOffset as real, d.offsetX);
    var y := py as real + Uniform(-st.maxOffset as real, st.maxOffset as real, d.offsetY);
    var sprite := Transformed(source, Uniform(-st.maxRotation, st.maxRotation, d.rotation),
                              Uniform(st.minScale, st.maxScale, d.scale), rotatedSize);
    Pasted(sprite, Origin(x, sprite.width), Origin(y, sprite.height))
  }

  /** With non-negative slider bounds the sprite lands around its base point and is rotated and scaled within range. */
  lemma PlacementWithinSettings(source: Source, path: seq<Point>, canvas: Picture, st: Settings, d: Draw,
                                rotatedSize: (nat, nat, real) -> (nat, nat))
    requires CanDraw(path, canvas) && st.maxOffset >= 0 && st.maxRotation >= 0.0 && st.minScale <= st.maxScale
    ensures var l := Placement(source, path, canvas, st, d, rotatedSize);
      var (px, py) := BasePoint(path, canvas, d);
      && -st.maxRotation <= l.sprite.rotation <= st.maxRotation
      && st.minScale <= l.sprite.scale <= st.maxScale
      && Near(l.x, l.sprite.width, px, st.maxOffset)
      && Near(l.y, l.sprite.height, py, st.maxOffset)
  {
    var l := Placement(source, path, canvas, st, d, rotatedSize);
    var (px, py) := BasePoint(path, canvas, d);
    UniformBetween(-st.maxRotation, st.maxRotation, d.rotation);
    UniformBetween(st.minScale, st.maxScale, d.scale);
    var m := st.maxOffset as real;
    UniformBetween(-m, m, d.offsetX);
    UniformBetween(-m, m, d.offsetY);
    var x := px as real + Uniform(-m, m, d.offsetX);
    var y := py as real + Uniform(-m, m, d.offsetY);
    if l.sprite.width >= 0 {
      OriginCentres(x, l.sprite.width);
    }
    if l.sprite.height >= 0 {
      OriginCentres(y, l.sprite.height);
    }
  }

  /** The middle of a pasted extent lies within `offset + 1` of the base coordinate. */
  predicate Near(origin: int, size: int, base: int, offset: int)
  {
    size >= 0 ==> base - offset - 1 < origin + size / 2 < base + offset + 1
  }

  /** What the layout loops raise. */
  datatype ScatterError =
    | EmptyChoice   // `random.choice` of an empty image list
    | EmptyRange    // `random.randint(0, -1)` on an image with no pixels and an empty path

  /** The `n` composites of the loop, one per iteration, for the images `batch`. */
  function Scattered(batch: seq<Source>, path: seq<Point>, canvas: Picture, st: Settings, draws: nat -> Draw,
                     rotatedSize: (nat, nat, real) -> (nat, nat), n: nat): (ls: seq<Layer>)
    requires n == 0 || (|batch| > 0 && CanDraw(path, canvas))
    ensures |ls| == n
    ensures forall i :: 0 <= i < n ==>
      ls[i] == Placement(batch[draws(i).imagePick % |batch|], path, canvas, st, draws(i), rotatedSize)
  {
    seq(n, i requires 0 <= i < n => Placement(batch[draws(i).imagePick % |batch|], path, canvas, st, draws(i), rotatedSize))
  }

  lemma ScatteredStep(batch: seq<Source>, path: seq<Point>, canvas: Picture, st: Settings, draws: nat -> Draw,
                      rotatedSize: (nat, nat, real) -> (nat, nat), n: nat)
    requires |batch| > 0 && CanDraw(path, canvas)
    ensures Scattered(batch, path, canvas, st, draws, rotatedSize, n + 1) ==
      Scattered(batch, path, canvas, st, draws, rotatedSize, n) +
      [Placement(batch[draws(n).imagePick % |batch|], path, canvas, st, draws(n), rotatedSize)]
  {
  }

  /** An RGBA image that records the composites made onto it, bottom layer first. */
  class Canvas {
    const size: Picture
    var layers: seq<Layer>

    /** `Image.new('RGBA', size, (255, 255, 255, 0))`: transparent, nothing composited yet. */
    constructor (size: Picture)
      ensures this.size == size && layers == []
    {
      this.size := size;
      layers := [];
    }

    /** `alpha_composite`: the layer goes on top of everything composited so far. */
    method AlphaComposite(l: Layer)
      modifies this
      ensures layers == old(layers) + [l]
    {
      layers := layers + [l];
    }
  }
}
