/**
 * The image-layout node: images from a batch list are scattered `num_images` times along
 * the dark lines of a path image onto one transparent canvas, over the path image when
 * asked for.
 */
module ImageLayout {
  import opened Wrappers
  import opened Images
  import opened Scatter

  /** `batch_images` as connected: a list, or a single tensor that gets wrapped into one. */
  datatype BatchInput = Single(image: Tensor) | Many(images: seq<Tensor>)

  /** The list the loop chooses from. */
  function AsList(b: BatchInput): (s: seq<Tensor>)
    ensures b.Single? ==> s == [b.image]
    ensures b.Many? ==> s == b.images
  {
    match b
    case Single(t) => [t]
    case Many(ts) => ts
  }

  /** A three-channel image gets an opaque alpha channel; any other image is used as it is. */
  function Prepared(t: Tensor): (s: Source)
    ensures s.image == t
    ensures s.appended.Some? <==> t.channels == 3
    ensures s.appended.Some? ==> s.appended.value == Opaque
  {
    if t.channels == 3 then Source(t, Some(Opaque)) else Source(t, None)
  }

  /** The images as the loop composites them, position for position. */
  function PreparedAll(ts: seq<Tensor>): (s: seq<Source>)
    ensures |s| == |ts| && forall i :: 0 <= i < |ts| ==> s[i] == Prepared(ts[i])
  {
    seq(|ts|, i requires 0 <= i < |ts| => Prepared(ts[i]))
  }

  /** What the canvas starts with: the path image only when `draw_path_image` is set. */
  function Bottom(pathImage: Picture, drawPathImage: bool): seq<Layer>
  {
    if drawPathImage then [Backdrop(pathImage)] else []
  }

  /**
   * The loop of `exec`: `n` times a random image of the list, prepared, composited at a
   * random place. `random.choice` fails on an empty list and the placement on an empty range.
   */
  method ScatterOnto(canvas: Canvas, list: seq<Tensor>, path: seq<Point>, st: Settings, draws: nat -> Draw,
                     rotatedSize: (nat, nat, real) -> (nat, nat), n: nat)
    returns (failure: Option<ScatterError>)
    modifies canvas
    ensures n > 0 && |list| == 0 ==> failure == Some(EmptyChoice)
    ensures n > 0 && |list| > 0 && !CanDraw(path, canvas.size) ==> failure == Some(EmptyRange)
    ensures failure.None? <==> n == 0 || (|list| > 0 && CanDraw(path, canvas.size))
    ensures failure.None? ==>
      canvas.layers == old(canvas.layers) + Scattered(PreparedAll(list), path, canvas.size, st, draws, rotatedSize, n)
  {
    ghost var batch := PreparedAll(list);
    for i := 0 to n
      invariant (|list| > 0 && CanDraw(path, canvas.size)) || i == 0
      invariant canvas.layers == old(canvas.layers) + Scattered(batch, path, canvas.size, st, draws, rotatedSize, i)
    {
      if |list| == 0 {
        return Some(EmptyChoice);
      }
      var k := draws(i).imagePick % |list|;
      var source := Prepared(list[k]);
      if !CanDraw(path, canvas.size) {
        return Some(EmptyRange);
      }
      assert source == batch[k];
      var l := Placement(source, path, canvas.size, st, draws(i), rotatedSize);
      ScatteredStep(batch, path, canvas.size, st, draws, rotatedSize, i);
      canvas.AlphaComposite(l);
    }
    failure := None;
  }

  /**
   * What `exec` produces: `None` without a path image, the failure of the first draw when
   * there is something to draw and nothing to draw from, and otherwise the layers of the
   * canvas, bottom first.
   */
  function Expected(list: seq<Tensor>, pathImage: Option<Picture>, path: seq<Point>, numImages: int, st: Settings,
                    drawPathImage: bool, draws: nat -> Draw, rotatedSize: (nat, nat, real) -> (nat, nat))
    : (r: Result<Option<seq<Layer>>, ScatterError>)
    ensures pathImage.None? ==> r == Ok(None)
    ensures pathImage.Some? && numImages > 0 && |list| == 0 ==> r == Err(EmptyChoice)
    ensures pathImage.Some? && numImages > 0 && |list| > 0 && !CanDraw(path, pathImage.value) ==> r == Err(EmptyRange)
    ensures r.Ok? && r.value.Some? ==> pathImage.Some? && |r.value.value| == |Bottom(pathImage.value, drawPathImage)| + (if numImages > 0 then numImages else 0)
    ensures r.Ok? && r.value.Some? && drawPathImage ==> r.value.value[0] == Backdrop(pathImage.value)
  {
    if pathImage.None? then Ok(None)
    else if numImages > 0 && |list| == 0 then Err(EmptyChoice)
    else if numImages > 0 && !CanDraw(path, pathImage.value) then Err(EmptyRange)
    else
      var n := if numImages > 0 then numImages else 0;
      Ok(Some(Bottom(pathImage.value, drawPathImage) + Scattered(PreparedAll(list), path, pathImage.value, st, draws, rotatedSize, n)))
  }

  /**
   * `exec`: `pathImage` is `None` when `path_image` is not a tensor and otherwise the size of
   * `tensor2pil(path_image[0])`; `extracted`, `draws` and `rotatedSize` are as for the
   * random-layout node. `Ok(None)` is the `(None,)` the source returns.
   */
  method Exec(batchImages: BatchInput, pathImage: Option<Picture>, extracted: Option<seq<Point>>, numImages: int,
              st: Settings, drawPathImage: bool, draws: nat -> Draw, rotatedSize: (nat, nat, real) -> (nat, nat))
    returns (r: Result<Option<Canvas>, ScatterError>)
    ensures Outcome(r, Expected(AsList(batchImages), pathImage, PathOf(extracted), numImages, st, drawPathImage, draws, rotatedSize))
    ensures r.Ok? && r.value.Some? ==> fresh(r.value.value) && pathImage.Some? && r.value.value.size == pathImage.value
  {
    if pathImage.None? {
      return Ok(None);
    }
    var list := AsList(batchImages);
    var size := pathImage.value;
    var path := PathOf(extracted);
    var canvas := new Canvas(size);
    if drawPathImage {
      canvas.AlphaComposite(Backdrop(size));
    }
    assert canvas.layers == Bottom(size, drawPathImage);
    var n := if numImages > 0 then numImages else 0;
    var failure := ScatterOnto(canvas, list, path, st, draws, rotatedSize, n);
    if failure.Some? {
      return Err(failure.value);
    }
    assert canvas.layers == Bottom(size, drawPathImage) + Scattered(PreparedAll(list), path, size, st, draws, rotatedSize, n);
    r := Ok(Some(canvas));
  }

  /** The method's result matches the expected one: same failure, or a canvas holding the expected layers. */
  predicate Outcome(r: Result<Option<Canvas>, ScatterError>, e: Result<Option<seq<Layer>>, ScatterError>)
    reads if r.Ok? && r.value.Some? then {r.value.value} else {}
  {
    match r
    case Err(f) => e == Err(f)
    case Ok(None) => e == Ok(None)
    case Ok(Some(canvas)) => e == Ok(Some(canvas.layers))
  }
}
