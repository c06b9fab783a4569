/**
 * The random-layout node: up to five images, each with an optional mask turned into an
 * appended alpha channel, are scattered `num_images` times along the dark lines of a path
 * image, onto a transparent canvas and onto a canvas that shows the path underneath.
 */
module RandomLayout {
  import opened Wrappers
  import opened Images
  import opened ImageList
  import opened Scatter

  /** The alpha channel appended to an image: `1 - mask`, or all ones without a mask. */
  function AlphaFor(mask: Option<Mask>): (a: Alpha)
    ensures a.Opaque? <==> mask.None?
  {
    if mask.Some? then InverseOf(mask.value) else Opaque
  }

  /** `batch_images`: every present image, in input order, with its alpha channel appended. */
  function Assembled(pairs: seq<(Option<Tensor>, Option<Mask>)>): seq<Source>
  {
    if |pairs| == 0 then []
    else (if pairs[0].0.Some? then [Source(pairs[0].0.value, Some(AlphaFor(pairs[0].1)))] else []) + Assembled(pairs[1..])
  }

  /** The image halves of the input pairs. */
  function ImagesOf(pairs: seq<(Option<Tensor>, Option<Mask>)>): (s: seq<Option<Tensor>>)
    ensures |s| == |pairs| && forall i :: 0 <= i < |pairs| ==> s[i] == pairs[i].0
  {
    seq(|pairs|, i requires 0 <= i < |pairs| => pairs[i].0)
  }

  /** One entry per present image, in order, each carrying an appended alpha channel. */
  lemma {:induction false} AssembledImages(pairs: seq<(Option<Tensor>, Option<Mask>)>)
    ensures |Assembled(pairs)| == |Present(ImagesOf(pairs))|
    ensures forall k :: 0 <= k < |Assembled(pairs)| ==>
      Assembled(pairs)[k].image == Present(ImagesOf(pairs))[k] && Assembled(pairs)[k].appended.Some?
  {
    if |pairs| > 0 {
      AssembledImages(pairs[1..]);
      assert ImagesOf(pairs)[1..] == ImagesOf(pairs[1..]);
    }
  }

  /** A mask whose image is absent changes nothing. */
  lemma {:induction false} MaskIgnoredWithoutImage(pairs: seq<(Option<Tensor>, Option<Mask>)>, i: nat, m: Option<Mask>)
    requires i < |pairs| && pairs[i].0.None?
    ensures Assembled(pairs[i := (None, m)]) == Assembled(pairs)
  {
    if i > 0 {
      MaskIgnoredWithoutImage(pairs[1..], i - 1, m);
      assert pairs[i := (None, m)][1..] == pairs[1..][i - 1 := (None, m)];
    }
  }

  lemma AssembledStep(pairs: seq<(Option<Tensor>, Option<Mask>)>, i: nat)
    requires i < |pairs|
    ensures Assembled(pairs[..i + 1]) == Assembled(pairs[..i]) +
      (if pairs[i].0.Some? then [Source(pairs[i].0.value, Some(AlphaFor(pairs[i].1)))] else [])
  {
    AssembledConcat(pairs[..i], [pairs[i]]);
    assert pairs[..i] + [pairs[i]] == pairs[..i + 1];
  }

  lemma {:induction false} AssembledConcat(a: seq<(Option<Tensor>, Option<Mask>)>, b: seq<(Option<Tensor>, Option<Mask>)>)
    ensures Assembled(a + b) == Assembled(a) + Assembled(b)
  {
    if |a| > 0 {
      AssembledConcat(a[1..], b);
      assert (a + b)[1..] == a[1..] + b;
    } else {
      assert a + b == b;
    }
  }

  /** The loop over the `(image_k, mask_k)` pairs that builds `batch_images`. */
  method AssembleBatch(pairs: seq<(Option<Tensor>, Option<Mask>)>) returns (batch: seq<Source>)
    ensures batch == Assembled(pairs)
  {
    batch := [];
    for i := 0 to |pairs|
      invariant batch == Assembled(pairs[..i])
    {
      AssembledStep(pairs, i);
      var (img, mask) := pairs[i];
      if img.Some? {
        batch := batch + [Source(img.value, Some(AlphaFor(mask)))];
      }
    }
    assert pairs[..|pairs|] == pairs;
  }

  /** What `exec` returns: the inputs untouched, or the scattered canvas and the one with the path. */
  datatype Outcome = Unchanged | Drawn(canvas: Canvas, withPath: Canvas)

  /**
   * `exec`: `pathImage` is the size of `tensor2pil(path_image[0])`, `extracted` what path
   * extraction found, `draws(i)` the random draws of iteration `i`, and `rotatedSize` the size
   * `rotate(expand=True)` gives.
   */
  method Exec(pathImage: Picture, extracted: Option<seq<Point>>, numImages: int, st: Settings,
              pairs: seq<(Option<Tensor>, Option<Mask>)>, draws: nat -> Draw, rotatedSize: (nat, nat, real) -> (nat, nat))
    returns (r: Result<Outcome, ScatterError>)
    ensures Assembled(pairs) == [] ==> r == Ok(Unchanged)
    ensures Assembled(pairs) != [] && numImages > 0 && !CanDraw(PathOf(extracted), pathImage) ==> r == Err(EmptyRange)
    ensures Assembled(pairs) != [] && (numImages <= 0 || CanDraw(PathOf(extracted), pathImage)) ==> r.Ok? && r.value.Drawn?
    ensures r.Ok? && r.value.Drawn? ==>
      var (canvas, withPath) := (r.value.canvas, r.value.withPath);
      var n := if numImages > 0 then numImages else 0;
      && fresh(canvas) && fresh(withPath) && canvas != withPath
      && canvas.size == pathImage && withPath.size == pathImage
      && canvas.layers == Scattered(Assembled(pairs), PathOf(extracted), pathImage, st, draws, rotatedSize, n)
      && withPath.layers == [Backdrop(pathImage)] + canvas.layers
  {
    var batch := AssembleBatch(pairs);
    if |batch| == 0 {
      return Ok(Unchanged);
    }
    var path := PathOf(extracted);
    var canvas := new Canvas(pathImage);
    var withPath := new Canvas(pathImage);
    withPath.AlphaComposite(Backdrop(pathImage));
    var n := if numImages > 0 then numImages else 0;
    for i := 0 to n
      invariant CanDraw(path, pathImage) || i == 0
      invariant canvas.layers == Scattered(batch, path, pathImage, st, draws, rotatedSize, i)
      invariant withPath.layers == [Backdrop(pathImage)] + canvas.layers
    {
      var source := batch[draws(i).imagePick % |batch|];
      if !CanDraw(path, pathImage) {
        return Err(EmptyRange);
      }
      var l := Placement(source, path, pathImage, st, draws(i), rotatedSize);
      ScatteredStep(batch, path, pathImage, st, draws, rotatedSize, i);
      canvas.AlphaComposite(l);
      withPath.AlphaComposite(l);
    }
    r := Ok(Drawn(canvas, withPath));
  }
}
