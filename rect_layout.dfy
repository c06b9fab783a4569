/**
 * The rectangle-layout node: the black shapes of a background image give one bounding
 * rectangle, the image list is filtered by how well each aspect ratio matches it, one
 * match is chosen, scaled into the rectangle and centred there, and the rest of the list
 * is passed on.
 */
module RectLayout {
  import opened Wrappers
  import opened PyNum
  import opened HexColor
  import opened Images

  /** `cv2.boundingRect`: top-left corner, width and height. */
  datatype Rect = Rect(x: int, y: int, w: int, h: int)

  /** A shape is kept when its bounding rectangle covers at least `min_area` pixels. */
  predicate LargeEnough(k: Rect)
  {
    k.w * k.h >= 10
  }

  /** `[r for r in rects if r[2] * r[3] >= min_area]`. */
  function Kept(rects: seq<Rect>): (r: seq<Rect>)
    ensures forall k :: k in r <==> k in rects && LargeEnough(k)
  {
    if |rects| == 0 then []
    else if LargeEnough(rects[0]) then [rects[0]] + Kept(rects[1..])
    else Kept(rects[1..])
  }

  /** The smallest of a non-empty list. */
  function MinOf(s: seq<int>): (m: int)
    requires |s| > 0
    ensures m in s && forall v :: v in s ==> m <= v
  {
    if |s| == 1 then s[0]
    else var t := MinOf(s[1..]); assert s == [s[0]] + s[1..]; if s[0] <= t then s[0] else t
  }

  /** The largest of a non-empty list. */
  function MaxOf(s: seq<int>): (m: int)
    requires |s| > 0
    ensures m in s && forall v :: v in s ==> v <= m
  {
    if |s| == 1 then s[0]
    else var t := MaxOf(s[1..]); assert s == [s[0]] + s[1..]; if s[0] >= t then s[0] else t
  }

  function Lefts(rs: seq<Rect>): (s: seq<int>)
    ensures |s| == |rs| && forall i :: 0 <= i < |rs| ==> s[i] == rs[i].x
  {
    seq(|rs|, i requires 0 <= i < |rs| => rs[i].x)
  }

  function Tops(rs: seq<Rect>): (s: seq<int>)
    ensures |s| == |rs| && forall i :: 0 <= i < |rs| ==> s[i] == rs[i].y
  {
    seq(|rs|, i requires 0 <= i < |rs| => rs[i].y)
  }

  function Rights(rs: seq<Rect>): (s: seq<int>)
    ensures |s| == |rs| && forall i :: 0 <= i < |rs| ==> s[i] == rs[i].x + rs[i].w
  {
    seq(|rs|, i requires 0 <= i < |rs| => rs[i].x + rs[i].w)
  }

  function Bottoms(rs: seq<Rect>): (s: seq<int>)
    ensures |s| == |rs| && forall i :: 0 <= i < |rs| ==> s[i] == rs[i].y + rs[i].h
  {
    seq(|rs|, i requires 0 <= i < |rs| => rs[i].y + rs[i].h)
  }

  /**
   * `find_bounding_rectangle` after contour detection: the box around every shape large
   * enough to keep, at least one pixel wide and high; `None` when no shape is kept.
   */
  function BoundingRectangle(rects: seq<Rect>): (r: Option<Rect>)
    ensures r.None? <==> forall k :: k in rects ==> !LargeEnough(k)
    ensures r.Some? ==> r.value.w >= 1 && r.value.h >= 1
  {
    var kept := Kept(rects);
    if |kept| == 0 then None
    else
      assert kept[0] in kept;
      var x := MinOf(Lefts(kept));
      var y := MinOf(Tops(kept));
      var width := MaxOf(Rights(kept)) - x;
      var height := MaxOf(Bottoms(kept)) - y;
      Some(Rect(x, y, if width >= 1 then width else 1, if height >= 1 then height else 1))
  }

  /** `k` lies inside `r`, borders included. */
  predicate Contains(r: Rect, k: Rect)
  {
    r.x <= k.x && k.x + k.w <= r.x + r.w && r.y <= k.y && k.y + k.h <= r.y + r.h
  }

  /** One kept shape touches the box on the left and one on the top. */
  predicate TouchesTopLeft(r: Rect, rects: seq<Rect>)
  {
    (exists k :: k in rects && LargeEnough(k) && k.x == r.x) &&
    (exists k :: k in rects && LargeEnough(k) && k.y == r.y)
  }

  /** The box reaches the right and bottom edges of some kept shape, or is one pixel there. */
  predicate TouchesBottomRight(r: Rect, rects: seq<Rect>)
  {
    (r.w == 1 || exists k :: k in rects && LargeEnough(k) && k.x + k.w == r.x + r.w) &&
    (r.h == 1 || exists k :: k in rects && LargeEnough(k) && k.y + k.h == r.y + r.h)
  }

  /** The box contains every kept shape. */
  lemma BoundingRectangleContains(rects: seq<Rect>, k: Rect)
    requires BoundingRectangle(rects).Some? && k in rects && LargeEnough(k)
    ensures Contains(BoundingRectangle(rects).value, k)
  {
    var kept := Kept(rects);
    var i :| 0 <= i < |kept| && kept[i] == k;
    assert Lefts(kept)[i] in Lefts(kept) && Tops(kept)[i] in Tops(kept);
    assert Rights(kept)[i] in Rights(kept) && Bottoms(kept)[i] in Bottoms(kept);
  }

  /** Every entry of `Kept` is a shape of the input that is large enough. */
  lemma KeptMember(rects: seq<Rect>, i: nat)
    requires i < |Kept(rects)|
    ensures Kept(rects)[i] in rects && LargeEnough(Kept(rects)[i])
  {
    assert Kept(rects)[i] in Kept(rects);
  }

  /** No smaller box would do: some kept shape reaches its left edge and one its top edge. */
  lemma BoundingRectangleTightTopLeft(rects: seq<Rect>)
    requires BoundingRectangle(rects).Some?
    ensures TouchesTopLeft(BoundingRectangle(rects).value, rects)
  {
    var kept := Kept(rects);
    var r := BoundingRectangle(rects).value;
    var i :| 0 <= i < |kept| && Lefts(kept)[i] == r.x;
    KeptMember(rects, i);
    var j :| 0 <= j < |kept| && Tops(kept)[j] == r.y;
    KeptMember(rects, j);
  }

  /** Likewise on the right and bottom, unless the box was raised to one pixel there. */
  lemma BoundingRectangleTightBottomRight(rects: seq<Rect>)
    requires BoundingRectangle(rects).Some?
    ensures TouchesBottomRight(BoundingRectangle(rects).value, rects)
  {
    var kept := Kept(rects);
    var p :| 0 <= p < |kept| && Rights(kept)[p] == MaxOf(Rights(kept));
    KeptMember(rects, p);
    var q :| 0 <= q < |kept| && Bottoms(kept)[q] == MaxOf(Bottoms(kept));
    KeptMember(rects, q);
  }

  /**
   * `fit_image_to_rect`: the size of the picture scaled, aspect ratio kept, into the
   * rectangle (whose sides are first raised to 1). A zero-height picture makes the aspect
   * division fail, and the source then keeps the picture's own size.
   */
  function FitSize(p: Picture, rectWidth: int, rectHeight: int): (r: (int, int))
  {
    if p.height == 0 then (p.width, p.height)
    else
      var rw := if rectWidth >= 1 then rectWidth else 1;
      var rh := if rectHeight >= 1 then rectHeight else 1;
      var imgAspect := p.width as real / p.height as real;
      var rectAspect := rw as real / rh as real;
      var newW := if imgAspect > rectAspect then rw else Trunc(rh as real * imgAspect);
      var newH := if imgAspect > rectAspect then Trunc(rw as real / imgAspect) else rh;
      (if newW >= 1 then newW else 1, if newH >= 1 then newH else 1)
  }

  /** A wider picture scaled to the rectangle's width is no higher than the rectangle. */
  lemma WideFits(rw: real, rh: real, a: real)
    requires rw > 0.0 && rh > 0.0 && a > rw / rh
    ensures 0.0 < rw / a < rh
  {
    assert rw == (rw / rh) * rh;
    assert rw < a * rh;
    assert rw / a < rh;
  }

  /** A narrower picture scaled to the rectangle's height is no wider than the rectangle. */
  lemma TallFits(rw: real, rh: real, a: real)
    requires rw > 0.0 && rh > 0.0 && 0.0 <= a <= rw / rh
    ensures 0.0 <= rh * a <= rw
  {
    assert rw == (rw / rh) * rh;
  }

  /** The fitted size lies within `[1, rect]` on both sides and meets the rectangle on one. */
  lemma FitSizeInside(p: Picture, rectWidth: int, rectHeight: int)
    requires p.height > 0
    ensures var rw := if rectWidth >= 1 then rectWidth else 1;
      var rh := if rectHeight >= 1 then rectHeight else 1;
      var (w, h) := FitSize(p, rectWidth, rectHeight);
      1 <= w <= rw && 1 <= h <= rh && (w == rw || h == rh)
  {
    var rw := if rectWidth >= 1 then rectWidth else 1;
    var rh := if rectHeight >= 1 then rectHeight else 1;
    var imgAspect := p.width as real / p.height as real;
    if imgAspect > rw as real / rh as real {
      WideFits(rw as real, rh as real, imgAspect);
    } else {
      TallFits(rw as real, rh as real, imgAspect);
    }
  }

  /**
   * `calculate_aspect_ratio_difference`: how many times the larger ratio exceeds the
   * smaller, minus one; `None` stands for the infinite difference of a non-positive ratio.
   */
  function AspectDifference(imgAspect: real, rectAspect: real): (d: Option<real>)
    ensures d.None? <==> imgAspect <= 0.0 || rectAspect <= 0.0
  {
    if imgAspect <= 0.0 || rectAspect <= 0.0 then None
    else if imgAspect > rectAspect then Some(imgAspect / rectAspect - 1.0)
    else Some(rectAspect / imgAspect - 1.0)
  }

  /** The difference is never negative, does not depend on the order, and is zero only for equal ratios. */
  lemma AspectDifferenceMetric(a: real, b: real)
    requires a > 0.0 && b > 0.0
    ensures AspectDifference(a, b) == AspectDifference(b, a)
    ensures AspectDifference(a, b).value >= 0.0
    ensures AspectDifference(a, b).value == 0.0 <==> a == b
  {
    if a > b {
      RatioAboveOne(a, b);
    } else if b > a {
      RatioAboveOne(b, a);
    }
  }

  lemma RatioAboveOne(a: real, b: real)
    requires a > b > 0.0
    ensures a / b > 1.0
  {
    var q := a / b;
    assert q * b == a;
  }

  /** `width / height if height > 0 else 0`. */
  function AspectOf(p: Picture): real
  {
    if p.height > 0 then p.width as real / p.height as real else 0.0
  }

  /** `difference <= aspect_ratio_threshold`; an infinite difference never passes. */
  predicate Suitable(p: Picture, target: real, threshold: real)
  {
    var d := AspectDifference(AspectOf(p), target);
    d.Some? && d.value <= threshold
  }

  /** The list of indices is strictly increasing. */
  predicate Increasing(s: seq<nat>)
  {
    forall i, j :: 0 <= i < j < |s| ==> s[i] < s[j]
  }

  /**
   * `select_best_matching_image`: the indices of the suitable pictures in list order, and
   * their aspect ratios alongside.
   */
  method SelectBestMatching(list: seq<Picture>, target: real, threshold: real)
    returns (indices: seq<nat>, ratios: seq<real>)
    ensures Increasing(indices)
    ensures forall i :: 0 <= i < |list| ==> (i in indices <==> Suitable(list[i], target, threshold))
    ensures forall i :: i in indices ==> i < |list|
    ensures |ratios| == |indices|
    ensures forall k :: 0 <= k < |indices| ==> indices[k] < |list| && ratios[k] == AspectOf(list[indices[k]])
  {
    indices, ratios := [], [];
    for i := 0 to |list|
      invariant Increasing(indices)
      invariant forall j :: 0 <= j < |list| ==> (j in indices <==> j < i && Suitable(list[j], target, threshold))
      invariant forall j :: j in indices ==> j < i
      invariant |ratios| == |indices|
      invariant forall k :: 0 <= k < |indices| ==> indices[k] < i && ratios[k] == AspectOf(list[indices[k]])
    {
      if Suitable(list[i], target, threshold) {
        indices := indices + [i];
        ratios := ratios + [AspectOf(list[i])];
      }
    }
  }

  /** `abs(v)` on reals. */
  function Abs(v: real): (r: real)
    ensures r >= 0.0 && (r == v || r == -v)
  {
    if v >= 0.0 then v else -v
  }

  /** `differences.index(min(differences))`: the first position holding the smallest value. */
  function FirstArgMin(ds: seq<real>): (k: nat)
    requires |ds| > 0
    ensures k < |ds|
    ensures forall j :: 0 <= j < |ds| ==> ds[k] <= ds[j]
    ensures forall j :: 0 <= j < k ==> ds[j] > ds[k]
  {
    if |ds| == 1 then 0
    else
      var k := FirstArgMin(ds[1..]) + 1;
      if ds[0] <= ds[k] then 0 else k
  }

  /** `[img for i, img in enumerate(image_list) if i != selected_index]`. */
  function Without<T>(s: seq<T>, k: nat): (r: seq<T>)
    requires k < |s|
    ensures |r| == |s| - 1
  {
    s[..k] + s[k + 1..]
  }

  /** Dropping one entry keeps the others in order: the rest recombines with it into the input. */
  lemma WithoutPartition<T>(s: seq<T>, k: nat)
    requires k < |s|
    ensures multiset(Without(s, k)) + multiset{s[k]} == multiset(s)
    ensures forall i :: 0 <= i < k ==> Without(s, k)[i] == s[i]
    ensures forall i :: k <= i < |s| - 1 ==> Without(s, k)[i] == s[i + 1]
  {
    assert s == s[..k] + [s[k]] + s[k + 1..];
  }

  /** `x + (width - fitted_width) // 2`. */
  function CentreOrigin(x: int, width: int, fitted: int): int
  {
    x + FloorDiv(width - fitted, 2)
  }

  /** A fitted side no longer than the rectangle's lies wholly inside it once centred. */
  lemma CentredInside(x: int, width: int, fitted: int)
    requires 1 <= fitted <= width
    ensures x <= CentreOrigin(x, width, fitted)
    ensures CentreOrigin(x, width, fitted) + fitted <= x + width
  {
  }

  /** What an output image starts from. */
  datatype Base = Given | Transparent | BackgroundCopy

  /** A picture pasted, through its own alpha, with its top-left corner at `(x, y)`. */
  datatype Placement = Placement(picture: Picture, x: int, y: int, width: int, height: int)

  /** A two-pixel outline over the corners `[x0, y0, x1, y1]`. */
  datatype Outline = Outline(x0: int, y0: int, x1: int, y1: int, colour: Rgb)

  /** An output image: its base, what was pasted on it, and the outlines drawn over it. */
  datatype Layer = Layer(base: Base, pasted: Option<Placement>, outlines: seq<Outline>)

  /** The node's outputs `(IMAGE, RECT_PREVIEW, REMAINING_IMAGE_LIST)`. */
  datatype Output = Output(image: Layer, preview: Layer, remaining: seq<Picture>)

  const Untouched := Layer(Given, None, [])

  /** The index `exec` takes from the suitable ones: a random one, or the first best match. */
  function SelectedIndex(indices: seq<nat>, ratios: seq<real>, target: real, randomSelect: bool, pick: nat): (sel: nat)
    requires |indices| > 0 && |ratios| == |indices|
    ensures sel in indices
  {
    if randomSelect then indices[pick % |indices|]
    else if |indices| > 1 then indices[FirstArgMin(seq(|ratios|, i requires 0 <= i < |ratios| => Abs(ratios[i] - target)))]
    else indices[0]
  }

  /** Without random selection the chosen ratio is the closest to the target, and the first such. */
  lemma SelectedPosition(indices: seq<nat>, ratios: seq<real>, target: real, pick: nat) returns (k: nat)
    requires |indices| > 0 && |ratios| == |indices|
    ensures k < |indices| && indices[k] == SelectedIndex(indices, ratios, target, false, pick)
    ensures forall j :: 0 <= j < |ratios| ==> Abs(ratios[k] - target) <= Abs(ratios[j] - target)
    ensures forall j :: 0 <= j < k ==> Abs(ratios[j] - target) > Abs(ratios[k] - target)
  {
    var ds := seq(|ratios|, i requires 0 <= i < |ratios| => Abs(ratios[i] - target));
    if |indices| > 1 {
      k := FirstArgMin(ds);
      assert forall j :: 0 <= j < |ratios| ==> ds[j] == Abs(ratios[j] - target);
    } else {
      k := 0;
    }
  }

  /** `list[sel]` is suitable, no suitable picture is closer to the target, and none before it is as close. */
  predicate BestMatch(list: seq<Picture>, sel: nat, target: real, threshold: real)
    requires sel < |list|
  {
    && Suitable(list[sel], target, threshold)
    && (forall j :: 0 <= j < |list| && Suitable(list[j], target, threshold) ==>
          Abs(AspectOf(list[sel]) - target) <= Abs(AspectOf(list[j]) - target))
    && (forall j :: 0 <= j < sel && Suitable(list[j], target, threshold) ==>
          Abs(AspectOf(list[j]) - target) > Abs(AspectOf(list[sel]) - target))
  }

  /** Over the output of `SelectBestMatching`, the best-match choice is the first closest suitable picture. */
  lemma SelectionIsBestMatch(list: seq<Picture>, target: real, threshold: real, indices: seq<nat>, ratios: seq<real>, pick: nat)
    requires |indices| > 0 && |ratios| == |indices| && Increasing(indices)
    requires forall i :: 0 <= i < |list| ==> (i in indices <==> Suitable(list[i], target, threshold))
    requires forall k :: 0 <= k < |indices| ==> indices[k] < |list| && ratios[k] == AspectOf(list[indices[k]])
    ensures SelectedIndex(indices, ratios, target, false, pick) < |list|
    ensures BestMatch(list, SelectedIndex(indices, ratios, target, false, pick), target, threshold)
  {
    var sel := SelectedIndex(indices, ratios, target, false, pick);
    var k := SelectedPosition(indices, ratios, target, pick);
    assert ratios[k] == AspectOf(list[sel]);
    forall j | 0 <= j < |list| && Suitable(list[j], target, threshold)
      ensures Abs(AspectOf(list[sel]) - target) <= Abs(AspectOf(list[j]) - target)
      ensures j < sel ==> Abs(AspectOf(list[j]) - target) > Abs(AspectOf(list[sel]) - target)
    {
      assert j in indices;
      var m :| 0 <= m < |indices| && indices[m] == j;
      assert ratios[m] == AspectOf(list[j]);
      assert Abs(ratios[k] - target) <= Abs(ratios[m] - target);
      if j < sel {
        assert m < k;
      }
    }
  }

  /**
   * `exec` after the background has been reduced to its picture size and the bounding
   * rectangles of its black shapes. `imageList` is `None` when the input is not a list;
   * `pick` is what `random.choice` draws.
   */
  method Exec(background: Picture, shapes: seq<Rect>, imageList: Option<seq<Picture>>, aspectRatioThreshold: real,
              useBackgroundIfNoMatch: bool, randomSelect: bool, pick: nat)
    returns (out: Output)
    ensures imageList.None? || |imageList.value| == 0 ==> out == Output(Untouched, Untouched, [])
    ensures imageList.Some? && |imageList.value| > 0 && BoundingRectangle(shapes).None? ==>
      out == Output(Untouched, Untouched, imageList.value)
    ensures imageList.Some? && |imageList.value| > 0 && BoundingRectangle(shapes).Some? ==>
      var list := imageList.value;
      var rect := BoundingRectangle(shapes).value;
      var target := rect.w as real / rect.h as real;
      var threshold := ClampReal(aspectRatioThreshold, 0.01, 0.5);
      if forall i :: 0 <= i < |list| ==> !Suitable(list[i], target, threshold) then
        out == if useBackgroundIfNoMatch then Output(Untouched, Untouched, list)
               else Output(Layer(Transparent, None, []), Layer(BackgroundCopy, None, []), list)
      else
        exists sel :: 0 <= sel < |list| && Suitable(list[sel], target, threshold) &&
          (!randomSelect ==> BestMatch(list, sel, target, threshold)) &&
          out.remaining == Without(list, sel) &&
          Placed(out, list[sel], rect)
  {
    if imageList.None? || |imageList.value| == 0 {
      return Output(Untouched, Untouched, []);
    }
    var list := imageList.value;
    var threshold := ClampReal(aspectRatioThreshold, 0.01, 0.5);
    var found := BoundingRectangle(shapes);
    if found.None? {
      return Output(Untouched, Untouched, list);
    }
    var rect := found.value;
    var target := rect.w as real / rect.h as real;
    var indices, ratios := SelectBestMatching(list, target, threshold);
    if |indices| == 0 {
      if useBackgroundIfNoMatch {
        return Output(Untouched, Untouched, list);
      }
      return Output(Layer(Transparent, None, []), Layer(BackgroundCopy, None, []), list);
    }
    var sel := SelectedIndex(indices, ratios, target, randomSelect, pick);
    if !randomSelect {
      SelectionIsBestMatch(list, target, threshold, indices, ratios, pick);
    }
    out := Compose(list[sel], rect, Without(list, sel));
  }

  /** The selected picture fitted and centred on a transparent image and on the background. */
  predicate Placed(out: Output, p: Picture, rect: Rect)
  {
    var (fw, fh) := FitSize(p, rect.w, rect.h);
    var at := Placement(p, CentreOrigin(rect.x, rect.w, fw), CentreOrigin(rect.y, rect.h, fh), fw, fh);
    && out.image == Layer(Transparent, Some(at), [])
    && out.preview == Layer(BackgroundCopy, Some(at), [
         Outline(rect.x, rect.y, rect.x + rect.w, rect.y + rect.h, Rgb(255, 0, 0)),
         Outline(at.x, at.y, at.x + fw, at.y + fh, Rgb(0, 255, 0))])
  }

  /** The two outputs of a successful selection. */
  function Compose(p: Picture, rect: Rect, remaining: seq<Picture>): (out: Output)
    ensures Placed(out, p, rect) && out.remaining == remaining
  {
    var (fw, fh) := FitSize(p, rect.w, rect.h);
    var at := Placement(p, CentreOrigin(rect.x, rect.w, fw), CentreOrigin(rect.y, rect.h, fh), fw, fh);
    Output(Layer(Transparent, Some(at), []),
           Layer(BackgroundCopy, Some(at), [
             Outline(rect.x, rect.y, rect.x + rect.w, rect.y + rect.h, Rgb(255, 0, 0)),
             Outline(at.x, at.y, at.x + fw, at.y + fh, Rgb(0, 255, 0))]),
           remaining)
  }

  /** A suitable picture has a positive height, so its fitted copy lies inside the rectangle. */
  lemma PlacementInsideRect(p: Picture, rect: Rect, target: real, threshold: real)
    requires Suitable(p, target, threshold) && rect.w >= 1 && rect.h >= 1
    ensures var (fw, fh) := FitSize(p, rect.w, rect.h);
      var px := CentreOrigin(rect.x, rect.w, fw);
      var py := CentreOrigin(rect.y, rect.h, fh);
      rect.x <= px && px + fw <= rect.x + rect.w && rect.y <= py && py + fh <= rect.y + rect.h
  {
    assert p.height > 0;
    FitSizeInside(p, rect.w, rect.h);
    var (fw, fh) := FitSize(p, rect.w, rect.h);
    CentredInside(rect.x, rect.w, fw);
    CentredInside(rect.y, rect.h, fh);
  }
}
