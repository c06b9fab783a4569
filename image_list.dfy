/** The image-list node: two required images followed by whichever optional ones were connected. */
module ImageList {
  import opened Wrappers

  /** The values of the present entries, in order. */
  function Present<T>(s: seq<Option<T>>): (r: seq<T>)
    ensures |r| <= |s|
    ensures forall i :: 0 <= i < |s| && s[i].Some? ==> s[i].value in r
    ensures forall v :: v in r ==> Some(v) in s
  {
    if |s| == 0 then []
    else (if s[0].Some? then [s[0].value] else []) + Present(s[1..])
  }

  /** The present values of two lists in a row are those of the first, then those of the second. */
  lemma {:induction false} PresentConcat<T>(a: seq<Option<T>>, b: seq<Option<T>>)
    ensures Present(a + b) == Present(a) + Present(b)
  {
    if |a| == 0 {
      assert a + b == b;
    } else {
      assert (a + b)[0] == a[0];
      assert (a + b)[1..] == a[1..] + b;
      PresentConcat(a[1..], b);
    }
  }

  /** A single entry contributes its value when present and nothing when absent. */
  lemma PresentSingle<T>(o: Option<T>)
    ensures Present([o]) == (if o.Some? then [o.value] else [])
  {
    assert [o][1..] == [];
  }

  /** With every entry present nothing is dropped. */
  lemma {:induction false} PresentAll<T>(s: seq<Option<T>>)
    requires forall i :: 0 <= i < |s| ==> s[i].Some?
    ensures |Present(s)| == |s|
    ensures forall i :: 0 <= i < |s| ==> Present(s)[i] == s[i].value
  {
    if |s| > 0 {
      PresentAll(s[1..]);
    }
  }

  /**
   * `doit`: `image1` and `image2`, then `image3` and `image4` appended when they are not
   * `None`. The node wraps the list in a one-element tuple.
   */
  method Doit<T>(image1: T, image2: T, image3: Option<T>, image4: Option<T>) returns (images: seq<T>)
    ensures 2 <= |images| <= 4
    ensures images[..2] == [image1, image2]
    ensures images[2..] == Present([image3, image4])
    ensures images == [image1, image2] + (if image3.Some? then [image3.value] else [])
                                        + (if image4.Some? then [image4.value] else [])
  {
    images := [];
    images := images + [image1];
    images := images + [image2];
    if image3.Some? {
      images := images + [image3.value];
    }
    if image4.Some? {
      images := images + [image4.value];
    }
    assert [image3, image4][1..] == [image4];
    assert [image4][1..] == [];
  }
}
