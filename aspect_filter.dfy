/**
 * The aspect-ratio filter node: a batch of images keeps the frames whose width-to-height
 * ratio lies in `[min, max]`, or falls back to a default image; a text report has one line
 * per frame.
 */
module AspectFilter {
  import opened Wrappers
  import opened PyText

  /** What `filter` raises instead of returning. */
  datatype FilterError =
    | NotFourDimensional   // `ValueError` for a tensor that is not `(batch, height, width, channels)`
    | ZeroHeight           // `width / height` with `height == 0` in the first iteration

  /** The returned image: frames of the input batch (in batch order), or `default_image` itself. */
  datatype Chosen = Frames(indices: seq<nat>) | DefaultImage

  /** The ratio was in range: every frame index, in order. */
  function AllFrames(n: nat): (s: seq<nat>)
    ensures |s| == n && forall i :: 0 <= i < n ==> s[i] == i
  {
    seq(n, i requires 0 <= i < n => i)
  }

  /**
   * The report line for frame `i`; `fmt4` stands for the `:.4f` float formatting, which is not
   * part of this model.
   */
  function UiLine(i: nat, ratio: real, width: nat, height: nat, fmt4: real -> string): string
  {
    "image " + ToDigits(i, 10) + " - 宽高比: " + fmt4(ratio) + " - 尺寸: (" + ToDigits(width, 10) + ", " +
    ToDigits(height, 10) + ")"
  }

  const NoMatchLine := "没有图像符合给定的宽高比标准。使用默认图像。"

  /** The report lines of the first `n` frames. */
  function FrameLines(n: nat, ratio: real, width: nat, height: nat, fmt4: real -> string): (lines: seq<string>)
    ensures |lines| == n
  {
    seq(n, i requires 0 <= i < n => UiLine(i, ratio, width, height, fmt4))
  }

  lemma FrameLinesStep(n: nat, ratio: real, width: nat, height: nat, fmt4: real -> string)
    ensures FrameLines(n + 1, ratio, width, height, fmt4) == FrameLines(n, ratio, width, height, fmt4) + [UiLine(n, ratio, width, height, fmt4)]
  {
  }

  /** All the report lines: one per frame, then the fallback notice when nothing was kept. */
  function UiLines(batch: nat, ratio: real, width: nat, height: nat, kept: bool, fmt4: real -> string): (lines: seq<string>)
    ensures |lines| == batch + (if kept then 0 else 1)
  {
    FrameLines(batch, ratio, width, height, fmt4) + (if kept then [] else [NoMatchLine])
  }

  /** `min_aspect_ratio <= aspect_ratio <= max_aspect_ratio`. */
  predicate InBounds(ratio: real, minRatio: real, maxRatio: real)
  {
    minRatio <= ratio <= maxRatio
  }

  /**
   * `filter`: `shape` is `images.shape`. Every frame shares the one ratio `width / height`,
   * so either the whole batch is kept or `default_image` is returned.
   */
  method Filter(shape: seq<nat>, minRatio: real, maxRatio: real, fmt4: real -> string)
    returns (r: Result<(Chosen, string), FilterError>)
    ensures |shape| != 4 ==> r == Err(NotFourDimensional)
    ensures |shape| == 4 && shape[0] > 0 && shape[1] == 0 ==> r == Err(ZeroHeight)
    ensures |shape| == 4 && (shape[0] == 0 || shape[1] > 0) ==> (r.Ok? &&
      var (batch, height, width) := (shape[0], shape[1], shape[2]);
      var ratio := if height > 0 then width as real / height as real else 0.0;
      var kept := batch > 0 && InBounds(ratio, minRatio, maxRatio);
      && r.value.0 == (if kept then Frames(AllFrames(batch)) else DefaultImage)
      && r.value.1 == Join(UiLines(batch, ratio, width, height, kept, fmt4), "\n"))
  {
    if |shape| != 4 {
      return Err(NotFourDimensional);
    }
    var batch, height, width := shape[0], shape[1], shape[2];
    var valid: seq<nat> := [];
    var lines: seq<string> := [];
    var ratio := 0.0;
    for i := 0 to batch
      invariant i > 0 ==> height > 0 && ratio == width as real / height as real
      invariant lines == FrameLines(i, ratio, width, height, fmt4)
      invariant valid == if i > 0 && InBounds(ratio, minRatio, maxRatio) then AllFrames(i) else []
    {
      if height == 0 {
        return Err(ZeroHeight);
      }
      ratio := width as real / height as real;
      FrameLinesStep(i, ratio, width, height, fmt4);
      lines := lines + [UiLine(i, ratio, width, height, fmt4)];
      if InBounds(ratio, minRatio, maxRatio) {
        valid := valid + [i];
      }
    }
    var chosen := if |valid| == 0 then DefaultImage else Frames(valid);
    if |valid| == 0 {
      lines := lines + [NoMatchLine];
    }
    assert lines == UiLines(batch, if height > 0 then width as real / height as real else 0.0, width, height, |valid| > 0, fmt4);
    r := Ok((chosen, Join(lines, "\n")));
  }

  /** The kept frames are the whole batch or none of it. */
  lemma AllOrNone(shape: seq<nat>, minRatio: real, maxRatio: real, chosen: Chosen)
    requires |shape| == 4 && shape[1] > 0
    requires chosen == (if shape[0] > 0 && InBounds(shape[2] as real / shape[1] as real, minRatio, maxRatio)
                        then Frames(AllFrames(shape[0])) else DefaultImage)
    ensures chosen.Frames? ==> |chosen.indices| == shape[0] && forall i :: 0 <= i < shape[0] ==> i in chosen.indices
    ensures chosen.DefaultImage? ==> shape[0] == 0 || !InBounds(shape[2] as real / shape[1] as real, minRatio, maxRatio)
  {
    if chosen.Frames? {
      forall i | 0 <= i < shape[0]
        ensures i in chosen.indices
      {
        assert chosen.indices[i] == i;
      }
    }
  }

  /**
   * Splitting the report at newlines gives back one line per frame, plus one when the
   * default image was used, as long as the number formatting writes no newline.
   */
  lemma ReportLines(batch: nat, ratio: real, width: nat, height: nat, kept: bool, fmt4: real -> string)
    requires batch > 0 || !kept
    requires forall x :: Avoids(fmt4(x), "\n")
    ensures Split(Join(UiLines(batch, ratio, width, height, kept, fmt4), "\n"), "\n") == UiLines(batch, ratio, width, height, kept, fmt4)
    ensures |Split(Join(UiLines(batch, ratio, width, height, kept, fmt4), "\n"), "\n")| == batch + (if kept then 0 else 1)
  {
    var lines := UiLines(batch, ratio, width, height, kept, fmt4);
    forall k | 0 <= k < |lines|
      ensures Avoids(lines[k], "\n")
    {
      if k < batch {
        DecimalAvoidsNewline(k);
        DecimalAvoidsNewline(width);
        DecimalAvoidsNewline(height);
        assert Avoids(fmt4(ratio), "\n");
        assert lines[k] == FrameLines(batch, ratio, width, height, fmt4)[k] == UiLine(k, ratio, width, height, fmt4);
      } else {
        assert lines[k] == NoMatchLine;
      }
    }
    SplitJoinAvoiding(lines, "\n");
  }

  /** Decimal digits are never a newline. */
  lemma DecimalAvoidsNewline(n: nat)
    ensures Avoids(ToDigits(n, 10), "\n")
  {
    var d := ToDigits(n, 10);
    forall i | 0 <= i < |d|
      ensures d[i] !in "\n"
    {
      assert AllDecimal(d);
    }
  }
}
