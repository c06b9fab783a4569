/**
 * The print-image node: when triggered it saves the image under the next free
 * `prefix_NNNNN.png` name, found by scanning the existing file names for the highest number.
 * Saving, listing the folder and the printing itself are not part of this model.
 */
module ImagePrint {
  import opened Wrappers
  import opened PyText

  /**
   * The number a file name carries: `int(filename[len(prefix)+1:-4])` for names starting
   * with `prefix` and ending in `.png`; the character after the prefix is skipped unchecked.
   * `None` for names that are not considered or do not parse.
   */
  function NumberIn(name: string, prefix: string): (r: Option<nat>)
    ensures r.Some? ==> StartsWith(name, prefix) && EndsWith(name, ".png")
  {
    if StartsWith(name, prefix) && EndsWith(name, ".png") then ParseInt(Slice(name, |prefix| + 1, -4), 10) else None
  }

  /** The highest number carried by any of the names, and 0 when none carries one. */
  function Highest(names: seq<string>, prefix: string): nat
  {
    if |names| == 0 then 0
    else
      var h := Highest(names[..|names| - 1], prefix);
      var n := NumberIn(names[|names| - 1], prefix);
      if n.Some? && n.value > h then n.value else h
  }

  /** `Highest` is the maximum of 0 and every number found. */
  lemma {:induction false} HighestIsMaximum(names: seq<string>, prefix: string)
    ensures forall i :: 0 <= i < |names| && NumberIn(names[i], prefix).Some? ==> NumberIn(names[i], prefix).value <= Highest(names, prefix)
    ensures Highest(names, prefix) == 0 || exists i :: 0 <= i < |names| && NumberIn(names[i], prefix) == Some(Highest(names, prefix))
  {
    if |names| > 0 {
      var init := names[..|names| - 1];
      HighestIsMaximum(init, prefix);
      assert forall i :: 0 <= i < |init| ==> init[i] == names[i];
    }
  }

  /** `find_highest_numeric_value` over the listed file names. */
  method FindHighestNumericValue(names: seq<string>, prefix: string) returns (highest: nat)
    ensures highest == Highest(names, prefix)
  {
    highest := 0;
    for i := 0 to |names|
      invariant highest == Highest(names[..i], prefix)
    {
      assert names[..i + 1][..i] == names[..i];
      var n := NumberIn(names[i], prefix);
      if n.Some? && n.value > highest {
        highest := n.value;
      }
    }
    assert names[..|names|] == names;
  }

  /** The saved file name: `f"{filename_prefix}_{counter:05}.png"`. */
  function SavedName(prefix: string, counter: nat): string
  {
    prefix + "_" + FormatDec05(counter) + ".png"
  }

  /** A scan reads back the counter a saved name was written with. */
  lemma NumberInSavedName(prefix: string, counter: nat)
    ensures NumberIn(SavedName(prefix, counter), prefix) == Some(counter)
  {
    var d := FormatDec05(counter);
    var name := SavedName(prefix, counter);
    ParseFormatDec05(counter);
    assert name[..|prefix|] == prefix;
    assert name[|name| - 4..] == ".png";
    assert Slice(name, |prefix| + 1, -4) == d;
  }

  /** The counter `save_image` uses: one more than the highest number found. */
  method Counter(names: seq<string>, prefix: string) returns (counter: nat)
    ensures counter == Highest(names, prefix) + 1
    ensures counter >= 1
    ensures forall i :: 0 <= i < |names| && NumberIn(names[i], prefix).Some? ==> NumberIn(names[i], prefix).value < counter
  {
    var highest := FindHighestNumericValue(names, prefix);
    HighestIsMaximum(names, prefix);
    counter := highest + 1;
  }

  /** One more name whose number exceeds every earlier one sets `Highest` to that number. */
  lemma RaisedTo(names: seq<string>, name: string, prefix: string, k: nat)
    requires NumberIn(name, prefix) == Some(k) && k > Highest(names, prefix)
    ensures Highest(names + [name], prefix) == k
  {
    assert (names + [name])[..|names|] == names;
  }

  /** What `print_image` does: nothing without the trigger, otherwise save under the next name and print. */
  datatype PrintStep = NotPrinted(message: string) | SaveAndPrint(filename: string)

  /** `print_image` up to the save; `existing` lists the temporary folder the preview is saved into. */
  method PrintImage(trigger: bool, existing: seq<string>, filenamePrefix: string) returns (step: PrintStep)
    ensures !trigger ==> step == NotPrinted("No print operation performed.")
    ensures trigger ==> step == SaveAndPrint(SavedName(filenamePrefix, Highest(existing, filenamePrefix) + 1))
    ensures trigger ==> NumberIn(step.filename, filenamePrefix) == Some(Highest(existing, filenamePrefix) + 1)
    ensures trigger ==> Highest(existing + [step.filename], filenamePrefix) == Highest(existing, filenamePrefix) + 1
  {
    if !trigger {
      return NotPrinted("No print operation performed.");
    }
    var counter := Counter(existing, filenamePrefix);
    var name := SavedName(filenamePrefix, counter);
    NumberInSavedName(filenamePrefix, counter);
    RaisedTo(existing, name, filenamePrefix, counter);
    step := SaveAndPrint(name);
  }
}
