/**
 * The colour selector node: split a list of colours on a separator, strip each entry,
 * clamp the 1-based index into the list and reject an entry that is not a hex colour.
 */
module ColorSelector {
  import opened Wrappers
  import opened PyText

  /** The exceptions `select_color` can raise. */
  datatype SelectorError =
    | EmptySeparator                   // `str.split("")` raises ValueError
    | InvalidHexColor(color: string)   // the explicit ValueError for a bad entry

  /** The node's return value: the ui text and the one-element result tuple. */
  datatype Output = Output(uiBgColor: string, result: string)

  /** The regex character class `[0-9a-fA-F]`. */
  predicate IsHexDigit(c: char)
  {
    '0' <= c <= '9' || 'a' <= c <= 'f' || 'A' <= c <= 'F'
  }

  /** The group `[0-9a-fA-F]{3}` matched at position `i` of `t`. */
  predicate Group3(t: string, i: nat)
  {
    i + 3 <= |t| && IsHexDigit(t[i]) && IsHexDigit(t[i + 1]) && IsHexDigit(t[i + 2])
  }

  /** `#(?:[0-9a-fA-F]{3}){1,2}` matching the whole of `t`. */
  predicate PatternBody(t: string)
  {
    |t| >= 1 && t[0] == '#' &&
    ((|t| == 4 && Group3(t, 1)) || (|t| == 7 && Group3(t, 1) && Group3(t, 4)))
  }

  /**
   * `re.match(r'^#(?:[0-9a-fA-F]{3}){1,2}$', color)`: Python's `$` matches at the end of
   * the text and also just before a final newline.
   */
  predicate IsValidHexColor(s: string)
  {
    PatternBody(s) || (|s| > 0 && s[|s| - 1] == '\n' && PatternBody(s[..|s| - 1]))
  }

  /** `#` followed by exactly three or exactly six hex digits, in either case. */
  predicate IsShortOrLongHex(t: string)
  {
    (|t| == 4 || |t| == 7) && t[0] == '#' && forall i :: 1 <= i < |t| ==> IsHexDigit(t[i])
  }

  /** The pattern body accepts exactly `#` and three or six hex digits. */
  lemma PatternBodyExact(t: string)
    ensures PatternBody(t) <==> IsShortOrLongHex(t)
  {
    if IsShortOrLongHex(t) {
      assert Group3(t, 1);
      if |t| == 7 {
        assert Group3(t, 4);
      }
    }
  }

  /** Text without a final newline is valid exactly when it is `#` and three or six digits. */
  lemma ValidHexColorExact(s: string)
    requires s == [] || s[|s| - 1] != '\n'
    ensures IsValidHexColor(s) <==> IsShortOrLongHex(s)
  {
    PatternBodyExact(s);
  }

  /** The `$` anchor lets one trailing newline through, but four or five digits fail. */
  lemma ValidHexColorExamples()
    ensures IsValidHexColor("#fff\n")
    ensures IsValidHexColor("#0065ff")
    ensures !IsValidHexColor("#ffff")
    ensures !IsValidHexColor("fff")
  {
    assert "#fff\n"[..4] == "#fff";
    assert Group3("#fff", 1);
    assert Group3("#0065ff", 1) && Group3("#0065ff", 4);
  }

  /** `max(1, min(split_count, length)) - 1`: the 0-based index of the chosen entry. */
  function SelectIndex(count: int, length: nat): (k: int)
    requires length >= 1
    ensures 0 <= k < length
    ensures count <= 1 ==> k == 0
    ensures count >= length ==> k == length - 1
    ensures 1 <= count <= length ==> k == count - 1
  {
    var m := if count < length then count else length;
    (if m > 1 then m else 1) - 1
  }

  /** `[color.strip() for color in hex_colors.split(symbol)]`. */
  function ColorList(hexColors: string, symbol: string): (r: seq<string>)
    requires |symbol| > 0
    ensures |r| == |Split(hexColors, symbol)| >= 1
    ensures forall i :: 0 <= i < |r| ==> r[i] == Strip(Split(hexColors, symbol)[i])
  {
    var parts := Split(hexColors, symbol);
    seq(|parts|, i requires 0 <= i < |parts| => Strip(parts[i]))
  }

  /**
   * `select_color(hex_colors, symbol, split_count)`. The chosen entry is the clamped one;
   * it is returned, identically in the ui and the result, exactly when it is a valid hex
   * colour, and then it is `#` and three or six hex digits with no surrounding whitespace
   * (the newline the pattern would let through never survives `strip()`).
   */
  function SelectColor(hexColors: string, symbol: string, count: int): (r: Result<Output, SelectorError>)
    ensures |symbol| == 0 <==> r == Err(EmptySeparator)
    ensures |symbol| > 0 ==>
      var list := ColorList(hexColors, symbol);
      var chosen := list[SelectIndex(count, |list|)];
      && (r.Ok? <==> IsValidHexColor(chosen))
      && (r.Ok? ==> r.value.uiBgColor == r.value.result == chosen && IsShortOrLongHex(chosen))
      && (r.Ok? ==> !IsSpace(chosen[0]) && !IsSpace(chosen[|chosen| - 1]))
      && (r.Err? ==> r.error == InvalidHexColor(chosen))
  {
    if |symbol| == 0 then Err(EmptySeparator)
    else
      var list := ColorList(hexColors, symbol);
      var chosen := list[SelectIndex(count, |list|)];
      ValidHexColorExact(chosen);
      if IsValidHexColor(chosen) then Ok(Output(chosen, chosen)) else Err(InvalidHexColor(chosen))
  }
}
