/**
 * The older colour selector at the repository root: split, clamp the index, drop every
 * space character from the chosen entry. There is no validation.
 */
module LegacyColorSelector {
  import opened Wrappers
  import opened PyText
  import ColorSelector

  /** `str.split("")` raises ValueError; nothing else can fail. */
  datatype LegacyError = EmptySeparator

  /** The ui text and the result, each a one-element tuple. */
  datatype Output = Output(uiText: string, result: string)

  /** `max(0, min(split_count - 1, length - 1))`. */
  function LegacyIndex(count: int, length: nat): (k: int)
    requires length >= 1
    ensures 0 <= k < length
    ensures count <= 1 ==> k == 0
    ensures count >= length ==> k == length - 1
  {
    var m := if count - 1 < length - 1 then count - 1 else length - 1;
    if 0 > m then 0 else m
  }

  /** The legacy clamp picks the same entry as the newer `max(1, min(count, length)) - 1`. */
  lemma LegacyIndexAgrees(count: int, length: nat)
    requires length >= 1
    ensures LegacyIndex(count, length) == ColorSelector.SelectIndex(count, length)
  {
  }

  /**
   * `select_color(hex_colors, symbol, split_count)`: the clamped segment with every `' '`
   * removed, the same text in the ui and the result. Other whitespace, such as a newline,
   * is kept.
   */
  function SelectColor(hexColors: string, symbol: string, count: int): (r: Result<Output, LegacyError>)
    ensures r.Err? <==> |symbol| == 0
    ensures r.Ok? ==>
      var parts := Split(hexColors, symbol);
      var chosen := parts[LegacyIndex(count, |parts|)];
      && r.value.uiText == r.value.result
      && r.value.result == RemoveChar(chosen, ' ')
      && ' ' !in r.value.result
      && (forall d :: d != ' ' ==> multiset(r.value.result)[d] == multiset(chosen)[d])
  {
    if |symbol| == 0 then Err(EmptySeparator)
    else
      var parts := Split(hexColors, symbol);
      var out := RemoveChar(parts[LegacyIndex(count, |parts|)], ' ');
      Ok(Output(out, out))
  }

  /**
   * A segment without spaces comes back exactly, and spaces between two texts only join
   * them: the non-space characters keep their order.
   */
  lemma SpacesOnlyDropped(a: string, b: string)
    requires ' ' !in a && ' ' !in b
    ensures RemoveChar(a + " " + b, ' ') == a + b
    ensures RemoveChar(a, ' ') == a
  {
    var sp: string := " ";
    RemoveCharAbsent(a, ' ');
    RemoveCharAbsent(b, ' ');
    assert RemoveChar(sp, ' ') == "" by {
      assert sp[1..] == "";
    }
    RemoveCharConcat(a, sp, ' ');
    assert RemoveChar(a + sp, ' ') == a;
    RemoveCharConcat(a + sp, b, ' ');
  }
}
