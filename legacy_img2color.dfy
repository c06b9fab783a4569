/**
 * The older image-to-colour node at the repository root. Its `main` stores the parsed
 * exclusion list and the iteration count on the node object, which `join_and_exclude`
 * then reads; `generate_palette` groups cluster centres by dominant channel, sorts each
 * group by luminance and lays the colours out as cells of a palette.
 */
module LegacyImg2Color {
  import opened Wrappers
  import opened PyText
  import opened PyNum
  import opened HexColor
  import ImageToColor

  /** `int(x)` per channel, with no clamping: out-of-range centres pass through. */
  function NdarraysToRgb(cs: seq<ImageToColor.Centre>): (rs: seq<Rgb>)
    ensures |rs| == |cs|
    ensures forall i :: 0 <= i < |cs| ==> rs[i] == Rgb(Trunc(cs[i].r), Trunc(cs[i].g), Trunc(cs[i].b))
  {
    seq(|cs|, i requires 0 <= i < |cs| => Rgb(Trunc(cs[i].r), Trunc(cs[i].g), Trunc(cs[i].b)))
  }

  /** Every channel of every centre lies in 0..255. */
  predicate CentresInRange(cs: seq<ImageToColor.Centre>)
  {
    forall i :: 0 <= i < |cs| ==> 0.0 <= cs[i].r <= 255.0 && 0.0 <= cs[i].g <= 255.0 && 0.0 <= cs[i].b <= 255.0
  }

  /** On in-range centres the unclamped truncation agrees with the newer clamping one. */
  lemma NdarraysToRgbAgrees(cs: seq<ImageToColor.Centre>)
    requires CentresInRange(cs)
    ensures NdarraysToRgb(cs) == ImageToColor.NdarraysToRgb(cs)
  {
  }

  /** A centre above 255 is not clamped and truncates to a value outside the byte range. */
  lemma NdarraysToRgbNoClamp()
    ensures NdarraysToRgb([ImageToColor.Centre(300.5, 0.0, 0.0)])[0].r == 300
  {
  }

  /** `[c.strip().lower() for c in pieces]`. */
  function StripLowerAll(pieces: seq<string>): (r: seq<string>)
    ensures |r| == |pieces|
    ensures forall i :: 0 <= i < |pieces| ==> r[i] == Lower(Strip(pieces[i]))
  {
    seq(|pieces|, i requires 0 <= i < |pieces| => Lower(Strip(pieces[i])))
  }

  /**
   * The exclusion list `main` stores: `[]` for blank text, otherwise every comma-separated
   * piece stripped and lower-cased, empty pieces included.
   */
  function ParseExclude(text: string): (r: seq<string>)
    ensures Strip(text) == [] ==> r == []
    ensures Strip(text) != [] ==> |r| == |Split(Strip(text), ",")|
    ensures Strip(text) != [] ==> r == StripLowerAll(Split(Strip(text), ","))
  {
    if Strip(text) != [] then StripLowerAll(Split(Strip(text), ",")) else []
  }

  /** The items of a list that are not empty, in order. */
  function NonEmpty(items: seq<string>): (r: seq<string>)
    ensures forall e :: e in r <==> e in items && e != []
  {
    if |items| == 0 then [] else (if items[0] == [] then [] else [items[0]]) + NonEmpty(items[1..])
  }

  /** The newer parser is the legacy one with the empty items dropped. */
  lemma ParseExcludeAgrees(text: string)
    ensures ImageToColor.ParseExcluded(text) == NonEmpty(ParseExclude(text))
  {
    var t := Strip(text);
    if t == [] {
      ImageToColor.ParseExcludedBlank(text);
    } else {
      StripLowerNonEmptyAgrees(Split(t, ","));
    }
  }

  /** Filtering before or after lower-casing is the same, because lower-casing keeps length. */
  lemma {:induction false} StripLowerNonEmptyAgrees(pieces: seq<string>)
    ensures ImageToColor.StripLowerNonEmpty(pieces) == NonEmpty(StripLowerAll(pieces))
  {
    if |pieces| > 0 {
      StripLowerNonEmptyAgrees(pieces[1..]);
      assert StripLowerAll(pieces)[1..] == StripLowerAll(pieces[1..]);
    }
  }

  /** The node object; the fields `main` stores for later calls. */
  class Img2Color {
    var exclude: seq<string>
    var numIterations: int

    /** Before `main` runs, nothing is excluded. */
    constructor ()
      ensures exclude == [] && numIterations == 0
    {
      exclude := [];
      numIterations := 0;
    }

    /** `join_and_exclude`: the colours whose lower-case form is not stored, joined by `", "`. */
    function JoinAndExclude(colors: seq<string>): string
      reads this
    {
      Join(ImageToColor.KeepNotExcluded(colors, exclude), ", ")
    }

    /**
     * `main` given the cluster centres: stores the exclusion list and
     * `int(512 * (accuracy / 100))`, then returns the joined, filtered hex colours.
     */
    method Extract(centres: seq<ImageToColor.Centre>, accuracy: int, complementary: bool, excludeColors: string)
      returns (out: string)
      modifies this
      ensures exclude == ParseExclude(excludeColors)
      ensures numIterations == Trunc(512.0 * (accuracy as real / 100.0))
      ensures var rgb := NdarraysToRgb(centres);
        out == JoinAndExclude(ImageToColor.HexAll(if complementary then ComplementAll(rgb) else rgb))
    {
      exclude := ParseExclude(excludeColors);
      numIterations := Trunc(512.0 * (accuracy as real / 100.0));
      var rgb := NdarraysToRgb(centres);
      if complementary {
        rgb := ComplementAll(rgb);
      }
      out := JoinAndExclude(ImageToColor.HexAll(rgb));
    }
  }

  // ------------------------------------------------------------------
  // generate_palette: grouping, sorting and the cell layout
  // ------------------------------------------------------------------

  /** A cluster centre (a byte triple) with its luminance. */
  datatype Entry = Entry(color: Rgb, lum: real)

  /** `np.argmax(color)`: the first channel holding the largest value. */
  function Dominant(c: Rgb): (k: nat)
    ensures k < 3
    ensures k == 0 ==> c.r >= c.g && c.r >= c.b
    ensures k == 1 ==> c.g > c.r && c.g >= c.b
    ensures k == 2 ==> c.b > c.r && c.b > c.g
  {
    if c.r >= c.g && c.r >= c.b then 0 else if c.g >= c.b then 1 else 2
  }

  /** The entries whose dominant channel is `k`, in order. */
  function OfType(s: seq<Entry>, k: nat): (r: seq<Entry>)
    ensures forall i :: 0 <= i < |r| ==> Dominant(r[i].color) == k
  {
    if |s| == 0 then []
    else OfType(s[..|s| - 1], k) + (if Dominant(s[|s| - 1].color) == k then [s[|s| - 1]] else [])
  }

  /** Appending an entry appends it to its own group only. */
  lemma OfTypeSnoc(init: seq<Entry>, last: Entry, k: nat)
    ensures OfType(init + [last], k) == OfType(init, k) + (if Dominant(last.color) == k then [last] else [])
  {
    assert (init + [last])[..|init|] == init;
  }

  /** The three colour groups together hold every entry exactly once. */
  lemma {:induction false} OfTypePartition(s: seq<Entry>)
    ensures multiset(OfType(s, 0)) + multiset(OfType(s, 1)) + multiset(OfType(s, 2)) == multiset(s)
  {
    if |s| > 0 {
      var init, last := s[..|s| - 1], s[|s| - 1];
      OfTypePartition(init);
      PartitionSnoc(init, last);
      assert init + [last] == s;
    }
  }

  /** A partition of `init` into the three groups extends to one of `init + [last]`. */
  lemma PartitionSnoc(init: seq<Entry>, last: Entry)
    requires multiset(OfType(init, 0)) + multiset(OfType(init, 1)) + multiset(OfType(init, 2)) == multiset(init)
    ensures multiset(OfType(init + [last], 0)) + multiset(OfType(init + [last], 1)) + multiset(OfType(init + [last], 2)) == multiset(init + [last])
  {
    assert multiset(init + [last]) == multiset(init) + multiset{last};
    var k := Dominant(last.color);
    if k == 0 {
      GroupGains(init, last, 0);
      GroupKeeps(init, last, 1);
      GroupKeeps(init, last, 2);
    } else if k == 1 {
      GroupKeeps(init, last, 0);
      GroupGains(init, last, 1);
      GroupKeeps(init, last, 2);
    } else {
      GroupKeeps(init, last, 0);
      GroupKeeps(init, last, 1);
      GroupGains(init, last, 2);
    }
  }

  /** Appending an entry adds it to the multiset of its own group. */
  lemma GroupGains(init: seq<Entry>, last: Entry, k: nat)
    requires Dominant(last.color) == k
    ensures multiset(OfType(init + [last], k)) == multiset(OfType(init, k)) + multiset{last}
  {
    OfTypeSnoc(init, last, k);
  }

  /** Appending an entry leaves every other group as it was. */
  lemma GroupKeeps(init: seq<Entry>, last: Entry, k: nat)
    requires Dominant(last.color) != k
    ensures OfType(init + [last], k) == OfType(init, k)
  {
    OfTypeSnoc(init, last, k);
  }

  /**
   * The grouping loop: appends each entry to `reds`, `greens` or `blues` by its dominant
   * channel. The `others` branch is never taken, because `argmax` over three channels
   * is at most 2.
   */
  method GroupByDominant(entries: seq<Entry>)
    returns (reds: seq<Entry>, greens: seq<Entry>, blues: seq<Entry>, others: seq<Entry>)
    ensures reds == OfType(entries, 0) && greens == OfType(entries, 1) && blues == OfType(entries, 2)
    ensures others == []
  {
    reds, greens, blues, others := [], [], [], [];
    var i := 0;
    while i < |entries|
      invariant 0 <= i <= |entries|
      invariant reds == OfType(entries[..i], 0)
      invariant greens == OfType(entries[..i], 1)
      invariant blues == OfType(entries[..i], 2)
      invariant others == []
    {
      var e := entries[i];
      assert entries[..i + 1][..i] == entries[..i];
      var t := Dominant(e.color);
      if t == 0 {
        reds := reds + [e];
      } else if t == 1 {
        greens := greens + [e];
      } else if t == 2 {
        blues := blues + [e];
      } else {
        assert false;
      }
      i := i + 1;
    }
    assert entries[..i] == entries;
  }

  /** Luminance never decreases along `s`. */
  predicate SortedByLum(s: seq<Entry>)
  {
    forall i :: 0 < i < |s| ==> s[i - 1].lum <= s[i].lum
  }

  /** Inserts `e` before the first element at least as bright, so it stays ahead of equals. */
  function InsertByLum(e: Entry, s: seq<Entry>): (r: seq<Entry>)
    ensures multiset(r) == multiset(s) + multiset{e}
    ensures |r| == |s| + 1
    ensures r[0] == e || (|s| > 0 && r[0] == s[0])
  {
    if |s| == 0 || e.lum <= s[0].lum then
      [e] + s
    else
      assert s == [s[0]] + s[1..];
      [s[0]] + InsertByLum(e, s[1..])
  }

  /** Inserting into a luminance-ordered list keeps it ordered. */
  lemma {:induction false} InsertKeepsSorted(e: Entry, s: seq<Entry>)
    requires SortedByLum(s)
    ensures SortedByLum(InsertByLum(e, s))
  {
    if |s| > 0 && e.lum > s[0].lum {
      var t := s[1..];
      assert SortedByLum(t);
      InsertKeepsSorted(e, t);
      var rest := InsertByLum(e, t);
      assert rest[0] == e || rest[0] == t[0];
      assert InsertByLum(e, s) == [s[0]] + rest;
    }
  }

  /** `group.sort(key=lambda x: x[1])`: a stable sort by luminance. */
  function SortByLum(s: seq<Entry>): (r: seq<Entry>)
    ensures multiset(r) == multiset(s)
    ensures SortedByLum(r)
  {
    if |s| == 0 then []
    else
      assert s == [s[0]] + s[1..];
      InsertKeepsSorted(s[0], SortByLum(s[1..]));
      InsertByLum(s[0], SortByLum(s[1..]))
  }

  /** Entries already in luminance order, as `argsort` leaves them, are not moved by the sort. */
  lemma {:induction false} SortSortedIsIdentity(s: seq<Entry>)
    requires SortedByLum(s)
    ensures SortByLum(s) == s
  {
    if |s| > 0 {
      assert SortedByLum(s[1..]);
      SortSortedIsIdentity(s[1..]);
      assert s == [s[0]] + s[1..];
    }
  }

  /** `int(np.sqrt(n))` rows and `int(np.ceil(n / rows))` columns for `n >= 1` colours. */
  function GridRows(n: nat): (rows: nat)
    requires n >= 1
    ensures rows >= 1
    ensures rows * rows <= n < (rows + 1) * (rows + 1)
  {
    ISqrt(n)
  }

  /** The number of columns of the grid palette. */
  function GridCols(n: nat): (cols: nat)
    requires n >= 1
    ensures cols * GridRows(n) >= n
    ensures (cols - 1) * GridRows(n) < n
  {
    CeilDiv(n, GridRows(n))
  }

  /** Where cell `i` is pasted: `(i * cell, 0)` back to back, else column `i // rows`, row `i % rows`. */
  function CellOrigin(i: nat, n: nat, cellSize: nat, backToBack: bool): (int, int)
    requires n >= 1
  {
    if backToBack then (i * cellSize, 0)
    else ((i / GridRows(n)) * cellSize, (i % GridRows(n)) * cellSize)
  }

  /** The palette size: `(n * cell, cell)` back to back, else `(cols * cell, rows * cell)`. */
  function PaletteSize(n: nat, cellSize: nat, backToBack: bool): (int, int)
    requires n >= 1
  {
    if backToBack then (n * cellSize, cellSize) else (GridCols(n) * cellSize, GridRows(n) * cellSize)
  }

  /** Every cell of an `n`-colour palette lies inside the palette. */
  lemma CellInside(i: nat, n: nat, cellSize: nat, backToBack: bool)
    requires 1 <= n && i < n
    ensures 0 <= CellOrigin(i, n, cellSize, backToBack).0
    ensures CellOrigin(i, n, cellSize, backToBack).0 + cellSize <= PaletteSize(n, cellSize, backToBack).0
    ensures 0 <= CellOrigin(i, n, cellSize, backToBack).1
    ensures CellOrigin(i, n, cellSize, backToBack).1 + cellSize <= PaletteSize(n, cellSize, backToBack).1
  {
    if backToBack {
      SlotFits(i, n, cellSize);
    } else {
      var rows := GridRows(n);
      QuotientBelowCols(i, n, rows, GridCols(n));
      SlotFits(i / rows, GridCols(n), cellSize);
      SlotFits(i % rows, rows, cellSize);
    }
  }

  /** Slot `a` of `b` slots of size `k` ends no later than `b * k`. */
  lemma SlotFits(a: nat, b: nat, k: nat)
    requires a < b
    ensures 0 <= a * k && a * k + k <= b * k
  {
    MulLe(a + 1, b, k);
  }

  /** `a <= b` stays true after multiplying both by the same non-negative factor. */
  lemma MulLe(a: int, b: int, k: nat)
    requires a <= b
    ensures a * k <= b * k
  {
  }

  /** `n == (n / d) * d + n % d` for a positive divisor. */
  lemma DivMod(n: nat, d: nat)
    requires d >= 1
    ensures n == (n / d) * d + n % d && 0 <= n % d < d
  {
  }

  /** The column `i // rows` of colour `i < n` is below the column count when `cols * rows >= n`. */
  lemma QuotientBelowCols(i: nat, n: nat, rows: nat, cols: nat)
    requires rows >= 1 && i < n && cols * rows >= n
    ensures i / rows < cols
  {
    DivMod(i, rows);
    if i / rows >= cols {
      MulLe(cols, i / rows, rows);
    }
  }

  /** Distinct colours get distinct grid cells: `(i % rows, i // rows)` determines `i`. */
  lemma GridCellsDistinct(i: nat, j: nat, rows: nat)
    requires rows >= 1 && i != j
    ensures i % rows != j % rows || i / rows != j / rows
  {
    DivMod(i, rows);
    DivMod(j, rows);
  }

  /** A pasted cell: its origin and its colour. */
  datatype Cell = Cell(x: int, y: int, color: Rgb)

  /** The cell of colour `i` of the sorted colours: at its origin, painted in its colour. */
  function CellFor(sorted: seq<Entry>, i: nat, cellSize: nat, backToBack: bool): Cell
    requires i < |sorted|
  {
    var (x, y) := CellOrigin(i, |sorted|, cellSize, backToBack);
    Cell(x, y, sorted[i].color)
  }

  /** The cells of the first `n` sorted colours, in order. */
  function CellsUpTo(sorted: seq<Entry>, n: nat, cellSize: nat, backToBack: bool): (r: seq<Cell>)
    requires n <= |sorted|
    ensures |r| == n
  {
    if n == 0 then [] else CellsUpTo(sorted, n - 1, cellSize, backToBack) + [CellFor(sorted, n - 1, cellSize, backToBack)]
  }

  /** Cell `k` of `CellsUpTo` is the cell of colour `k`. */
  lemma {:induction false} CellsUpToAt(sorted: seq<Entry>, n: nat, cellSize: nat, backToBack: bool, k: nat)
    requires k < n <= |sorted|
    ensures CellsUpTo(sorted, n, cellSize, backToBack)[k] == CellFor(sorted, k, cellSize, backToBack)
  {
    if k < n - 1 {
      CellsUpToAt(sorted, n - 1, cellSize, backToBack, k);
    }
  }

  /** The `#rrggbb` text of every colour, in order. */
  function HexLines(s: seq<Entry>): (r: seq<string>)
    ensures |r| == |s|
  {
    if |s| == 0 then [] else HexLines(s[..|s| - 1]) + [FormatHex(s[|s| - 1].color)]
  }

  /** Line `k` of `HexLines` is the text of colour `k`. */
  lemma {:induction false} HexLinesAt(s: seq<Entry>, k: nat)
    requires k < |s|
    ensures HexLines(s)[k] == FormatHex(s[k].color)
  {
    if k < |s| - 1 {
      HexLinesAt(s[..|s| - 1], k);
    }
  }

  /**
   * The cell loop of `generate_palette` over the sorted colours: one cell per colour at
   * its origin, and `'#%02x%02x%02x' % color` collected into the hex palette.
   */
  method LayOutCells(sorted: seq<Entry>, cellSize: nat, backToBack: bool)
    returns (cells: seq<Cell>, hexPalette: seq<string>)
    requires |sorted| >= 1
    ensures |cells| == |hexPalette| == |sorted|
    ensures forall k :: 0 <= k < |sorted| ==> cells[k] == CellFor(sorted, k, cellSize, backToBack)
    ensures forall k :: 0 <= k < |sorted| ==> hexPalette[k] == FormatHex(sorted[k].color)
    ensures hexPalette == HexLines(sorted)
  {
    cells, hexPalette := [], [];
    var i := 0;
    while i < |sorted|
      invariant 0 <= i <= |sorted|
      invariant cells == CellsUpTo(sorted, i, cellSize, backToBack)
      invariant hexPalette == HexLines(sorted[..i])
    {
      LayOutStep(sorted, i, cellSize, backToBack);
      cells := cells + [CellFor(sorted, i, cellSize, backToBack)];
      hexPalette := hexPalette + [FormatHex(sorted[i].color)];
      i := i + 1;
    }
    assert sorted[..i] == sorted;
    LaidOut(sorted, cellSize, backToBack);
  }

  /** One more colour adds its cell and its hex line. */
  lemma LayOutStep(sorted: seq<Entry>, i: nat, cellSize: nat, backToBack: bool)
    requires i < |sorted|
    ensures CellsUpTo(sorted, i + 1, cellSize, backToBack) == CellsUpTo(sorted, i, cellSize, backToBack) + [CellFor(sorted, i, cellSize, backToBack)]
    ensures HexLines(sorted[..i + 1]) == HexLines(sorted[..i]) + [FormatHex(sorted[i].color)]
  {
    assert sorted[..i + 1][..i] == sorted[..i];
  }

  /** `CellsUpTo` and `HexLines` of all the sorted colours, index by index. */
  lemma LaidOut(sorted: seq<Entry>, cellSize: nat, backToBack: bool)
    ensures forall k :: 0 <= k < |sorted| ==> CellsUpTo(sorted, |sorted|, cellSize, backToBack)[k] == CellFor(sorted, k, cellSize, backToBack)
    ensures forall k :: 0 <= k < |sorted| ==> HexLines(sorted)[k] == FormatHex(sorted[k].color)
  {
    forall k | 0 <= k < |sorted|
      ensures CellsUpTo(sorted, |sorted|, cellSize, backToBack)[k] == CellFor(sorted, k, cellSize, backToBack)
      ensures HexLines(sorted)[k] == FormatHex(sorted[k].color)
    {
      CellsUpToAt(sorted, |sorted|, cellSize, backToBack, k);
      HexLinesAt(sorted, k);
    }
  }

  /** A square cell of side `size` lies inside a `w` by `h` palette. */
  predicate CellWithin(c: Cell, size: int, w: int, h: int)
  {
    0 <= c.x && c.x + size <= w && 0 <= c.y && c.y + size <= h
  }

  /** What `generate_palette` returns: the palette size, its pasted cells and the hex text. */
  datatype Palette = Palette(width: int, height: int, cells: seq<Cell>, hexText: string)

  /**
   * `generate_palette` from the luminance-ordered cluster centres: the cells show a
   * permutation of the centres (reds, then greens, then blues, each by luminance), every
   * cell lies inside the palette, and the hex text is one line per cell.
   */
  method GeneratePalette(entries: seq<Entry>, cellSize: nat, backToBack: bool) returns (p: Palette)
    requires |entries| >= 1
    ensures (p.width, p.height) == PaletteSize(|entries|, cellSize, backToBack)
    ensures |p.cells| == |entries|
    ensures forall i :: 0 <= i < |entries| ==> p.cells[i] == CellFor(SortedColors(entries), i, cellSize, backToBack)
    ensures forall i :: 0 <= i < |entries| ==> p.cells[i].color == SortedColors(entries)[i].color
    ensures p.hexText == Join(HexLines(SortedColors(entries)), "\n")
    ensures forall i :: 0 <= i < |entries| ==> CellWithin(p.cells[i], cellSize, p.width, p.height)
  {
    var reds, greens, blues, others := GroupByDominant(entries);
    var sorted := SortByLum(reds) + SortByLum(greens) + SortByLum(blues) + SortByLum(others);
    GroupsSortToSortedColors(entries, reds, greens, blues, others);
    var (w, h) := PaletteSize(|entries|, cellSize, backToBack);
    var cells, hexPalette := LayOutCells(sorted, cellSize, backToBack);
    forall i | 0 <= i < |entries|
      ensures CellWithin(cells[i], cellSize, w, h)
    {
      CellInside(i, |entries|, cellSize, backToBack);
    }
    p := Palette(w, h, cells, Join(hexPalette, "\n"));
  }

  /**
   * `g` is group `k` of `entries` after its sort: exactly the entries whose dominant
   * channel is `k`, in luminance order.
   */
  predicate SortedGroup(g: seq<Entry>, entries: seq<Entry>, k: nat)
  {
    && multiset(g) == multiset(OfType(entries, k))
    && (forall e :: e in g ==> Dominant(e.color) == k)
    && SortedByLum(g)
  }

  /**
   * `reds + greens + blues + others` after the group sorts: a permutation of the centres
   * made of the reds, then the greens, then the blues, each sorted by luminance.
   */
  function SortedColors(entries: seq<Entry>): (r: seq<Entry>)
    ensures multiset(r) == multiset(entries)
    ensures |r| == |entries|
    ensures var nr, ng := |OfType(entries, 0)|, |OfType(entries, 1)|;
      && nr + ng <= |r|
      && SortedGroup(r[..nr], entries, 0)
      && SortedGroup(r[nr..nr + ng], entries, 1)
      && SortedGroup(r[nr + ng..], entries, 2)
  {
    var a, b, c := OfType(entries, 0), OfType(entries, 1), OfType(entries, 2);
    OfTypePartition(entries);
    SortedGroupOf(entries, 0);
    SortedGroupOf(entries, 1);
    SortedGroupOf(entries, 2);
    ThreeParts(SortByLum(a), SortByLum(b), SortByLum(c));
    SortByLum(a) + SortByLum(b) + SortByLum(c)
  }

  /** The three parts of `a + b + c` can be sliced back out, and the multisets add up. */
  lemma ThreeParts(a: seq<Entry>, b: seq<Entry>, c: seq<Entry>)
    ensures (a + b + c)[..|a|] == a
    ensures (a + b + c)[|a|..|a| + |b|] == b
    ensures (a + b + c)[|a| + |b|..] == c
    ensures multiset(a + b + c) == multiset(a) + multiset(b) + multiset(c)
  {
  }

  /** Sorting the loop's four groups and joining them gives `SortedColors`. */
  lemma GroupsSortToSortedColors(entries: seq<Entry>, reds: seq<Entry>, greens: seq<Entry>, blues: seq<Entry>,
                                 others: seq<Entry>)
    requires reds == OfType(entries, 0) && greens == OfType(entries, 1) && blues == OfType(entries, 2)
    requires others == []
    ensures SortByLum(reds) + SortByLum(greens) + SortByLum(blues) + SortByLum(others) == SortedColors(entries)
  {
    assert SortByLum(others) == [];
  }

  /** Sorting group `k` gives a sorted group of the same length. */
  lemma SortedGroupOf(entries: seq<Entry>, k: nat)
    ensures SortedGroup(SortByLum(OfType(entries, k)), entries, k)
    ensures |SortByLum(OfType(entries, k))| == |OfType(entries, k)|
  {
    var g := OfType(entries, k);
    var sg := SortByLum(g);
    assert |sg| == |multiset(sg)| == |multiset(g)| == |g|;
    forall e | e in sg
      ensures Dominant(e.color) == k
    {
      assert e in multiset(sg);
      assert e in multiset(g);
    }
  }
}
