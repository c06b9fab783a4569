# BaiKong nodes for ComfyUI, modelled in Dafny

This project models the core of the BaiKong node pack for ComfyUI. Every node is a small,
single-pass function of its inputs. The model covers three groups of nodes:

- **Colour nodes.** Picking one colour out of a colour list, the post-processing of extracted
  colour clusters, choosing a readable text colour by WCAG 2.1 contrast or by luminance,
  and limiting saturation, value or lightness.
- **Image nodes.** The two gradient generators, the aspect-ratio filter and the image list.
- **Layout and output nodes.** Fitting an image into a bounding rectangle, the two random
  scatter layouts, and the output counter of the print node.

Most nodes exist twice. The current versions live under `nodes/`. The older `BK_*.py` copies at
the repository root have their own modules, named `Legacy…`. `web/utils.js` holds a JavaScript
twin of the text-colour choice, modelled in `BestTextColor`.

Modelling choices:

- Python's string and number built-ins are written out once, in `PyText` and `PyNum`:
  `strip`, `split`, `join`, `lower`, slicing, `int(x, base)`, the `02x` and `05` format specifications, truncation
  and flooring division. `Wrappers` holds `Option` and `Result`; `Images` holds shared image
  values.
- Floats are exact `real`s.
- Library numerics that cannot be seen become function-typed parameters: `colorsys`, the
  2.4 power of relative luminance, `round(…, 6)`, `:.4f` and the size of a rotated image.
- Random choices come from a supplied oracle of draws.
- Drawing onto an image is modelled on a `Canvas` class that records its layers. The gradient
  generators fill an `array` in place.

One behaviour of `nodes/node_color_limit.py` is modelled as written. The "before" marker of the
preview reuses the variables `s` and `v` after the 512 × 512 drawing loop has overwritten them
with 1.0 and 0.0. It therefore always lands at (511, 0) (`ColorLimit.BeforeMarkerCorner`).

## Model

| member | source | states |
|---|---|---|
| PyText.LStrip | nodes/node_color_selector.py:42 | `lstrip()`: a suffix of the text, only whitespace removed, not starting with whitespace |
| PyText.RStrip | nodes/node_color_selector.py:42 | `rstrip()`: a prefix of the text, only whitespace removed, not ending with whitespace |
| PyText.Strip | nodes/node_color_selector.py:42 | `strip()` leaves no whitespace at either end |
| PyText.StripKeepsTrimmed | nodes/node_image_to_color.py:171-172 | text without whitespace at its ends is its own `strip()` |
| PyText.StripIdempotent | nodes/node_image_to_color.py:171-172 | stripping twice is stripping once |
| PyText.LStripChar | nodes/node_image_to_color.py:71 | `lstrip('#')`: a suffix of the text, only `#`s removed, not starting with `#` |
| PyText.Lower | nodes/node_image_to_color.py:171-172 | `lower()` keeps the length and maps each character |
| PyText.LowerIsLowerCase | nodes/node_image_to_color.py:89-172 | `lower()` gives lower-case text and is idempotent |
| PyText.RemoveChar | BK_ColorSelector.py:47 | `replace(" ", "")` removes every occurrence and keeps every other character |
| PyText.RemoveCharConcat | BK_ColorSelector.py:47 | the removal works piece by piece |
| PyText.RemoveCharAbsent | BK_ColorSelector.py:47 | text without the character is returned exactly |
| PyText.IndexOfFrom | nodes/node_color_selector.py:42 | the first occurrence of the separator from a position on, and none before it |
| PyText.Split | nodes/node_color_selector.py:42 | `split(sep)` has at least one piece |
| PyText.JoinSplit | nodes/node_color_selector.py:42 | joining the pieces of a split with the same separator gives the text back |
| PyText.SplitPiecesAreFree | nodes/node_color_selector.py:42 | no piece of a split contains the separator |
| PyText.SplitJoinAvoiding | nodes/node_image_to_color.py:201 | splitting the join of parts that share no character with the separator gives the parts back |
| PyText.ParseInt | nodes/functions_color.py:40 | `int(s, base)` on a digit string succeeds iff it is non-empty and all digits |
| PyText.ToDigits | nodes/node_image_print.py:93 | the digits of a number in its base, at least one |
| PyText.DigitsValueOfToDigits | nodes/node_image_print.py:93-110 | the value of the digits of `n` is `n` |
| PyText.ParseIntToDigits | nodes/node_image_print.py:93-110 | `int(str(n)) == n` |
| PyText.PadLeft | nodes/node_image_print.py:93 | the padding goes in front and the text stays at the end |
| PyText.LeadingZeros | nodes/node_image_print.py:93-110 | leading zeros do not change the value |
| PyText.FormatHex02Byte | nodes/node_image_to_color.py:66 | formatting a byte with `02x` is its two hex digits, high first |
| PyText.ParseFormatHex02 | nodes/node_image_to_color.py:66-72 | `int(f"{n:02x}", 16) == n` for a byte |
| PyText.ParseFormatDec05 | nodes/node_image_print.py:93-110 | `int(f"{n:05}") == n`, at least five characters |
| PyNum.Trunc | nodes/node_image_to_color.py:84 | `int(x)` truncates toward zero |
| PyNum.TruncOfInt | nodes/node_color_limit.py:19-21 | `int` of a whole number is that number |
| PyNum.TruncMonotone | nodes/node_color_limit.py:140-143 | truncation keeps the order of non-negative values |
| PyNum.FloorDiv | nodes/node_image_rect_layout.py:280-281 | `//` rounds toward minus infinity |
| PyNum.ClampInt | nodes/node_image_to_color.py:163-165 | `max(lo, min(x, hi))` lies in range, keeps values in range, and gives `lo` for an empty range |
| PyNum.ClampReal | nodes/node_color_limit.py:103-104 | `max(lo, min(x, hi))` on floats, with the same properties |
| PyNum.ClampRealIdempotent | nodes/node_color_limit.py:103-104 | clamping twice is clamping once |
| PyNum.ISqrt | BK_Img2Color.py:216 | `int(sqrt(n))`: the largest root whose square is at most `n` |
| PyNum.CeilDiv | BK_Img2Color.py:217 | `ceil(a / b)`: the smallest multiple count covering `a` |
| ColorMath.Linearize | nodes/functions_color.py:5-11 | a channel at or below 0.03928 is divided by 12.92; a non-negative channel gives a non-negative value when the power curve is non-negative |
| ColorMath.RelativeLuminance | nodes/functions_color.py:4-13 | non-negative channels give a non-negative luminance, weights 0.2126, 0.7152, 0.0722 |
| ColorMath.LuminanceOf | nodes/functions_color.py:4-13 | an in-range colour has a non-negative luminance |
| ColorMath.LuminanceOfBlack | nodes/functions_color.py:4-13 | black has luminance 0 whatever the power curve |
| ColorMath.LuminanceOfWhite | nodes/functions_color.py:4-13 | white has luminance 1 when `1 ** 2.4 == 1`; the three weights sum to one |
| ColorMath.ContrastRatio | nodes/functions_color.py:16-20 | the ratio of two non-negative luminances is at least 1, and exactly 1 iff they are equal |
| ColorMath.ContrastRatioSymmetric | nodes/functions_color.py:16-20 | swapping the two luminances does not change the ratio |
| ColorMath.ContrastDefined | nodes/functions_color.py:16-20 | the denominator is non-zero for non-negative luminances |
| ColorMath.HslRoundTrip | nodes/functions_color.py:24-37 | `hsl_to_rgb(rgb_to_hsl(c)) == c` for in-range colours when colorsys's two conversions are inverse |
| ColorMath.RgbToHslOrder | nodes/functions_color.py:24-27 | the node's triple is `(h, s, l)`, reordered from colorsys's `(h, l, s)` |
| HexColor.FormatHexShape | nodes/node_image_to_color.py:64-66 | an in-range colour formats as `#` and six lower-case hex digits, two per channel |
| HexColor.ParsePairs | nodes/functions_color.py:39-40 | the three `int(…, 16)` reads succeed iff each two-character slice is a hex number; the result is in range |
| HexColor.FormatInRange | nodes/node_image_to_color.py:64-66 | in-range colours format as `#rrggbb` |
| HexColor.ParseStrippedFormat | nodes/node_image_to_color.py:64-72 | reading a formatted colour after `lstrip('#')` gives the colour back |
| HexColor.ParseAt1Format | nodes/functions_color.py:39-40 | reading a formatted colour at offsets 1, 3, 5 gives the colour back |
| HexColor.ParseAt1Window | nodes/functions_color.py:39-40 | the parser at 1, 3, 5 ignores the first character and everything after the seventh |
| HexColor.Complement | nodes/node_image_to_color.py:75-77 | each channel of the complement adds up to 255 with the original |
| HexColor.ComplementInvolution | nodes/node_image_to_color.py:75-77 | the complement of the complement is the colour, and it keeps channels in range |
| HexColor.ComplementAll | nodes/node_image_to_color.py:75-77 | the list of complements has the list's length and position-wise complements |
| HexColor.ComplementAllInvolution | nodes/node_image_to_color.py:75-77 | complementing a list twice gives it back |
| HexColor.WhiteAndBlackParse | nodes/node_color_contrast.py:35-36 | the default colours `#FFFFFF` and `#000000` parse to white and black |
| BestTextColor.ParseIntHex | web/utils.js:3 | JavaScript `parseInt(…, 16)`: NaN iff there is no hex digit after the sign and `0x`; otherwise the signed value of the longest digit run |
| BestTextColor.ParseIntHexDigits | web/utils.js:3 | on a run of hex digits `parseInt` and Python's `int(…, 16)` agree |
| BestTextColor.ParseIntHexStops | web/utils.js:3 | `parseInt` ignores everything from the first non-digit on |
| BestTextColor.ToInt32 | web/utils.js:4-6 | the shift operand is taken modulo 2^32 into the signed range; NaN becomes 0 |
| BestTextColor.ByteAt | web/utils.js:4-6 | `(v >> k) & 0xff` is a byte |
| BestTextColor.Channels | web/utils.js:3-6 | the three channels are bytes, and unreadable text gives black |
| BestTextColor.CompareContrasts | web/utils.js:22-26 | white wins iff `(l + 0.05)^2 < 1.05 * 0.05`, the comparison of the two contrasts without denominators |
| BestTextColor.Choose | web/utils.js:18-26 | the answer is `#FFFFFF` or `#000000`, white iff `(l + 0.05)^2 < 1.05 * 0.05` |
| BestTextColor.ChooseByContrastRatio | web/utils.js:22-26 | white iff the contrast with white exceeds the contrast with black, as `contrast_ratio` computes them |
| BestTextColor.ChooseMonotone | web/utils.js:22-26 | a darker background never turns white text into black |
| BestTextColor.GetBestTextColor | web/utils.js:1-27 | white or black, white iff the squared condition holds for the luminance of the bytes read |
| BestTextColor.SixDigitsRead | web/utils.js:3 | `parseInt` of six hex digits after `#` is the three two-digit bytes, high first |
| BestTextColor.ChannelsOfSixDigits | web/utils.js:3-6 | on `#` and six hex digits, the JavaScript bytes equal the channels the Python parser reads |
| BestTextColor.UnreadableGetsWhite | web/utils.js:3-26 | text `parseInt` cannot read is treated as black and gets white text |
| BestTextColor.BlackGetsWhite | web/utils.js:1-27 | `#000000` gets white text |
| BestTextColor.WhiteGetsBlack | web/utils.js:1-27 | `#FFFFFF` gets black text when `1 ** 2.4 == 1` |
| BestTextColor.ShortHexMisread | web/utils.js:3-6 | `#fff` is read as the number 4095, that is the channels (0, 15, 255), not as white |
| ColorContrast.OrDefault | nodes/node_color_contrast.py:35-36 | only the empty string is replaced by the default |
| ColorContrast.Threshold | nodes/node_color_contrast.py:63 | 7.0 iff the level is `AAA`, else 4.5 |
| ColorContrast.ChooseRule | nodes/node_color_contrast.py:66-72 | light text iff its contrast meets the threshold; dark otherwise, whatever the dark contrast |
| ColorContrast.ContrastAgainst | nodes/node_color_contrast.py:44-60 | the contrast of two in-range colours is at least 1 |
| ColorContrast.Exec | nodes/node_color_contrast.py:27-81 | fails iff one of the three colours does not parse at 1, 3, 5; otherwise returns the background unchanged and light text iff its contrast meets the threshold, the same in ui and result |
| ColorContrast.ExecDefaults | nodes/node_color_contrast.py:35-36 | with both text colours empty only the background can fail, and the answer is white or black |
| ColorContrast.WhiteOnBlack | nodes/node_color_contrast.py:27-81 | on black, white text is chosen at either level |
| LegacyColorContrast.Exec | BK_ColorContrast.py:44-90 | as the newer node, with the pair `(bg, text)` as both ui text and result |
| LegacyColorContrast.AgreesWithNewer | BK_ColorContrast.py:44-90 | fails exactly when the newer node does and returns the same pair |
| ColorLuminance.Exec | nodes/node_color_luminance.py:25-46 | fails iff the background does not parse; dark text iff the luminance is strictly above the threshold; the background is returned unchanged |
| ColorLuminance.TextColoursNotParsed | nodes/node_color_luminance.py:32-45 | the text colours are returned as given, never parsed |
| ColorLuminance.LightTextOnBlack | nodes/node_color_luminance.py:40 | black is never above a non-negative threshold, so it gets the light text |
| LegacyColorLuminance.Exec | BK_ColorLuminance.py:43-67 | fails iff one of the inline slices does not parse; dark text iff the luminance is strictly above the threshold |
| LegacyColorLuminance.AgreesWithNewer | BK_ColorLuminance.py:43-67 | fails exactly when the newer node does and returns the same pair |
| ColorSelector.PatternBodyExact | nodes/node_color_selector.py:60-62 | the pattern body accepts exactly `#` and three or six hex digits |
| ColorSelector.ValidHexColorExact | nodes/node_color_selector.py:60-62 | without a trailing newline, valid iff `#` and three or six hex digits |
| ColorSelector.ValidHexColorExamples | nodes/node_color_selector.py:60-62 | `$` lets one final newline through; four digits or a missing `#` fail |
| ColorSelector.SelectIndex | nodes/node_color_selector.py:45 | the clamped 0-based index is in the list: first entry for counts up to 1, last for counts past the end |
| ColorSelector.ColorList | nodes/node_color_selector.py:42 | one stripped entry per piece of the split, at least one |
| ColorSelector.SelectColor | nodes/node_color_selector.py:35-57 | an empty separator fails; otherwise the clamped entry is returned iff it matches the pattern, and is then `#` with three or six digits and no surrounding space; else the error names it |
| LegacyColorSelector.LegacyIndex | BK_ColorSelector.py:43 | the clamped index is in the list, first for counts up to 1, last past the end |
| LegacyColorSelector.LegacyIndexAgrees | BK_ColorSelector.py:43 | the older clamp picks the same entry as the newer one |
| LegacyColorSelector.SelectColor | BK_ColorSelector.py:34-50 | an empty separator fails; otherwise the result, identical in ui and result, is the clamped piece with every space removed and the other characters in their order |
| LegacyColorSelector.SpacesOnlyDropped | BK_ColorSelector.py:47 | a piece without spaces comes back unchanged, and a space between two texts only joins them |
| HexColor.TwoHexDigitsByte | nodes/functions_color.py:40 | two hex digits are worth less than 256 |
| HexColor.ParsePairsFormat | nodes/node_image_to_color.py:64-72 | reading a formatted colour's digits after any prefix gives the colour back |
| HexColor.ByteLiterals | nodes/node_color_contrast.py:35-36 | `FF` reads as 255 and `00` as 0 |
| BestTextColor.SixDigitsParse | web/utils.js:3 | `parseInt` of six hex digits is the three two-digit values, high first |
| BestTextColor.SixDigitsPairs | nodes/functions_color.py:39-40 | the Python parser reads the same six digits as three pairs |
| BestTextColor.FffParses | web/utils.js:3 | `parseInt("fff", 16)` is 4095 |
| BestTextColor.BytesOf4095 | web/utils.js:4-6 | 4095 splits into the bytes 0, 15 and 255 |
| ImageToColor.ChannelToByte | nodes/node_image_to_color.py:80-84 | a channel is clamped into 0..255 and truncated: 0 at or below 0, 255 at or above 255, the integer part in between |
| ImageToColor.NdarraysToRgb | nodes/node_image_to_color.py:80-84 | one in-range colour per centre, channel by channel |
| ImageToColor.HexAll | nodes/node_image_to_color.py:188 | one `rgb_to_hex` text per colour, position by position |
| ImageToColor.KeepNotExcluded | nodes/node_image_to_color.py:86-92 | a colour is kept iff its lower-case form is not excluded; nothing is added |
| ImageToColor.KeepNotExcludedConcat | nodes/node_image_to_color.py:88-92 | the filter distributes over concatenation, so the kept colours keep their order |
| ImageToColor.KeepNothingExcluded | nodes/node_image_to_color.py:86-92 | with nothing excluded every colour is kept |
| ImageToColor.FilterExcludedColors | nodes/node_image_to_color.py:86-92 | the early return for an empty list agrees with the filter; kept iff not excluded |
| ImageToColor.StripLowerNonEmpty | nodes/node_image_to_color.py:171-172 | every item left is non-empty, lower-case and trimmed |
| ImageToColor.ParseExcluded | nodes/node_image_to_color.py:171-172 | every parsed exclusion item is non-empty, lower-case and trimmed |
| ImageToColor.ParseExcludedBlank | nodes/node_image_to_color.py:171-172 | blank exclusion text excludes nothing |
| ImageToColor.MakeSettings | nodes/node_image_to_color.py:163-168 | colours clamped to 1..20, accuracy to 1..100, the index to at least 1, and `int(512 * (accuracy / 100))` iterations, between 5 and 512 |
| ImageToColor.ExtractedColors | nodes/node_image_to_color.py:135-139 | in-range colours, and the single grey `(128, 128, 128)` when clustering raises |
| ImageToColor.SelectAt | nodes/node_image_to_color.py:204-208 | the element at the 1-based index, or the last when the index runs past the end |
| ImageToColor.HexColors | nodes/node_image_to_color.py:183-188 | one lower-case `#rrggbb` per extracted colour, in cluster order, of the complement when asked for |
| ImageToColor.Remaining | nodes/node_image_to_color.py:191-198 | exactly the colours that survive exclusion, in order; `["#808080"]` when none survives |
| ImageToColor.RemainingWithoutExclusions | nodes/node_image_to_color.py:183-198 | with blank exclusion text every extracted colour is listed, in order |
| ImageToColor.NotExcludedIsListed | nodes/node_image_to_color.py:191-198 | a colour that is not excluded is listed |
| ImageToColor.Extract | nodes/node_image_to_color.py:141-216 | the list is the remaining colours joined by `", "`; the selected colour is one of them; ui and result agree |
| ImageToColor.ExtractSelects | nodes/node_image_to_color.py:204-208 | the selected colour is the `select_color`-th remaining colour, or the last one past the end |
| ImageToColor.RemainingNotExcluded | nodes/node_image_to_color.py:191-198 | no listed colour other than the grey fallback is excluded |
| ImageToColor.ColorStringSplits | nodes/node_image_to_color.py:201 | splitting the joined list on `", "` gives the list back |
| ImageToColor.LowerHex6Avoids | nodes/node_image_to_color.py:201 | a `#rrggbb` text contains neither `,` nor a space |
| LegacyImg2Color.NdarraysToRgb | BK_Img2Color.py:134-135 | each channel is truncated with no clamping |
| LegacyImg2Color.NdarraysToRgbAgrees | BK_Img2Color.py:134-135 | on in-range centres it agrees with the newer clamping conversion |
| LegacyImg2Color.NdarraysToRgbNoClamp | BK_Img2Color.py:134-135 | a centre at 300.5 gives a channel of 300, outside the byte range |
| LegacyImg2Color.StripLowerAll | BK_Img2Color.py:84 | each piece stripped and lower-cased, one per piece |
| LegacyImg2Color.ParseExclude | BK_Img2Color.py:82-86 | blank text excludes nothing; otherwise each comma piece stripped and lower-cased, empty ones included |
| LegacyImg2Color.NonEmpty | BK_Img2Color.py:82-86 | exactly the non-empty items are kept |
| LegacyImg2Color.ParseExcludeAgrees | BK_Img2Color.py:82-86 | the newer exclusion parser is the older one without its empty items |
| LegacyImg2Color.StripLowerNonEmptyAgrees | BK_Img2Color.py:84 | dropping empty items before or after lower-casing is the same |
| LegacyImg2Color.Img2Color.constructor | BK_Img2Color.py:18 | the node starts with no stored exclusions |
| LegacyImg2Color.Img2Color.Extract | BK_Img2Color.py:70-127 | stores the exclusions and the iteration count, then joins the hex colours not excluded |
| LegacyImg2Color.Dominant | BK_Img2Color.py:190 | `argmax`: the first channel holding the largest value, never a fourth |
| LegacyImg2Color.OfType | BK_Img2Color.py:188-199 | every entry of group `k` has `k` as its dominant channel |
| LegacyImg2Color.OfTypeSnoc | BK_Img2Color.py:188-199 | an appended entry goes to its own group only |
| LegacyImg2Color.OfTypePartition | BK_Img2Color.py:188-199 | the three groups together hold every entry exactly once |
| LegacyImg2Color.PartitionSnoc | BK_Img2Color.py:188-199 | the partition extends by one entry |
| LegacyImg2Color.GroupGains | BK_Img2Color.py:188-199 | an entry is added to the multiset of its own group |
| LegacyImg2Color.GroupKeeps | BK_Img2Color.py:188-199 | every other group is unchanged |
| LegacyImg2Color.GroupByDominant | BK_Img2Color.py:183-199 | the loop builds the three groups in order and leaves `others` empty |
| LegacyImg2Color.InsertByLum | BK_Img2Color.py:202-205 | insertion adds exactly the one entry |
| LegacyImg2Color.InsertKeepsSorted | BK_Img2Color.py:202-205 | inserting into a list ordered by luminance keeps it ordered |
| LegacyImg2Color.SortByLum | BK_Img2Color.py:202-205 | the sort is a permutation ordered by luminance |
| LegacyImg2Color.SortSortedIsIdentity | BK_Img2Color.py:174-180 | entries already in luminance order, as `argsort` leaves them, are not moved |
| LegacyImg2Color.GridRows | BK_Img2Color.py:216 | `int(sqrt(n))`: at least one row, the largest whose square is at most `n` |
| LegacyImg2Color.GridCols | BK_Img2Color.py:217 | `ceil(n / rows)`: the fewest columns that hold every colour |
| LegacyImg2Color.CellInside | BK_Img2Color.py:210-241 | every cell's square lies inside the palette in both layouts |
| LegacyImg2Color.GridCellsDistinct | BK_Img2Color.py:238-239 | two colours never get the same grid cell |
| LegacyImg2Color.CellsUpToAt | BK_Img2Color.py:233-249 | cell `k` is at colour `k`'s origin, in its colour |
| LegacyImg2Color.HexLinesAt | BK_Img2Color.py:258 | line `k` of the hex text is colour `k` formatted |
| LegacyImg2Color.LayOutCells | BK_Img2Color.py:232-258 | one cell per colour at its origin, and its `#rrggbb` line |
| LegacyImg2Color.GeneratePalette | BK_Img2Color.py:166-260 | the palette size of the layout; the cells show the grouped and sorted colours, all inside the palette; the text is their hex lines joined by newlines |
| LegacyImg2Color.SortedColors | BK_Img2Color.py:183-208 | a permutation of the centres: the reds, then the greens, then the blues, each group exactly its entries and sorted by luminance |
| LegacyImg2Color.SortedGroupOf | BK_Img2Color.py:201-208 | a sorted group holds exactly the group's entries, all of its channel, in luminance order |
| ImageToColor.GreyIsLowerHex6 | nodes/node_image_to_color.py:196-198 | the grey fallback `#808080` is a lower-case `#rrggbb` |
| ImageToColor.NoPiecesOfEmpty | nodes/node_image_to_color.py:171-172 | the one piece of empty text is dropped |
| LegacyImg2Color.LaidOut | BK_Img2Color.py:232-258 | cell `k` and hex line `k` belong to colour `k` |
| LegacyImg2Color.LayOutStep | BK_Img2Color.py:233-258 | one loop turn adds one cell and one hex line |
| ColorLimit.UnitToByte | nodes/node_color_limit.py:19-21 | a fraction in `[0, 1]` times 255, truncated, is a byte |
| ColorLimit.HsvToRgb | nodes/node_color_limit.py:16-22 | colorsys's answer in the unit cube gives an in-range colour |
| ColorLimit.Limit | nodes/node_color_limit.py:94-110 | fails iff the text after its leading `#`s does not read as three hex pairs; otherwise HSV rounded to six places, saturation and value clamped into the sliders, hue kept, and the result a lower-case `#rrggbb` whenever colorsys's answer for the limited triple lies in the unit cube |
| ColorLimit.LimitShape | nodes/node_color_limit.py:94-110 | with sliders in [0, 1], conversions that keep the unit cube and a rounding that keeps [0, 1], the result is always a lower-case `#rrggbb` |
| ColorLimit.HsvRoundTrip | nodes/node_color_limit.py:10-22 | `hsv_to_rgb(rgb_to_hsv(c)) == c` when colorsys's pair is inverse at `c` |
| ColorLimit.LimitKeepsColourInside | nodes/node_color_limit.py:94-110 | a colour already inside the limits comes back as itself |
| ColorLimit.DrawDomain | nodes/node_color_limit.py:122-127 | the plane shows saturation across and value upwards at every pixel; the loop leaves `s == 1` and `v == 0` |
| ColorLimit.DashesShape | nodes/node_color_limit.py:132-137 | the dashes start at the low end, step by twice the dash length, stay inside the edge, do not overlap, and there are none iff the edge is empty |
| ColorLimit.HorizontalLinesWithin | nodes/node_color_limit.py:132-134 | the top and bottom lines stay on their rows and within the edge |
| ColorLimit.VerticalLinesWithin | nodes/node_color_limit.py:135-137 | the left and right lines stay on their columns and within the edge |
| ColorLimit.DashedRectangleOnBorder | nodes/node_color_limit.py:130-137 | every drawn line lies on the rectangle's border |
| ColorLimit.DrawDashedRectangle | nodes/node_color_limit.py:130-137 | the two loops draw the horizontal dashes' lines, then the vertical ones |
| ColorLimit.HorizontalStep | nodes/node_color_limit.py:132-134 | one turn of the first loop draws the next dash on both rows |
| ColorLimit.VerticalStep | nodes/node_color_limit.py:135-137 | one turn of the second loop draws the next dash on both columns |
| ColorLimit.LimitBox | nodes/node_color_limit.py:140-143 | for sliders in `[0, 1]` the box lies in the preview and is not inverted unless a range is |
| ColorLimit.MarkerInBox | nodes/node_color_limit.py:140-162 | a marker for values within the sliders lies in the box |
| ColorLimit.AfterMarkerInBox | nodes/node_color_limit.py:103-162 | the "after" marker of the clamped values lies in the box |
| ColorLimit.ScaledBetween | nodes/node_color_limit.py:140-143 | scaling to pixels and truncating keeps the order of fractions |
| ColorLimit.BeforeMarkerCorner | nodes/node_color_limit.py:124-150 | the "before" marker is read from the loop's last `s` and `v`, so it is `(511, 0)` |
| ColorLimit.ColorLimitNode | nodes/node_color_limit.py:84-189 | fails exactly when the limit does; otherwise both outputs carry the limited colour and the preview shows the plane, the dashed box, the corner marker and the "after" marker |
| LegacyColorLimit.LimitedHsl | BK_ColorLimit.py:86-97 | the rounded hue is kept; rounded saturation and lightness are clamped into their sliders |
| LegacyColorLimit.Limit | BK_ColorLimit.py:73-120 | fails iff the text after its leading `#`s does not read as three hex pairs; otherwise the limited HSL colour, a lower-case `#rrggbb` whenever colorsys's answer for the swapped limited triple lies in the unit cube |
| LegacyColorLimit.LimitShape | BK_ColorLimit.py:73-120 | with sliders in [0, 1], conversions that keep the unit cube and a rounding that keeps [0, 1], the result is always a lower-case `#rrggbb` |
| LegacyColorLimit.HslToRgbInRange | BK_ColorLimit.py:11-18 | colorsys's answer for `(h, l, s)` in the unit cube gives bytes |
| LegacyColorLimit.DefaultCapsLightness | BK_ColorLimit.py:76-79 | with the default sliders lightness ends up in `[0, 0.5]` |
| LegacyColorLimit.LimitKeepsColourInside | BK_ColorLimit.py:73-120 | a colour already inside the limits comes back unchanged |
| GradientImage.WhiteText | nodes/node_gradient_image.py:53 | the replacement text `FFFFFF` reads as white |
| GradientImage.HexToRgb | nodes/node_gradient_image.py:45-59 | after stripping `#`s, text whose length is not six gives white, six characters that do not read give white, and otherwise the colour read |
| GradientImage.HexToRgbFormat | nodes/node_gradient_image.py:46-56 | a formatted colour reads back with or without its `#` |
| GradientImage.HashStripped | nodes/node_gradient_image.py:49 | `#rrggbb` and `rrggbb` strip to the same six digits |
| GradientImage.StartPixel | nodes/node_gradient_image.py:76 | the start pixel lies on a non-empty axis |
| GradientImage.EndPixel | nodes/node_gradient_image.py:77 | the end pixel lies past the start and not past the axis |
| GradientImage.SpanInside | nodes/node_gradient_image.py:76-77 | the ramp is a non-empty span inside the axis |
| GradientImage.Linspace | nodes/node_gradient_image.py:80 | the ramp values are bytes, from 0 to 255 over at least two points |
| GradientImage.LinspaceBelow | nodes/node_gradient_image.py:80 | `255 i / (n - 1)` stays at most 255 and reaches it at the last point |
| GradientImage.LinspaceMonotone | nodes/node_gradient_image.py:80 | the ramp never goes down |
| GradientImage.Alpha | nodes/node_gradient_image.py:64-98 | alpha is 0 before the ramp, the ramp on it and 255 after it |
| GradientImage.AlphaMonotone | nodes/node_gradient_image.py:80-98 | alpha never goes down along the axis |
| GradientImage.SetAlphaLine | nodes/node_gradient_image.py:87-95 | one column (or row) gets the alpha and nothing else changes |
| GradientImage.Mirrored | nodes/node_gradient_image.py:101-105 | the copy is the array mirrored along the gradient axis only |
| GradientImage.ApplyRamp | nodes/node_gradient_image.py:84-95 | position `start + i` gets `alpha_range[i]` for every `i` |
| GradientImage.FillTail | nodes/node_gradient_image.py:89-98 | every position from the end on becomes opaque |
| GradientImage.CreateGradientArray | nodes/node_gradient_image.py:61-107 | the array is height by width, one colour everywhere, alpha by axis position, mirrored when asked; horizontal only for exactly `"horizontal"` |
| GradientImage.AtLeastOne | nodes/node_gradient_image.py:121-122 | `max(1, n)` |
| GradientImage.Generate | nodes/node_gradient_image.py:109-132 | the sizes raised to at least 1, the positions clamped, and the gradient of the colour read |
| GradientImage.GeneratePositions | nodes/node_gradient_image.py:123-124 | after the clamps the start is a fraction and the end lies at least 0.01 past it |
| LegacyGradientImage.RampAlpha | BK_GradientImage.py:66-74 | the ramp alpha is 0 at the start and stays below 255 |
| LegacyGradientImage.RampBelow | BK_GradientImage.py:66-74 | `255 k / n` is below 255 for `k < n` |
| LegacyGradientImage.LegacyAlphaMonotone | BK_GradientImage.py:62-77 | alpha never goes down along the axis |
| LegacyGradientImage.DrawLine | BK_GradientImage.py:67-75 | one line across the image sets its column (or row) and nothing else |
| LegacyGradientImage.DrawGradient | BK_GradientImage.py:62-77 | transparent black before the start, the ramp up to the midpoint, opaque from it to the far edge |
| LegacyGradientImage.Rotated180 | BK_GradientImage.py:79-80 | the copy is mirrored along both axes |
| LegacyGradientImage.Orient | BK_GradientImage.py:79-80 | after the optional turn the axis is counted from the far edge |
| LegacyGradientImage.Draw | BK_GradientImage.py:56-80 | a width by height image showing the oriented drawing |
| LegacyGradientImage.Generate | BK_GradientImage.py:46-83 | fails iff one of the pairs at 1, 3, 5 does not read; otherwise the drawing with `start` and `mid` at `int(size * position)` |
| RectLayout.Kept | nodes/node_image_rect_layout.py:86-87 | a shape is kept iff its rectangle covers at least 10 pixels |
| RectLayout.MinOf | nodes/node_image_rect_layout.py:93-94 | `min` of a non-empty list: an element no larger than any other |
| RectLayout.MaxOf | nodes/node_image_rect_layout.py:95-96 | `max` of a non-empty list: an element no smaller than any other |
| RectLayout.BoundingRectangle | nodes/node_image_rect_layout.py:79-104 | `None` iff no shape is large enough; otherwise a box at least one pixel wide and high |
| RectLayout.BoundingRectangleContains | nodes/node_image_rect_layout.py:93-104 | the box contains every kept shape |
| RectLayout.BoundingRectangleTightTopLeft | nodes/node_image_rect_layout.py:93-94 | a kept shape touches the box's left edge and one its top edge |
| RectLayout.BoundingRectangleTightBottomRight | nodes/node_image_rect_layout.py:95-102 | a kept shape touches the right and the bottom edge, unless the box was raised to one pixel there |
| RectLayout.KeptMember | nodes/node_image_rect_layout.py:87 | every kept rectangle is a large enough input shape |
| RectLayout.WideFits | nodes/node_image_rect_layout.py:132-135 | a wider picture fitted to the width is lower than the rectangle |
| RectLayout.TallFits | nodes/node_image_rect_layout.py:136-139 | a narrower picture fitted to the height is no wider than the rectangle |
| RectLayout.FitSizeInside | nodes/node_image_rect_layout.py:122-147 | the fitted size lies within one pixel and the rectangle on both sides, and meets the rectangle on one |
| RectLayout.AspectDifference | nodes/node_image_rect_layout.py:156-169 | infinite iff one ratio is not positive |
| RectLayout.AspectDifferenceMetric | nodes/node_image_rect_layout.py:163-169 | the difference is symmetric, never negative, and zero iff the ratios are equal |
| RectLayout.RatioAboveOne | nodes/node_image_rect_layout.py:166-169 | the larger ratio over the smaller exceeds one |
| RectLayout.SelectBestMatching | nodes/node_image_rect_layout.py:171-192 | an index is listed iff its picture is suitable, in increasing order, each with its own ratio |
| RectLayout.Abs | nodes/node_image_rect_layout.py:257 | `abs` is the value or its negation, never negative |
| RectLayout.FirstArgMin | nodes/node_image_rect_layout.py:258 | `index(min(...))`: the first position holding the smallest value |
| RectLayout.Without | nodes/node_image_rect_layout.py:271 | one entry fewer |
| RectLayout.WithoutPartition | nodes/node_image_rect_layout.py:271 | the rest keeps its order and with the dropped entry makes up the list |
| RectLayout.CentredInside | nodes/node_image_rect_layout.py:280-281 | a fitted side no longer than the rectangle's lies inside it once centred |
| RectLayout.SelectedIndex | nodes/node_image_rect_layout.py:250-263 | the chosen index is one of the suitable ones |
| RectLayout.SelectedPosition | nodes/node_image_rect_layout.py:255-263 | without random selection the chosen ratio is closest to the target, and the first such |
| RectLayout.SelectionIsBestMatch | nodes/node_image_rect_layout.py:236-263 | the chosen picture is suitable, none is closer, and none before it is as close |
| RectLayout.Exec | nodes/node_image_rect_layout.py:194-310 | an empty or missing list gives the background twice and no list; no shape gives the background and the list; no suitable picture gives the background or a transparent image and a copy; otherwise a suitable picture, the best one unless random, fitted and centred in the box, outlined in red and green on the preview, and the other pictures in order |
| RectLayout.Compose | nodes/node_image_rect_layout.py:274-299 | the picture fitted and centred on a transparent image and on the preview with both outlines |
| RectLayout.PlacementInsideRect | nodes/node_image_rect_layout.py:274-281 | the pasted picture lies inside the box |
| AspectFilter.AllFrames | nodes/node_image_aspect_filter.py:35-42 | every frame index, in order |
| AspectFilter.FrameLines | nodes/node_image_aspect_filter.py:35-38 | one report line per frame |
| AspectFilter.UiLines | nodes/node_image_aspect_filter.py:35-45 | one line per frame, and the fallback notice when nothing was kept |
| AspectFilter.Filter | nodes/node_image_aspect_filter.py:25-56 | a tensor that is not four-dimensional raises, a zero height raises once a frame is read; otherwise the whole batch when its ratio is in range, else the default image, and the report joined by newlines |
| AspectFilter.AllOrNone | nodes/node_image_aspect_filter.py:35-46 | all frames are kept or none is |
| AspectFilter.ReportLines | nodes/node_image_aspect_filter.py:38-54 | splitting the report at newlines gives back its lines, one per frame plus the notice |
| AspectFilter.DecimalAvoidsNewline | nodes/node_image_aspect_filter.py:38 | decimal numbers contain no newline |
| ImageList.Present | nodes/node_image_list.py:32-35 | only present values, none of them lost |
| ImageList.PresentConcat | nodes/node_image_list.py:32-35 | the present values keep their order across concatenation |
| ImageList.PresentSingle | nodes/node_image_list.py:32-35 | a present entry adds its value once, an absent one adds nothing |
| ImageList.PresentAll | nodes/node_image_list.py:32-35 | with every entry present nothing is dropped |
| ImageList.Doit | nodes/node_image_list.py:26-37 | `[image1, image2]`, then `image3` and then `image4` each only when present; two to four entries |
| Scatter.UniformBetween | nodes/node_image_random_layout.py:116-119 | `uniform(a, b)` lies between its bounds |
| Scatter.RandInt | nodes/node_image_random_layout.py:113-114 | `randint(a, b)` lies between its bounds |
| Scatter.BasePoint | nodes/node_image_random_layout.py:109-114 | a path point with row and column swapped, or a pixel of the image when the path is empty |
| Scatter.OriginCentres | nodes/node_image_random_layout.py:132-133 | the paste origin centres the sprite on the point, to within a pixel |
| Scatter.Transformed | nodes/node_image_random_layout.py:121-130 | the sprite keeps its source, rotation and scale |
| Scatter.Placement | nodes/node_image_random_layout.py:106-135 | every loop turn pastes one sprite |
| Scatter.PlacementWithinSettings | nodes/node_image_random_layout.py:109-133 | rotation and scale lie within the sliders and the sprite's middle lies within the offset of its base point |
| Scatter.Scattered | nodes/node_image_random_layout.py:105-136 | one paste per loop turn, turn `i` placing the image drawn in that turn |
| Scatter.ScatteredStep | nodes/node_image_random_layout.py:105-136 | one more turn adds one paste on top |
| Scatter.Canvas.constructor | nodes/node_image_random_layout.py:99-100 | a new canvas has its size and nothing composited |
| Scatter.Canvas.AlphaComposite | nodes/node_image_random_layout.py:103-136 | the layer goes on top of what was composited |
| RandomLayout.AlphaFor | nodes/node_image_random_layout.py:81-87 | all ones iff there is no mask, and `1 - mask` otherwise |
| RandomLayout.ImagesOf | nodes/node_image_random_layout.py:78-79 | the image of each pair, in order |
| RandomLayout.AssembledImages | nodes/node_image_random_layout.py:76-88 | one entry per present image, in order, each with an alpha channel |
| RandomLayout.MaskIgnoredWithoutImage | nodes/node_image_random_layout.py:80 | a mask without its image changes nothing |
| RandomLayout.AssembledStep | nodes/node_image_random_layout.py:78-88 | one more pair adds its image, if present |
| RandomLayout.AssembledConcat | nodes/node_image_random_layout.py:78-88 | assembling works pair by pair |
| RandomLayout.AssembleBatch | nodes/node_image_random_layout.py:76-88 | the loop builds the batch of present images with their alpha |
| RandomLayout.Exec | nodes/node_image_random_layout.py:72-140 | no image gives the inputs back; an empty path on an image with no pixels raises once a point is needed; otherwise two fresh canvases of the path image's size, one with the scattered sprites and one with the path under the same sprites |
| ImageLayout.AsList | nodes/node_image_layout.py:62-63 | a single tensor is wrapped into a one-element list, a list is kept |
| ImageLayout.Prepared | nodes/node_image_layout.py:81-84 | a three-channel image gets an opaque alpha channel iff it has three channels; others are used as they are |
| ImageLayout.PreparedAll | nodes/node_image_layout.py:77-84 | every image of the list prepared, position for position |
| ImageLayout.ScatterOnto | nodes/node_image_layout.py:77-114 | an empty list raises on the first turn, as does an empty path on an image with no pixels; otherwise the canvas gains the scattered pastes on top |
| ImageLayout.Expected | nodes/node_image_layout.py:56-117 | `None` without a path tensor; the two failures; otherwise the path image at the bottom when asked for, then one paste per turn |
| ImageLayout.Exec | nodes/node_image_layout.py:56-117 | the result matches `Expected`: the same failure, or a fresh canvas of the path image's size holding the expected layers |
| ImagePrint.NumberIn | nodes/node_image_print.py:108-113 | a number is read only from names that start with the prefix and end in `.png` |
| ImagePrint.HighestIsMaximum | nodes/node_image_print.py:105-114 | the highest number is at least every number read, and is 0 or one of them |
| ImagePrint.FindHighestNumericValue | nodes/node_image_print.py:105-114 | the loop computes the highest number read, 0 when there is none |
| ImagePrint.NumberInSavedName | nodes/node_image_print.py:93-110 | the number read back from a saved name is the counter it was written with |
| ImagePrint.Counter | nodes/node_image_print.py:88 | the counter is one more than the highest number, so above every number already used |
| ImagePrint.RaisedTo | nodes/node_image_print.py:105-114 | a name carrying a number above all earlier ones becomes the highest |
| ImagePrint.PrintImage | nodes/node_image_print.py:34-100 | without the trigger nothing is printed; otherwise the image is saved under `prefix_NNNNN.png` with the next counter, which becomes the highest number in the folder |

## Left out

- K-means colour extraction: the sklearn `KMeans` call, the `bincount`/`argsort` ranking and the tensor reshapes in both image-to-colour nodes are foreign numerics. The cluster centres are an input sequence.
- The grayscale/invalid-image branch of `nodes/node_image_to_color.py` (lines 98-105) is not modelled. It works on tensor shapes, which are not part of this model.
- `colorsys` HSV/HSL conversions, the 2.4 power in relative luminance, `round(…, 6)` and the `:.4f` formatting are floating-point library numerics. They are function parameters, and only the plumbing, clamps and choice rules around them are proved.
- IEEE rounding is not captured (`numpy.linspace`, divisions, `int()` of a float). Reals are exact.
- Image library calls are not modelled: cv2 `threshold`/`findContours`, the scipy Sobel path extraction, and PIL `rotate`/`resize`/`alpha_composite`/`paste`/`ImageDraw`. Contours are given as rectangles, path points are an input, and the size of a rotated image is a parameter. A composite is recorded on the canvas as a layer and is not rasterised. Of the colour-limit preview, only the 512 × 512 colour plane is filled into an array; the dashed box is given as line geometry and the two markers as their centres.
- `tensor2pil`/`pil2tensor` and the tensor layouts are not modelled. An image is its size and channel count (`Images.Picture`).
- PIL resizing to a zero size is not modelled. The fitted size is at least 1 × 1.
- The `repr` text of ui values is not modelled. The ui fields carry the values themselves.
- Randomness: `random.choice`, `uniform` and `randint` are read from a supplied oracle of draws, one record per loop iteration. A choice is a natural number taken modulo the length chosen from. The distribution of the draws is not modelled.
- Printing and file I/O are not modelled: the saving of the image, `os.listdir` (the file names are an input sequence), `subprocess`/`lpr`/`lpstat`, the win32 calls, `platform` and the timed polling loop of the print node.
- `generate_color_blocks` in `BK_Img2Color.py` draws with matplotlib and writes to disk. The update of the global `webcolors` dictionary in its `main` is a side effect only.
- `nodes/node_image_to_svg.py`, the web widget files other than `web/utils.js`, `node_mappings.py` and `__init__.py` are UI wiring and host registration. `BK_ImageFilterByAspectRatio.py` is entirely commented out.
- Python `int()` leniency is not modelled: signs, surrounding whitespace, underscores and non-ASCII decimal digits. Parsing is over digit strings, and a name carrying a negative number is treated as unparsable. The scan's `max` with 0 makes that equivalent.
- JavaScript `parseInt` is modelled without leading whitespace, and its precision limit of 2^53 is not modelled.
- `lower()` is modelled for ASCII letters only. There is no Unicode case mapping.
- ColorMath.ContrastRatio: requires the darker luminance plus 0.05 to be non-zero, where Python would raise `ZeroDivisionError`. `ColorMath.ContrastDefined` shows this holds for every non-negative luminance, which is what the nodes compute.
- ColorLimit.Limit: the lower-case `#rrggbb` shape of the result is promised only when colorsys's HSV-to-RGB answer for the limited triple lies in the unit cube. `ColorLimit.LimitShape` discharges this for sliders in [0, 1] when both conversions map the unit cube into itself and rounding keeps [0, 1]. Outside the cube (a value above 1 or a negative component) `int(x * 255)` can leave the byte range and the `02x` text is not `#rrggbb`.
- LegacyColorLimit.Limit: the same pointwise condition applies to its HLS-to-RGB answer, discharged by `LegacyColorLimit.LimitShape`.
- The colour-limit preview's marker ellipse outlines and its direction arrow (`atan2`, the shaft shortened by the dot size plus the gap, and the two head strokes at ±30°) in `nodes/node_color_limit.py` are not modelled. They are trigonometric PIL drawing only.
- LegacyImg2Color.Img2Color.constructor: `BK_Img2Color.py` defines no `__init__`. The empty exclusion list and the zero iteration count are a starting state of the model only, never observed, because `main` sets both fields before `join_and_exclude` reads them.
- ColorLimit.DrawDashedRectangle: requires a positive dash length. The node always passes 4.
- The `reverse` slice in `nodes/node_gradient_image.py` is a numpy view. The model builds a mirrored copy, which holds the same pixels.
- The `height <= 0` guard of `exec` in `nodes/node_image_rect_layout.py` cannot fire, because a bounding rectangle is at least 1 high. It is left out.
- The exception fallback of `fit_image_to_rect` is modelled only for a zero-height picture. That is the only input for which the arithmetic raises.
- Only the first frame of the background batch is read, as `exec` does. The other frames are not modelled.
- RectLayout.Exec: the random pick among the suitable images is only stated to be a suitable index.
- The `path_img is None` branch of both layout nodes (`nodes/node_image_random_layout.py:95-96`, `nodes/node_image_layout.py:67-68`) is unreachable after their guards. It is left out.
