# Resolution generator — a Dafny model

`validate_resolutions.py` asks for a grid (start, end, increment), a
maximum pixel count, an optional aspect-ratio filter such as `16:9`, and a
sort choice. It then enumerates every (width, height) pair of the square
grid `range(start, end + 1, increment)` squared. It splits the pairs into
a *valid* list and an *invalid* list, deduplicates the valid one, sorts
both, and writes them to `resolutions.txt`.

This project models the engine between the prompts and the file:

- `Numbers`: Euclid's gcd (`math.gcd`) and decimal rendering of naturals.
  This makes the aspect-ratio text, which is compared by string equality,
  exact.
- `Text`: Python's `str.split(sep)` with an explicit separator.
- `Ratio`: `get_aspect_ratio`, the reduced ratio rendered as `"p:q"`.
- `Input`: the pure checks inside the prompt loops. These are the range
  test of `get_integer_input`, the shape test of `get_aspect_ratio_input`,
  and the menu choice.
- `Grid`: the nested generation loop and the deduplication. The loop is
  written twice. One version is recursive functions (`Cell`, `Row`,
  `Rows`, `Classify`, `Generate`) that consume the grid one iteration at a
  time. The other is the imperative loops (`GenerateLoops`), proved equal
  to the first.
- `Sorting`: both sort modes, as one stable insertion sort over a two-part
  key.
- `Report`: the two lists as they reach the file, with worked examples.

Three behaviours of the code are proved outright because they are easy to
miss:

- A non-empty filter matches only a ratio written in lowest terms without
  leading zeros. The input check still accepts `32:18` or `016:9`, and
  those select nothing.
- The swap appended at line 65 under a filter fires only for square pairs,
  where it only duplicates. With no filter, the swap is a pair the loop
  visits anyway. So the swap never changes which resolutions are valid.
- The invalid list is never deduplicated. Every over-limit grid pair
  appears in it exactly twice.

Three more plain facts about this code:

- the full square grid is enumerated, both (w, h) and (h, w);
- there is no lower pixel bound;
- a pair within the limit that fails the filter is in neither list
  (`Report.SquareFilterExample` shows this for the filter `1:1`).

## Model

| member | source | states |
|---|---|---|
| Numbers.GcdDivides | validate_resolutions.py:29 | the gcd divides both sides and is positive unless both are 0 |
| Numbers.GcdGreatest | validate_resolutions.py:29 | every common divisor divides the gcd, so it is the greatest one |
| Numbers.GcdScale | validate_resolutions.py:29 | gcd(k·a, k·b) = k·gcd(a, b) |
| Numbers.GcdSymmetric | validate_resolutions.py:29 | gcd(a, b) = gcd(b, a) |
| Numbers.NatToString | validate_resolutions.py:30 | the f-string rendering of an int is a non-empty string of decimal digits |
| Numbers.NatToStringRoundTrip | validate_resolutions.py:30 | reading the rendering back gives the number, and it has no leading zero |
| Numbers.NatToStringInjective | validate_resolutions.py:30 | different numbers render differently |
| Numbers.CanonicalRoundTrip | validate_resolutions.py:30 | a numeral without leading zeros is the rendering of its own value |
| Text.Split | validate_resolutions.py:21 | `split(":")` gives at least one piece and no piece contains the separator |
| Text.SplitJoin | validate_resolutions.py:21 | joining the pieces with the separator gives the string back; there is one piece more than separators |
| Text.SplitNoSeparator | validate_resolutions.py:21 | a string without the separator is a single piece |
| Text.SplitTwo | validate_resolutions.py:21 | a ++ ":" ++ b with separator-free a, b splits into exactly [a, b] |
| Ratio.Reduce | validate_resolutions.py:29-30 | w/gcd and h/gcd are coprime, multiply back to w and h, and are in proportion w:h |
| Ratio.RenderSplits | validate_resolutions.py:30 | the text "p:q" splits back into the numerals of p and q |
| Ratio.RenderInjective | validate_resolutions.py:30 | distinct pairs give distinct "p:q" texts |
| Ratio.AspectRatioShape | validate_resolutions.py:27-30 | the ratio text is two canonical coprime numerals p, q with p·gcd = w, q·gcd = h, p·h = q·w |
| Ratio.ReducedFormUnique | validate_resolutions.py:29-30 | two coprime pairs with equal cross products are equal |
| Ratio.AspectRatioEqualIff | validate_resolutions.py:27-30 | two resolutions have the same ratio text if and only if w·h' = w'·h |
| Ratio.MatchesFilterIff | validate_resolutions.py:30 | only a lowest-terms canonical "a:b" can equal a ratio text; for such a filter, (w, h) matches if and only if w·b = h·a |
| Ratio.AspectRatioSwap | validate_resolutions.py:27-30 | the ratio text of (h, w) is "q:p" when that of (w, h) is "p:q" |
| Ratio.AspectRatioSwapEqualIff | validate_resolutions.py:27-30 | a pair and its swap have the same ratio text if and only if the pair is square |
| Ratio.UnreducedFiltersNeverMatch | validate_resolutions.py:30 | no resolution has ratio text "32:18" or "016:9" |
| Ratio.SixteenByNine | validate_resolutions.py:27-30 | 1920x1080 and 1024x576 both have ratio text "16:9" |
| Input.InRangeIff | validate_resolutions.py:8 | a value passes the range test if and only if it lies within the bounds that are given; with no bounds every value passes; crossed bounds reject everything |
| Input.AcceptsRatioFilterIff | validate_resolutions.py:19-22 | a filter answer is accepted if and only if it is empty or is digits ':' digits with exactly one ':' |
| Input.AcceptedFilterExamples | validate_resolutions.py:19-22 | "16:9", "" and "32:18" are accepted |
| Input.RejectedFilterExamples | validate_resolutions.py:19-22 | "16:", "16:9:1", "a:b" and "16x9" are rejected |
| Input.ParseSortChoice | validate_resolutions.py:45-49 | only the answers 1 and 2 are accepted; 1 selects the width sort |
| Grid.Range | validate_resolutions.py:56-57 | every element of `range(lo, hi, step)` lies in [lo, hi), in strictly increasing order |
| Grid.RangeMembers | validate_resolutions.py:56-57 | x is in `range(lo, hi, step)` if and only if lo ≤ x < hi and x − lo is a multiple of step |
| Grid.Axis | validate_resolutions.py:56-57 | the grid values are positive and distinct |
| Grid.AxisMembers | validate_resolutions.py:56-57 | a value is on the grid if and only if it is start + k·increment ≤ end |
| Grid.RowValidMembers | validate_resolutions.py:57-65 | what one width's inner loop appends to the valid list: the selected (w, h) and the kept swaps |
| Grid.RowInvalidCount | validate_resolutions.py:57-69 | how often one width's inner loop appends a pair to the invalid list |
| Grid.CellInvalidCount | validate_resolutions.py:66-69 | one over-limit visit appends the pair and its swap, and nothing else |
| Grid.RowsValidMembers | validate_resolutions.py:56-65 | what the nested loops append to the valid list |
| Grid.RowsInvalidCount | validate_resolutions.py:56-69 | how often the nested loops append a pair to the invalid list |
| Grid.Dedup | validate_resolutions.py:72 | the deduplicated list is duplicate-free and has exactly the members of its input |
| Grid.Generate | validate_resolutions.py:56-72 | the final valid list is duplicate-free and holds exactly what the loops appended |
| Grid.DistinctOnce | validate_resolutions.py:72 | a member of a duplicate-free list occurs in it once |
| Grid.ValidIff | validate_resolutions.py:56-72 | a pair is valid if and only if both sides are on the grid, w·h ≤ the limit and the filter is empty or equals its ratio text; it then occurs exactly once |
| Grid.InvalidCount | validate_resolutions.py:56-69 | an over-limit grid pair occurs in the invalid list exactly twice and nothing else occurs in it; the filter plays no part |
| Grid.SwapKeptOnlyForSquares | validate_resolutions.py:61-65 | under a non-empty filter the swap is appended exactly for square pairs |
| Grid.InvalidOverLimit | validate_resolutions.py:59-69 | every invalid entry is a grid pair over the pixel limit |
| Grid.FilteredOutInNeither | validate_resolutions.py:59-69 | a grid pair within the limit whose ratio fails a non-empty filter is in neither list |
| Grid.SwapSymmetry | validate_resolutions.py:56-69 | (w, h) and (h, w) occur equally often in the invalid list; with no filter, (w, h) is valid if and only if (h, w) is |
| Grid.EmptyGridWhenStartAfterEnd | validate_resolutions.py:56-57 | a start above the end gives two empty lists, with no error; this is the loop on a configuration the prompt at line 34 rules out |
| Grid.GenerateLoops | validate_resolutions.py:56-72 | the imperative nested loops followed by the dedup compute exactly `Generate` |
| Grid.RowLoop | validate_resolutions.py:57-69 | the imperative inner loop appends exactly `Row` to both lists |
| Grid.DedupLoop | validate_resolutions.py:72 | the imperative dedup loop computes exactly `Dedup` |
| Sorting.Insert | validate_resolutions.py:75-80 | inserting adds exactly one copy of the element |
| Sorting.InsertSorted | validate_resolutions.py:75-80 | inserting into a sorted list keeps it sorted |
| Sorting.Sort | validate_resolutions.py:75-80 | the sorted list is a permutation of its input and is ordered by the chosen key |
| Sorting.WithKeyConcat | validate_resolutions.py:78-80 | the elements with key k of a concatenation are those of each part in turn |
| Sorting.InsertWithKey | validate_resolutions.py:78-80 | inserting x puts it after every element of a sorted list that has the same key |
| Sorting.SortStable | validate_resolutions.py:78-80 | for every key, the elements with that key leave the sort in the order they entered |
| Sorting.SortOrder | validate_resolutions.py:75-80 | choice 1 orders by (width, height) lexicographically; choice 2 orders by non-decreasing pixel count |
| Sorting.SortedByWidthUnique | validate_resolutions.py:75-77 | two (width, height)-sorted lists with the same elements are equal |
| Sorting.SortByWidthIgnoresOrder | validate_resolutions.py:75-77 | the width sort's result depends only on the multiset of its input |
| Sorting.SameMembersSameMultiset | validate_resolutions.py:72 | two duplicate-free lists with the same members have the same multiset |
| Report.Run | validate_resolutions.py:56-80 | both reported lists are sorted by the choice and are permutations of the generated lists |
| Report.RunContents | validate_resolutions.py:56-80 | a reported valid entry occurs once exactly when it is a matching grid pair within the limit; an over-limit grid pair occurs twice in the invalid report |
| Report.ReducedFilterSelectsProportional | validate_resolutions.py:59-65 | under a lowest-terms filter "a:b", the valid list is the grid pairs within the limit with w·b = h·a |
| Report.UnreducedFilterSelectsNothing | validate_resolutions.py:59-65 | an accepted filter that is not in lowest terms, or has a leading zero, leaves the valid list empty |
| Report.ByWidthReportIgnoresSetOrder | validate_resolutions.py:72-77 | any duplicate-free order of the deduplicated set gives the same width-sorted report |
| Report.ByPixelsReportKeepsTies | validate_resolutions.py:72-80 | the pixel sort keeps resolutions of equal pixel count in their order before the sort |
| Report.SmallGridExample | validate_resolutions.py:56-80 | for grid {512, 1024}, limit 2,000,000 and no filter, the width-sorted valid report is 512x512, 512x1024, 1024x512, 1024x1024, and the invalid report is empty |
| Report.SquareFilterExample | validate_resolutions.py:59-69 | on the same grid with filter "1:1" the squares are valid, and 512x1024 is in neither list |
| Report.TieExample | validate_resolutions.py:75-80 | the pixel sort keeps [1024x512, 512x1024] as it is, and the width sort puts 512x1024 first |

## Left out

- The prompt retry loops (lines 5-13, 17-25, 42-49), `print` and `input`. These are terminal I/O. Only the pure tests inside them are modelled, and `int(input(...))` raising `ValueError` is not modelled.
- Writing `resolutions.txt` (lines 83-105). This is file I/O. What is written is the two lists `Report.Run` returns, up to the order of equal-pixel entries in the valid list under choice 2, which comes from Python's set (see the next two lines).
- Grid.Dedup: Python's set iteration order at line 72 is not modelled. `Dedup` keeps first occurrences in order instead. `Report.ByWidthReportIgnoresSetOrder` shows that the width sort cannot tell the difference.
- Report.ByPixelsReportKeepsTies: the tie order it states is that of `Dedup`, not Python's set iteration order. The real order of ties in the pixel sort is therefore left unspecified.
- Input.AcceptsRatioFilter: `str.isdigit` is modelled as ASCII `0`-`9` only. Python also accepts other Unicode digit characters.
- Grid.Runnable: configurations with increment ≤ 0 or start ≤ 0 are excluded as a precondition, by choice. The prompts at lines 33 and 35 accept them. With increment 0, `range` raises. With a negative increment, the grid is empty. A start of 0 or below is left out. Python divides by zero at line 30 only when (0, 0) is on the grid and `0 <= max_pixel_limit`, so that line 60 is reached for it. Otherwise Python runs such a grid: `math.gcd` works on absolute values and `//` floors, giving texts such as "-3:-1". Negative sides are not modelled, so `Ratio.AspectRatio` takes naturals.
- A minimum pixel count, orientation filters, ratio ranges, closest-to-square ordering and upscale/downscale percentages. They are not part of this script.
