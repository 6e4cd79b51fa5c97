/**
 * The generation loop of validate_resolutions.py: every (width, height) of the
 * square grid `range(start, end + 1, increment)` squared is classified, the
 * pairs within the pixel limit whose ratio text matches the filter go to the
 * valid list (with their swap when the swap has the same ratio text), the
 * pairs over the limit go to the invalid list together with their swap, and
 * the valid list is then deduplicated.
 *
 * The loops are modelled as recursive functions that consume the width and
 * height sequences from the back, so that each function call is one more
 * iteration of the source's `for` loop; `GenerateLoops` runs the same loops
 * imperatively and is proved to compute the same lists.
 */
module Grid {
  import opened Numbers
  import opened Ratio

  datatype Resolution = Resolution(width: int, height: int) {
    function Swap(): Resolution {
      Resolution(height, width)
    }

    function Pixels(): int {
      width * height
    }
  }

  /** The answers the generation loop reads: the grid bounds, the step, the
      pixel limit and the ratio filter ("" for no filter). */
  datatype Config = Config(start: int, end: int, increment: int, maxPixels: int, filter: string)

  /** The configurations this model covers: a positive step and a positive
      start. Python's `range` raises on a step of 0 and is empty for a
      negative one. A start of 0 or below is left out by choice, so every
      side is a positive number. The prompts enforce neither condition. */
  predicate Runnable(cfg: Config) {
    cfg.start > 0 && cfg.increment > 0
  }

  predicate Distinct<T(==)>(s: seq<T>) {
    forall i, j :: 0 <= i < j < |s| ==> s[i] != s[j]
  }

  predicate Positive(s: seq<int>) {
    forall i :: 0 <= i < |s| ==> s[i] > 0
  }

  /** Python's `range(lo, hi, step)` for a positive step. */
  function Range(lo: int, hi: int, step: int): (s: seq<int>)
    requires step > 0
    ensures forall i :: 0 <= i < |s| ==> lo <= s[i] < hi
    ensures forall i, j :: 0 <= i < j < |s| ==> s[i] < s[j]
    decreases hi - lo
  {
    if lo >= hi then [] else [lo] + Range(lo + step, hi, step)
  }

  /** Subtracting the step does not change the remainder. */
  lemma ModMinusStep(d: int, step: int)
    requires step > 0
    ensures (d - step) % step == d % step
  {
    DivModUnique(d - step, step, d / step - 1, d % step);
  }

  /** `range(lo, hi, step)` holds exactly the numbers lo + k*step below hi. */
  lemma {:induction false} RangeMembers(lo: int, hi: int, step: int, x: int)
    requires step > 0
    ensures x in Range(lo, hi, step) <==> lo <= x < hi && (x - lo) % step == 0
    decreases hi - lo
  {
    if lo < hi {
      RangeMembers(lo + step, hi, step, x);
      if x == lo {
        assert Range(lo, hi, step)[0] == x;
      } else {
        ModMinusStep(x - lo, step);
        assert (x - lo) - step == x - (lo + step);
        if lo < x < lo + step {
          DivModUnique(x - lo, step, 0, x - lo);
        }
      }
    }
  }

  /** The values the loop gives width and height. */
  function Axis(cfg: Config): (s: seq<int>)
    requires Runnable(cfg)
    ensures Positive(s) && Distinct(s)
  {
    Range(cfg.start, cfg.end + 1, cfg.increment)
  }

  /** A number the loop visits: start + k*increment, at most end. */
  predicate InGrid(cfg: Config, x: int) {
    cfg.increment > 0 && cfg.start <= x <= cfg.end && (x - cfg.start) % cfg.increment == 0
  }

  lemma AxisMembers(cfg: Config, x: int)
    requires Runnable(cfg)
    ensures x in Axis(cfg) <==> InGrid(cfg, x)
  {
    RangeMembers(cfg.start, cfg.end + 1, cfg.increment, x);
  }

  /** The ratio test at line 61: no filter, or the ratio text equals it. */
  predicate Matches(cfg: Config, w: int, h: int)
    requires w > 0 && h > 0
  {
    cfg.filter == "" || AspectRatio(w, h) == cfg.filter
  }

  /** The test at line 64 that decides whether the swap is appended too. */
  predicate SwapKept(cfg: Config, w: int, h: int)
    requires w > 0 && h > 0
  {
    cfg.filter == "" || AspectRatio(w, h) == AspectRatio(h, w)
  }

  /** Visiting (w, h) appends to the valid list: within the limit and matching. */
  predicate Selected(cfg: Config, w: int, h: int)
    requires w > 0 && h > 0
  {
    w * h <= cfg.maxPixels && Matches(cfg, w, h)
  }

  /** The two lists the loop appends to. */
  datatype Lists = Lists(valid: seq<Resolution>, invalid: seq<Resolution>) {
    function Append(other: Lists): Lists {
      Lists(valid + other.valid, invalid + other.invalid)
    }
  }

  /** What one iteration of the inner loop appends. */
  function Cell(cfg: Config, w: int, h: int): Lists
    requires w > 0 && h > 0
  {
    if w * h <= cfg.maxPixels then
      if Matches(cfg, w, h) then
        Lists([Resolution(w, h)] + (if SwapKept(cfg, w, h) then [Resolution(h, w)] else []), [])
      else
        Lists([], [])
    else
      Lists([], [Resolution(w, h), Resolution(h, w)])
  }

  /** What the inner loop appends for one width over the heights hs. */
  function Row(cfg: Config, w: int, hs: seq<int>): Lists
    requires w > 0 && Positive(hs)
    decreases |hs|
  {
    if |hs| == 0 then Lists([], [])
    else Row(cfg, w, hs[..|hs| - 1]).Append(Cell(cfg, w, hs[|hs| - 1]))
  }

  /** What the nested loops append for the widths ws and the heights hs. */
  function Rows(cfg: Config, ws: seq<int>, hs: seq<int>): Lists
    requires Positive(ws) && Positive(hs)
    decreases |ws|
  {
    if |ws| == 0 then Lists([], [])
    else Rows(cfg, ws[..|ws| - 1], hs).Append(Row(cfg, ws[|ws| - 1], hs))
  }

  /** The two lists as they stand after the loops of lines 56-69. */
  function Classify(cfg: Config): Lists
    requires Runnable(cfg)
  {
    Rows(cfg, Axis(cfg), Axis(cfg))
  }

  /** `list(set(s))`: every element once. The order Python's set iterates in
      is not modelled; first occurrences are kept in order instead. */
  function Dedup(s: seq<Resolution>): (r: seq<Resolution>)
    ensures Distinct(r)
    ensures forall x :: x in r <==> x in s
    decreases |s|
  {
    if |s| == 0 then []
    else
      var d := Dedup(s[..|s| - 1]);
      if s[|s| - 1] in d then d else d + [s[|s| - 1]]
  }

  /** The valid list after line 72 and the invalid list. */
  function Generate(cfg: Config): (g: Lists)
    requires Runnable(cfg)
    ensures Distinct(g.valid)
    ensures forall r :: r in g.valid <==> r in Classify(cfg).valid
  {
    var l := Classify(cfg);
    Lists(Dedup(l.valid), l.invalid)
  }

  // ----- what one row appends -----

  lemma {:induction false} RowValidMembers(cfg: Config, w: int, hs: seq<int>, r: Resolution)
    requires w > 0 && Positive(hs)
    ensures r in Row(cfg, w, hs).valid <==>
      (r.width == w && r.height in hs && Selected(cfg, w, r.height)) ||
      (r.height == w && r.width in hs && Selected(cfg, w, r.width) && SwapKept(cfg, w, r.width))
    decreases |hs|
  {
    if |hs| > 0 {
      var front, h := hs[..|hs| - 1], hs[|hs| - 1];
      assert hs == front + [h];
      RowValidMembers(cfg, w, front, r);
    }
  }

  lemma {:induction false} RowInvalidCount(cfg: Config, w: int, hs: seq<int>, r: Resolution)
    requires w > 0 && Positive(hs) && Distinct(hs)
    ensures multiset(Row(cfg, w, hs).invalid)[r] ==
      (if r.width == w && r.height in hs && w * r.height > cfg.maxPixels then 1 else 0) +
      (if r.height == w && r.width in hs && w * r.width > cfg.maxPixels then 1 else 0)
    decreases |hs|
  {
    if |hs| > 0 {
      var front, h := hs[..|hs| - 1], hs[|hs| - 1];
      assert hs == front + [h];
      assert h !in front;
      RowInvalidCount(cfg, w, front, r);
      var c := Cell(cfg, w, h);
      assert Row(cfg, w, hs).invalid == Row(cfg, w, front).invalid + c.invalid;
      assert multiset(Row(cfg, w, hs).invalid)[r] ==
        multiset(Row(cfg, w, front).invalid)[r] + multiset(c.invalid)[r];
      CellInvalidCount(cfg, w, h, r);
    }
  }

  lemma CellInvalidCount(cfg: Config, w: int, h: int, r: Resolution)
    requires w > 0 && h > 0
    ensures multiset(Cell(cfg, w, h).invalid)[r] ==
      (if r.width == w && r.height == h && w * h > cfg.maxPixels then 1 else 0) +
      (if r.height == w && r.width == h && w * h > cfg.maxPixels then 1 else 0)
  {
  }

  // ----- what the nested loops append -----

  lemma {:induction false} RowsValidMembers(cfg: Config, ws: seq<int>, hs: seq<int>, r: Resolution)
    requires Positive(ws) && Positive(hs)
    ensures r in Rows(cfg, ws, hs).valid <==>
      (r.width in ws && r.height in hs && Selected(cfg, r.width, r.height)) ||
      (r.height in ws && r.width in hs && Selected(cfg, r.height, r.width) &&
       SwapKept(cfg, r.height, r.width))
    decreases |ws|
  {
    if |ws| > 0 {
      var front, w := ws[..|ws| - 1], ws[|ws| - 1];
      assert ws == front + [w];
      RowsValidMembers(cfg, front, hs, r);
      RowValidMembers(cfg, w, hs, r);
    }
  }

  lemma {:induction false} RowsInvalidCount(cfg: Config, ws: seq<int>, hs: seq<int>, r: Resolution)
    requires Positive(ws) && Positive(hs) && Distinct(ws) && Distinct(hs)
    ensures multiset(Rows(cfg, ws, hs).invalid)[r] ==
      (if r.width in ws && r.height in hs && r.width * r.height > cfg.maxPixels then 1 else 0) +
      (if r.height in ws && r.width in hs && r.height * r.width > cfg.maxPixels then 1 else 0)
    decreases |ws|
  {
    if |ws| > 0 {
      var front, w := ws[..|ws| - 1], ws[|ws| - 1];
      assert ws == front + [w];
      assert w !in front;
      RowsInvalidCount(cfg, front, hs, r);
      RowInvalidCount(cfg, w, hs, r);
    }
  }

  // ----- the lists after line 72 -----

  /** A member of a duplicate-free list occurs in it exactly once. */
  lemma {:induction false} DistinctOnce(s: seq<Resolution>, r: Resolution)
    requires Distinct(s)
    ensures multiset(s)[r] == (if r in s then 1 else 0)
    decreases |s|
  {
    if |s| > 0 {
      var front := s[..|s| - 1];
      assert s == front + [s[|s| - 1]];
      assert Distinct(front);
      assert s[|s| - 1] !in front;
      DistinctOnce(front, r);
    }
  }

  /** The valid list holds exactly the grid pairs within the pixel limit
      whose ratio text equals the filter (any pair, with no filter), each
      of them exactly once. */
  lemma ValidIff(cfg: Config, r: Resolution)
    requires Runnable(cfg)
    ensures r in Generate(cfg).valid <==>
      && InGrid(cfg, r.width) && InGrid(cfg, r.height)
      && r.Pixels() <= cfg.maxPixels
      && (cfg.filter == "" || AspectRatio(r.width, r.height) == cfg.filter)
    ensures multiset(Generate(cfg).valid)[r] == (if r in Generate(cfg).valid then 1 else 0)
  {
    var axis := Axis(cfg);
    var w, h := r.width, r.height;
    RowsValidMembers(cfg, axis, axis, r);
    AxisMembers(cfg, w);
    AxisMembers(cfg, h);
    if h in axis && w in axis && Selected(cfg, h, w) && SwapKept(cfg, h, w) {
      assert h * w == w * h;
      if cfg.filter != "" {
        AspectRatioSwapEqualIff(h, w);
      }
    }
    DistinctOnce(Generate(cfg).valid, r);
  }

  /** Every grid pair over the pixel limit is in the invalid list exactly
      twice (once visited, once as the swap of its own swap), and nothing
      else is in it: the filter plays no part. */
  lemma InvalidCount(cfg: Config, r: Resolution)
    requires Runnable(cfg)
    ensures multiset(Generate(cfg).invalid)[r] ==
      if InGrid(cfg, r.width) && InGrid(cfg, r.height) && r.Pixels() > cfg.maxPixels then 2 else 0
  {
    var axis := Axis(cfg);
    RowsInvalidCount(cfg, axis, axis, r);
    AxisMembers(cfg, r.width);
    AxisMembers(cfg, r.height);
    assert r.height * r.width == r.width * r.height;
  }

  /** With a filter, the swap at line 65 is appended only for a square pair. */
  lemma SwapKeptOnlyForSquares(cfg: Config, w: int, h: int)
    requires w > 0 && h > 0 && cfg.filter != ""
    ensures SwapKept(cfg, w, h) <==> w == h
  {
    AspectRatioSwapEqualIff(w, h);
  }

  /** Every entry of the invalid list is a grid pair over the pixel limit. */
  lemma InvalidOverLimit(cfg: Config, r: Resolution)
    requires Runnable(cfg) && r in Generate(cfg).invalid
    ensures InGrid(cfg, r.width) && InGrid(cfg, r.height) && r.Pixels() > cfg.maxPixels
  {
    InvalidCount(cfg, r);
  }

  /** A grid pair within the limit whose ratio text differs from a non-empty
      filter is dropped: it is in neither list. */
  lemma FilteredOutInNeither(cfg: Config, r: Resolution)
    requires Runnable(cfg) && InGrid(cfg, r.width) && InGrid(cfg, r.height)
    requires r.Pixels() <= cfg.maxPixels && cfg.filter != ""
    requires AspectRatio(r.width, r.height) != cfg.filter
    ensures r !in Generate(cfg).valid && r !in Generate(cfg).invalid
  {
    ValidIff(cfg, r);
    InvalidCount(cfg, r);
  }

  /** The invalid list is closed under swapping, with equal counts; with no
      filter, so is the valid list. */
  lemma SwapSymmetry(cfg: Config, r: Resolution)
    requires Runnable(cfg)
    ensures multiset(Generate(cfg).invalid)[r] == multiset(Generate(cfg).invalid)[r.Swap()]
    ensures cfg.filter == "" ==> (r in Generate(cfg).valid <==> r.Swap() in Generate(cfg).valid)
  {
    InvalidCount(cfg, r);
    InvalidCount(cfg, r.Swap());
    ValidIff(cfg, r);
    ValidIff(cfg, r.Swap());
    assert r.Swap().Pixels() == r.Pixels();
  }

  /** A start above the end gives an empty grid and two empty lists. The
      prompt for the end (line 34) never accepts such an end, so this is the
      loop's behaviour on a configuration the prompts rule out. */
  lemma EmptyGridWhenStartAfterEnd(cfg: Config)
    requires Runnable(cfg) && cfg.start > cfg.end
    ensures Generate(cfg).valid == [] && Generate(cfg).invalid == []
  {
    assert Axis(cfg) == [];
  }

  // ----- the loops themselves -----

  /** Lines 56-72 as written: two nested loops appending to two lists,
      then the deduplication of the valid list. */
  method GenerateLoops(cfg: Config) returns (valid: seq<Resolution>, invalid: seq<Resolution>)
    requires Runnable(cfg)
    ensures Lists(valid, invalid) == Generate(cfg)
  {
    var axis := Range(cfg.start, cfg.end + 1, cfg.increment);
    valid, invalid := [], [];
    for i := 0 to |axis|
      invariant Lists(valid, invalid) == Rows(cfg, axis[..i], axis)
    {
      assert axis[..i + 1][..i] == axis[..i];
      valid, invalid := RowLoop(cfg, axis[i], axis, valid, invalid);
    }
    assert axis[..|axis|] == axis;
    ghost var c := Classify(cfg);
    assert valid == c.valid && invalid == c.invalid;
    valid := DedupLoop(valid);
    assert Generate(cfg) == Lists(Dedup(c.valid), c.invalid);
  }

  /** The inner loop, lines 57-69, for one width. */
  method RowLoop(cfg: Config, width: int, heights: seq<int>,
                 valid0: seq<Resolution>, invalid0: seq<Resolution>)
    returns (valid: seq<Resolution>, invalid: seq<Resolution>)
    requires width > 0 && Positive(heights)
    ensures Lists(valid, invalid) == Lists(valid0, invalid0).Append(Row(cfg, width, heights))
  {
    valid, invalid := valid0, invalid0;
    for j := 0 to |heights|
      invariant Lists(valid, invalid) == Lists(valid0, invalid0).Append(Row(cfg, width, heights[..j]))
    {
      var height := heights[j];
      assert heights[..j + 1][..j] == heights[..j];
      if width * height <= cfg.maxPixels {
        var ratio := AspectRatio(width, height);
        if cfg.filter == "" || ratio == cfg.filter {
          valid := valid + [Resolution(width, height)];
          if cfg.filter == "" || ratio == AspectRatio(height, width) {
            valid := valid + [Resolution(height, width)];
          }
        }
      } else {
        invalid := invalid + [Resolution(width, height)];
        invalid := invalid + [Resolution(height, width)];
      }
    }
    assert heights[..|heights|] == heights;
  }

  /** Line 72: `list(set(valid))`, keeping first occurrences in order. */
  method DedupLoop(s: seq<Resolution>) returns (unique: seq<Resolution>)
    ensures unique == Dedup(s)
  {
    unique := [];
    for k := 0 to |s|
      invariant unique == Dedup(s[..k])
    {
      assert s[..k + 1][..k] == s[..k];
      if s[k] !in unique {
        unique := unique + [s[k]];
      }
    }
    assert s[..|s|] == s;
  }
}
