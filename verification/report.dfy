/**
 * The engine end to end (lines 56-80): generate the two lists, deduplicate
 * the valid one, and sort both by the menu choice. Writing them to
 * resolutions.txt is not modelled.
 */
module Report {
  import opened Numbers
  import opened Text
  import opened Ratio
  import opened Grid
  import opened Input
  import opened Sorting

  /** Both lists as they are written to the report, up to the order of
      equal-pixel entries in the valid list under choice 2 (that order comes
      from Python's set, which `Dedup` does not model). */
  function Run(cfg: Config, choice: SortChoice): (rep: Lists)
    requires Runnable(cfg)
    ensures SortedBy(choice, rep.valid) && SortedBy(choice, rep.invalid)
    ensures multiset(rep.valid) == multiset(Generate(cfg).valid)
    ensures multiset(rep.invalid) == multiset(Generate(cfg).invalid)
  {
    var g := Generate(cfg);
    Lists(Sort(choice, g.valid), Sort(choice, g.invalid))
  }

  /** What the reported lists hold, whatever the sort choice: each valid
      resolution once, each over-limit grid pair twice. */
  lemma RunContents(cfg: Config, choice: SortChoice, r: Resolution)
    requires Runnable(cfg)
    ensures multiset(Run(cfg, choice).valid)[r] ==
      if && InGrid(cfg, r.width) && InGrid(cfg, r.height)
         && r.Pixels() <= cfg.maxPixels
         && (cfg.filter == "" || AspectRatio(r.width, r.height) == cfg.filter)
      then 1 else 0
    ensures multiset(Run(cfg, choice).invalid)[r] ==
      if InGrid(cfg, r.width) && InGrid(cfg, r.height) && r.Pixels() > cfg.maxPixels then 2 else 0
  {
    ValidIff(cfg, r);
    InvalidCount(cfg, r);
  }

  /** Under a filter "a:b" in lowest terms, the valid list holds exactly the
      grid pairs within the limit whose sides are in proportion a:b. */
  lemma ReducedFilterSelectsProportional(cfg: Config, r: Resolution)
    requires Runnable(cfg) && IsReducedRatioText(cfg.filter)
    ensures var parts := Split(cfg.filter, ':');
      r in Generate(cfg).valid <==>
        && InGrid(cfg, r.width) && InGrid(cfg, r.height)
        && r.Pixels() <= cfg.maxPixels
        && r.width * StringToNat(parts[1]) == r.height * StringToNat(parts[0])
  {
    ValidIff(cfg, r);
    if InGrid(cfg, r.width) && InGrid(cfg, r.height) {
      MatchesFilterIff(r.width, r.height, cfg.filter);
    }
  }

  /** A non-empty filter that is not a ratio in lowest terms written without
      leading zeros ("32:18", "016:9") leaves the valid list empty. */
  lemma UnreducedFilterSelectsNothing(cfg: Config)
    requires Runnable(cfg) && cfg.filter != "" && !IsReducedRatioText(cfg.filter)
    ensures Generate(cfg).valid == []
  {
    var v := Generate(cfg).valid;
    if |v| > 0 {
      var r := v[0];
      ValidIff(cfg, r);
      MatchesFilterIff(r.width, r.height, cfg.filter);
      assert false;
    }
  }

  /** Sorted by width, the valid list is the same whichever duplicate-free
      order the set at line 72 hands its members out in. */
  lemma ByWidthReportIgnoresSetOrder(cfg: Config, order: seq<Resolution>)
    requires Runnable(cfg)
    requires Distinct(order) && forall x :: x in order <==> x in Generate(cfg).valid
    ensures Sort(ByWidth, order) == Run(cfg, ByWidth).valid
  {
    SameMembersSameMultiset(order, Generate(cfg).valid);
    SortByWidthIgnoresOrder(order, Generate(cfg).valid);
  }

  /** Sorted by pixel count, resolutions with equal pixel counts keep the
      order the deduplicated list had. */
  lemma ByPixelsReportKeepsTies(cfg: Config, k: (int, int))
    requires Runnable(cfg)
    ensures WithKey(ByPixels, Run(cfg, ByPixels).valid, k) == WithKey(ByPixels, Generate(cfg).valid, k)
    ensures WithKey(ByPixels, Run(cfg, ByPixels).invalid, k) == WithKey(ByPixels, Generate(cfg).invalid, k)
  {
    SortStable(ByPixels, Generate(cfg).valid, k);
    SortStable(ByPixels, Generate(cfg).invalid, k);
  }

  /** The grid {512, 1024} squared, a limit of 2,000,000 pixels, no filter. */
  const SmallGrid := Config(512, 1024, 512, 2000000, "")

  /** The same grid under the filter "1:1". */
  const SquareGrid := Config(512, 1024, 512, 2000000, "1:1")

  /** The width-sorted valid report of SmallGrid. */
  const SmallGridReport :=
    [Resolution(512, 512), Resolution(512, 1024), Resolution(1024, 512), Resolution(1024, 1024)]

  /** A worked run on SmallGrid: every pair is valid and the invalid list is
      empty; sorted by width the report is fully determined. */
  lemma SmallGridExample()
    ensures Run(SmallGrid, ByWidth).valid == SmallGridReport
    ensures Run(SmallGrid, ByWidth).invalid == []
  {
    SmallGridLists(SmallGrid);
    ExpectedSorted();
    var rep := Run(SmallGrid, ByWidth);
    SortedByWidthUnique(rep.valid, SmallGridReport);
    assert |rep.invalid| == |multiset(rep.invalid)| == 0;
  }

  lemma ExpectedSorted()
    ensures SortedBy(ByWidth, SmallGridReport)
  {
  }

  // The configuration is a parameter fixed by `requires` here: over the
  // constant itself the solver unfolds `Generate` and runs out of resource.
  lemma SmallGridLists(cfg: Config)
    requires cfg == SmallGrid
    ensures multiset(Generate(cfg).valid) == multiset(SmallGridReport)
    ensures multiset(Generate(cfg).invalid) == multiset{}
  {
    var g := Generate(cfg);
    forall r
      ensures r in g.valid <==> r in SmallGridReport
      ensures multiset(g.invalid)[r] == 0
    {
      SmallGridMember(r);
    }
    assert Distinct(SmallGridReport);
    SameMembersSameMultiset(SmallGridReport, g.valid);
  }

  lemma SmallGridMember(r: Resolution)
    ensures r in Generate(SmallGrid).valid <==> r.width in {512, 1024} && r.height in {512, 1024}
    ensures multiset(Generate(SmallGrid).invalid)[r] == 0
  {
    var cfg := SmallGrid;
    SmallGridAxis();
    AxisMembers(cfg, r.width);
    AxisMembers(cfg, r.height);
    var onGrid := InGrid(cfg, r.width) && InGrid(cfg, r.height);
    assert onGrid <==> r.width in {512, 1024} && r.height in {512, 1024};
    assert onGrid ==> r.Pixels() <= 1048576 by {
      if onGrid {
        assert r.width <= 1024 && r.height <= 1024 && r.width > 0 && r.height > 0;
        assert r.width * r.height <= 1024 * r.height <= 1024 * 1024;
      }
    }
    ValidIff(cfg, r);
    InvalidCount(cfg, r);
  }

  lemma SmallGridAxis()
    ensures Axis(SmallGrid) == [512, 1024]
  {
    assert Range(1536, 1025, 512) == [];
    assert Range(1024, 1025, 512) == [1024];
  }

  /** SquareGrid: the squares are valid, and 512x1024, whose ratio text is
      "1:2", is in neither list. */
  lemma SquareFilterExample()
    ensures Resolution(512, 512) in Generate(SquareGrid).valid
    ensures Resolution(1024, 1024) in Generate(SquareGrid).valid
    ensures Resolution(512, 1024) !in Generate(SquareGrid).valid
    ensures Resolution(512, 1024) !in Generate(SquareGrid).invalid
  {
    var cfg := SquareGrid;
    GridRatioTexts();
    assert InGrid(cfg, 512) && InGrid(cfg, 1024);
    ValidIff(cfg, Resolution(512, 512));
    ValidIff(cfg, Resolution(1024, 1024));
    FilteredOutInNeither(cfg, Resolution(512, 1024));
  }

  lemma GridRatioTexts()
    ensures AspectRatio(512, 1024) == "1:2"
    ensures AspectRatio(512, 512) == "1:1" && AspectRatio(1024, 1024) == "1:1"
  {
    assert Gcd(512, 1024) == 512 && Gcd(512, 512) == 512 && Gcd(1024, 1024) == 1024;
  }

  /** Sorting by pixel count keeps a tie in input order; sorting by width
      puts 512x1024 before 1024x512 whatever the input order. */
  lemma TieExample()
    ensures Sort(ByPixels, [Resolution(1024, 512), Resolution(512, 1024)]) ==
      [Resolution(1024, 512), Resolution(512, 1024)]
    ensures Sort(ByWidth, [Resolution(1024, 512), Resolution(512, 1024)]) ==
      [Resolution(512, 1024), Resolution(1024, 512)]
  {
    var s := [Resolution(1024, 512), Resolution(512, 1024)];
    assert s[..1] == [Resolution(1024, 512)] && s[..1][..0] == [];
    assert [Resolution(1024, 512)][1..] == [];
  }
}
