/**
 * `get_aspect_ratio`: a resolution's width and height divided by their gcd,
 * rendered as the text "p:q". The generator compares this text with the
 * user's filter by plain string equality, so the rendering is modelled
 * exactly: decimal numerals without leading zeros around one ':'.
 */
module Ratio {
  import opened Numbers
  import opened Text

  /** The ratio w:h in lowest terms. */
  function Reduce(w: nat, h: nat): (r: (nat, nat))
    requires w > 0 || h > 0
    ensures r.0 * Gcd(w, h) == w && r.1 * Gcd(w, h) == h
    ensures Gcd(r.0, r.1) == 1
    ensures r.0 * h == r.1 * w
  {
    ReduceFacts(w, h);
    var g := Gcd(w, h);
    (w / g, h / g)
  }

  lemma ReduceFacts(w: nat, h: nat)
    requires w > 0 || h > 0
    ensures Gcd(w, h) > 0
    ensures (w / Gcd(w, h)) * Gcd(w, h) == w && (h / Gcd(w, h)) * Gcd(w, h) == h
    ensures Gcd(w / Gcd(w, h), h / Gcd(w, h)) == 1
    ensures (w / Gcd(w, h)) * h == (h / Gcd(w, h)) * w
  {
    var g := Gcd(w, h);
    GcdDivides(w, h);
    assert g > 0 && w % g == 0 && h % g == 0;
    var p, q := w / g, h / g;
    ExactQuotient(w, g);
    ExactQuotient(h, g);
    assert g * p == w && g * q == h;
    GcdScale(g, p, q);
    assert Gcd(w, h) == g * Gcd(p, q);
    MulCancel(Gcd(p, q), 1, g);
    CrossProduct(p, q, g);
  }

  /** The text "p:q". */
  function Render(p: nat, q: nat): string {
    NatToString(p) + ":" + NatToString(q)
  }

  /** The aspect-ratio text of a resolution, undefined only for (0, 0). */
  function AspectRatio(w: nat, h: nat): string
    requires w > 0 || h > 0
  {
    var r := Reduce(w, h);
    Render(r.0, r.1)
  }

  /** The filter text a ratio string would have to be: two canonical numerals
      whose values are coprime. */
  predicate IsReducedRatioText(s: string) {
    var parts := Split(s, ':');
    && |parts| == 2
    && IsCanonicalNumeral(parts[0]) && IsCanonicalNumeral(parts[1])
    && Gcd(StringToNat(parts[0]), StringToNat(parts[1])) == 1
  }

  /** The text "p:q" splits back into the numerals of p and q. */
  lemma RenderSplits(p: nat, q: nat)
    ensures Split(Render(p, q), ':') == [NatToString(p), NatToString(q)]
  {
    AllDigitsNoColon(NatToString(p));
    AllDigitsNoColon(NatToString(q));
    SplitTwo(NatToString(p), NatToString(q), ':');
  }

  /** Render is injective. */
  lemma RenderInjective(p: nat, q: nat, p': nat, q': nat)
    requires Render(p, q) == Render(p', q')
    ensures p == p' && q == q'
  {
    RenderSplits(p, q);
    RenderSplits(p', q');
    NatToStringInjective(p, p');
    NatToStringInjective(q, q');
  }

  /** Every aspect-ratio text is two canonical coprime numerals whose values
      p and q are w and h divided by one common factor. */
  lemma AspectRatioShape(w: nat, h: nat)
    requires w > 0 || h > 0
    ensures IsReducedRatioText(AspectRatio(w, h))
    ensures var parts := Split(AspectRatio(w, h), ':');
      var p, q := StringToNat(parts[0]), StringToNat(parts[1]);
      p * Gcd(w, h) == w && q * Gcd(w, h) == h && p * h == q * w
  {
    var r := Reduce(w, h);
    RenderSplits(r.0, r.1);
    NatToStringRoundTrip(r.0);
    NatToStringRoundTrip(r.1);
  }

  /** Two coprime pairs with the same cross product are the same pair. */
  lemma ReducedFormUnique(p: nat, q: nat, p': nat, q': nat)
    requires Gcd(p, q) == 1 && Gcd(p', q') == 1
    requires p * q' == p' * q
    ensures p == p' && q == q'
  {
    GcdZeroLeft(q);
    GcdZeroLeft(q');
    if p == 0 || p' == 0 {
      ZeroProduct(p, q', p', q);
    } else {
      FirstComponentsEqual(p, q, p', q');
      MulCancel(q', q, p);
    }
  }

  lemma FirstComponentsEqual(p: nat, q: nat, p': nat, q': nat)
    requires p > 0 && p' > 0
    requires Gcd(p, q) == 1 && Gcd(p', q') == 1
    requires p * q' == p' * q
    ensures p == p'
  {
    var a, b := p' * p, p' * q;
    GcdOfMultiples(p', p, q, a, b);
    assert Gcd(a, b) == p';
    assert a == p * p';
    assert b == p * q';
    GcdOfMultiples(p, p', q', a, b);
  }

  lemma ZeroProduct(p: nat, q': nat, p': nat, q: nat)
    requires Gcd(0, q) == q && Gcd(0, q') == q'
    requires Gcd(p, q) == 1 && Gcd(p', q') == 1
    requires p * q' == p' * q
    requires p == 0 || p' == 0
    ensures p == p' && q == q'
  {
    if p == 0 {
      assert q == 1;
    }
  }

  /** Two resolutions have the same aspect-ratio text exactly when their
      side lengths are proportional. */
  lemma AspectRatioEqualIff(w: nat, h: nat, w': nat, h': nat)
    requires (w > 0 || h > 0) && (w' > 0 || h' > 0)
    ensures AspectRatio(w, h) == AspectRatio(w', h') <==> w * h' == w' * h
  {
    var r, r' := Reduce(w, h), Reduce(w', h');
    var g, g' := Gcd(w, h), Gcd(w', h');
    GcdDivides(w, h);
    GcdDivides(w', h');
    CrossOfScaled(r.0, r.1, g, r'.0, r'.1, g', w, h, w', h');
    if AspectRatio(w, h) == AspectRatio(w', h') {
      RenderInjective(r.0, r.1, r'.0, r'.1);
    }
    if w * h' == w' * h {
      MulCancel(r.0 * r'.1, r'.0 * r.1, g * g');
      ReducedFormUnique(r.0, r.1, r'.0, r'.1);
    }
  }

  lemma CrossOfScaled(p: nat, q: nat, g: nat, p': nat, q': nat, g': nat,
                      w: nat, h: nat, w': nat, h': nat)
    requires w == p * g && h == q * g && w' == p' * g' && h' == q' * g'
    ensures w * h' == (p * q') * (g * g')
    ensures w' * h == (p' * q) * (g * g')
  {
  }

  /** A resolution matches the filter text "a:b" of a coprime pair exactly
      when w*b == h*a; any other filter text matches no resolution at all. */
  lemma MatchesFilterIff(w: nat, h: nat, f: string)
    requires w > 0 || h > 0
    ensures AspectRatio(w, h) == f ==> IsReducedRatioText(f)
    ensures IsReducedRatioText(f) ==>
      var parts := Split(f, ':');
      (AspectRatio(w, h) == f <==> w * StringToNat(parts[1]) == h * StringToNat(parts[0]))
  {
    AspectRatioShape(w, h);
    if IsReducedRatioText(f) {
      var parts := Split(f, ':');
      var a, b := StringToNat(parts[0]), StringToNat(parts[1]);
      CanonicalRoundTrip(parts[0]);
      CanonicalRoundTrip(parts[1]);
      SplitJoin(f, ':');
      assert f == Render(a, b);
      assert a > 0 || b > 0;
      assert Reduce(a, b) == (a, b);
      AspectRatioEqualIff(w, h, a, b);
    }
  }

  /** Swapping the sides swaps the two numbers of the text. */
  lemma AspectRatioSwap(w: nat, h: nat)
    requires w > 0 || h > 0
    ensures var r := Reduce(w, h); AspectRatio(h, w) == Render(r.1, r.0)
  {
    GcdSymmetric(w, h);
  }

  /** A resolution and its swap have the same text exactly when it is square. */
  lemma AspectRatioSwapEqualIff(w: nat, h: nat)
    requires w > 0 || h > 0
    ensures AspectRatio(w, h) == AspectRatio(h, w) <==> w == h
  {
    AspectRatioSwap(w, h);
    var r := Reduce(w, h);
    if AspectRatio(w, h) == AspectRatio(h, w) {
      RenderInjective(r.0, r.1, r.1, r.0);
    }
  }

  /** Filters that pass the input check but can never match: a ratio that is
      not in lowest terms, and a numeral with a leading zero. */
  lemma UnreducedFiltersNeverMatch(w: nat, h: nat)
    requires w > 0 || h > 0
    ensures AspectRatio(w, h) != "32:18"
    ensures AspectRatio(w, h) != "016:9"
  {
    MatchesFilterIff(w, h, "32:18");
    MatchesFilterIff(w, h, "016:9");
    SplitTwo("32", "18", ':');
    SplitTwo("016", "9", ':');
    assert "32" + [':'] + "18" == "32:18";
    assert "016" + [':'] + "9" == "016:9";
    assert StringToNat("32") == 32 && StringToNat("18") == 18;
    assert Gcd(32, 18) == 2;
  }

  /** The worked example: "16:9" is the text of 1920x1080 and of 1024x576. */
  lemma SixteenByNine()
    ensures AspectRatio(1920, 1080) == "16:9"
    ensures AspectRatio(1024, 576) == "16:9"
  {
    assert Gcd(1920, 1080) == 120;
    assert Gcd(1024, 576) == 64;
  }
}
