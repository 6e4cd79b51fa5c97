/**
 * The pure checks inside the prompt loops of validate_resolutions.py: the
 * range test of `get_integer_input`, the shape test of
 * `get_aspect_ratio_input`, and the sort-menu choice. The loops that re-ask
 * on a rejected answer are terminal I/O and are not modelled.
 */
module Input {
  import opened Numbers
  import opened Text

  datatype Option<T> = None | Some(value: T)

  /** The range test of `get_integer_input`: an absent bound does not apply. */
  predicate InRange(value: int, minValue: Option<int>, maxValue: Option<int>) {
    !((minValue.Some? && value < minValue.value) || (maxValue.Some? && value > maxValue.value))
  }

  /** The range test accepts exactly the values of the closed interval its
      bounds describe; with no bounds, every integer is accepted. */
  lemma InRangeIff(value: int, minValue: Option<int>, maxValue: Option<int>)
    ensures InRange(value, minValue, maxValue) <==>
      (minValue.None? || minValue.value <= value) && (maxValue.None? || value <= maxValue.value)
    ensures InRange(value, None, None)
    ensures minValue.Some? && maxValue.Some? && minValue.value > maxValue.value ==>
      !InRange(value, minValue, maxValue)
  {
  }

  /** Python's `str.isdigit` restricted to ASCII: non-empty and only digits. */
  predicate IsDigitString(s: string) {
    |s| > 0 && AllDigits(s)
  }

  /** The acceptance test of `get_aspect_ratio_input`: the empty answer, or
      two digit strings separated by the only ':' in the answer. */
  predicate AcceptsRatioFilter(ratio: string) {
    || ratio == ""
    || (var parts := Split(ratio, ':');
        |parts| == 2 && IsDigitString(parts[0]) && IsDigitString(parts[1]))
  }

  /** An answer is accepted exactly when it is empty or is digits ':' digits. */
  lemma AcceptsRatioFilterIff(ratio: string)
    ensures AcceptsRatioFilter(ratio) <==>
      ratio == "" ||
      (exists i :: 0 <= i < |ratio| && ratio[i] == ':' &&
         IsDigitString(ratio[..i]) && IsDigitString(ratio[i + 1..]))
  {
    var parts := Split(ratio, ':');
    SplitJoin(ratio, ':');
    if ratio != "" && |parts| == 2 && IsDigitString(parts[0]) && IsDigitString(parts[1]) {
      var i := |parts[0]|;
      assert ratio == parts[0] + [':'] + parts[1];
      assert ratio[..i] == parts[0] && ratio[i + 1..] == parts[1];
    }
    if ratio != "" && (exists i :: 0 <= i < |ratio| && ratio[i] == ':' &&
                         IsDigitString(ratio[..i]) && IsDigitString(ratio[i + 1..])) {
      var i :| 0 <= i < |ratio| && ratio[i] == ':' &&
         IsDigitString(ratio[..i]) && IsDigitString(ratio[i + 1..]);
      var a, b := ratio[..i], ratio[i + 1..];
      assert ratio == a + [':'] + b;
      AllDigitsNoColon(a);
      AllDigitsNoColon(b);
      SplitTwo(a, b, ':');
    }
  }

  /** Examples: "16:9" and "" pass, and so does "32:18", although no
      resolution has that ratio text. */
  lemma AcceptedFilterExamples()
    ensures AcceptsRatioFilter("16:9") && AcceptsRatioFilter("") && AcceptsRatioFilter("32:18")
  {
    SplitTwo("16", "9", ':');
    assert "16" + [':'] + "9" == "16:9";
    SplitTwo("32", "18", ':');
    assert "32" + [':'] + "18" == "32:18";
  }

  /** Examples: a missing part, a third part and non-digit parts are rejected. */
  lemma RejectedFilterExamples()
    ensures !AcceptsRatioFilter("16:") && !AcceptsRatioFilter("16:9:1")
    ensures !AcceptsRatioFilter("a:b") && !AcceptsRatioFilter("16x9")
  {
    SplitTwo("16", "", ':');
    assert "16" + [':'] + "" == "16:";
    SplitTwo("a", "b", ':');
    assert "a" + [':'] + "b" == "a:b";
    SplitThree();
    SplitNoSeparator("16x9", ':');
  }

  lemma SplitThree()
    ensures |Split("16:9:1", ':')| == 3
  {
    SplitTwo("9", "1", ':');
    assert "9" + [':'] + "1" == "9:1";
    assert "16:9:1"[1..] == "6:9:1" && "6:9:1"[1..] == ":9:1" && ":9:1"[1..] == "9:1";
  }

  /** The sort-menu answer: 1 and 2 are the only accepted choices. */
  datatype SortChoice = ByWidth | ByPixels

  function ParseSortChoice(n: int): (c: Option<SortChoice>)
    ensures c.Some? <==> n == 1 || n == 2
    ensures c == Some(ByWidth) <==> n == 1
  {
    if n == 1 then Some(ByWidth) else if n == 2 then Some(ByPixels) else None
  }
}
