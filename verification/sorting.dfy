/**
 * Lines 75-80: `sorted(xs)` on (width, height) tuples for choice 1 and
 * `sorted(xs, key=lambda x: x[0] * x[1])` for choice 2. Both are Python's
 * stable sort; a tuple compares lexicographically. Each choice is given as
 * a sort key of two integers compared lexicographically, (width, height) and
 * (pixels, 0), and one stable insertion sort serves both.
 */
module Sorting {
  import opened Grid
  import opened Input

  function Key(c: SortChoice, r: Resolution): (int, int) {
    match c
    case ByWidth => (r.width, r.height)
    case ByPixels => (r.Pixels(), 0)
  }

  /** Lexicographic order on keys. */
  predicate KeyLe(a: (int, int), b: (int, int)) {
    a.0 < b.0 || (a.0 == b.0 && a.1 <= b.1)
  }

  predicate SortedBy(c: SortChoice, s: seq<Resolution>) {
    forall i, j :: 0 <= i < j < |s| ==> KeyLe(Key(c, s[i]), Key(c, s[j]))
  }

  /** Inserts x after every element whose key is at most x's. */
  function Insert(c: SortChoice, t: seq<Resolution>, x: Resolution): (r: seq<Resolution>)
    ensures multiset(r) == multiset(t) + multiset{x}
    decreases |t|
  {
    if |t| == 0 then [x]
    else if KeyLe(Key(c, t[0]), Key(c, x)) then
      assert t == [t[0]] + t[1..];
      [t[0]] + Insert(c, t[1..], x)
    else [x] + t
  }

  /** Inserting into a sorted list keeps it sorted. */
  lemma {:induction false} InsertSorted(c: SortChoice, t: seq<Resolution>, x: Resolution)
    requires SortedBy(c, t)
    ensures SortedBy(c, Insert(c, t, x))
    decreases |t|
  {
    if |t| > 0 && KeyLe(Key(c, t[0]), Key(c, x)) {
      var rest := Insert(c, t[1..], x);
      InsertSorted(c, t[1..], x);
      forall m | 0 <= m < |rest|
        ensures KeyLe(Key(c, t[0]), Key(c, rest[m]))
      {
        assert rest[m] in multiset(rest);
        if rest[m] != x {
          assert rest[m] in multiset(t[1..]);
          assert rest[m] in t[1..];
          var n :| 0 <= n < |t[1..]| && t[1..][n] == rest[m];
          assert t[1..][n] == t[n + 1];
        }
      }
      var r := Insert(c, t, x);
      assert r == [t[0]] + rest;
      forall i, j | 0 <= i < j < |r|
        ensures KeyLe(Key(c, r[i]), Key(c, r[j]))
      {
        if i == 0 {
          assert r[j] == rest[j - 1];
        } else {
          assert r[i] == rest[i - 1] && r[j] == rest[j - 1];
        }
      }
    }
  }

  /** Stable insertion sort, taking the elements in their input order. */
  function Sort(c: SortChoice, s: seq<Resolution>): (r: seq<Resolution>)
    ensures multiset(r) == multiset(s) && |r| == |s|
    ensures SortedBy(c, r)
    decreases |s|
  {
    if |s| == 0 then []
    else
      assert s == s[..|s| - 1] + [s[|s| - 1]];
      var t := Sort(c, s[..|s| - 1]);
      InsertSorted(c, t, s[|s| - 1]);
      var r := Insert(c, t, s[|s| - 1]);
      assert |multiset(r)| == |multiset(s)|;
      r
  }

  /** The elements of s whose key is k, in the order of s. */
  function WithKey(c: SortChoice, s: seq<Resolution>, k: (int, int)): seq<Resolution>
    decreases |s|
  {
    if |s| == 0 then []
    else WithKey(c, s[..|s| - 1], k) + (if Key(c, s[|s| - 1]) == k then [s[|s| - 1]] else [])
  }

  lemma {:induction false} WithKeyConcat(c: SortChoice, a: seq<Resolution>, b: seq<Resolution>, k: (int, int))
    ensures WithKey(c, a + b, k) == WithKey(c, a, k) + WithKey(c, b, k)
    decreases |b|
  {
    if |b| == 0 {
      assert a + b == a;
    } else {
      var front := b[..|b| - 1];
      assert (a + b)[..|a + b| - 1] == a + front;
      WithKeyConcat(c, a, front, k);
    }
  }

  lemma {:induction false} WithKeyNone(c: SortChoice, s: seq<Resolution>, k: (int, int))
    requires forall i :: 0 <= i < |s| ==> Key(c, s[i]) != k
    ensures WithKey(c, s, k) == []
    decreases |s|
  {
    if |s| > 0 {
      WithKeyNone(c, s[..|s| - 1], k);
    }
  }

  function Single(c: SortChoice, x: Resolution, k: (int, int)): seq<Resolution> {
    if Key(c, x) == k then [x] else []
  }

  lemma {:induction false} InsertWithKey(c: SortChoice, t: seq<Resolution>, x: Resolution, k: (int, int))
    requires SortedBy(c, t)
    ensures WithKey(c, Insert(c, t, x), k) == WithKey(c, t, k) + Single(c, x, k)
    decreases |t|
  {
    if |t| == 0 {
      assert [x][..0] == [];
    } else if KeyLe(Key(c, t[0]), Key(c, x)) {
      InsertWithKey(c, t[1..], x, k);
      PassOverHead(c, t, x, k);
    } else {
      InsertAtHead(c, t, x, k);
    }
  }

  lemma PassOverHead(c: SortChoice, t: seq<Resolution>, x: Resolution, k: (int, int))
    requires |t| > 0 && KeyLe(Key(c, t[0]), Key(c, x))
    requires WithKey(c, Insert(c, t[1..], x), k) == WithKey(c, t[1..], k) + Single(c, x, k)
    ensures WithKey(c, Insert(c, t, x), k) == WithKey(c, t, k) + Single(c, x, k)
  {
    var u, head, tail := Insert(c, t[1..], x), [t[0]], t[1..];
    assert Insert(c, t, x) == head + u;
    assert head + tail == t;
    WithKeyConcat(c, head, u, k);
    WithKeyConcat(c, head, tail, k);
    ConcatAssoc(WithKey(c, head, k), WithKey(c, tail, k), Single(c, x, k));
  }

  lemma ConcatAssoc(a: seq<Resolution>, b: seq<Resolution>, c: seq<Resolution>)
    ensures a + (b + c) == (a + b) + c
  {
  }

  lemma InsertAtHead(c: SortChoice, t: seq<Resolution>, x: Resolution, k: (int, int))
    requires SortedBy(c, t)
    requires |t| > 0 && !KeyLe(Key(c, t[0]), Key(c, x))
    ensures WithKey(c, Insert(c, t, x), k) == WithKey(c, t, k) + Single(c, x, k)
  {
    assert Insert(c, t, x) == [x] + t;
    WithKeyConcat(c, [x], t, k);
    assert [x][..0] == [];
    assert WithKey(c, [x], k) == Single(c, x, k);
    if Key(c, x) == k {
      forall i | 0 <= i < |t|
        ensures Key(c, t[i]) != k
      {
        if i > 0 {
          assert KeyLe(Key(c, t[0]), Key(c, t[i]));
        }
      }
      WithKeyNone(c, t, k);
    }
  }

  /** The sort is stable: for every key, the elements with that key come
      out in the order they went in. */
  lemma {:induction false} SortStable(c: SortChoice, s: seq<Resolution>, k: (int, int))
    ensures WithKey(c, Sort(c, s), k) == WithKey(c, s, k)
    decreases |s|
  {
    if |s| > 0 {
      var front, x := s[..|s| - 1], s[|s| - 1];
      SortStable(c, front, k);
      InsertWithKey(c, Sort(c, front), x, k);
    }
  }

  /** What the order means for each menu choice: choice 1 is lexicographic
      in (width, height), choice 2 is non-decreasing in pixel count. */
  lemma SortOrder(c: SortChoice, s: seq<Resolution>, i: int, j: int)
    requires 0 <= i < j < |s|
    ensures c == ByWidth ==>
      Sort(c, s)[i].width < Sort(c, s)[j].width ||
      (Sort(c, s)[i].width == Sort(c, s)[j].width && Sort(c, s)[i].height <= Sort(c, s)[j].height)
    ensures c == ByPixels ==> Sort(c, s)[i].Pixels() <= Sort(c, s)[j].Pixels()
  {
    var r := Sort(c, s);
    assert KeyLe(Key(c, r[i]), Key(c, r[j]));
  }

  /** Two lists sorted by (width, height) with the same elements, counted
      with multiplicity, are the same list. */
  lemma {:induction false} SortedByWidthUnique(a: seq<Resolution>, b: seq<Resolution>)
    requires SortedBy(ByWidth, a) && SortedBy(ByWidth, b)
    requires multiset(a) == multiset(b)
    ensures a == b
    decreases |a|
  {
    assert |a| == |multiset(a)| == |multiset(b)| == |b|;
    if |a| > 0 {
      assert a[0] in multiset(b) && b[0] in multiset(a);
      HeadIsLeast(b, a[0]);
      HeadIsLeast(a, b[0]);
      assert a[0] == b[0];
      DropHead(a);
      DropHead(b);
      SortedByWidthUnique(a[1..], b[1..]);
      assert a == [a[0]] + a[1..] && b == [b[0]] + b[1..];
    }
  }

  lemma HeadIsLeast(s: seq<Resolution>, y: Resolution)
    requires SortedBy(ByWidth, s) && y in multiset(s)
    ensures KeyLe(Key(ByWidth, s[0]), Key(ByWidth, y))
  {
    var i :| 0 <= i < |s| && s[i] == y;
    if i > 0 {
      assert KeyLe(Key(ByWidth, s[0]), Key(ByWidth, s[i]));
    }
  }

  lemma DropHead(s: seq<Resolution>)
    requires |s| > 0
    ensures multiset(s[1..]) == multiset(s) - multiset{s[0]}
    ensures SortedBy(ByWidth, s) ==> SortedBy(ByWidth, s[1..])
  {
    assert s == [s[0]] + s[1..];
  }

  /** Choice 1's result depends only on the elements, never on their order:
      in particular not on the order Python's set hands out at line 72. */
  lemma SortByWidthIgnoresOrder(a: seq<Resolution>, b: seq<Resolution>)
    requires multiset(a) == multiset(b)
    ensures Sort(ByWidth, a) == Sort(ByWidth, b)
  {
    SortedByWidthUnique(Sort(ByWidth, a), Sort(ByWidth, b));
  }

  /** Two duplicate-free lists with the same members have the same multiset. */
  lemma SameMembersSameMultiset(a: seq<Resolution>, b: seq<Resolution>)
    requires Distinct(a) && Distinct(b)
    requires forall x :: x in a <==> x in b
    ensures multiset(a) == multiset(b)
  {
    forall x
      ensures multiset(a)[x] == multiset(b)[x]
    {
      DistinctOnce(a, x);
      DistinctOnce(b, x);
    }
  }
}
