/** Sorting with a comparator, as `Array.prototype.sort` does with the
    comparators of the source, and the text order that stands for
    `localeCompare`: lexicographic by code point. */
module Sorting {
  import opened Base

  /** `le` is a total preorder: any two values compare, and comparison chains. */
  ghost predicate TotalPreorder<T(!new)>(le: (T, T) -> bool) {
    (forall a, b :: le(a, b) || le(b, a)) &&
    (forall a, b, c :: le(a, b) && le(b, c) ==> le(a, c))
  }

  /** Every earlier element is ordered before every later one. */
  predicate SortedBy<T>(xs: seq<T>, le: (T, T) -> bool) {
    forall i, j :: 0 <= i < j < |xs| ==> le(xs[i], xs[j])
  }

  /** Insert `x` into sorted `s` before the first element it precedes. */
  function InsertBy<T(!new)>(x: T, s: seq<T>, le: (T, T) -> bool): (r: seq<T>)
    requires TotalPreorder(le) && SortedBy(s, le)
    ensures SortedBy(r, le)
    ensures multiset(r) == multiset(s) + multiset{x}
  {
    if |s| == 0 then [x]
    else if le(x, s[0]) then
      assert forall j :: 0 <= j < |s| ==> le(x, s[j]) by {
        forall j | 0 <= j < |s| ensures le(x, s[j]) {
          if j > 0 { assert le(s[0], s[j]); }
        }
      }
      SortedCons(x, s, le);
      [x] + s
    else
      SortedTail(s, le);
      var rest := InsertBy(x, s[1..], le);
      HeadBelowInsert(x, s, rest, le);
      SortedCons(s[0], rest, le);
      assert s == [s[0]] + s[1..];
      [s[0]] + rest
  }

  /** Past its first element a sorted sequence is still sorted. */
  lemma SortedTail<T>(s: seq<T>, le: (T, T) -> bool)
    requires |s| > 0 && SortedBy(s, le)
    ensures SortedBy(s[1..], le)
  {
    forall i, j | 0 <= i < j < |s| - 1 ensures le(s[1..][i], s[1..][j]) {
      assert s[1..][i] == s[i + 1] && s[1..][j] == s[j + 1];
    }
  }

  /** A value ordered before every element of a sorted sequence can lead it. */
  lemma SortedCons<T>(h: T, rest: seq<T>, le: (T, T) -> bool)
    requires SortedBy(rest, le)
    requires forall j :: 0 <= j < |rest| ==> le(h, rest[j])
    ensures SortedBy([h] + rest, le)
  {
    var r := [h] + rest;
    forall i, j | 0 <= i < j < |r| ensures le(r[i], r[j]) {
      assert r[j] == rest[j - 1];
      if i > 0 { assert r[i] == rest[i - 1]; }
    }
  }

  /** The first element of a sorted sequence is ordered before everything
      inserting a value it precedes into the rest gives. */
  lemma HeadBelowInsert<T>(x: T, s: seq<T>, rest: seq<T>, le: (T, T) -> bool)
    requires |s| > 0 && SortedBy(s, le) && le(s[0], x)
    requires multiset(rest) == multiset(s[1..]) + multiset{x}
    ensures forall j :: 0 <= j < |rest| ==> le(s[0], rest[j])
  {
    forall j | 0 <= j < |rest| ensures le(s[0], rest[j]) {
      var y := rest[j];
      assert y in multiset(rest);
      if y != x {
        assert y in multiset(s[1..]);
        var k :| 0 <= k < |s[1..]| && s[1..][k] == y;
        assert s[k + 1] == y;
      }
    }
  }

  /** `xs` sorted by `le`, keeping every element (insertion sort). */
  function SortBy<T(!new)>(xs: seq<T>, le: (T, T) -> bool): (r: seq<T>)
    requires TotalPreorder(le)
    ensures SortedBy(r, le)
    ensures multiset(r) == multiset(xs)
    ensures |r| == |xs|
  {
    if |xs| == 0 then []
    else
      assert xs == [xs[0]] + xs[1..];
      InsertBy(xs[0], SortBy(xs[1..], le), le)
  }

  /** Code-point lexicographic order on text, standing for `localeCompare <= 0`. */
  predicate TextLe(a: string, b: string)
    decreases |a|
  {
    |a| == 0 || (|b| > 0 && (a[0] < b[0] || (a[0] == b[0] && TextLe(a[1..], b[1..]))))
  }

  /** Any two texts compare. */
  lemma {:induction false} TextLeTotal(a: string, b: string)
    ensures TextLe(a, b) || TextLe(b, a)
    decreases |a|
  {
    if |a| > 0 && |b| > 0 && a[0] == b[0] {
      TextLeTotal(a[1..], b[1..]);
    }
  }

  /** The order chains. */
  lemma {:induction false} TextLeTrans(a: string, b: string, c: string)
    requires TextLe(a, b) && TextLe(b, c)
    ensures TextLe(a, c)
    decreases |a|
  {
    if |a| > 0 && a[0] == b[0] && b[0] == c[0] {
      TextLeTrans(a[1..], b[1..], c[1..]);
    }
  }

  /** Texts ordered both ways are equal. */
  lemma {:induction false} TextLeAntisymmetric(a: string, b: string)
    requires TextLe(a, b) && TextLe(b, a)
    ensures a == b
    decreases |a|
  {
    if |a| > 0 {
      TextLeAntisymmetric(a[1..], b[1..]);
      assert a == [a[0]] + a[1..] && b == [b[0]] + b[1..];
    }
  }

  /** Filtering keeps a sorted sequence sorted. */
  lemma {:induction false} FilterSorted<T>(xs: seq<T>, p: T -> bool, le: (T, T) -> bool)
    requires SortedBy(xs, le)
    ensures SortedBy(Filter(xs, p), le)
  {
    if |xs| > 0 {
      var rest := Filter(xs[1..], p);
      FilterSorted(xs[1..], p, le);
      forall j | 0 <= j < |rest| ensures le(xs[0], rest[j]) {
        var k :| 0 <= k < |xs[1..]| && xs[1..][k] == rest[j];
      }
      assert Filter(xs, p) == (if p(xs[0]) then [xs[0]] else []) + rest;
    }
  }
}
