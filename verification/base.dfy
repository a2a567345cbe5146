/** Shared result wrappers and the first-match search that the source performs
    with `Array.prototype.find`, `findIndex` and `some`. */
module Base {

  /** A value that may be absent: JavaScript's `null`/`undefined`, or NaN for numbers. */
  datatype Option<+T> = None | Some(value: T)

  /** A computation that either yields a value or raised an error. */
  datatype Result<+T, +E> = Ok(value: T) | Err(error: E)

  /** Index of the first element satisfying `p`, or `|xs|` when there is none
      (`findIndex`, with -1 replaced by the length). */
  function FirstIndex<T>(xs: seq<T>, p: T -> bool): (k: nat)
    ensures k <= |xs|
    ensures k < |xs| ==> p(xs[k])
    ensures forall i :: 0 <= i < k ==> !p(xs[i])
  {
    if |xs| == 0 then 0
    else if p(xs[0]) then 0
    else 1 + FirstIndex(xs[1..], p)
  }

  /** `xs.find(p)`: the first element satisfying `p`. */
  function Find<T>(xs: seq<T>, p: T -> bool): (r: Option<T>)
    ensures r.None? <==> forall i :: 0 <= i < |xs| ==> !p(xs[i])
    ensures r.Some? ==> r.value in xs && p(r.value)
  {
    var k := FirstIndex(xs, p);
    if k < |xs| then Some(xs[k]) else None
  }

  /** `xs.filter(p)`, keeping order. */
  function Filter<T>(xs: seq<T>, p: T -> bool): (r: seq<T>)
    ensures |r| <= |xs|
    ensures forall i :: 0 <= i < |r| ==> r[i] in xs && p(r[i])
    ensures forall i :: 0 <= i < |xs| && p(xs[i]) ==> xs[i] in r
  {
    if |xs| == 0 then []
    else (if p(xs[0]) then [xs[0]] else []) + Filter(xs[1..], p)
  }

  /** Elements pairwise distinct. */
  predicate Distinct<T(==)>(xs: seq<T>) {
    forall i, j :: 0 <= i < j < |xs| ==> xs[i] != xs[j]
  }

  /** A prefix's elements are elements of the whole. */
  lemma PrefixKeeps<T>(a: seq<T>, b: seq<T>)
    requires a <= b
    ensures forall x :: x in a ==> x in b
  {
    forall x | x in a ensures x in b {
      var j :| 0 <= j < |a| && a[j] == x;
      assert b[j] == x;
    }
  }

  /** Two sequences of distinct values with no value in common join into one. */
  lemma DistinctAppend<T>(a: seq<T>, b: seq<T>)
    requires Distinct(a) && Distinct(b)
    requires forall x :: x in a ==> x !in b
    ensures Distinct(a + b)
  {
    forall i, j | 0 <= i < j < |a + b| ensures (a + b)[i] != (a + b)[j] {
      if j < |a| {
        assert (a + b)[i] == a[i] && (a + b)[j] == a[j];
      } else if i >= |a| {
        assert (a + b)[i] == b[i - |a|] && (a + b)[j] == b[j - |a|];
      } else {
        assert (a + b)[i] == a[i] && (a + b)[j] == b[j - |a|];
        assert a[i] in a && b[j - |a|] in b;
      }
    }
  }

  /** A sequence of distinct values drawn from `s` is no longer than `s` is large. */
  lemma {:induction false} DistinctBounded<T>(xs: seq<T>, s: set<T>)
    requires Distinct(xs)
    requires forall i :: 0 <= i < |xs| ==> xs[i] in s
    ensures |xs| <= |s|
  {
    if |xs| > 0 {
      var last := xs[|xs| - 1];
      var init := xs[..|xs| - 1];
      assert last !in init by {
        forall i | 0 <= i < |init| ensures init[i] != last {
          assert init[i] == xs[i];
        }
      }
      forall i | 0 <= i < |init| ensures init[i] in s - {last} {
        assert init[i] == xs[i];
      }
      DistinctBounded(init, s - {last});
    }
  }

  /** Every two positions of `xs` hold values that `apart` separates. */
  predicate PairwiseApart<T>(xs: seq<T>, apart: (T, T) -> bool) {
    forall i, j :: 0 <= i < j < |xs| ==> apart(xs[i], xs[j])
  }

  /** A value occurring at two positions counts at least twice. */
  lemma CountTwo<T>(ys: seq<T>, i: nat, j: nat)
    requires i < j < |ys| && ys[i] == ys[j]
    ensures multiset(ys)[ys[i]] >= 2
  {
    assert ys == ys[..j] + ys[j..];
    assert ys[i] in ys[..j];
    assert ys[j] == ys[j..][0];
  }

  /** A value counted at least twice occurs at two positions. */
  lemma {:induction false} TwiceIn<T>(xs: seq<T>, y: T) returns (i: nat, j: nat)
    requires multiset(xs)[y] >= 2
    ensures i < j < |xs| && xs[i] == y && xs[j] == y
  {
    assert xs == [xs[0]] + xs[1..];
    if xs[0] == y {
      assert y in multiset(xs[1..]);
      var k :| 0 <= k < |xs[1..]| && xs[1..][k] == y;
      i, j := 0, k + 1;
    } else {
      var i', j' := TwiceIn(xs[1..], y);
      i, j := i' + 1, j' + 1;
    }
  }

  /** A symmetric separation of every two positions survives any reordering
      that keeps the elements. */
  lemma PairwiseApartReordered<T>(xs: seq<T>, ys: seq<T>, apart: (T, T) -> bool)
    requires multiset(xs) == multiset(ys)
    requires forall a, b :: apart(a, b) == apart(b, a)
    requires PairwiseApart(xs, apart)
    ensures PairwiseApart(ys, apart)
  {
    forall i, j | 0 <= i < j < |ys| ensures apart(ys[i], ys[j]) {
      if ys[i] == ys[j] {
        CountTwo(ys, i, j);
        var i', j' := TwiceIn(xs, ys[i]);
        assert apart(xs[i'], xs[j']);
      } else {
        assert ys[i] in multiset(xs) && ys[j] in multiset(xs);
        var i' :| 0 <= i' < |xs| && xs[i'] == ys[i];
        var j' :| 0 <= j' < |xs| && xs[j'] == ys[j];
        if i' < j' {
          assert apart(xs[i'], xs[j']);
        } else {
          assert apart(xs[j'], xs[i']);
        }
      }
    }
  }

  /** The filter keeps exactly the elements that pass. */
  lemma FilterMembers<T>(xs: seq<T>, p: T -> bool)
    ensures forall x :: x in Filter(xs, p) <==> x in xs && p(x)
  {
    forall x | x in xs && p(x) ensures x in Filter(xs, p) {
      var i :| 0 <= i < |xs| && xs[i] == x;
    }
  }

  /** A filter every element passes changes nothing. */
  lemma {:induction false} FilterAll<T>(xs: seq<T>, p: T -> bool)
    requires forall i :: 0 <= i < |xs| ==> p(xs[i])
    ensures Filter(xs, p) == xs
  {
    if |xs| > 0 {
      FilterAll(xs[1..], p);
    }
  }

  /** A weaker filter keeps at least as many elements. */
  lemma {:induction false} FilterWeaker<T>(xs: seq<T>, p: T -> bool, q: T -> bool)
    requires forall i :: 0 <= i < |xs| && p(xs[i]) ==> q(xs[i])
    ensures |Filter(xs, p)| <= |Filter(xs, q)|
  {
    if |xs| > 0 {
      FilterWeaker(xs[1..], p, q);
    }
  }

  /** The filter keeps every passing element as often as it occurs, and no
      other: its multiset is the passing part of the input's. */
  lemma {:induction false} FilterCount<T>(xs: seq<T>, p: T -> bool)
    ensures forall x :: multiset(Filter(xs, p))[x] == if p(x) then multiset(xs)[x] else 0
  {
    if |xs| > 0 {
      FilterCount(xs[1..], p);
      assert xs == [xs[0]] + xs[1..];
      assert multiset(xs) == multiset{xs[0]} + multiset(xs[1..]);
      assert Filter(xs, p) == (if p(xs[0]) then [xs[0]] else []) + Filter(xs[1..], p);
    }
  }

  /** Filtering keeps order: the kept elements of a front part come before
      those of the rest. */
  lemma {:induction false} FilterAppend<T>(a: seq<T>, b: seq<T>, p: T -> bool)
    ensures Filter(a + b, p) == Filter(a, p) + Filter(b, p)
  {
    if |a| == 0 {
      assert a + b == b;
    } else {
      assert (a + b)[0] == a[0] && (a + b)[1..] == a[1..] + b;
      FilterAppend(a[1..], b, p);
    }
  }

  /** Filtering a longer sequence appends the last element when it passes. */
  lemma {:induction false} FilterSnoc<T>(xs: seq<T>, x: T, p: T -> bool)
    ensures Filter(xs + [x], p) == Filter(xs, p) + (if p(x) then [x] else [])
  {
    if |xs| > 0 {
      assert (xs + [x])[1..] == xs[1..] + [x];
      FilterSnoc(xs[1..], x, p);
    }
  }

  /** The positions of `xs` whose element passes `p`. */
  function Passing<T>(xs: seq<T>, p: T -> bool): set<int> {
    set i | 0 <= i < |xs| && p(xs[i])
  }

  /** One more element adds one passing position exactly when it passes. */
  lemma PassingSnoc<T>(ys: seq<T>, x: T, p: T -> bool)
    ensures |Passing(ys + [x], p)| == |Passing(ys, p)| + if p(x) then 1 else 0
  {
    var xs := ys + [x];
    var k := |ys|;
    var s := set i | 0 <= i < |ys| && p(ys[i]);
    var t := set i | 0 <= i < |xs| && p(xs[i]);
    var last: set<int> := if p(x) then {k} else {};
    forall i ensures i in t <==> i in s + last {
      if 0 <= i < k {
        assert xs[i] == ys[i];
      }
    }
    assert t == s + last;
    assert s !! last;
  }

  /** The filter's length is the number of positions whose element passes. */
  lemma {:induction false} FilterLength<T>(xs: seq<T>, p: T -> bool)
    ensures |Filter(xs, p)| == |Passing(xs, p)|
  {
    if |xs| > 0 {
      var k := |xs| - 1;
      var ys := xs[..k];
      FilterLength(ys, p);
      assert ys + [xs[k]] == xs;
      FilterSnoc(ys, xs[k], p);
      PassingSnoc(ys, xs[k], p);
    }
  }
}
