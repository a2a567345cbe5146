/** Grouping a sequence by a key the way the source does it with a `Map`:
    walk the elements in order, append each to its key's bucket, and open a new
    bucket at the end the first time a key is seen. The fold is proved equal to
    a direct description: the distinct keys in first-occurrence order, each with
    the elements carrying it. */
module Grouping {
  import opened Base

  /** The distinct keys of `xs`, in the order they first occur. */
  function Keys<T, K(==)>(xs: seq<T>, key: T -> K): (ks: seq<K>)
    ensures Distinct(ks)
    ensures forall i :: 0 <= i < |xs| ==> key(xs[i]) in ks
    ensures forall j :: 0 <= j < |ks| ==> exists i :: 0 <= i < |xs| && key(xs[i]) == ks[j]
  {
    if |xs| == 0 then []
    else
      var init := xs[..|xs| - 1];
      var p := Keys(init, key);
      var k := key(xs[|xs| - 1]);
      assert forall i :: 0 <= i < |init| ==> init[i] == xs[i];
      if k in p then p else p + [k]
  }

  /** The elements of `xs` whose key is `k`, in order. */
  function Members<T, K(==)>(xs: seq<T>, key: T -> K, k: K): (r: seq<T>)
    ensures |r| <= |xs|
    ensures forall i :: 0 <= i < |r| ==> r[i] in xs && key(r[i]) == k
    ensures |r| == 0 <==> forall i :: 0 <= i < |xs| ==> key(xs[i]) != k
  {
    if |xs| == 0 then []
    else
      var init := xs[..|xs| - 1];
      var last := xs[|xs| - 1];
      assert forall i :: 0 <= i < |init| ==> init[i] == xs[i];
      Members(init, key, k) + (if key(last) == k then [last] else [])
  }

  /** One entry of the map: a key and the elements filed under it. */
  datatype Bucket<K, T> = Bucket(key: K, items: seq<T>)

  /** The keys of the buckets, in order. */
  function BucketKeys<K, T>(bs: seq<Bucket<K, T>>): (ks: seq<K>)
    ensures |ks| == |bs|
    ensures forall i :: 0 <= i < |bs| ==> ks[i] == bs[i].key
  {
    if |bs| == 0 then [] else [bs[0].key] + BucketKeys(bs[1..])
  }

  /** File `x` under `k`: append it to `k`'s bucket, or open one at the end. */
  function File<K(==), T>(bs: seq<Bucket<K, T>>, k: K, x: T): seq<Bucket<K, T>> {
    var ks := BucketKeys(bs);
    if k in ks then
      var j := IndexIn(ks, k);
      bs[j := Bucket(k, bs[j].items + [x])]
    else bs + [Bucket(k, [x])]
  }

  /** The grouping fold of the source (`map.has(k) ? get(k).push(x) : set(k, [x])`). */
  function Group<T, K(==)>(xs: seq<T>, key: T -> K): seq<Bucket<K, T>> {
    if |xs| == 0 then []
    else File(Group(xs[..|xs| - 1], key), key(xs[|xs| - 1]), xs[|xs| - 1])
  }

  /** The buckets `bs` are the distinct keys of `xs` in first-occurrence
      order, each with the elements carrying it. */
  ghost predicate GroupedAs<T, K>(bs: seq<Bucket<K, T>>, xs: seq<T>, key: T -> K) {
    BucketKeys(bs) == Keys(xs, key) &&
    forall j :: 0 <= j < |bs| ==> bs[j].items == Members(xs, key, bs[j].key)
  }

  /** The fold opens one bucket per distinct key, in first-occurrence order, and
      each bucket holds exactly the elements with its key, in order. */
  lemma {:induction false} GroupIsKeysAndMembers<T, K>(xs: seq<T>, key: T -> K)
    ensures BucketKeys(Group(xs, key)) == Keys(xs, key)
    ensures forall j :: 0 <= j < |Group(xs, key)| ==>
              Group(xs, key)[j].items == Members(xs, key, Group(xs, key)[j].key)
  {
    if |xs| > 0 {
      var init := xs[..|xs| - 1];
      GroupIsKeysAndMembers(init, key);
      if key(xs[|xs| - 1]) in Keys(init, key) {
        FileOld(Group(init, key), xs, key);
      } else {
        FileNew(Group(init, key), xs, key);
      }
    }
  }

  /** Filing the last element under a key already seen extends that key's
      bucket and leaves the others as they were. */
  lemma FileOld<T, K>(p: seq<Bucket<K, T>>, xs: seq<T>, key: T -> K)
    requires |xs| > 0 && GroupedAs(p, xs[..|xs| - 1], key)
    requires key(xs[|xs| - 1]) in Keys(xs[..|xs| - 1], key)
    ensures GroupedAs(File(p, key(xs[|xs| - 1]), xs[|xs| - 1]), xs, key)
  {
    var x := xs[|xs| - 1];
    var k := key(x);
    var r := File(p, k, x);
    var j := IndexIn(BucketKeys(p), k);
    assert p[j].key == k;
    forall i | 0 <= i < |r| ensures r[i].items == Members(xs, key, r[i].key) {
      if i != j {
        assert r[i] == p[i];
        assert p[i].key != k by {
          assert BucketKeys(p)[i] == p[i].key;
        }
      }
    }
    assert BucketKeys(r) == BucketKeys(p) by {
      forall i | 0 <= i < |r| ensures BucketKeys(r)[i] == BucketKeys(p)[i] {
        if i != j { assert r[i] == p[i]; }
      }
    }
  }

  /** Filing the last element under a new key opens its bucket at the end. */
  lemma FileNew<T, K>(p: seq<Bucket<K, T>>, xs: seq<T>, key: T -> K)
    requires |xs| > 0 && GroupedAs(p, xs[..|xs| - 1], key)
    requires key(xs[|xs| - 1]) !in Keys(xs[..|xs| - 1], key)
    ensures GroupedAs(File(p, key(xs[|xs| - 1]), xs[|xs| - 1]), xs, key)
  {
    var init := xs[..|xs| - 1];
    var x := xs[|xs| - 1];
    var k := key(x);
    var r := File(p, k, x);
    assert r == p + [Bucket(k, [x])];
    assert Members(init, key, k) == [];
    forall i | 0 <= i < |r| ensures r[i].items == Members(xs, key, r[i].key) {
      if i < |p| {
        assert r[i] == p[i];
        assert p[i].key != k by {
          assert BucketKeys(p)[i] == p[i].key;
        }
      }
    }
    assert BucketKeys(r) == BucketKeys(p) + [k] by {
      forall i | 0 <= i < |r| ensures BucketKeys(r)[i] == (BucketKeys(p) + [k])[i] {
        if i < |p| { assert r[i] == p[i]; }
      }
    }
  }

  /** The position of a value in a sequence that holds it. */
  function IndexIn<K(==)>(ks: seq<K>, k: K): (j: nat)
    requires k in ks
    ensures j < |ks| && ks[j] == k && k !in ks[..j]
  {
    if ks[0] == k then 0
    else
      var j := IndexIn(ks[1..], k);
      assert ks[..j + 1] == [ks[0]] + ks[1..][..j];
      j + 1
  }
}
