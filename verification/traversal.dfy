/** Breadth-first enumeration of ownership paths from a root company, shared by
    the equity and control views of CompanyDetail.js and by the two walks of
    App.js. The queue is first-in first-out, so the recorded paths come out
    level by level: the direct edges of the root, then every extension of the
    direct edges, then every extension of the extensions that kept at least 1%,
    and so on. A path never revisits an ID already on it. */
module Traversal {
  import opened Base
  import opened Records
  import opened Ownership

  /** Downwards follows `getOwnedCompanies`; upwards follows `getParentCompanies` of App.js. */
  datatype Direction = Down | Up

  /** The direct edges out of `c` in the chosen direction. */
  function Step(db: Store, dir: Direction, c: Company): (r: seq<Edge>)
    ensures GoodEdges(db, r)
  {
    match dir
    case Down => OwnedCompanies(db, c)
    case Up => ParentCompanies(db, c)
  }

  /** Edges to active companies of the table with a positive rate. */
  predicate GoodEdges(db: Store, es: seq<Edge>) {
    forall i :: 0 <= i < |es| ==> es[i].company in db.companies && IsActive(es[i].company) && es[i].ownership > 0.0
  }

  /** An edge of a good list leads to a company of the table with a positive rate. */
  lemma GoodEdge(db: Store, es: seq<Edge>, e: Edge)
    requires GoodEdges(db, es) && e in es
    ensures e.company in db.companies && IsActive(e.company) && e.ownership > 0.0
    ensures e.company.id in TableIds(db)
  {
    var i :| 0 <= i < |es| && es[i] == e;
  }

  /** A recorded path: the company reached, the IDs along the path starting
      with the root's, and the percentage of every hop. */
  datatype Walk = Walk(target: Company, ids: seq<int>, rates: seq<real>)

  /** The product of the hop rates, each taken as a fraction. */
  function Share(rates: seq<real>): (r: real)
    ensures (forall k :: 0 <= k < |rates| ==> rates[k] >= 0.0) ==> r >= 0.0
  {
    if |rates| == 0 then 1.0 else Share(rates[..|rates| - 1]) * (rates[|rates| - 1] / 100.0)
  }

  /** The walk's `effectiveOwnership`: the cumulative fraction held, as a percentage. */
  function Percent(w: Walk): real {
    Share(w.rates) * 100.0
  }

  /** The percentage held by the path without its last hop: the share of the
      queued path it was extended from. */
  function PrefixPercent(w: Walk): real {
    if |w.rates| == 0 then 100.0 else Share(w.rates[..|w.rates| - 1]) * 100.0
  }

  /** The walk is one recorded path of the root's direct edge. */
  predicate IsDirect(w: Walk) {
    |w.ids| == 2
  }

  /** The IDs of the company table. */
  function TableIds(db: Store): set<int> {
    set c | c in db.companies :: c.id
  }

  /** What every recorded path satisfies: it starts at the root, ends at an
      active company of the table, its share is the product of its rates, and
      after the first hop no ID repeats and none is the root's. */
  predicate Valid(db: Store, root: Company, w: Walk) {
    |w.ids| >= 2 && w.ids[0] == root.id && |w.rates| == |w.ids| - 1 &&
    w.ids[|w.ids| - 1] == w.target.id && w.target in db.companies && IsActive(w.target) &&
    (forall k :: 0 <= k < |w.rates| ==> w.rates[k] > 0.0) &&
    (forall k :: 1 <= k < |w.ids| ==> w.ids[k] in TableIds(db)) &&
    Distinct(w.ids[1..]) &&
    (forall k :: 2 <= k < |w.ids| ==> w.ids[k] != w.ids[0])
  }

  /** A path's IDs after the root are distinct IDs of the table, so a path has
      at most one more ID than the table has. */
  lemma ValidLength(db: Store, root: Company, w: Walk)
    requires Valid(db, root, w)
    ensures |w.ids| <= |TableIds(db)| + 1
  {
    DistinctBounded(w.ids[1..], TableIds(db));
  }

  /** The paths of length one: every direct edge of the root. */
  function Seeds(db: Store, dir: Direction, root: Company, es: seq<Edge>): (r: seq<Walk>)
    requires GoodEdges(db, es)
    ensures |r| == |es|
    ensures forall i :: 0 <= i < |r| ==>
              r[i] == Walk(es[i].company, [root.id, es[i].company.id], [es[i].ownership])
    ensures forall w :: w in r ==> Valid(db, root, w) && |w.ids| == 2
  {
    if |es| == 0 then []
    else
      var e := es[0];
      var w := Walk(e.company, [root.id, e.company.id], [e.ownership]);
      GoodEdge(db, es, e);
      assert GoodEdges(db, es[1..]) by {
        forall i | 0 <= i < |es| - 1 ensures es[1..][i] == es[i + 1] { }
      }
      [w] + Seeds(db, dir, root, es[1..])
  }

  /** `w2` is `w` followed by one more hop through a direct edge of `w`'s end. */
  predicate ExtendsBy(db: Store, dir: Direction, w: Walk, w2: Walk) {
    |w2.rates| > 0 &&
    w2.ids == w.ids + [w2.target.id] && w2.rates == w.rates + [w2.rates[|w2.rates| - 1]] &&
    Edge(w2.target, w2.rates[|w2.rates| - 1]) in Step(db, dir, w.target) &&
    w2.target.id !in w.ids
  }

  /** One hop from `w` along each of the edges `es`, skipping a child whose ID
      is already on the path (the cycle guard). */
  function ExtendWith(db: Store, dir: Direction, w: Walk, es: seq<Edge>): (r: seq<Walk>)
    requires forall i :: 0 <= i < |es| ==> es[i] in Step(db, dir, w.target)
    ensures |r| <= |es|
    ensures forall w2 :: w2 in r ==> ExtendsBy(db, dir, w, w2)
    ensures forall i :: 0 <= i < |es| && es[i].company.id !in w.ids ==>
              Walk(es[i].company, w.ids + [es[i].company.id], w.rates + [es[i].ownership]) in r
  {
    if |es| == 0 then []
    else
      var e := es[0];
      var rest := ExtendWith(db, dir, w, es[1..]);
      if e.company.id in w.ids then rest
      else
        var w2 := Walk(e.company, w.ids + [e.company.id], w.rates + [e.ownership]);
        assert ExtendsBy(db, dir, w, w2) by {
          assert w2.rates[|w2.rates| - 1] == e.ownership;
        }
        [w2] + rest
  }

  /** One hop along every direct edge of the path's end. */
  function Extend(db: Store, dir: Direction, w: Walk): (r: seq<Walk>)
    ensures forall w2 :: w2 in r ==> ExtendsBy(db, dir, w, w2)
    ensures ExtensionsIn(db, dir, w, r)
  {
    ExtendWith(db, dir, w, Step(db, dir, w.target))
  }

  /** One more hop multiplies the share by the hop's rate as a fraction
      (`current.cumulativeOwnership * childOwnershipRate`). */
  lemma ShareStep(rates: seq<real>, o: real)
    ensures Share(rates + [o]) == Share(rates) * (o / 100.0)
  {
    assert (rates + [o])[..|rates|] == rates;
  }

  /** A recorded path followed by a hop to an active company of the table that
      is not yet on it, with a positive rate, is again a recorded path. */
  lemma SnocValid(db: Store, root: Company, w: Walk, c: Company, o: real)
    requires Valid(db, root, w)
    requires c in db.companies && IsActive(c) && o > 0.0 && c.id !in w.ids
    ensures Valid(db, root, Walk(c, w.ids + [c.id], w.rates + [o]))
  {
    var w2 := Walk(c, w.ids + [c.id], w.rates + [o]);
    assert forall k :: 0 <= k < |w.ids| ==> w2.ids[k] == w.ids[k];
    assert forall k :: 0 <= k < |w.rates| ==> w2.rates[k] == w.rates[k];
    assert c.id in TableIds(db);
    assert Distinct(w2.ids[1..]) by {
      assert w2.ids[1..] == w.ids[1..] + [c.id];
      assert c.id !in w.ids[1..];
      DistinctSnoc(w.ids[1..], c.id);
    }
  }

  /** An extension of a recorded path is a recorded path one ID longer. */
  lemma ExtendValid(db: Store, dir: Direction, root: Company, w: Walk, w2: Walk)
    requires Valid(db, root, w) && ExtendsBy(db, dir, w, w2)
    ensures Valid(db, root, w2) && |w2.ids| == |w.ids| + 1
  {
    var o := w2.rates[|w2.rates| - 1];
    GoodEdge(db, Step(db, dir, w.target), Edge(w2.target, o));
    assert w2 == Walk(w2.target, w.ids + [w2.target.id], w.rates + [o]);
    SnocValid(db, root, w, w2.target, o);
  }

  /** Appending a new value keeps a sequence distinct. */
  lemma DistinctSnoc(xs: seq<int>, x: int)
    requires Distinct(xs) && x !in xs
    ensures Distinct(xs + [x])
  {
    assert forall i :: 0 <= i < |xs| ==> (xs + [x])[i] == xs[i];
  }

  /** Every path of the level extended by one hop, in queue order. */
  function ExtendAll(db: Store, dir: Direction, ws: seq<Walk>): (r: seq<Walk>)
    ensures forall w2 :: w2 in r ==> exists w :: w in ws && ExtendsBy(db, dir, w, w2)
    ensures forall w :: w in ws ==> ExtensionsIn(db, dir, w, r)
  {
    if |ws| == 0 then []
    else
      var head := Extend(db, dir, ws[0]);
      var rest := ExtendAll(db, dir, ws[1..]);
      var r := head + rest;
      forall w2 | w2 in r ensures exists w :: w in ws && ExtendsBy(db, dir, w, w2) {
        if w2 in head {
          assert ExtendsBy(db, dir, ws[0], w2);
        } else {
          var w :| w in ws[1..] && ExtendsBy(db, dir, w, w2);
          assert w in ws;
        }
      }
      forall w | w in ws ensures ExtensionsIn(db, dir, w, r) {
        if w == ws[0] {
          ExtensionsInAppend(db, dir, w, head, rest);
        } else {
          assert w in ws[1..];
          ExtensionsInAppend(db, dir, w, head, rest);
        }
      }
      r
  }

  /** The paths that are queued again: those holding at least 1% (`newOwnership * 100 >= 1`). */
  function Floor(ws: seq<Walk>): (r: seq<Walk>)
    ensures forall w :: w in r <==> w in ws && Percent(w) >= 1.0
  {
    if |ws| == 0 then []
    else (if Percent(ws[0]) >= 1.0 then [ws[0]] else []) + Floor(ws[1..])
  }

  /** The extensions of a level of recorded paths with `k` IDs are recorded
      paths with `k + 1` IDs, grown from paths of the level. */
  lemma NextLevel(db: Store, dir: Direction, root: Company, frontier: seq<Walk>, k: nat)
    requires forall w :: w in frontier ==> Valid(db, root, w) && |w.ids| == k
    requires k > 2 ==> forall w :: w in frontier ==> Percent(w) >= 1.0
    ensures forall w2 :: w2 in ExtendAll(db, dir, frontier) ==> Valid(db, root, w2) && |w2.ids| == k + 1
    ensures forall w2 :: w2 in ExtendAll(db, dir, frontier) && |w2.ids| > 3 ==> PrefixPercent(w2) >= 1.0
  {
    forall w2 | w2 in ExtendAll(db, dir, frontier)
      ensures Valid(db, root, w2) && |w2.ids| == k + 1
      ensures |w2.ids| > 3 ==> PrefixPercent(w2) >= 1.0
    {
      var w :| w in frontier && ExtendsBy(db, dir, w, w2);
      ExtendOne(db, dir, root, w, w2);
    }
  }

  /** One extension of a recorded path is recorded, one ID longer, and the
      part before its last edge is the path it grew from. */
  lemma ExtendOne(db: Store, dir: Direction, root: Company, w: Walk, w2: Walk)
    requires Valid(db, root, w) && ExtendsBy(db, dir, w, w2)
    ensures Valid(db, root, w2) && |w2.ids| == |w.ids| + 1
    ensures PrefixPercent(w2) == Percent(w)
  {
    ExtendValid(db, dir, root, w, w2);
    assert w2.rates[..|w2.rates| - 1] == w.rates;
  }

  /** The paths recorded once the queue holds `frontier`, whose paths all have
      `k` IDs: each level's extensions, then the deeper levels grown from the
      extensions that kept at least 1%. */
  function Explore(db: Store, dir: Direction, root: Company, frontier: seq<Walk>, k: nat): (r: seq<Walk>)
    requires forall w :: w in frontier ==> Valid(db, root, w) && |w.ids| == k
    requires k > 2 ==> forall w :: w in frontier ==> Percent(w) >= 1.0
    ensures forall w2 :: w2 in r ==> Valid(db, root, w2) && |w2.ids| > k
    ensures forall w2 :: w2 in r && |w2.ids| > 3 ==> PrefixPercent(w2) >= 1.0
    decreases |TableIds(db)| + 2 - k
  {
    var next := ExtendAll(db, dir, frontier);
    NextLevel(db, dir, root, frontier, k);
    if |next| == 0 then []
    else
      ValidLength(db, root, next[0]);
      next + Explore(db, dir, root, Floor(next), k + 1)
  }

  /** Every path the traversal records from `root`: the direct edges first, then
      the breadth-first extensions. */
  function AllWalks(db: Store, dir: Direction, root: Company): (r: seq<Walk>)
    ensures forall w :: w in r ==> Valid(db, root, w)
  {
    var seeds := Seeds(db, dir, root, Step(db, dir, root));
    seeds + Explore(db, dir, root, seeds, 2)
  }

  /** The recorded paths of length one are exactly the root's direct edges, in order. */
  lemma AllWalksDirect(db: Store, dir: Direction, root: Company)
    ensures var es := Step(db, dir, root);
      |es| <= |AllWalks(db, dir, root)| &&
      forall i :: 0 <= i < |es| ==>
        AllWalks(db, dir, root)[i] == Walk(es[i].company, [root.id, es[i].company.id], [es[i].ownership])
    ensures forall w :: w in AllWalks(db, dir, root) && IsDirect(w) ==>
      exists i :: 0 <= i < |Step(db, dir, root)| && w.target == Step(db, dir, root)[i].company
  {
    var es := Step(db, dir, root);
    var seeds := Seeds(db, dir, root, es);
    var deeper := Explore(db, dir, root, seeds, 2);
    assert AllWalks(db, dir, root) == seeds + deeper;
    forall w | w in AllWalks(db, dir, root) && IsDirect(w)
      ensures exists i :: 0 <= i < |es| && w.target == es[i].company
    {
      assert w in deeper ==> |w.ids| > 2;
      assert w in seeds;
      var i :| 0 <= i < |seeds| && seeds[i] == w;
    }
  }

  /** Only paths that kept at least 1% are extended: every path longer than
      two hops was grown from a queued path holding at least 1%. */
  lemma AllWalksFloor(db: Store, dir: Direction, root: Company)
    ensures forall w :: w in AllWalks(db, dir, root) && |w.ids| > 3 ==> PrefixPercent(w) >= 1.0
  {
    var seeds := Seeds(db, dir, root, Step(db, dir, root));
    assert forall w :: w in seeds ==> |w.ids| == 2;
  }

  /** The path `w` followed by the hop `e`. */
  function Hop(w: Walk, e: Edge): Walk {
    Walk(e.company, w.ids + [e.company.id], w.rates + [e.ownership])
  }

  /** Every hop from `w` to an ID not yet on it is in `r`. */
  predicate ExtensionsIn(db: Store, dir: Direction, w: Walk, r: seq<Walk>) {
    forall e :: e in Step(db, dir, w.target) && e.company.id !in w.ids ==> Hop(w, e) in r
  }

  /** Recorded extensions stay recorded when more paths are appended on either side. */
  lemma ExtensionsInAppend(db: Store, dir: Direction, w: Walk, a: seq<Walk>, b: seq<Walk>)
    ensures ExtensionsIn(db, dir, w, a) ==> ExtensionsIn(db, dir, w, a + b)
    ensures ExtensionsIn(db, dir, w, b) ==> ExtensionsIn(db, dir, w, a + b)
  {
  }

  /** A level that grows some path is followed by the deeper levels. */
  lemma ExploreUnfold(db: Store, dir: Direction, root: Company, frontier: seq<Walk>, k: nat)
    requires forall w :: w in frontier ==> Valid(db, root, w) && |w.ids| == k
    requires k > 2 ==> forall w :: w in frontier ==> Percent(w) >= 1.0
    requires |ExtendAll(db, dir, frontier)| > 0
    ensures k < |TableIds(db)| + 2
    ensures forall w :: w in Floor(ExtendAll(db, dir, frontier)) ==> Valid(db, root, w) && |w.ids| == k + 1
    ensures Explore(db, dir, root, frontier, k) ==
      ExtendAll(db, dir, frontier) + Explore(db, dir, root, Floor(ExtendAll(db, dir, frontier)), k + 1)
  {
    NextLevel(db, dir, root, frontier, k);
    ValidLength(db, root, ExtendAll(db, dir, frontier)[0]);
  }

  /** Breadth-first closure: from a queued path (one of the frontier, or a
      recorded one holding at least 1%) every hop to an ID not yet on the path
      is recorded. */
  lemma {:induction false} ExploreClosed(db: Store, dir: Direction, root: Company, frontier: seq<Walk>, k: nat)
    requires forall w :: w in frontier ==> Valid(db, root, w) && |w.ids| == k
    requires k > 2 ==> forall w :: w in frontier ==> Percent(w) >= 1.0
    ensures var r := Explore(db, dir, root, frontier, k);
      forall w :: (w in frontier || (w in r && Percent(w) >= 1.0)) ==> ExtensionsIn(db, dir, w, r)
    decreases |TableIds(db)| + 2 - k
  {
    var r := Explore(db, dir, root, frontier, k);
    var next := ExtendAll(db, dir, frontier);
    if |next| == 0 {
      assert r == [];
    } else {
      ExploreUnfold(db, dir, root, frontier, k);
      var deeper := Explore(db, dir, root, Floor(next), k + 1);
      ExploreClosed(db, dir, root, Floor(next), k + 1);
      forall w | w in frontier || (w in r && Percent(w) >= 1.0)
        ensures ExtensionsIn(db, dir, w, r)
      {
        ClosedAt(db, dir, w, frontier, next, Floor(next), deeper);
      }
    }
  }

  /** One case of the closure step: a queued path's hops are in the level it
      grows, or, when it is itself in that level, in the deeper ones. */
  lemma ClosedAt(db: Store, dir: Direction, w: Walk, frontier: seq<Walk>, next: seq<Walk>,
                 queued: seq<Walk>, deeper: seq<Walk>)
    requires forall v :: v in frontier ==> ExtensionsIn(db, dir, v, next)
    requires forall v :: v in next && Percent(v) >= 1.0 ==> v in queued
    requires forall v :: (v in queued || (v in deeper && Percent(v) >= 1.0)) ==> ExtensionsIn(db, dir, v, deeper)
    requires w in frontier || (w in next + deeper && Percent(w) >= 1.0)
    ensures ExtensionsIn(db, dir, w, next + deeper)
  {
    ExtensionsInAppend(db, dir, w, next, deeper);
  }

  /** Every hop from a direct path, or from a path holding at least 1%, to an ID
      not yet on the path is itself a recorded path. */
  lemma AllWalksClosed(db: Store, dir: Direction, root: Company)
    ensures forall w :: w in AllWalks(db, dir, root) && (IsDirect(w) || Percent(w) >= 1.0) ==>
              ExtensionsIn(db, dir, w, AllWalks(db, dir, root))
  {
    var seeds := Seeds(db, dir, root, Step(db, dir, root));
    var deeper := Explore(db, dir, root, seeds, 2);
    ExploreClosed(db, dir, root, seeds, 2);
    forall w | w in AllWalks(db, dir, root) && (IsDirect(w) || Percent(w) >= 1.0)
      ensures ExtensionsIn(db, dir, w, AllWalks(db, dir, root))
    {
      assert w in deeper ==> |w.ids| > 2;
      ExtensionsInAppend(db, dir, w, seeds, deeper);
    }
  }

  /* ---------------------------------------------------------------- */
  /* Soundness and uniqueness                                          */
  /* ---------------------------------------------------------------- */

  /** Every path of `r` extends a path of the frontier, or a path of `r`
      holding at least 1%. */
  ghost predicate GrownBelow(db: Store, dir: Direction, frontier: seq<Walk>, r: seq<Walk>) {
    forall w2 :: w2 in r ==> exists w :: (w in frontier || (w in r && Percent(w) >= 1.0)) && ExtendsBy(db, dir, w, w2)
  }

  /** Breadth-first soundness: every path recorded below a frontier extends a
      path of the frontier, or a recorded path holding at least 1%. */
  lemma {:induction false} ExploreSound(db: Store, dir: Direction, root: Company, frontier: seq<Walk>, k: nat)
    requires forall w :: w in frontier ==> Valid(db, root, w) && |w.ids| == k
    requires k > 2 ==> forall w :: w in frontier ==> Percent(w) >= 1.0
    ensures GrownBelow(db, dir, frontier, Explore(db, dir, root, frontier, k))
    decreases |TableIds(db)| + 2 - k
  {
    var r := Explore(db, dir, root, frontier, k);
    var next := ExtendAll(db, dir, frontier);
    if |next| == 0 {
      assert r == [];
    } else {
      ExploreUnfold(db, dir, root, frontier, k);
      var deeper := Explore(db, dir, root, Floor(next), k + 1);
      ExploreSound(db, dir, root, Floor(next), k + 1);
      forall w2 | w2 in r
        ensures exists w :: (w in frontier || (w in r && Percent(w) >= 1.0)) && ExtendsBy(db, dir, w, w2)
      {
        if w2 in next {
          var w :| w in frontier && ExtendsBy(db, dir, w, w2);
        } else {
          assert w2 in deeper;
          var w :| (w in Floor(next) || (w in deeper && Percent(w) >= 1.0)) && ExtendsBy(db, dir, w, w2);
          assert w in r && Percent(w) >= 1.0;
        }
      }
    }
  }

  /** Every recorded path of more than one hop is a recorded path, direct or
      holding at least 1%, followed by one of its end's direct edges. */
  lemma AllWalksSound(db: Store, dir: Direction, root: Company)
    ensures forall w :: w in AllWalks(db, dir, root) && |w.ids| > 2 ==>
              exists w0 :: w0 in AllWalks(db, dir, root) && ExtendsBy(db, dir, w0, w) &&
                (IsDirect(w0) || Percent(w0) >= 1.0)
  {
    var seeds := Seeds(db, dir, root, Step(db, dir, root));
    var deeper := Explore(db, dir, root, seeds, 2);
    ExploreSound(db, dir, root, seeds, 2);
    GrownFromQueued(db, dir, seeds, deeper);
    assert AllWalks(db, dir, root) == seeds + deeper;
  }

  /** Soundness of the whole list from soundness of the deeper levels: a
      longer path grew from a direct path or a queued one, both listed. */
  lemma GrownFromQueued(db: Store, dir: Direction, seeds: seq<Walk>, deeper: seq<Walk>)
    requires forall v :: v in seeds ==> |v.ids| == 2
    requires GrownBelow(db, dir, seeds, deeper)
    ensures forall w :: w in seeds + deeper && |w.ids| > 2 ==>
              exists w0 :: w0 in seeds + deeper && ExtendsBy(db, dir, w0, w) && (IsDirect(w0) || Percent(w0) >= 1.0)
  {
    forall w | w in seeds + deeper && |w.ids| > 2
      ensures exists w0 :: w0 in seeds + deeper && ExtendsBy(db, dir, w0, w) && (IsDirect(w0) || Percent(w0) >= 1.0)
    {
      assert w in deeper;
      var w0 :| (w0 in seeds || (w0 in deeper && Percent(w0) >= 1.0)) && ExtendsBy(db, dir, w0, w);
      assert w0 in seeds + deeper;
    }
  }

  /** With unique table IDs the direct edges of a company lead to distinct IDs. */
  lemma StepUnique(db: Store, dir: Direction, c: Company)
    requires TableIdsUnique(db.companies)
    ensures UniqueIds(Step(db, dir, c))
  {
    if dir == Down {
      OwnedCompaniesUnique(db, c);
    }
  }

  /** The one-hop paths of edges to distinct IDs are distinct. */
  lemma SeedsDistinct(db: Store, dir: Direction, root: Company, es: seq<Edge>)
    requires GoodEdges(db, es) && UniqueIds(es)
    ensures Distinct(Seeds(db, dir, root, es))
  {
    var r := Seeds(db, dir, root, es);
    forall i, j | 0 <= i < j < |r| ensures r[i] != r[j] {
      assert r[i].target == es[i].company && r[j].target == es[j].company;
    }
  }

  /** Each hop from `w` along `es` ends at the company of one of the edges. */
  lemma {:induction false} ExtendWithTargets(db: Store, dir: Direction, w: Walk, es: seq<Edge>)
    requires forall i :: 0 <= i < |es| ==> es[i] in Step(db, dir, w.target)
    ensures forall w2 :: w2 in ExtendWith(db, dir, w, es) ==> exists i :: 0 <= i < |es| && w2.target == es[i].company
  {
    if |es| > 0 {
      ExtendWithTargets(db, dir, w, es[1..]);
      forall w2 | w2 in ExtendWith(db, dir, w, es[1..]) ensures exists i :: 0 <= i < |es| && w2.target == es[i].company {
        var i :| 0 <= i < |es[1..]| && w2.target == es[1..][i].company;
        assert es[i + 1] == es[1..][i];
      }
    }
  }

  /** Hops along edges to distinct IDs are distinct paths. */
  lemma {:induction false} ExtendWithDistinct(db: Store, dir: Direction, w: Walk, es: seq<Edge>)
    requires forall i :: 0 <= i < |es| ==> es[i] in Step(db, dir, w.target)
    requires UniqueIds(es)
    ensures Distinct(ExtendWith(db, dir, w, es))
  {
    if |es| > 0 {
      var e := es[0];
      var rest := ExtendWith(db, dir, w, es[1..]);
      assert UniqueIds(es[1..]) by {
        forall i, j | 0 <= i < j < |es| - 1 ensures es[1..][i].company.id != es[1..][j].company.id {
          assert es[1..][i] == es[i + 1] && es[1..][j] == es[j + 1];
        }
      }
      ExtendWithDistinct(db, dir, w, es[1..]);
      if e.company.id !in w.ids {
        var w2 := Walk(e.company, w.ids + [e.company.id], w.rates + [e.ownership]);
        ExtendWithTargets(db, dir, w, es[1..]);
        assert w2 !in rest;
        DistinctAppend([w2], rest);
      }
    }
  }

  /** With unique table IDs a recorded path is fixed by any one of its extensions. */
  lemma ExtendsByInjective(db: Store, dir: Direction, root: Company, a: Walk, b: Walk, w2: Walk)
    requires TableIdsUnique(db.companies)
    requires Valid(db, root, a) && Valid(db, root, b)
    requires ExtendsBy(db, dir, a, w2) && ExtendsBy(db, dir, b, w2)
    ensures a == b
  {
    assert a.ids == w2.ids[..|w2.ids| - 1] == b.ids;
    assert a.rates == w2.rates[..|w2.rates| - 1] == b.rates;
    SameId(db.companies, a.target, b.target);
  }

  /** Extending distinct recorded paths yields distinct paths. */
  lemma {:induction false} ExtendAllDistinct(db: Store, dir: Direction, root: Company, ws: seq<Walk>)
    requires TableIdsUnique(db.companies)
    requires Distinct(ws) && forall w :: w in ws ==> Valid(db, root, w)
    ensures Distinct(ExtendAll(db, dir, ws))
  {
    if |ws| > 0 {
      var head := Extend(db, dir, ws[0]);
      var rest := ExtendAll(db, dir, ws[1..]);
      assert Distinct(ws[1..]) by {
        forall i, j | 0 <= i < j < |ws| - 1 ensures ws[1..][i] != ws[1..][j] {
          assert ws[1..][i] == ws[i + 1] && ws[1..][j] == ws[j + 1];
        }
      }
      ExtendAllDistinct(db, dir, root, ws[1..]);
      StepUnique(db, dir, ws[0].target);
      ExtendWithDistinct(db, dir, ws[0], Step(db, dir, ws[0].target));
      forall w2 | w2 in head ensures w2 !in rest {
        if w2 in rest {
          var w :| w in ws[1..] && ExtendsBy(db, dir, w, w2);
          ExtendsByInjective(db, dir, root, ws[0], w, w2);
        }
      }
      DistinctAppend(head, rest);
    }
  }

  /** The queued part of a level of distinct paths is distinct. */
  lemma {:induction false} FloorDistinct(ws: seq<Walk>)
    requires Distinct(ws)
    ensures Distinct(Floor(ws))
  {
    if |ws| > 0 {
      assert Distinct(ws[1..]) by {
        forall i, j | 0 <= i < j < |ws| - 1 ensures ws[1..][i] != ws[1..][j] {
          assert ws[1..][i] == ws[i + 1] && ws[1..][j] == ws[j + 1];
        }
      }
      FloorDistinct(ws[1..]);
      assert ws[0] !in ws[1..];
      DistinctAppend(if Percent(ws[0]) >= 1.0 then [ws[0]] else [], Floor(ws[1..]));
    }
  }

  /** With unique table IDs the levels below a frontier of distinct paths
      record no path twice. */
  lemma {:induction false} ExploreDistinct(db: Store, dir: Direction, root: Company, frontier: seq<Walk>, k: nat)
    requires TableIdsUnique(db.companies) && Distinct(frontier)
    requires forall w :: w in frontier ==> Valid(db, root, w) && |w.ids| == k
    requires k > 2 ==> forall w :: w in frontier ==> Percent(w) >= 1.0
    ensures Distinct(Explore(db, dir, root, frontier, k))
    decreases |TableIds(db)| + 2 - k
  {
    var next := ExtendAll(db, dir, frontier);
    if |next| > 0 {
      ExploreUnfold(db, dir, root, frontier, k);
      NextLevel(db, dir, root, frontier, k);
      ExtendAllDistinct(db, dir, root, frontier);
      FloorDistinct(next);
      ExploreDistinct(db, dir, root, Floor(next), k + 1);
      DistinctAppend(next, Explore(db, dir, root, Floor(next), k + 1));
    }
  }

  /** With unique table IDs no path is recorded twice. */
  lemma AllWalksDistinct(db: Store, dir: Direction, root: Company)
    requires TableIdsUnique(db.companies)
    ensures Distinct(AllWalks(db, dir, root))
  {
    var es := Step(db, dir, root);
    var seeds := Seeds(db, dir, root, es);
    var deeper := Explore(db, dir, root, seeds, 2);
    StepUnique(db, dir, root);
    SeedsDistinct(db, dir, root, es);
    assert forall i, j :: 0 <= i < j < |seeds| ==> seeds[i] != seeds[j];
    ExploreDistinct(db, dir, root, seeds, 2);
    DistinctAppend(seeds, deeper);
  }
}
