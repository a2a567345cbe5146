/** The ownership tabs of the company detail view: the direct subsidiaries by
    `ParentID`, the equity-interest view that sums every recorded path to a
    company, the control view that keeps the strongest path, and the related
    companies held below 50%. Rows are grouped by company Name. */
module Views {
  import opened Base
  import opened Records
  import opened Ownership
  import opened Traversal
  import opened Grouping
  import opened Sorting

  /** The classification the view attaches to a percentage: control above 50%
      (IFRS 10), significant influence from 20% to 50% (IAS 28), else an investment. */
  datatype Tier = Subsidiary | Associate | Investment

  function Classify(x: real): (t: Tier)
    ensures t == Subsidiary <==> x > 50.0
    ensures t == Associate <==> 20.0 <= x <= 50.0
    ensures t == Investment <==> x < 20.0
  {
    if x > 50.0 then Subsidiary else if x >= 20.0 then Associate else Investment
  }

  /* ---------------------------------------------------------------- */
  /* Direct subsidiaries                                               */
  /* ---------------------------------------------------------------- */

  /** A row of the direct tab: the child, its looked-up rate and its tier. */
  datatype Holding = Holding(company: Company, ownership: real, tier: Tier)

  /** `h` lists an active `ParentID` child of `root` with its looked-up rate, at
      or above the threshold, classified by that rate. */
  predicate DirectRow(db: Store, root: Company, threshold: real, h: Holding) {
    IsIdChild(root, h.company) && h.ownership == OwnershipRate(db, root.id, h.company.id) &&
    h.ownership >= threshold && h.tier == Classify(h.ownership)
  }

  /** The rows for the companies `cs`, in order. */
  function DirectRows(db: Store, root: Company, threshold: real, cs: seq<Company>): (r: seq<Holding>)
    ensures |r| <= |cs|
    ensures forall i :: 0 <= i < |r| ==> r[i].company in cs && DirectRow(db, root, threshold, r[i])
    ensures forall c :: c in cs && IsIdChild(root, c) && OwnershipRate(db, root.id, c.id) >= threshold ==>
              ListsCompany(r, c)
  {
    if |cs| == 0 then []
    else
      var rest := DirectRows(db, root, threshold, cs[1..]);
      var o := OwnershipRate(db, root.id, cs[0].id);
      assert forall c :: c in cs ==> c == cs[0] || c in cs[1..];
      if IsIdChild(root, cs[0]) && o >= threshold then
        var r := [Holding(cs[0], o, Classify(o))] + rest;
        assert ListsCompany(r, cs[0]) by { assert r[0] in r; }
        assert forall c :: ListsCompany(rest, c) ==> ListsCompany(r, c);
        r
      else rest
  }

  /** Some row lists the company. */
  predicate ListsCompany(r: seq<Holding>, c: Company) {
    exists h :: h in r && h.company == c
  }

  /** `directSubsidiaries`: none for a root without an ID; otherwise every
      active `ParentID` child whose rate reaches the threshold, in table order. */
  function DirectSubsidiaries(db: Store, root: Company, threshold: real): (r: seq<Holding>)
    ensures root.id == 0 ==> r == []
    ensures forall h :: h in r ==> h.company in db.companies && DirectRow(db, root, threshold, h)
    ensures forall c :: c in db.companies && IsIdChild(root, c) && OwnershipRate(db, root.id, c.id) >= threshold ==>
              ListsCompany(r, c)
  {
    if root.id == 0 then [] else DirectRows(db, root, threshold, db.companies)
  }

  /* ---------------------------------------------------------------- */
  /* Grouped views                                                     */
  /* ---------------------------------------------------------------- */

  /** A grouped row: the company of the first path, the percentage shown, its
      tier, the number of paths, and whether the row is shown as direct. */
  datatype Aggregate = Aggregate(company: Company, ownership: real, tier: Tier, pathCount: nat, direct: bool)

  /** The grouping key of both views. */
  function NameOf(w: Walk): string {
    w.target.name
  }

  /** The sum of the paths' percentages (`totalEquity`). */
  function TotalPercent(ws: seq<Walk>): (t: real)
    ensures (forall i :: 0 <= i < |ws| ==> Percent(ws[i]) >= 0.0) ==> t >= 0.0
  {
    if |ws| == 0 then 0.0
    else
      assert forall i :: 0 <= i < |ws| - 1 ==> ws[1..][i] == ws[i + 1];
      Percent(ws[0]) + TotalPercent(ws[1..])
  }

  /** The largest of the paths' percentages (`Math.max`). */
  function MaxPercent(ws: seq<Walk>): (m: real)
    requires |ws| > 0
    ensures forall i :: 0 <= i < |ws| ==> Percent(ws[i]) <= m
    ensures exists i :: 0 <= i < |ws| && Percent(ws[i]) == m
  {
    if |ws| == 1 then Percent(ws[0])
    else
      var m := MaxPercent(ws[1..]);
      assert forall i :: 0 <= i < |ws| - 1 ==> ws[1..][i] == ws[i + 1];
      if Percent(ws[0]) >= m then Percent(ws[0]) else m
  }

  /** Some path is a direct one. */
  function AnyDirect(ws: seq<Walk>): (r: bool)
    ensures r <==> exists i :: 0 <= i < |ws| && IsDirect(ws[i])
  {
    if |ws| == 0 then false
    else
      assert forall i :: 0 <= i < |ws| - 1 ==> ws[1..][i] == ws[i + 1];
      IsDirect(ws[0]) || AnyDirect(ws[1..])
  }

  /** A name's bucket with its paths. */
  type NameBucket = Bucket<string, Walk>

  /** Buckets filed by company Name: distinct keys, and every path of a bucket
      leads to a company of that name. */
  predicate FiledByName(bs: seq<NameBucket>) {
    Distinct(BucketKeys(bs)) &&
    forall j, k :: 0 <= j < |bs| && 0 <= k < |bs[j].items| ==> bs[j].items[k].target.name == bs[j].key
  }

  /** Grouping recorded paths by Name files them by Name, each bucket holding
      exactly the paths to companies of its name. */
  lemma GroupFiled(ws: seq<Walk>)
    ensures FiledByName(Group(ws, NameOf))
    ensures BucketKeys(Group(ws, NameOf)) == Keys(ws, NameOf)
    ensures forall b :: b in Group(ws, NameOf) ==> b.items == Members(ws, NameOf, b.key)
  {
    GroupIsKeysAndMembers(ws, NameOf);
  }

  /* ---------------------------------------------------------------- */
  /* Equity interest: sum over paths                                   */
  /* ---------------------------------------------------------------- */

  /** The names of the direct subsidiaries held above 50%, which the equity view leaves out. */
  function EquityExcluded(db: Store, root: Company, threshold: real): set<string> {
    set h | h in DirectSubsidiaries(db, root, threshold) && h.ownership > 50.0 :: h.company.name
  }

  /** The bucket is kept by the equity view. */
  predicate EquityKept(b: NameBucket, excluded: set<string>, threshold: real) {
    |b.items| > 0 && b.key !in excluded && TotalPercent(b.items) >= threshold
  }

  /** The equity row of a bucket: the summed percentage. */
  function EquitySummary(b: NameBucket): Aggregate
    requires |b.items| > 0
  {
    var t := TotalPercent(b.items);
    Aggregate(b.items[0].target, t, Classify(t), |b.items|, false)
  }

  /** One row per kept bucket, in bucket order. */
  function EquityRows(bs: seq<NameBucket>, excluded: set<string>, threshold: real): (r: seq<Aggregate>)
    ensures forall a :: a in r ==> exists b :: b in bs && EquityKept(b, excluded, threshold) && a == EquitySummary(b)
    ensures forall b :: b in bs && EquityKept(b, excluded, threshold) ==> EquitySummary(b) in r
  {
    if |bs| == 0 then []
    else
      var rest := EquityRows(bs[1..], excluded, threshold);
      assert forall b :: b in bs[1..] ==> b in bs;
      if EquityKept(bs[0], excluded, threshold) then [EquitySummary(bs[0])] + rest else rest
  }

  /** No two rows carry the same company name. */
  predicate NamesDistinct(r: seq<Aggregate>) {
    forall i, j :: 0 <= i < j < |r| ==> r[i].company.name != r[j].company.name
  }

  /** A row whose name no later row carries keeps the names distinct. */
  lemma NamesDistinctCons(x: Aggregate, rest: seq<Aggregate>)
    requires NamesDistinct(rest)
    requires forall a :: a in rest ==> a.company.name != x.company.name
    ensures NamesDistinct([x] + rest)
  {
    var r := [x] + rest;
    forall i, j | 0 <= i < j < |r| ensures r[i].company.name != r[j].company.name {
      assert r[j] == rest[j - 1];
      if i > 0 {
        assert r[i] == rest[i - 1];
      }
    }
  }

  /** Past the first bucket, the buckets are still filed by name, and none
      shares the first one's key. */
  lemma FiledTail(bs: seq<NameBucket>)
    requires |bs| > 0 && FiledByName(bs)
    ensures FiledByName(bs[1..])
    ensures forall b :: b in bs[1..] ==> b.key != bs[0].key
  {
    var tail := bs[1..];
    forall i | 0 <= i < |tail| ensures BucketKeys(tail)[i] == BucketKeys(bs)[i + 1] { }
    forall b | b in tail ensures b.key != bs[0].key {
      var j :| 0 <= j < |tail| && tail[j] == b;
      assert BucketKeys(bs)[j + 1] == b.key && BucketKeys(bs)[0] == bs[0].key;
    }
  }

  /** In buckets filed by name, a bucket's first path reaches its key. */
  lemma FiledFirstName(bs: seq<NameBucket>, b: NameBucket)
    requires FiledByName(bs) && b in bs && |b.items| > 0
    ensures b.items[0].target.name == b.key
  {
    var j :| 0 <= j < |bs| && bs[j] == b;
  }

  /** Rows built from buckets filed by name carry pairwise different names. */
  lemma {:induction false} EquityRowsDistinct(bs: seq<NameBucket>, excluded: set<string>, threshold: real)
    requires FiledByName(bs)
    ensures NamesDistinct(EquityRows(bs, excluded, threshold))
  {
    if |bs| > 0 {
      var tail := bs[1..];
      FiledTail(bs);
      EquityRowsDistinct(tail, excluded, threshold);
      var rest := EquityRows(tail, excluded, threshold);
      forall a | a in rest ensures a.company.name != bs[0].key {
        var b :| b in tail && EquityKept(b, excluded, threshold) && a == EquitySummary(b);
        FiledFirstName(tail, b);
      }
      if EquityKept(bs[0], excluded, threshold) {
        FiledFirstName(bs, bs[0]);
        NamesDistinctCons(EquitySummary(bs[0]), rest);
      }
    }
  }

  /** The equity rows of any list of paths. */
  function EquityOf(ws: seq<Walk>, excluded: set<string>, threshold: real): seq<Aggregate> {
    EquityRows(Group(ws, NameOf), excluded, threshold)
  }

  /** What an equity row of `ws` shows for its name. */
  predicate EquityRowOf(ws: seq<Walk>, excluded: set<string>, threshold: real, a: Aggregate) {
    var ps := Members(ws, NameOf, a.company.name);
    |ps| == a.pathCount && |ps| > 0 && ps[0].target == a.company && a.ownership == TotalPercent(ps) &&
    a.company.name !in excluded && a.ownership >= threshold && a.tier == Classify(a.ownership) && !a.direct
  }

  /** One equity row sums the paths to its name. */
  lemma EquityRowFaithful(ws: seq<Walk>, excluded: set<string>, threshold: real, a: Aggregate)
    requires a in EquityOf(ws, excluded, threshold)
    ensures EquityRowOf(ws, excluded, threshold, a)
  {
    var bs := Group(ws, NameOf);
    GroupFiled(ws);
    var b :| b in bs && EquityKept(b, excluded, threshold) && a == EquitySummary(b);
    FiledFirstName(bs, b);
  }

  /** A kept name of the paths has an equity row. */
  lemma EquityNameListed(ws: seq<Walk>, excluded: set<string>, threshold: real, w: Walk)
    requires w in ws && w.target.name !in excluded
    requires TotalPercent(Members(ws, NameOf, w.target.name)) >= threshold
    ensures exists a :: a in EquityOf(ws, excluded, threshold) && a.company.name == w.target.name
  {
    var b := BucketOf(ws, w);
    assert EquityKept(b, excluded, threshold);
    assert EquitySummary(b) in EquityOf(ws, excluded, threshold);
  }

  /** The equity rows are exactly the kept names of the paths: each row sums
      the paths to its name, counts them and shows the first one's company;
      each kept name has a row; no name has two. */
  lemma EquityOfPaths(ws: seq<Walk>, excluded: set<string>, threshold: real)
    ensures forall a :: a in EquityOf(ws, excluded, threshold) ==> EquityRowOf(ws, excluded, threshold, a)
    ensures forall w :: w in ws && w.target.name !in excluded && TotalPercent(Members(ws, NameOf, w.target.name)) >= threshold ==>
              exists a :: a in EquityOf(ws, excluded, threshold) && a.company.name == w.target.name
    ensures NamesDistinct(EquityOf(ws, excluded, threshold))
  {
    forall a | a in EquityOf(ws, excluded, threshold) ensures EquityRowOf(ws, excluded, threshold, a) {
      EquityRowFaithful(ws, excluded, threshold, a);
    }
    forall w | w in ws && w.target.name !in excluded && TotalPercent(Members(ws, NameOf, w.target.name)) >= threshold
      ensures exists a :: a in EquityOf(ws, excluded, threshold) && a.company.name == w.target.name
    {
      EquityNameListed(ws, excluded, threshold, w);
    }
    GroupFiled(ws);
    EquityRowsDistinct(Group(ws, NameOf), excluded, threshold);
  }

  /** The bucket a path is filed in. */
  lemma BucketOf(ws: seq<Walk>, w: Walk) returns (b: NameBucket)
    requires w in ws
    ensures b in Group(ws, NameOf) && b.key == w.target.name
    ensures b.items == Members(ws, NameOf, w.target.name) && |b.items| > 0
    ensures b.items[0].target.name == b.key
  {
    var bs := Group(ws, NameOf);
    GroupFiled(ws);
    var i :| 0 <= i < |ws| && ws[i] == w;
    assert NameOf(ws[i]) == w.target.name;
    var j :| 0 <= j < |bs| && BucketKeys(bs)[j] == w.target.name;
    b := bs[j];
  }

  /** `equityInterestSubsidiaries`: the recorded paths grouped by company
      Name; every name whose summed percentage reaches the threshold and that
      is not a direct subsidiary held above 50% is a row. */
  function Equity(db: Store, root: Company, threshold: real): seq<Aggregate> {
    EquityOf(AllWalks(db, Down, root), EquityExcluded(db, root, threshold), threshold)
  }

  /** `equityInterestSubsidiariesDisplay`: the equity rows at or above 50%. */
  function EquityDisplay(db: Store, root: Company, threshold: real): (r: seq<Aggregate>)
    ensures forall a :: a in r <==> a in Equity(db, root, threshold) && a.ownership >= 50.0
    ensures forall a :: multiset(r)[a] == if a.ownership >= 50.0 then multiset(Equity(db, root, threshold))[a] else 0
  {
    FilterCount(Equity(db, root, threshold), (a: Aggregate) => a.ownership >= 50.0);
    Filter(Equity(db, root, threshold), (a: Aggregate) => a.ownership >= 50.0)
  }

  /* ---------------------------------------------------------------- */
  /* Control: strongest path                                           */
  /* ---------------------------------------------------------------- */

  /** The bucket is kept by the control view (a non-negative maximum). */
  predicate ControlKept(b: NameBucket) {
    |b.items| > 0 && MaxPercent(b.items) >= 0.0
  }

  /** The control row of a bucket: the largest percentage, shown as direct
      when some path is the root's direct edge. */
  function ControlSummary(b: NameBucket): Aggregate
    requires |b.items| > 0
  {
    var m := MaxPercent(b.items);
    Aggregate(b.items[0].target, m, Classify(m), |b.items|, AnyDirect(b.items))
  }

  /** One row per kept bucket, in bucket order. */
  function ControlRows(bs: seq<NameBucket>): (r: seq<Aggregate>)
    ensures forall a :: a in r ==> exists b :: b in bs && ControlKept(b) && a == ControlSummary(b)
    ensures forall b :: b in bs && ControlKept(b) ==> ControlSummary(b) in r
  {
    if |bs| == 0 then []
    else
      var rest := ControlRows(bs[1..]);
      assert forall b :: b in bs[1..] ==> b in bs;
      if ControlKept(bs[0]) then [ControlSummary(bs[0])] + rest else rest
  }

  /** The control rows of any list of paths. */
  function ControlOf(ws: seq<Walk>): seq<Aggregate> {
    ControlRows(Group(ws, NameOf))
  }

  /** What a control row of `ws` shows for its name. */
  predicate ControlRowOf(ws: seq<Walk>, a: Aggregate) {
    var ps := Members(ws, NameOf, a.company.name);
    |ps| == a.pathCount && |ps| > 0 && ps[0].target == a.company && a.ownership == MaxPercent(ps) &&
    a.tier == Classify(a.ownership) && (a.direct <==> exists i :: 0 <= i < |ps| && IsDirect(ps[i]))
  }

  /** One control row keeps the strongest path to its name. */
  lemma ControlRowFaithful(ws: seq<Walk>, a: Aggregate)
    requires a in ControlOf(ws)
    ensures ControlRowOf(ws, a)
  {
    var bs := Group(ws, NameOf);
    GroupFiled(ws);
    var b :| b in bs && ControlKept(b) && a == ControlSummary(b);
    FiledFirstName(bs, b);
  }

  /** A name reached only with non-negative percentages has a control row. */
  lemma ControlNameListed(ws: seq<Walk>, w: Walk)
    requires w in ws
    requires forall i :: 0 <= i < |ws| ==> Percent(ws[i]) >= 0.0
    ensures exists a :: a in ControlOf(ws) && a.company.name == w.target.name
  {
    var b := BucketOf(ws, w);
    var p :| 0 <= p < |b.items| && Percent(b.items[p]) == MaxPercent(b.items);
    assert b.items[p] in ws;
    assert ControlKept(b);
    assert ControlSummary(b) in ControlOf(ws);
  }

  /** Each control row shows the largest percentage of the paths to its name,
      the number of paths, the first path's company, and "direct" exactly when
      one of those paths is a direct edge. When no path holds a negative
      percentage every name of the paths has a row. */
  lemma ControlOfPaths(ws: seq<Walk>)
    ensures forall a :: a in ControlOf(ws) ==> ControlRowOf(ws, a)
    ensures (forall i :: 0 <= i < |ws| ==> Percent(ws[i]) >= 0.0) ==>
              forall w :: w in ws ==> exists a :: a in ControlOf(ws) && a.company.name == w.target.name
  {
    forall a | a in ControlOf(ws) ensures ControlRowOf(ws, a) {
      ControlRowFaithful(ws, a);
    }
    if forall i :: 0 <= i < |ws| ==> Percent(ws[i]) >= 0.0 {
      forall w | w in ws ensures exists a :: a in ControlOf(ws) && a.company.name == w.target.name {
        ControlNameListed(ws, w);
      }
    }
  }

  /** `indirectSubsidiaries`: none for a root without an ID; otherwise the
      recorded paths grouped by company Name, each name shown with its
      strongest path, whatever the threshold. */
  function Control(db: Store, root: Company): seq<Aggregate> {
    if root.id == 0 then [] else ControlOf(AllWalks(db, Down, root))
  }

  /** A recorded path holds a non-negative percentage. */
  lemma PercentNonNegative(db: Store, root: Company, w: Walk)
    requires Valid(db, root, w)
    ensures Percent(w) >= 0.0
  {
    assert forall k :: 0 <= k < |w.rates| ==> w.rates[k] >= 0.0;
  }

  /** Every recorded path holds a non-negative percentage, so the control view
      filter (`effectiveOwnership >= 0`) drops no name: each name the paths
      reach has a row. */
  lemma ControlKeepsEveryName(db: Store, root: Company)
    requires root.id != 0
    ensures forall w :: w in AllWalks(db, Down, root) ==>
              exists a :: a in Control(db, root) && a.company.name == w.target.name
  {
    var ws := AllWalks(db, Down, root);
    forall i | 0 <= i < |ws| ensures Percent(ws[i]) >= 0.0 {
      PercentNonNegative(db, root, ws[i]);
    }
    ControlOfPaths(ws);
  }

  /** With non-negative percentages the strongest path never exceeds the sum. */
  lemma {:induction false} MaxAtMostTotal(ws: seq<Walk>)
    requires |ws| > 0
    requires forall i :: 0 <= i < |ws| ==> Percent(ws[i]) >= 0.0
    ensures MaxPercent(ws) <= TotalPercent(ws)
  {
    if |ws| > 1 {
      assert forall i :: 0 <= i < |ws| - 1 ==> ws[1..][i] == ws[i + 1];
      MaxAtMostTotal(ws[1..]);
    }
  }

  /** Over paths of non-negative percentage, a name listed by both views
      shows no more control than equity. */
  lemma ControlAtMostEquityOf(ws: seq<Walk>, excluded: set<string>, threshold: real, c: Aggregate, e: Aggregate)
    requires forall i :: 0 <= i < |ws| ==> Percent(ws[i]) >= 0.0
    requires c in ControlOf(ws) && e in EquityOf(ws, excluded, threshold)
    requires c.company.name == e.company.name
    ensures c.ownership <= e.ownership
  {
    ControlRowFaithful(ws, c);
    EquityRowFaithful(ws, excluded, threshold, e);
    var ps := Members(ws, NameOf, c.company.name);
    forall i | 0 <= i < |ps| ensures Percent(ps[i]) >= 0.0 {
      var k :| 0 <= k < |ws| && ws[k] == ps[i];
    }
    MaxAtMostTotal(ps);
  }

  /** A company listed by both the control and the equity view shows no more
      control than equity. */
  lemma ControlAtMostEquity(db: Store, root: Company, threshold: real, c: Aggregate, e: Aggregate)
    requires c in Control(db, root) && e in Equity(db, root, threshold)
    requires c.company.name == e.company.name
    ensures c.ownership <= e.ownership
  {
    var ws := AllWalks(db, Down, root);
    assert root.id != 0;
    assert c in ControlOf(ws);
    forall i | 0 <= i < |ws| ensures Percent(ws[i]) >= 0.0 {
      PercentNonNegative(db, root, ws[i]);
    }
    ControlAtMostEquityOf(ws, EquityExcluded(db, root, threshold), threshold, c, e);
  }

  /** Two paths to one company, a direct 30% and 50% of 50% through an
      intermediate: the equity view shows 55%, the control view 30%. */
  lemma SumAndMaxExample(root: Company, mid: Company, c: Company)
    ensures var ws := [Walk(c, [root.id, c.id], [30.0]), Walk(c, [root.id, mid.id, c.id], [50.0, 50.0])];
      TotalPercent(ws) == 55.0 && MaxPercent(ws) == 30.0
  {
    var w1 := Walk(c, [root.id, c.id], [30.0]);
    var w2 := Walk(c, [root.id, mid.id, c.id], [50.0, 50.0]);
    assert w1.rates[..0] == [] && w2.rates[..1] == [50.0] && [50.0][..0] == [];
    assert Share(w1.rates) == 0.3;
    assert Share(w2.rates) == 0.25;
    assert Percent(w1) == 30.0;
    assert Percent(w2) == 25.0;
    var ws := [w1, w2];
    assert ws[1..] == [w2] && [w2][1..] == [];
    assert TotalPercent([w2]) == 25.0 && MaxPercent([w2]) == 25.0;
    assert TotalPercent(ws) == 55.0 && MaxPercent(ws) == 30.0;
  }

  /* ---------------------------------------------------------------- */
  /* Related companies                                                 */
  /* ---------------------------------------------------------------- */

  /** Higher percentage first (`b.effectiveOwnership - a.effectiveOwnership`). */
  predicate OwnershipDesc(a: Aggregate, b: Aggregate) {
    a.ownership >= b.ownership
  }

  lemma OwnershipDescOrder()
    ensures TotalPreorder(OwnershipDesc)
  {
  }

  /** The rows from `threshold` up to but excluding 50%, highest first. */
  function RelatedOf(rows: seq<Aggregate>, threshold: real): (r: seq<Aggregate>)
    ensures forall a :: a in r <==> a in rows && threshold <= a.ownership < 50.0
    ensures forall a :: multiset(r)[a] == if threshold <= a.ownership < 50.0 then multiset(rows)[a] else 0
    ensures SortedBy(r, OwnershipDesc)
    ensures |r| <= |rows|
  {
    var kept := Filter(rows, (a: Aggregate) => a.ownership < 50.0 && a.ownership >= threshold);
    FilterCount(rows, (a: Aggregate) => a.ownership < 50.0 && a.ownership >= threshold);
    OwnershipDescOrder();
    var r := SortBy(kept, OwnershipDesc);
    assert forall a :: a in r <==> a in multiset(kept);
    r
  }

  /** `relatedCompanies`: the equity rows from the threshold up to but
      excluding 50%, highest first. */
  function RelatedCompanies(db: Store, root: Company, threshold: real): seq<Aggregate> {
    RelatedOf(Equity(db, root, threshold), threshold)
  }
}
