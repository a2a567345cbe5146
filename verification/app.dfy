/** The company list of App.js: the upward and downward closures it searches
    with (`getAllParentCompanies`, `getAllSubsidiaries`), the list of companies
    distinct by Name, the search filters and the subsidiary count. */
module App {
  import opened Base
  import opened Records
  import opened Ownership
  import opened Traversal
  import opened Grouping
  import opened Views
  import opened Text
  import opened Sorting
  import opened Calendar
  import opened Fields

  /* ---------------------------------------------------------------- */
  /* Summing the recorded paths by company ID                          */
  /* ---------------------------------------------------------------- */

  /** The key of App.js's `Map`: the ID of the company reached. */
  function IdOf(w: Walk): int {
    w.target.id
  }

  type IdBucket = Bucket<int, Walk>

  /** The bucket's summed percentage reaches 50 (`totalOwnership >= 50`). */
  predicate Heavy(b: IdBucket) {
    |b.items| > 0 && TotalPercent(b.items) >= 50.0
  }

  /** Buckets filed by ID: distinct keys, each bucket non-empty and headed by
      a path to a company with its key. */
  predicate FiledById(bs: seq<IdBucket>) {
    Distinct(BucketKeys(bs)) &&
    forall j :: 0 <= j < |bs| ==> |bs[j].items| > 0 && bs[j].items[0].target.id == bs[j].key
  }

  /** The company stored for each heavy bucket, in bucket order. */
  function HeavyCompanies(bs: seq<IdBucket>): (r: seq<Company>)
    ensures |r| <= |bs|
    ensures forall c :: c in r ==> exists b :: b in bs && Heavy(b) && c == b.items[0].target
    ensures forall b :: b in bs && Heavy(b) ==> b.items[0].target in r
  {
    if |bs| == 0 then []
    else (if Heavy(bs[0]) then [bs[0].items[0].target] else []) + HeavyCompanies(bs[1..])
  }

  /** Buckets filed by ID yield companies with distinct IDs. */
  lemma {:induction false} HeavyCompaniesDistinct(bs: seq<IdBucket>)
    requires FiledById(bs)
    ensures forall i, j :: 0 <= i < j < |HeavyCompanies(bs)| ==> HeavyCompanies(bs)[i].id != HeavyCompanies(bs)[j].id
  {
    if |bs| > 0 {
      FiledTail(bs);
      HeavyCompaniesDistinct(bs[1..]);
      var rest := HeavyCompanies(bs[1..]);
      HeadKeyFresh(bs);
      DistinctCons(bs[0].items[0].target, rest, Heavy(bs[0]));
      assert HeavyCompanies(bs) == (if Heavy(bs[0]) then [bs[0].items[0].target] else []) + rest;
    }
  }

  /** No company kept from the later buckets has the first bucket's key. */
  lemma HeadKeyFresh(bs: seq<IdBucket>)
    requires |bs| > 0 && FiledById(bs)
    ensures forall c :: c in HeavyCompanies(bs[1..]) ==> c.id != bs[0].items[0].target.id
  {
    forall c | c in HeavyCompanies(bs[1..]) ensures c.id != bs[0].key {
      var b :| b in bs[1..] && Heavy(b) && c == b.items[0].target;
      FiledOthers(bs, b);
    }
  }

  lemma FiledTail(bs: seq<IdBucket>)
    requires |bs| > 0 && FiledById(bs)
    ensures FiledById(bs[1..])
  {
    assert BucketKeys(bs[1..]) == BucketKeys(bs)[1..];
    forall j | 0 <= j < |bs| - 1 ensures bs[1..][j] == bs[j + 1] { }
  }

  /** A later bucket of a filed list has a key other than the first one's. */
  lemma FiledOthers(bs: seq<IdBucket>, b: IdBucket)
    requires |bs| > 0 && FiledById(bs) && b in bs[1..]
    ensures b.items[0].target.id != bs[0].key
  {
    var j :| 0 <= j < |bs[1..]| && bs[1..][j] == b;
    assert BucketKeys(bs)[j + 1] == b.key && BucketKeys(bs)[0] == bs[0].key;
  }

  /** Putting a company whose ID none of `rest` has in front (or not) keeps
      the IDs distinct. */
  lemma DistinctCons(c: Company, rest: seq<Company>, put: bool)
    requires forall i, j :: 0 <= i < j < |rest| ==> rest[i].id != rest[j].id
    requires forall d :: d in rest ==> d.id != c.id
    ensures var r := (if put then [c] else []) + rest;
      forall i, j :: 0 <= i < j < |r| ==> r[i].id != r[j].id
  {
    var r := (if put then [c] else []) + rest;
    if put {
      forall i, j | 0 <= i < j < |r| ensures r[i].id != r[j].id {
        assert r[j] == rest[j - 1];
        if i > 0 {
          assert r[i] == rest[i - 1];
        } else {
          assert rest[j - 1] in rest;
        }
      }
    } else {
      assert r == rest;
    }
  }

  /** Grouping by ID files the paths by ID, each bucket holding exactly the
      paths to its ID. */
  lemma GroupFiledById(ws: seq<Walk>)
    ensures FiledById(Group(ws, IdOf))
    ensures forall b :: b in Group(ws, IdOf) ==> b.items == Members(ws, IdOf, b.key)
    ensures BucketKeys(Group(ws, IdOf)) == Keys(ws, IdOf)
  {
    var bs := Group(ws, IdOf);
    GroupIsKeysAndMembers(ws, IdOf);
    forall j | 0 <= j < |bs| ensures |bs[j].items| > 0 && bs[j].items[0].target.id == bs[j].key {
      assert BucketKeys(bs)[j] == bs[j].key;
      assert bs[j].key in Keys(ws, IdOf);
    }
  }

  /** The companies whose paths sum to at least 50%, one per ID, each the
      company of the first path reaching that ID. */
  function SummedAtLeastHalf(ws: seq<Walk>): seq<Company> {
    HeavyCompanies(Group(ws, IdOf))
  }

  /** What `SummedAtLeastHalf` keeps: exactly one company per ID whose paths
      sum to at least 50%, the company of the first path to it. */
  lemma SummedAtLeastHalfPaths(ws: seq<Walk>)
    ensures forall c :: c in SummedAtLeastHalf(ws) ==>
              |Members(ws, IdOf, c.id)| > 0 && TotalPercent(Members(ws, IdOf, c.id)) >= 50.0 &&
              Members(ws, IdOf, c.id)[0].target == c
    ensures forall w :: w in ws && TotalPercent(Members(ws, IdOf, w.target.id)) >= 50.0 ==>
              exists c :: c in SummedAtLeastHalf(ws) && c.id == w.target.id
    ensures forall i, j :: 0 <= i < j < |SummedAtLeastHalf(ws)| ==> SummedAtLeastHalf(ws)[i].id != SummedAtLeastHalf(ws)[j].id
  {
    var bs := Group(ws, IdOf);
    GroupFiledById(ws);
    HeavyCompaniesDistinct(bs);
    forall w | w in ws && TotalPercent(Members(ws, IdOf, w.target.id)) >= 50.0
      ensures exists c :: c in SummedAtLeastHalf(ws) && c.id == w.target.id
    {
      var b := IdBucketOf(ws, w);
      assert Heavy(b);
      assert b.items[0].target in SummedAtLeastHalf(ws);
    }
  }

  /** The bucket of the path's ID. */
  lemma IdBucketOf(ws: seq<Walk>, w: Walk) returns (b: IdBucket)
    requires w in ws
    ensures b in Group(ws, IdOf) && b.key == w.target.id
    ensures b.items == Members(ws, IdOf, w.target.id) && |b.items| > 0 && b.items[0].target.id == b.key
  {
    var bs := Group(ws, IdOf);
    GroupFiledById(ws);
    var i :| 0 <= i < |ws| && ws[i] == w;
    assert IdOf(ws[i]) in Keys(ws, IdOf);
    var j :| 0 <= j < |bs| && BucketKeys(bs)[j] == w.target.id;
    b := bs[j];
  }

  /** With non-negative percentages a path never exceeds the sum of the paths
      to its company. */
  lemma PathAtMostTotal(ps: seq<Walk>, i: nat)
    requires i < |ps|
    requires forall k :: 0 <= k < |ps| ==> Percent(ps[k]) >= 0.0
    ensures Percent(ps[i]) <= TotalPercent(ps)
  {
    MaxAtMostTotal(ps);
  }

  /* ---------------------------------------------------------------- */
  /* getAllParentCompanies                                             */
  /* ---------------------------------------------------------------- */

  /** The company a search starts from: none for ID 0 or an ID not in the
      table, otherwise the first company with the ID, whatever its status. */
  function Root(db: Store, id: int): (r: Option<Company>)
    ensures r.Some? ==> id != 0 && r.value in db.companies && r.value.id == id
    ensures r.None? <==> id == 0 || forall c :: c in db.companies ==> c.id != id
  {
    if id == 0 then None else CompanyById(db.companies, id)
  }

  /** `getAllParentCompanies(id)`: the recorded upward paths (every hop a
      controlling parent of at least 50%) summed by company ID; the companies
      whose sum reaches 50%. The direct parents are stored with `set` rather
      than added, which is the same because they have distinct IDs. */
  function AllParentCompanies(db: Store, id: int): (r: seq<Company>)
    ensures Root(db, id).None? ==> r == []
  {
    match Root(db, id)
    case None => []
    case Some(c) => SummedAtLeastHalf(AllWalks(db, Up, c))
  }

  /** Every upward path carries a non-negative percentage. */
  lemma WalksNonNegative(db: Store, dir: Direction, root: Company)
    ensures forall i :: 0 <= i < |AllWalks(db, dir, root)| ==> Percent(AllWalks(db, dir, root)[i]) >= 0.0
  {
    var ws := AllWalks(db, dir, root);
    forall i | 0 <= i < |ws| ensures Percent(ws[i]) >= 0.0 {
      PercentNonNegative(db, root, ws[i]);
    }
  }

  /** Over paths of non-negative percentage, a path holds no more than the
      paths to its company together. */
  lemma PathAtMostItsTotal(ws: seq<Walk>, w: Walk)
    requires w in ws
    requires forall i :: 0 <= i < |ws| ==> Percent(ws[i]) >= 0.0
    ensures Percent(w) <= TotalPercent(Members(ws, IdOf, w.target.id))
  {
    var ps := Members(ws, IdOf, w.target.id);
    SubsetNonNegative(ws, ps);
    assert w in ps by {
      MembersHas(ws, IdOf, w);
    }
    var i :| 0 <= i < |ps| && ps[i] == w;
    PathAtMostTotal(ps, i);
  }

  /** Paths taken from a list of non-negative paths are non-negative. */
  lemma SubsetNonNegative(ws: seq<Walk>, ps: seq<Walk>)
    requires forall i :: 0 <= i < |ps| ==> ps[i] in ws
    requires forall i :: 0 <= i < |ws| ==> Percent(ws[i]) >= 0.0
    ensures forall i :: 0 <= i < |ps| ==> Percent(ps[i]) >= 0.0
  {
    forall i | 0 <= i < |ps| ensures Percent(ps[i]) >= 0.0 {
      var j :| 0 <= j < |ws| && ws[j] == ps[i];
    }
  }

  /** A direct edge is the recorded path at its position, and its rate is
      at most the sum of the paths to its company. */
  lemma DirectAtMostTotal(db: Store, dir: Direction, root: Company, k: nat)
    requires k < |Step(db, dir, root)|
    ensures var ws := AllWalks(db, dir, root);
      var e := Step(db, dir, root)[k];
      k < |ws| && ws[k].target == e.company &&
      e.ownership <= TotalPercent(Members(ws, IdOf, e.company.id))
  {
    var ws := AllWalks(db, dir, root);
    var e := Step(db, dir, root)[k];
    AllWalksDirect(db, dir, root);
    var w := ws[k];
    assert w.rates == [e.ownership];
    SingleHopPercent(w);
    assert w in ws;
    WalksNonNegative(db, dir, root);
    PathAtMostItsTotal(ws, w);
  }

  /** A path of one hop holds that hop's rate. */
  lemma SingleHopPercent(w: Walk)
    requires |w.rates| == 1
    ensures Percent(w) == w.rates[0]
  {
    assert w.rates[..0] == [];
    assert Share(w.rates) == 1.0 * (w.rates[0] / 100.0);
  }

  /** An element is among the members of its own key. */
  lemma {:induction false} MembersHas<T, K>(xs: seq<T>, key: T -> K, x: T)
    requires x in xs
    ensures x in Members(xs, key, key(x))
  {
    var init := xs[..|xs| - 1];
    if x != xs[|xs| - 1] {
      assert x in init;
      MembersHas(init, key, x);
    }
  }

  /** The companies kept from the paths of either direction are active
      companies of the table, one per ID, whose paths sum to at least 50%;
      every ID reached with such a sum is kept, and so is every direct edge
      of at least 50%. */
  lemma HeavyWalksSpec(db: Store, dir: Direction, root: Company)
    ensures forall p :: p in SummedAtLeastHalf(AllWalks(db, dir, root)) ==>
      p in db.companies && IsActive(p) && TotalPercent(Members(AllWalks(db, dir, root), IdOf, p.id)) >= 50.0
    ensures forall w :: w in AllWalks(db, dir, root) && TotalPercent(Members(AllWalks(db, dir, root), IdOf, w.target.id)) >= 50.0 ==>
      HasCompanyId(SummedAtLeastHalf(AllWalks(db, dir, root)), w.target.id)
    ensures IdsDistinct(SummedAtLeastHalf(AllWalks(db, dir, root)))
    ensures forall e :: e in Step(db, dir, root) && e.ownership >= 50.0 ==>
      HasCompanyId(SummedAtLeastHalf(AllWalks(db, dir, root)), e.company.id)
  {
    var ws := AllWalks(db, dir, root);
    var r := SummedAtLeastHalf(ws);
    SummedAtLeastHalfPaths(ws);
    forall p | p in r ensures p in db.companies && IsActive(p) {
      var w := Members(ws, IdOf, p.id)[0];
      assert w in ws;
    }
    HeavyDirectEdges(db, dir, root);
  }

  /** Every direct edge of at least 50% reaches a kept company. */
  lemma HeavyDirectEdges(db: Store, dir: Direction, root: Company)
    ensures forall e :: e in Step(db, dir, root) && e.ownership >= 50.0 ==>
      HasCompanyId(SummedAtLeastHalf(AllWalks(db, dir, root)), e.company.id)
  {
    var ws := AllWalks(db, dir, root);
    var r := SummedAtLeastHalf(ws);
    SummedAtLeastHalfPaths(ws);
    forall e | e in Step(db, dir, root) && e.ownership >= 50.0 ensures HasCompanyId(r, e.company.id) {
      var k :| 0 <= k < |Step(db, dir, root)| && Step(db, dir, root)[k] == e;
      DirectAtMostTotal(db, dir, root, k);
      assert ws[k] in ws && ws[k].target.id == e.company.id;
    }
  }

  /** The ancestors found are active companies of the table, one per ID,
      whose upward paths sum to at least 50%; every ID reached with such a sum
      is found, and so is every controlling direct parent. */
  lemma AllParentCompaniesSpec(db: Store, child: Company)
    requires Root(db, child.id) == Some(child)
    ensures forall p :: p in AllParentCompanies(db, child.id) ==>
      p in db.companies && IsActive(p) && TotalPercent(Members(AllWalks(db, Up, child), IdOf, p.id)) >= 50.0
    ensures forall w :: w in AllWalks(db, Up, child) && TotalPercent(Members(AllWalks(db, Up, child), IdOf, w.target.id)) >= 50.0 ==>
      HasCompanyId(AllParentCompanies(db, child.id), w.target.id)
    ensures IdsDistinct(AllParentCompanies(db, child.id))
    ensures forall e :: e in ParentCompanies(db, child) ==> HasCompanyId(AllParentCompanies(db, child.id), e.company.id)
  {
    assert AllParentCompanies(db, child.id) == SummedAtLeastHalf(AllWalks(db, Up, child));
    HeavyWalksSpec(db, Up, child);
    ControllingParentsKept(db, child);
  }

  /** Every direct parent is found: `getParentCompanies` only lists holders
      of at least 50%. */
  lemma ControllingParentsKept(db: Store, child: Company)
    ensures forall e :: e in ParentCompanies(db, child) ==> HasCompanyId(SummedAtLeastHalf(AllWalks(db, Up, child)), e.company.id)
  {
    assert Step(db, Up, child) == ParentCompanies(db, child);
    HeavyDirectEdges(db, Up, child);
    forall e | e in ParentCompanies(db, child) ensures e.ownership >= 50.0 {
      var k :| 0 <= k < |ParentCompanies(db, child)| && ParentCompanies(db, child)[k] == e;
    }
  }

  /* ---------------------------------------------------------------- */
  /* getAllSubsidiaries                                                */
  /* ---------------------------------------------------------------- */

  /** No two of the companies share an ID. */
  predicate IdsDistinct(cs: seq<Company>) {
    forall i, j :: 0 <= i < j < |cs| ==> cs[i].id != cs[j].id
  }

  /** Some company of `cs` has the ID (`result.some(r => r.ID === id)`). */
  predicate HasCompanyId(cs: seq<Company>, id: int) {
    exists c :: c in cs && c.id == id
  }

  /** Each owned company with a positive rate whose ID the result lacks is appended. */
  function AddOwned(es: seq<Edge>, acc: seq<Company>): (r: seq<Company>)
    ensures acc <= r
    ensures forall i :: |acc| <= i < |r| ==> exists e :: e in es && r[i] == e.company
    ensures forall e :: e in es && e.ownership > 0.0 ==> HasCompanyId(r, e.company.id)
    ensures IdsDistinct(acc) ==> IdsDistinct(r)
    decreases |es|
  {
    if |es| == 0 then acc
    else
      var e := es[0];
      var next := if e.ownership > 0.0 && !HasCompanyId(acc, e.company.id) then acc + [e.company] else acc;
      if next == acc then AddOwned(es[1..], acc)
      else
        AppendFreshId(acc, e.company);
        var r := AddOwned(es[1..], next);
        assert r[|acc|] == e.company;
        assert e.company in r;
        r
  }

  /** Appending a company whose ID is absent keeps the IDs distinct. */
  lemma AppendFreshId(acc: seq<Company>, c: Company)
    requires !HasCompanyId(acc, c.id)
    ensures IdsDistinct(acc) ==> IdsDistinct(acc + [c])
    ensures HasCompanyId(acc + [c], c.id)
  {
    var next := acc + [c];
    assert next[|acc|] == c;
    if IdsDistinct(acc) {
      forall i, j | 0 <= i < j < |next| ensures next[i].id != next[j].id {
        if j == |acc| { assert next[i] in acc; }
      }
    }
  }

  /** `c` is owned by the table's first company with the ID of one of `heavy`. */
  predicate OwnedByOneOf(db: Store, heavy: seq<Company>, c: Company) {
    exists h, e :: h in heavy && e in OwnedOf(db, h) && e.company == c
  }

  /** The owned companies of the table's first company with the ID of `h`
      (`companiesData.find(c => c.ID === directSubId)`); none when no company
      has that ID. */
  function OwnedOf(db: Store, h: Company): (r: seq<Edge>)
    ensures forall e :: e in r ==> e.company in db.companies && IsActive(e.company) && e.ownership > 0.0
  {
    match CompanyById(db.companies, h.id)
    case None => []
    case Some(d) =>
      var r := OwnedCompanies(db, d);
      assert forall e :: e in r ==> e.company in db.companies && IsActive(e.company) && e.ownership > 0.0 by {
        forall e | e in r ensures e.company in db.companies && IsActive(e.company) && e.ownership > 0.0 {
          var i :| 0 <= i < |r| && r[i] == e;
        }
      }
      r
  }

  /** The owned-company lists of each company of `heavy`, one after another. */
  function OwnedOfAll(db: Store, heavy: seq<Company>): (r: seq<Edge>)
    ensures forall e :: e in r <==> exists h :: h in heavy && e in OwnedOf(db, h)
  {
    if |heavy| == 0 then []
    else
      var r := OwnedOf(db, heavy[0]) + OwnedOfAll(db, heavy[1..]);
      assert forall h :: h in heavy <==> h == heavy[0] || h in heavy[1..];
      r
  }

  /** `getAllSubsidiaries(id)` of App.js: the recorded downward paths summed
      by company ID; the companies whose sum reaches 50%, then every company
      owned by one of those (looked up again by ID) that is not yet listed. */
  function AllSubsidiaries(db: Store, id: int): (r: seq<Company>)
    ensures Root(db, id).None? ==> r == []
  {
    match Root(db, id)
    case None => []
    case Some(c) =>
      var base := SummedAtLeastHalf(AllWalks(db, Down, c));
      AddOwned(OwnedOfAll(db, base), base)
  }

  /** Widening a list of distinct active companies of the table with the
      companies they own keeps it first, keeps the IDs distinct, adds only
      active companies of the table owned by one of the list, and leaves no
      owned company's ID out. */
  lemma WideningSpec(db: Store, base: seq<Company>)
    requires IdsDistinct(base)
    requires forall c :: c in base ==> c in db.companies && IsActive(c)
    ensures var r := AddOwned(OwnedOfAll(db, base), base);
      IdsDistinct(r) && base <= r &&
      (forall c :: c in r ==> c in db.companies && IsActive(c) && (c in base || OwnedByOneOf(db, base, c))) &&
      (forall h, e :: h in base && e in OwnedOf(db, h) ==> HasCompanyId(r, e.company.id))
  {
    var es := OwnedOfAll(db, base);
    var r := AddOwned(es, base);
    forall c | c in r ensures c in db.companies && IsActive(c) && (c in base || OwnedByOneOf(db, base, c)) {
      var i :| 0 <= i < |r| && r[i] == c;
      if i < |base| {
        assert c == base[i];
      } else {
        var e :| e in es && c == e.company;
        var h :| h in base && e in OwnedOf(db, h);
      }
    }
    forall h, e | h in base && e in OwnedOf(db, h) ensures HasCompanyId(r, e.company.id) {
      assert e in es;
    }
  }

  /** The companies found are active companies of the table with distinct
      IDs: first those whose downward paths sum to at least 50% (see
      `HeavyWalksSpec`), then companies owned by one of those; every company
      owned by one of those and every company owned directly at 50% or more
      is found by ID. */
  lemma AllSubsidiariesSpec(db: Store, root: Company)
    requires Root(db, root.id) == Some(root)
    ensures var r := AllSubsidiaries(db, root.id);
      var base := SummedAtLeastHalf(AllWalks(db, Down, root));
      IdsDistinct(r) && base <= r &&
      (forall c :: c in r ==> c in db.companies && IsActive(c) && (c in base || OwnedByOneOf(db, base, c))) &&
      (forall h, e :: h in base && e in OwnedOf(db, h) ==> HasCompanyId(r, e.company.id)) &&
      (forall e :: e in OwnedCompanies(db, root) && e.ownership >= 50.0 ==> HasCompanyId(r, e.company.id))
  {
    var base := SummedAtLeastHalf(AllWalks(db, Down, root));
    var r := AllSubsidiaries(db, root.id);
    assert r == AddOwned(OwnedOfAll(db, base), base);
    assert IdsDistinct(base) && (forall c :: c in base ==> c in db.companies && IsActive(c)) &&
      (forall e :: e in OwnedCompanies(db, root) && e.ownership >= 50.0 ==> HasCompanyId(base, e.company.id)) by {
      assert Step(db, Down, root) == OwnedCompanies(db, root);
      HeavyWalksSpec(db, Down, root);
    }
    WideningSpec(db, base);
    assert forall c :: c in base ==> c in r;
  }

  /* ---------------------------------------------------------------- */
  /* uniqueCompanies                                                   */
  /* ---------------------------------------------------------------- */

  /** The key of the name map. */
  function NameOf(c: Company): string {
    c.name
  }

  /** `c` is the first company of `cs` bearing its name. */
  predicate FirstOfItsName(cs: seq<Company>, c: Company) {
    exists i :: 0 <= i < |cs| && cs[i] == c && forall j :: 0 <= j < i ==> cs[j].name != c.name
  }

  /** The first company of `cs` with the name. */
  function FirstNamed(cs: seq<Company>, name: string): (c: Company)
    requires exists i :: 0 <= i < |cs| && cs[i].name == name
    ensures c.name == name && FirstOfItsName(cs, c)
  {
    var k := FirstIndex(cs, (x: Company) => x.name == name);
    cs[k]
  }

  /** Two companies first with the same name are the same. */
  lemma FirstOfItsNameUnique(cs: seq<Company>, a: Company, b: Company)
    requires FirstOfItsName(cs, a) && FirstOfItsName(cs, b) && a.name == b.name
    ensures a == b
  {
    var i :| 0 <= i < |cs| && cs[i] == a && forall j :: 0 <= j < i ==> cs[j].name != a.name;
    var k :| 0 <= k < |cs| && cs[k] == b && forall j :: 0 <= j < k ==> cs[j].name != b.name;
    if i < k {
      assert cs[i].name == b.name;
    }
  }

  /** Name order (`a.Name.localeCompare(b.Name)`). */
  predicate NameLe(a: Company, b: Company) {
    TextLe(a.name, b.name)
  }

  lemma NameLeOrder()
    ensures TotalPreorder(NameLe)
  {
    forall a, b ensures NameLe(a, b) || NameLe(b, a) {
      TextLeTotal(a.name, b.name);
    }
    forall a, b, c | NameLe(a, b) && NameLe(b, c) ensures NameLe(a, c) {
      TextLeTrans(a.name, b.name, c.name);
    }
  }

  /** Two companies with different names. */
  predicate NameApart(a: Company, b: Company) {
    a.name != b.name
  }

  /** The first company of `cs` for each name, in the order the names first
      occur (the values of the name map). */
  function FirstsByName(cs: seq<Company>): (r: seq<Company>)
    ensures PairwiseApart(r, NameApart)
    ensures forall c :: c in r <==> c in cs && FirstOfItsName(cs, c)
  {
    var ks := Keys(cs, NameOf);
    var r := seq(|ks|, i requires 0 <= i < |ks| => FirstNamed(cs, ks[i]));
    FirstsByNameMembers(cs, ks, r);
    r
  }

  /** One first company per distinct name, and nothing else. */
  lemma FirstsByNameMembers(cs: seq<Company>, ks: seq<string>, r: seq<Company>)
    requires ks == Keys(cs, NameOf) && |r| == |ks|
    requires forall i :: 0 <= i < |r| ==> r[i].name == ks[i] && FirstOfItsName(cs, r[i])
    ensures PairwiseApart(r, NameApart)
    ensures forall c :: c in r <==> c in cs && FirstOfItsName(cs, c)
  {
    forall c | c in r ensures c in cs {
      var i :| 0 <= i < |r| && r[i] == c;
    }
    forall c | c in cs && FirstOfItsName(cs, c) ensures c in r {
      var i :| 0 <= i < |cs| && cs[i] == c;
      assert NameOf(cs[i]) in ks;
      var j :| 0 <= j < |ks| && ks[j] == c.name;
      FirstOfItsNameUnique(cs, r[j], c);
    }
  }

  /** `uniqueCompanies`: the first company of the table for each name, in
      name order; no two share a name. */
  function UniqueCompanies(db: Store): (r: seq<Company>)
    ensures SortedBy(r, NameLe)
    ensures PairwiseApart(r, NameApart)
    ensures forall c :: c in r <==> c in db.companies && FirstOfItsName(db.companies, c)
  {
    var firsts := FirstsByName(db.companies);
    NameLeOrder();
    var r := SortBy(firsts, NameLe);
    PairwiseApartReordered(firsts, r, NameApart);
    assert forall c :: c in r <==> c in multiset(firsts);
    r
  }

  /* ---------------------------------------------------------------- */
  /* getSubsidiaryCount                                                */
  /* ---------------------------------------------------------------- */

  /** The IDs of the companies named `name`. */
  function IdsNamed(db: Store, name: string): set<int> {
    set c | c in db.companies && c.name == name :: c.id
  }

  /** `getSubsidiaryCount(name)`: the companies of the table, of any status,
      whose non-zero ParentID is the ID of some company with the name. */
  function SubsidiaryCount(db: Store, name: string): (n: nat)
    ensures n <= |db.companies|
    ensures n == 0 <==> forall c, p :: c in db.companies && p in db.companies && p.name == name ==> c.parentId == 0 || c.parentId != p.id
    ensures n == |set i | 0 <= i < |db.companies| && db.companies[i].parentId != 0 && db.companies[i].parentId in IdsNamed(db, name)|
  {
    var counted := (c: Company) => c.parentId != 0 && c.parentId in IdsNamed(db, name);
    var r := Filter(db.companies, counted);
    FilterLength(db.companies, counted);
    var stated := set i | 0 <= i < |db.companies| && db.companies[i].parentId != 0 && db.companies[i].parentId in IdsNamed(db, name);
    forall i ensures i in Passing(db.companies, counted) <==> i in stated {
    }
    assert Passing(db.companies, counted) == stated;
    assert |r| > 0 ==> r[0] in db.companies;
    forall c, p | c in db.companies && p in db.companies && p.name == name && c.parentId != 0 && c.parentId == p.id
      ensures |r| > 0
    {
      assert p.id in IdsNamed(db, name);
      var i :| 0 <= i < |db.companies| && db.companies[i] == c;
      assert c in r;
    }
    |r|
  }

  /** The count covers at least the active companies filed under any one
      company with the name through their ParentID. */
  lemma SubsidiaryCountCoversIdChildren(db: Store, p: Company)
    requires p in db.companies
    ensures |Filter(db.companies, (c: Company) => IsIdChild(p, c))| <= SubsidiaryCount(db, p.name)
  {
    assert p.id in IdsNamed(db, p.name);
    FilterWeaker(db.companies, (c: Company) => IsIdChild(p, c),
      (c: Company) => c.parentId != 0 && c.parentId in IdsNamed(db, p.name));
  }

  /* ---------------------------------------------------------------- */
  /* filteredCompanies                                                 */
  /* ---------------------------------------------------------------- */

  /** The search form: every field is text, empty when unused. */
  datatype Filters = Filters(
    name: string,
    code: string,
    capitalFrom: string,
    capitalTo: string,
    foundedFrom: string,
    foundedTo: string,
    dkkdFrom: string,
    dkkdTo: string,
    loaiHinh: string,
    representative: string,
    listing: string,
    status: string,
    industry: string,
    parentName: string,
    childName: string)

  /** The form with every field empty. */
  const NoFilters: Filters := Filters("", "", "", "", "", "", "", "", "", "", "", "", "", "", "")

  /** An empty term passes; otherwise the lower-cased text must contain the
      lower-cased term. */
  predicate TextOk(text: string, term: string) {
    term == "" || Contains(Lower(text), Lower(term))
  }

  /** An empty choice passes; otherwise the value must equal it. */
  predicate ExactOk(value: string, choice: string) {
    choice == "" || value == choice
  }

  /** `bound && x < Number(bound)`: false for an empty bound or NaN. */
  predicate Below(x: real, bound: string) {
    bound != "" && ToNumber(bound).Some? && x < ToNumber(bound).value
  }

  /** `bound && x > Number(bound)`: false for an empty bound or NaN. */
  predicate Above(x: real, bound: string) {
    bound != "" && ToNumber(bound).Some? && x > ToNumber(bound).value
  }

  /** The capital range on the trimmed bounds: with either bound given, a
      company without a capital fails, and a capital outside a numeric bound
      fails. */
  predicate CapitalOk(c: Company, f: Filters) {
    var from := Trim(f.capitalFrom);
    var to := Trim(f.capitalTo);
    if from == "" && to == "" then true
    else
      match c.vonDieuLe
      case None => false
      case Some(v) => !Below(v as real, from) && !Above(v as real, to)
  }

  /** `new Date(text).getFullYear()`; None for an invalid date (NaN). */
  function YearOf(text: string): (y: Option<int>)
    ensures y.Some? <==> ParseIsoDay(text).Some?
    ensures y.Some? ==> y.value == ParseIsoDay(text).value.year
  {
    match ParseIsoDay(text)
    case None => None
    case Some(d) => Some(d.year)
  }

  /** A year range on a date field: no date passes, and an invalid date's
      NaN year never compares, so it passes too. */
  predicate YearOk(date: Option<string>, from: string, to: string) {
    date.None? || date.value == "" || YearOf(date.value).None? ||
    (!Below(YearOf(date.value).value as real, from) && !Above(YearOf(date.value).value as real, to))
  }

  /** `${NguoiDaiDienInside} ${NguoiDaiDienOutside}`.trim(). */
  function RepresentativeText(c: Company): (r: string)
    ensures |r| <= |c.repInside| + 1 + |c.repOutside|
  {
    Trim(c.repInside + " " + c.repOutside)
  }

  /** The child-name filter: some company `getAllSubsidiaries` finds for
      `c` has a name containing the term. */
  predicate ChildOk(db: Store, c: Company, f: Filters) {
    f.childName == "" || exists s :: s in AllSubsidiaries(db, c.id) && Contains(Lower(s.name), Lower(f.childName))
  }

  /** Every per-company check of the filter, in the source's order. */
  predicate Accepts(db: Store, f: Filters, c: Company) {
    TextOk(c.name, f.name) &&
    TextOk(c.code, f.code) &&
    CapitalOk(c, f) &&
    YearOk(c.ngayThanhLap, f.foundedFrom, f.foundedTo) &&
    YearOk(c.dkkd, f.dkkdFrom, f.dkkdTo) &&
    ExactOk(c.loaiHinh, f.loaiHinh) &&
    TextOk(RepresentativeText(c), f.representative) &&
    ExactOk(c.tinhTrangNiemYet, f.listing) &&
    ExactOk(c.trangThai, f.status) &&
    TextOk(c.nganhNghe, f.industry) &&
    ChildOk(db, c, f)
  }

  /** The parent-name filter: the IDs of every company `getAllSubsidiaries`
      finds for an active company whose name contains the term. */
  function MotherIds(db: Store, term: string): (ids: set<int>)
    ensures forall p, s ::
              p in db.companies && IsActive(p) && Contains(Lower(p.name), Lower(term)) && s in AllSubsidiaries(db, p.id) ==> s.id in ids
  {
    set p, s | p in db.companies && IsActive(p) && Contains(Lower(p.name), Lower(term)) &&
      s in AllSubsidiaries(db, p.id) :: s.id
  }

  /** The companies the parent-name filter leaves to the other checks. */
  function Pool(db: Store, f: Filters): (r: seq<Company>)
    ensures SortedBy(r, NameLe) && PairwiseApart(r, NameApart)
    ensures forall c :: c in r <==> c in UniqueCompanies(db) && (f.parentName == "" || c.id in MotherIds(db, f.parentName))
  {
    var u := UniqueCompanies(db);
    if f.parentName == "" then u
    else
      var keep := (c: Company) => c.id in MotherIds(db, f.parentName);
      FilterMembers(u, keep);
      FilterSorted(u, keep, NameLe);
      FilterSorted(u, keep, NameApart);
      Filter(u, keep)
  }

  /** `filteredCompanies`: the companies first with their name that the
      parent-name filter keeps and every other check accepts, in name order,
      no two with the same name. */
  function FilteredCompanies(db: Store, f: Filters): (r: seq<Company>)
    ensures SortedBy(r, NameLe) && PairwiseApart(r, NameApart)
    ensures forall c :: c in r <==>
              c in db.companies && FirstOfItsName(db.companies, c) &&
              (f.parentName == "" || c.id in MotherIds(db, f.parentName)) &&
              Accepts(db, f, c)
  {
    var pool := Pool(db, f);
    var keep := (c: Company) => Accepts(db, f, c);
    FilterMembers(pool, keep);
    FilterSorted(pool, keep, NameLe);
    FilterSorted(pool, keep, NameApart);
    Filter(pool, keep)
  }

  /** Every check passes under the empty form. */
  lemma NoFiltersAccept(db: Store, c: Company)
    ensures Accepts(db, NoFilters, c)
  {
    assert TextOk(c.name, NoFilters.name) && TextOk(c.code, NoFilters.code);
    assert CapitalOk(c, NoFilters);
    YearOkUnbounded(c.ngayThanhLap);
    YearOkUnbounded(c.dkkd);
    assert TextOk(RepresentativeText(c), NoFilters.representative) && TextOk(c.nganhNghe, NoFilters.industry);
    assert ExactOk(c.loaiHinh, NoFilters.loaiHinh) && ExactOk(c.tinhTrangNiemYet, NoFilters.listing);
    assert ExactOk(c.trangThai, NoFilters.status) && ChildOk(db, c, NoFilters);
  }

  /** Without bounds the year check passes any date. */
  lemma YearOkUnbounded(date: Option<string>)
    ensures YearOk(date, "", "")
  {
    if date.Some? && date.value != "" && YearOf(date.value).Some? {
      var y := YearOf(date.value).value as real;
      assert !Below(y, "") && !Above(y, "");
    }
  }

  /** An empty form lists exactly the companies distinct by name. */
  lemma NoFiltersListAll(db: Store)
    ensures FilteredCompanies(db, NoFilters) == UniqueCompanies(db)
  {
    var u := UniqueCompanies(db);
    assert Pool(db, NoFilters) == u;
    forall i | 0 <= i < |u| ensures Accepts(db, NoFilters, u[i]) {
      NoFiltersAccept(db, u[i]);
    }
    FilterAll(u, (c: Company) => Accepts(db, NoFilters, c));
  }

  /** A bound written as a whole number compares as that number. */
  lemma NatBound(x: real, n: nat)
    ensures Below(x, NatToString(n)) <==> x < n as real
    ensures Above(x, NatToString(n)) <==> x > n as real
  {
    ToNumberOfNat(n);
  }

  /** With both capital bounds written as whole numbers, the capital check
      keeps exactly the companies whose capital lies between them. */
  lemma CapitalRange(c: Company, f: Filters, lo: nat, hi: nat)
    requires f.capitalFrom == NatToString(lo) && f.capitalTo == NatToString(hi)
    ensures CapitalOk(c, f) <==> c.vonDieuLe.Some? && lo <= c.vonDieuLe.value <= hi
  {
    NatToStringTrimmed(lo);
    NatToStringTrimmed(hi);
    if c.vonDieuLe.Some? {
      NatBound(c.vonDieuLe.value as real, lo);
      NatBound(c.vonDieuLe.value as real, hi);
    }
  }

  /** The decimal text of a natural number carries no surrounding space. */
  lemma NatToStringTrimmed(n: nat)
    ensures Trim(NatToString(n)) == NatToString(n)
  {
    var ds := NatToString(n);
    assert !IsSpace(ds[0]) && !IsSpace(ds[|ds| - 1]);
    TrimUnchanged(ds);
  }

  /** The year read back from a date written `YYYY-MM-DD`. */
  lemma IsoYear(d: Day)
    requires InRange(d) && 1000 <= d.year <= 9999
    ensures var t := IsoDate(d.year, d.month, d.day); t != "" && YearOf(t) == Some(d.year)
  {
    IsoDayRoundTrip(d);
  }

  /** With a date written `YYYY-MM-DD` and both bounds written as whole
      numbers, the year check keeps exactly the years between them. */
  lemma YearRange(d: Day, lo: nat, hi: nat)
    requires InRange(d) && 1000 <= d.year <= 9999
    ensures YearOk(Some(IsoDate(d.year, d.month, d.day)), NatToString(lo), NatToString(hi)) <==> lo <= d.year <= hi
  {
    IsoYear(d);
    NatBound(d.year as real, lo);
    NatBound(d.year as real, hi);
  }

  /** The parent-name filter lets through every company an active matching
      company owns directly at 50% or more. */
  lemma ParentFilterKeepsMajorityOwned(db: Store, term: string, p: Company, e: Edge)
    requires Root(db, p.id) == Some(p) && IsActive(p) && Contains(Lower(p.name), Lower(term))
    requires e in OwnedCompanies(db, p) && e.ownership >= 50.0
    ensures e.company.id in MotherIds(db, term)
  {
    AllSubsidiariesSpec(db, p);
    var s :| s in AllSubsidiaries(db, p.id) && s.id == e.company.id;
  }

  /** In a table without repeated IDs, the child-name filter lets through a
      company that owns, directly at 50% or more, a company whose name
      contains the term. */
  lemma ChildFilterKeepsMajorityOwner(db: Store, c: Company, f: Filters, e: Edge)
    requires TableIdsUnique(db.companies) && Root(db, c.id) == Some(c)
    requires e in OwnedCompanies(db, c) && e.ownership >= 50.0 && Contains(Lower(e.company.name), Lower(f.childName))
    ensures ChildOk(db, c, f)
  {
    var r := AllSubsidiaries(db, c.id);
    AllSubsidiariesSpec(db, c);
    var s :| s in r && s.id == e.company.id;
    assert e.company in db.companies by {
      var k :| 0 <= k < |OwnedCompanies(db, c)| && OwnedCompanies(db, c)[k] == e;
    }
    SameId(db.companies, s, e.company);
  }
}
