/** The direct ownership edges of the company graph: the rate lookup in the
    shareholder table, and the two edge resolvers that merge `ParentID` links
    with shareholder links (`getOwnedCompanies` downwards, `getParentCompanies`
    upwards). Rates are percentages. */
module Ownership {
  import opened Base
  import opened Records

  /** One direct edge: the company at the other end and the percentage held. */
  datatype Edge = Edge(company: Company, ownership: real)

  /** The first company with the given ID (`allCompanies.find(c => c.ID === id)`). */
  function CompanyById(cs: seq<Company>, id: int): (r: Option<Company>)
    ensures r.None? <==> forall i :: 0 <= i < |cs| ==> cs[i].id != id
    ensures r.Some? ==> r.value in cs && r.value.id == id
  {
    if |cs| == 0 then None
    else if cs[0].id == id then Some(cs[0])
    else CompanyById(cs[1..], id)
  }

  /** The record says that `holder` (by Name or by Code) holds shares of `held`. */
  predicate Holds(sh: Shareholder, holder: Company, held: Company) {
    sh.code == held.code && (sh.personaOrg == holder.name || sh.personaOrg == holder.code)
  }

  /** The ownership of the first record in which `holder` holds `held`, 0 when none does. */
  function RecordRate(shs: seq<Shareholder>, holder: Company, held: Company): (r: real)
    ensures r == 0.0 || exists k :: 0 <= k < |shs| && Holds(shs[k], holder, held) && shs[k].ownership == r
  {
    if |shs| == 0 then 0.0
    else if Holds(shs[0], holder, held) then shs[0].ownership
    else RecordRate(shs[1..], holder, held)
  }

  /** `getOwnershipRate(parentId, childId)`: both IDs are looked up in the
      company table (0 when either is missing), then the first shareholder
      record of the child's Code naming the parent's Name or Code gives the
      rate. Neither the validity window nor the status of the record matters. */
  function OwnershipRate(db: Store, parentId: int, childId: int): (r: real)
    ensures r != 0.0 ==> CompanyById(db.companies, parentId).Some? && CompanyById(db.companies, childId).Some?
    ensures r == 0.0 || exists k :: 0 <= k < |db.shareholders| && db.shareholders[k].ownership == r
  {
    match (CompanyById(db.companies, parentId), CompanyById(db.companies, childId))
    case (Some(p), Some(c)) => RecordRate(db.shareholders, p, c)
    case _ => 0.0
  }

  /** When a matching record exists, the rate is the ownership of the first one. */
  lemma {:induction false} RecordRateFirst(shs: seq<Shareholder>, holder: Company, held: Company, k: nat)
    requires k < |shs| && Holds(shs[k], holder, held)
    requires forall j :: 0 <= j < k ==> !Holds(shs[j], holder, held)
    ensures RecordRate(shs, holder, held) == shs[k].ownership
  {
    if k > 0 {
      assert !Holds(shs[0], holder, held);
      RecordRateFirst(shs[1..], holder, held, k - 1);
    }
  }

  /** With no matching record the rate is 0. */
  lemma {:induction false} RecordRateNone(shs: seq<Shareholder>, holder: Company, held: Company)
    requires forall j :: 0 <= j < |shs| ==> !Holds(shs[j], holder, held)
    ensures RecordRate(shs, holder, held) == 0.0
  {
    if |shs| > 0 {
      assert !Holds(shs[0], holder, held);
      RecordRateNone(shs[1..], holder, held);
    }
  }

  /** Record `k` is the first in which `holder` holds `held`. */
  predicate FirstHolding(shs: seq<Shareholder>, holder: Company, held: Company, k: int) {
    0 <= k < |shs| && Holds(shs[k], holder, held) &&
    forall m :: 0 <= m < k ==> !Holds(shs[m], holder, held)
  }

  /** The rate between the first companies with the two IDs is read from the
      first record linking them, and is 0 when no record does. */
  lemma OwnershipRateOfRecords(db: Store, i: nat, j: nat)
    requires i < |db.companies| && j < |db.companies|
    requires forall a :: 0 <= a < i ==> db.companies[a].id != db.companies[i].id
    requires forall a :: 0 <= a < j ==> db.companies[a].id != db.companies[j].id
    ensures var p, c := db.companies[i], db.companies[j];
      var r := OwnershipRate(db, p.id, c.id);
      (forall k :: 0 <= k < |db.shareholders| ==> !Holds(db.shareholders[k], p, c)) ==> r == 0.0
    ensures var p, c := db.companies[i], db.companies[j];
      var r := OwnershipRate(db, p.id, c.id);
      forall k :: FirstHolding(db.shareholders, p, c, k) ==> r == db.shareholders[k].ownership
  {
    var p, c := db.companies[i], db.companies[j];
    CompanyByIdAt(db.companies, i);
    CompanyByIdAt(db.companies, j);
    if forall k :: 0 <= k < |db.shareholders| ==> !Holds(db.shareholders[k], p, c) {
      RecordRateNone(db.shareholders, p, c);
    }
    forall k | FirstHolding(db.shareholders, p, c, k)
      ensures OwnershipRate(db, p.id, c.id) == db.shareholders[k].ownership
    {
      RecordRateFirst(db.shareholders, p, c, k);
    }
  }

  /** An ID absent from the company table yields rate 0 on either side. */
  lemma OwnershipRateMissing(db: Store, parentId: int, childId: int)
    requires (forall i :: 0 <= i < |db.companies| ==> db.companies[i].id != parentId) ||
             (forall i :: 0 <= i < |db.companies| ==> db.companies[i].id != childId)
    ensures OwnershipRate(db, parentId, childId) == 0.0
  {
  }

  /** The lookup by ID returns the company at the first index with that ID. */
  lemma {:induction false} CompanyByIdAt(cs: seq<Company>, i: nat)
    requires i < |cs|
    requires forall a :: 0 <= a < i ==> cs[a].id != cs[i].id
    ensures CompanyById(cs, cs[i].id) == Some(cs[i])
  {
    if i > 0 {
      assert cs[0].id != cs[i].id;
      assert cs[1..][i - 1] == cs[i];
      CompanyByIdAt(cs[1..], i - 1);
    }
  }

  /* ---------------------------------------------------------------- */
  /* Downwards: getOwnedCompanies                                      */
  /* ---------------------------------------------------------------- */

  /** `c` is listed as a child of `parent` through `ParentID`, and is active. */
  predicate IsIdChild(parent: Company, c: Company) {
    c.parentId == parent.id && c.parentId != 0 && IsActive(c)
  }

  /** The `ParentID` branch: active children of `parent`, in table order, with
      their looked-up rate, dropping the ones whose rate is not positive. */
  function ChildEdges(db: Store, parent: Company, cs: seq<Company>): (r: seq<Edge>)
    ensures |r| <= |cs|
    ensures forall i :: 0 <= i < |r| ==>
              r[i].company in cs && IsIdChild(parent, r[i].company) &&
              r[i].ownership == OwnershipRate(db, parent.id, r[i].company.id) && r[i].ownership > 0.0
    ensures forall i :: 0 <= i < |cs| && IsIdChild(parent, cs[i]) && OwnershipRate(db, parent.id, cs[i].id) > 0.0 ==>
              Edge(cs[i], OwnershipRate(db, parent.id, cs[i].id)) in r
  {
    if |cs| == 0 then []
    else
      var rest := ChildEdges(db, parent, cs[1..]);
      var c := cs[0];
      var o := OwnershipRate(db, parent.id, c.id);
      if IsIdChild(parent, c) && o > 0.0 then [Edge(c, o)] + rest else rest
  }

  /** Some edge already leads to a company with this ID (`ownedCompanies.some`). */
  predicate HasId(es: seq<Edge>, id: int) {
    exists i :: 0 <= i < |es| && es[i].company.id == id
  }

  /** Edges lead to pairwise different company IDs. */
  predicate UniqueIds(es: seq<Edge>) {
    forall i, j :: 0 <= i < j < |es| ==> es[i].company.id != es[j].company.id
  }

  /** The record names `holder` by Name or Code. */
  predicate NamesHolder(sh: Shareholder, holder: Company) {
    sh.personaOrg == holder.name || sh.personaOrg == holder.code
  }

  /** The first active company with the record's Code. */
  function OwnedBy(cs: seq<Company>, sh: Shareholder): (r: Option<Company>)
    ensures r.None? <==> forall i :: 0 <= i < |cs| ==> !(cs[i].code == sh.code && IsActive(cs[i]))
    ensures r.Some? ==> r.value in cs && r.value.code == sh.code && IsActive(r.value)
  {
    if |cs| == 0 then None
    else if cs[0].code == sh.code && IsActive(cs[0]) then Some(cs[0])
    else OwnedBy(cs[1..], sh)
  }

  /** The record names `parent` with a positive ownership of an active company
      other than the parent itself. */
  predicate OwningRecord(db: Store, sh: Shareholder, parent: Company) {
    NamesHolder(sh, parent) && sh.ownership > 0.0 &&
    OwnedBy(db.companies, sh).Some? && OwnedBy(db.companies, sh).value.id != parent.id
  }

  /** The record contributes a new edge from `parent` given the edges so far. */
  predicate AddsOwned(db: Store, parent: Company, sh: Shareholder, acc: seq<Edge>) {
    OwningRecord(db, sh, parent) && !HasId(acc, OwnedBy(db.companies, sh).value.id)
  }

  /** The record names `parent` and leads to the company with this ID. */
  predicate OwningRecordFor(db: Store, sh: Shareholder, parent: Company, id: int) {
    OwningRecord(db, sh, parent) && OwnedBy(db.companies, sh).value.id == id
  }

  /** The edge is the one the first record of `shs` leading from `parent` to
      its company's ID names: to the first active company with the record's
      Code, at that record's ownership. Later records for the same ID are
      skipped (`alreadyAdded`). */
  predicate OwnedEdgeOf(db: Store, parent: Company, shs: seq<Shareholder>, e: Edge) {
    exists k :: 0 <= k < |shs| && OwningRecord(db, shs[k], parent) &&
      e == Edge(OwnedBy(db.companies, shs[k]).value, shs[k].ownership) &&
      forall j :: 0 <= j < k ==> !OwningRecordFor(db, shs[j], parent, e.company.id)
  }

  lemma OwnedEdgeOfTail(db: Store, parent: Company, shs: seq<Shareholder>, e: Edge)
    requires |shs| > 0 && OwnedEdgeOf(db, parent, shs[1..], e)
    requires !OwningRecordFor(db, shs[0], parent, e.company.id)
    ensures OwnedEdgeOf(db, parent, shs, e)
  {
    var k :| 0 <= k < |shs[1..]| && OwningRecord(db, shs[1..][k], parent) &&
      e == Edge(OwnedBy(db.companies, shs[1..][k]).value, shs[1..][k].ownership) &&
      forall j :: 0 <= j < k ==> !OwningRecordFor(db, shs[1..][j], parent, e.company.id);
    assert shs[k + 1] == shs[1..][k];
    forall j | 0 < j < k + 1 ensures !OwningRecordFor(db, shs[j], parent, e.company.id) {
      assert shs[j] == shs[1..][j - 1];
    }
  }

  /** The edges one step adds, and those the rest of the records add, all
      come from the first fitting records of the whole sequence. */
  lemma OwnedEdgeOfLift(db: Store, parent: Company, shs: seq<Shareholder>, acc: seq<Edge>, next: seq<Edge>, r: seq<Edge>)
    requires |shs| > 0 && acc <= next <= r && |next| <= |acc| + 1
    requires |next| == |acc| + 1 ==> OwningRecord(db, shs[0], parent) && next[|acc|] == Edge(OwnedBy(db.companies, shs[0]).value, shs[0].ownership)
    requires OwningRecord(db, shs[0], parent) ==> HasId(next, OwnedBy(db.companies, shs[0]).value.id)
    requires forall i :: |next| <= i < |r| ==> !HasId(r[..i], r[i].company.id)
    requires forall i :: |next| <= i < |r| ==> OwnedEdgeOf(db, parent, shs[1..], r[i])
    ensures forall i :: |acc| <= i < |r| ==> OwnedEdgeOf(db, parent, shs, r[i])
  {
    forall i | |acc| <= i < |r| ensures OwnedEdgeOf(db, parent, shs, r[i]) {
      if i < |next| {
        assert r[i] == next[i];
      } else {
        if OwningRecordFor(db, shs[0], parent, r[i].company.id) {
          assert next <= r[..i];
          HasIdExtends(next, r[..i], r[i].company.id);
          assert false;
        }
        OwnedEdgeOfTail(db, parent, shs, r[i]);
      }
    }
  }

  /** The shareholder branch: each record naming `parent` adds the first active
      company with its Code, unless that is the parent itself, is already
      listed by ID, or the record's ownership is not positive. */
  function HeldEdges(db: Store, parent: Company, shs: seq<Shareholder>, acc: seq<Edge>): (r: seq<Edge>)
    ensures acc <= r
    ensures forall i :: |acc| <= i < |r| ==>
              r[i].company in db.companies && IsActive(r[i].company) && r[i].ownership > 0.0 &&
              r[i].company.id != parent.id && !HasId(r[..i], r[i].company.id)
    ensures forall k :: 0 <= k < |shs| && OwningRecord(db, shs[k], parent) ==>
              HasId(r, OwnedBy(db.companies, shs[k]).value.id)
    decreases |shs|
  {
    if |shs| == 0 then acc
    else
      var sh := shs[0];
      var next := if AddsOwned(db, parent, sh, acc) then acc + [Edge(OwnedBy(db.companies, sh).value, sh.ownership)] else acc;
      var r := HeldEdges(db, parent, shs[1..], next);
      assert OwningRecord(db, sh, parent) ==> HasId(r, OwnedBy(db.companies, sh).value.id) by {
        if OwningRecord(db, sh, parent) {
          var id := OwnedBy(db.companies, sh).value.id;
          if AddsOwned(db, parent, sh, acc) {
            assert next[|acc|].company.id == id;
          }
          HasIdExtends(next, r, id);
        }
      }
      PrefixSlices(next, r);
      r
  }

  /** Every edge the shareholder branch adds comes from the first record
      naming the parent that leads to its company's ID. */
  lemma {:induction false} HeldEdgesFromRecords(db: Store, parent: Company, shs: seq<Shareholder>, acc: seq<Edge>)
    ensures forall i :: |acc| <= i < |HeldEdges(db, parent, shs, acc)| ==>
              OwnedEdgeOf(db, parent, shs, HeldEdges(db, parent, shs, acc)[i])
    decreases |shs|
  {
    if |shs| > 0 {
      var sh := shs[0];
      var next := if AddsOwned(db, parent, sh, acc) then acc + [Edge(OwnedBy(db.companies, sh).value, sh.ownership)] else acc;
      HeldEdgesFromRecords(db, parent, shs[1..], next);
      assert HeldEdges(db, parent, shs, acc) == HeldEdges(db, parent, shs[1..], next);
      if OwningRecord(db, sh, parent) && !AddsOwned(db, parent, sh, acc) {
        HasIdExtends(acc, next, OwnedBy(db.companies, sh).value.id);
      } else if AddsOwned(db, parent, sh, acc) {
        assert next[|acc|].company.id == OwnedBy(db.companies, sh).value.id;
      }
      OwnedEdgeOfLift(db, parent, shs, acc, next, HeldEdges(db, parent, shs, acc));
    }
  }

  /** An ID listed in a prefix is listed in the whole. */
  lemma HasIdExtends(a: seq<Edge>, b: seq<Edge>, id: int)
    requires a <= b && HasId(a, id)
    ensures HasId(b, id)
  {
    var i :| 0 <= i < |a| && a[i].company.id == id;
    assert b[i] == a[i];
  }

  /** The slices of a sequence up to a point inside its prefix are the prefix's. */
  lemma PrefixSlices<T>(a: seq<T>, b: seq<T>)
    requires a <= b
    ensures forall i :: 0 <= i <= |a| ==> b[..i] == a[..i]
  {
  }

  /** `getOwnedCompanies(parent)`: the `ParentID` children first, then the
      companies reached through shareholder records naming the parent. */
  function OwnedCompanies(db: Store, parent: Company): (r: seq<Edge>)
    ensures ChildEdges(db, parent, db.companies) <= r
    ensures forall i :: 0 <= i < |r| ==> r[i].company in db.companies && IsActive(r[i].company) && r[i].ownership > 0.0
    ensures forall i :: |ChildEdges(db, parent, db.companies)| <= i < |r| ==> r[i].company.id != parent.id
    ensures forall i :: |ChildEdges(db, parent, db.companies)| <= i < |r| ==> !HasId(r[..i], r[i].company.id)
    ensures forall i :: |ChildEdges(db, parent, db.companies)| <= i < |r| ==> OwnedEdgeOf(db, parent, db.shareholders, r[i])
  {
    HeldEdgesFromRecords(db, parent, db.shareholders, ChildEdges(db, parent, db.companies));
    HeldEdges(db, parent, db.shareholders, ChildEdges(db, parent, db.companies))
  }

  /** Every shareholder record naming the parent with positive ownership, whose
      Code leads to an active company other than the parent, yields an edge to
      a company with that ID; every `ParentID` child with a positive rate is an edge. */
  lemma OwnedCompaniesComplete(db: Store, parent: Company)
    ensures forall k :: 0 <= k < |db.shareholders| && OwningRecord(db, db.shareholders[k], parent) ==>
              HasId(OwnedCompanies(db, parent), OwnedBy(db.companies, db.shareholders[k]).value.id)
    ensures forall i :: 0 <= i < |db.companies| && IsIdChild(parent, db.companies[i]) ==>
              var o := OwnershipRate(db, parent.id, db.companies[i].id);
              o > 0.0 ==> Edge(db.companies[i], o) in OwnedCompanies(db, parent)
  {
    PrefixKeeps(ChildEdges(db, parent, db.companies), OwnedCompanies(db, parent));
  }

  /** Distinct `ParentID` children have distinct IDs when the table's IDs are unique. */
  predicate TableIdsUnique(cs: seq<Company>) {
    forall i, j :: 0 <= i < j < |cs| ==> cs[i].id != cs[j].id
  }

  /** With unique table IDs a company of the table is fixed by its ID. */
  lemma SameId(cs: seq<Company>, a: Company, b: Company)
    requires TableIdsUnique(cs) && a in cs && b in cs && a.id == b.id
    ensures a == b
  {
    var i :| 0 <= i < |cs| && cs[i] == a;
    var j :| 0 <= j < |cs| && cs[j] == b;
    assert !(i < j) && !(j < i);
  }

  /** `ChildEdges` keeps table order, so its edges' IDs are unique with the table's. */
  lemma {:induction false} ChildEdgesUnique(db: Store, parent: Company, cs: seq<Company>)
    requires TableIdsUnique(cs)
    ensures UniqueIds(ChildEdges(db, parent, cs))
  {
    if |cs| > 0 {
      TableIdsUniqueTail(cs);
      ChildEdgesUnique(db, parent, cs[1..]);
      var rest := ChildEdges(db, parent, cs[1..]);
      ChildEdgesAvoidHead(db, parent, cs);
      var o := OwnershipRate(db, parent.id, cs[0].id);
      UniqueIdsCons(Edge(cs[0], o), rest, IsIdChild(parent, cs[0]) && o > 0.0);
    }
  }

  lemma TableIdsUniqueTail(cs: seq<Company>)
    requires |cs| > 0 && TableIdsUnique(cs)
    ensures TableIdsUnique(cs[1..])
  {
    forall i, j | 0 <= i < j < |cs| - 1 ensures cs[1..][i].id != cs[1..][j].id {
      assert cs[1..][i] == cs[i + 1] && cs[1..][j] == cs[j + 1];
    }
  }

  /** With unique table IDs, the later rows' edges avoid the first row's ID. */
  lemma ChildEdgesAvoidHead(db: Store, parent: Company, cs: seq<Company>)
    requires |cs| > 0 && TableIdsUnique(cs)
    ensures forall i :: 0 <= i < |ChildEdges(db, parent, cs[1..])| ==> ChildEdges(db, parent, cs[1..])[i].company.id != cs[0].id
  {
    var rest := ChildEdges(db, parent, cs[1..]);
    forall i | 0 <= i < |rest| ensures rest[i].company.id != cs[0].id {
      var k :| 0 <= k < |cs[1..]| && cs[1..][k] == rest[i].company;
      assert cs[k + 1] == rest[i].company;
    }
  }

  /** Putting an edge whose ID none of `rest` has in front (or not) keeps the IDs unique. */
  lemma UniqueIdsCons(e: Edge, rest: seq<Edge>, put: bool)
    requires UniqueIds(rest)
    requires forall i :: 0 <= i < |rest| ==> rest[i].company.id != e.company.id
    ensures UniqueIds((if put then [e] else []) + rest)
  {
    var r := (if put then [e] else []) + rest;
    if put {
      forall i, j | 0 <= i < j < |r| ensures r[i].company.id != r[j].company.id {
        assert r[j] == rest[j - 1];
        if i > 0 {
          assert r[i] == rest[i - 1];
        }
      }
    } else {
      assert r == rest;
    }
  }

  /** The shareholder branch never repeats an ID already listed, so with unique
      table IDs `getOwnedCompanies` lists every company at most once. */
  lemma OwnedCompaniesUnique(db: Store, parent: Company)
    requires TableIdsUnique(db.companies)
    ensures UniqueIds(OwnedCompanies(db, parent))
  {
    var ce := ChildEdges(db, parent, db.companies);
    var r := OwnedCompanies(db, parent);
    ChildEdgesUnique(db, parent, db.companies);
    forall i, j | 0 <= i < j < |r| ensures r[i].company.id != r[j].company.id {
      if j < |ce| {
        assert r[i] == ce[i] && r[j] == ce[j];
      } else {
        assert !HasId(r[..j], r[j].company.id);
        assert r[..j][i] == r[i];
      }
    }
  }

  /* ---------------------------------------------------------------- */
  /* Upwards: getParentCompanies of App.js                             */
  /* ---------------------------------------------------------------- */

  /** `c` is the company at the first index of `cs` that is active and carries `id`. */
  predicate FirstActive(cs: seq<Company>, id: int, c: Company) {
    exists k :: 0 <= k < |cs| && cs[k] == c && c.id == id && IsActive(c) &&
      forall j :: 0 <= j < k ==> !(cs[j].id == id && IsActive(cs[j]))
  }

  /** The first active company with the given ID. */
  function ActiveById(cs: seq<Company>, id: int): (r: Option<Company>)
    ensures r.None? <==> forall i :: 0 <= i < |cs| ==> !(cs[i].id == id && IsActive(cs[i]))
    ensures r.Some? ==> r.value in cs && r.value.id == id && IsActive(r.value)
    ensures r.Some? ==> FirstActive(cs, id, r.value)
  {
    if |cs| == 0 then None
    else if cs[0].id == id && IsActive(cs[0]) then Some(cs[0])
    else
      var r := ActiveById(cs[1..], id);
      if r.Some? then FirstActiveTail(cs, id, r.value); r else r
  }

  lemma FirstActiveTail(cs: seq<Company>, id: int, c: Company)
    requires |cs| > 0 && !(cs[0].id == id && IsActive(cs[0])) && FirstActive(cs[1..], id, c)
    ensures FirstActive(cs, id, c)
  {
    var k :| 0 <= k < |cs[1..]| && cs[1..][k] == c && c.id == id && IsActive(c) &&
      forall j :: 0 <= j < k ==> !(cs[1..][j].id == id && IsActive(cs[1..][j]));
    assert cs[k + 1] == c;
    forall j | 0 < j < k + 1 ensures !(cs[j].id == id && IsActive(cs[j])) {
      assert cs[j] == cs[1..][j - 1];
    }
  }

  /** The `ParentID` branch: the active parent by ID, if its rate is at least 50. */
  function IdParentEdges(db: Store, child: Company): (r: seq<Edge>)
    ensures |r| <= 1
    ensures |r| == 1 <==>
              child.parentId != 0 && ActiveById(db.companies, child.parentId).Some? &&
              OwnershipRate(db, child.parentId, child.id) >= 50.0
    ensures |r| == 1 ==>
              r[0].company == ActiveById(db.companies, child.parentId).value &&
              r[0].ownership == OwnershipRate(db, child.parentId, child.id)
  {
    if child.parentId != 0 then
      match ActiveById(db.companies, child.parentId)
      case Some(p) =>
        var o := OwnershipRate(db, p.id, child.id);
        if o >= 50.0 then [Edge(p, o)] else []
      case None => []
    else []
  }

  /** The holder a record names: the first active company, other than the
      child, whose Name or Code is the record's PersonaOrg. */
  function HolderOf(cs: seq<Company>, sh: Shareholder, child: Company): (r: Option<Company>)
    ensures r.None? <==> forall i :: 0 <= i < |cs| ==>
      !((cs[i].name == sh.personaOrg || cs[i].code == sh.personaOrg) && IsActive(cs[i]) && cs[i].id != child.id)
    ensures r.Some? ==> r.value in cs && NamesHolder(sh, r.value) && IsActive(r.value) && r.value.id != child.id
  {
    if |cs| == 0 then None
    else if (cs[0].name == sh.personaOrg || cs[0].code == sh.personaOrg) && IsActive(cs[0]) && cs[0].id != child.id
    then Some(cs[0])
    else HolderOf(cs[1..], sh, child)
  }

  /** A record of the child's Code with at least 50% names a holder. */
  predicate ControlRecord(db: Store, sh: Shareholder, child: Company) {
    sh.code == child.code && sh.ownership >= 50.0 && HolderOf(db.companies, sh, child).Some?
  }

  /** The record controls `child` and names the holder with this ID. */
  predicate ControlRecordFor(db: Store, sh: Shareholder, child: Company, id: int) {
    ControlRecord(db, sh, child) && HolderOf(db.companies, sh, child).value.id == id
  }

  /** The edge is the one the first controlling record of `shs` naming its
      holder's ID gives for `child`: to the record's holder, at that record's
      ownership. Later records for the same holder are skipped. */
  predicate ControlEdgeOf(db: Store, child: Company, shs: seq<Shareholder>, e: Edge) {
    exists k :: 0 <= k < |shs| && ControlRecord(db, shs[k], child) &&
      e == Edge(HolderOf(db.companies, shs[k], child).value, shs[k].ownership) &&
      forall j :: 0 <= j < k ==> !ControlRecordFor(db, shs[j], child, e.company.id)
  }

  lemma ControlEdgeOfTail(db: Store, child: Company, shs: seq<Shareholder>, e: Edge)
    requires |shs| > 0 && ControlEdgeOf(db, child, shs[1..], e)
    requires !ControlRecordFor(db, shs[0], child, e.company.id)
    ensures ControlEdgeOf(db, child, shs, e)
  {
    var k :| 0 <= k < |shs[1..]| && ControlRecord(db, shs[1..][k], child) &&
      e == Edge(HolderOf(db.companies, shs[1..][k], child).value, shs[1..][k].ownership) &&
      forall j :: 0 <= j < k ==> !ControlRecordFor(db, shs[1..][j], child, e.company.id);
    assert shs[k + 1] == shs[1..][k];
    forall j | 0 < j < k + 1 ensures !ControlRecordFor(db, shs[j], child, e.company.id) {
      assert shs[j] == shs[1..][j - 1];
    }
  }

  /** The edges one step adds, and those the rest of the records add, all
      come from the first fitting records of the whole sequence. */
  lemma ControlEdgeOfLift(db: Store, child: Company, shs: seq<Shareholder>, acc: seq<Edge>, next: seq<Edge>, r: seq<Edge>)
    requires |shs| > 0 && acc <= next <= r && |next| <= |acc| + 1
    requires |next| == |acc| + 1 ==> ControlRecord(db, shs[0], child) && next[|acc|] == Edge(HolderOf(db.companies, shs[0], child).value, shs[0].ownership)
    requires ControlRecord(db, shs[0], child) ==> HasId(next, HolderOf(db.companies, shs[0], child).value.id)
    requires forall i :: |next| <= i < |r| ==> !HasId(r[..i], r[i].company.id)
    requires forall i :: |next| <= i < |r| ==> ControlEdgeOf(db, child, shs[1..], r[i])
    ensures forall i :: |acc| <= i < |r| ==> ControlEdgeOf(db, child, shs, r[i])
  {
    forall i | |acc| <= i < |r| ensures ControlEdgeOf(db, child, shs, r[i]) {
      if i < |next| {
        assert r[i] == next[i];
      } else {
        if ControlRecordFor(db, shs[0], child, r[i].company.id) {
          assert next <= r[..i];
          HasIdExtends(next, r[..i], r[i].company.id);
          assert false;
        }
        ControlEdgeOfTail(db, child, shs, r[i]);
      }
    }
  }

  /** The first record's holder and the other records' holders listed means
      every record's holder is listed. */
  lemma ControlRecordsListed(db: Store, child: Company, shs: seq<Shareholder>, r: seq<Edge>)
    requires |shs| > 0
    requires ControlRecord(db, shs[0], child) ==> HasId(r, HolderOf(db.companies, shs[0], child).value.id)
    requires forall k :: 0 <= k < |shs[1..]| && ControlRecord(db, shs[1..][k], child) ==>
               HasId(r, HolderOf(db.companies, shs[1..][k], child).value.id)
    ensures forall k :: 0 <= k < |shs| && ControlRecord(db, shs[k], child) ==>
              HasId(r, HolderOf(db.companies, shs[k], child).value.id)
  {
    forall k | 1 <= k < |shs| ensures shs[k] == shs[1..][k - 1] {
    }
  }

  /** The shareholder branch upwards: each controlling record adds its holder
      unless a parent with that ID is already listed. */
  function HolderEdges(db: Store, child: Company, shs: seq<Shareholder>, acc: seq<Edge>): (r: seq<Edge>)
    ensures acc <= r
    ensures forall i :: |acc| <= i < |r| ==>
              r[i].company in db.companies && IsActive(r[i].company) && r[i].ownership >= 50.0 &&
              r[i].company.id != child.id && !HasId(r[..i], r[i].company.id)
    ensures forall k :: 0 <= k < |shs| && ControlRecord(db, shs[k], child) ==>
              HasId(r, HolderOf(db.companies, shs[k], child).value.id)
    decreases |shs|
  {
    if |shs| == 0 then acc
    else
      var sh := shs[0];
      var adds := ControlRecord(db, sh, child) && !HasId(acc, HolderOf(db.companies, sh, child).value.id);
      var next := if adds then acc + [Edge(HolderOf(db.companies, sh, child).value, sh.ownership)] else acc;
      var r := HolderEdges(db, child, shs[1..], next);
      assert ControlRecord(db, sh, child) ==> HasId(r, HolderOf(db.companies, sh, child).value.id) by {
        if ControlRecord(db, sh, child) {
          var id := HolderOf(db.companies, sh, child).value.id;
          if adds {
            assert next[|acc|].company.id == id;
          }
          HasIdExtends(next, r, id);
        }
      }
      ControlRecordsListed(db, child, shs, r);
      PrefixSlices(next, r);
      r
  }

  /** Every holder the upward shareholder branch adds comes from the first
      controlling record naming that holder's ID. */
  lemma {:induction false} HolderEdgesFromRecords(db: Store, child: Company, shs: seq<Shareholder>, acc: seq<Edge>)
    ensures forall i :: |acc| <= i < |HolderEdges(db, child, shs, acc)| ==>
              ControlEdgeOf(db, child, shs, HolderEdges(db, child, shs, acc)[i])
    decreases |shs|
  {
    if |shs| > 0 {
      var sh := shs[0];
      var adds := ControlRecord(db, sh, child) && !HasId(acc, HolderOf(db.companies, sh, child).value.id);
      var next := if adds then acc + [Edge(HolderOf(db.companies, sh, child).value, sh.ownership)] else acc;
      var r := HolderEdges(db, child, shs[1..], next);
      assert HolderEdges(db, child, shs, acc) == r;
      HolderEdgesFromRecords(db, child, shs[1..], next);
      if ControlRecord(db, sh, child) && !adds {
        HasIdExtends(acc, next, HolderOf(db.companies, sh, child).value.id);
      } else if adds {
        assert next[|acc|].company.id == HolderOf(db.companies, sh, child).value.id;
      }
      ControlEdgeOfLift(db, child, shs, acc, next, r);
    } else {
      assert HolderEdges(db, child, shs, acc) == acc;
    }
  }

  /** `getParentCompanies(child)` of App.js: the controlling `ParentID` parent,
      then the controlling holders named in shareholder records. */
  function ParentCompanies(db: Store, child: Company): (r: seq<Edge>)
    ensures IdParentEdges(db, child) <= r
    ensures forall i :: 0 <= i < |r| ==> r[i].company in db.companies && IsActive(r[i].company) && r[i].ownership >= 50.0
    ensures forall i :: |IdParentEdges(db, child)| <= i < |r| ==> r[i].company.id != child.id
    ensures forall i :: |IdParentEdges(db, child)| <= i < |r| ==> ControlEdgeOf(db, child, db.shareholders, r[i])
    ensures UniqueIds(r)
  {
    var first := IdParentEdges(db, child);
    var r := HolderEdges(db, child, db.shareholders, first);
    HolderEdgesFromRecords(db, child, db.shareholders, first);
    assert UniqueIds(r) by {
      forall i, j | 0 <= i < j < |r| ensures r[i].company.id != r[j].company.id {
        assert j >= |first|;
        assert !HasId(r[..j], r[j].company.id);
        assert r[..j][i] == r[i];
      }
    }
    r
  }

  /** Every controlling record on the child's Code contributes its holder's ID. */
  lemma ParentCompaniesComplete(db: Store, child: Company)
    ensures forall k :: 0 <= k < |db.shareholders| && ControlRecord(db, db.shareholders[k], child) ==>
              HasId(ParentCompanies(db, child), HolderOf(db.companies, db.shareholders[k], child).value.id)
  {
  }
}
