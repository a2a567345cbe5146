/** The related-parties tab of the company detail view: the subsidiaries as
    organisations and the officers of the company and of its subsidiaries as
    persons, gathered in five stages with duplicates dropped, then ordered. */
module RelatedParties {
  import opened Base
  import opened Records
  import opened Ownership
  import opened Sorting
  import opened Views
  import Listings
  import Reach

  /** `Type`: a company row or an officer row. */
  datatype PartyKind = Organisation | Person

  /** `Level`: whose row it is. */
  datatype Level = CurrentCompany | DirectSubsidiary | IndirectSubsidiary

  /** `MoiQuanHe`: the stake of a subsidiary, or the title of an officer. */
  datatype Relation = Stake(percent: real) | Role(title: string)

  /** One row. `subject` is the company the row is about (the subsidiary, or
      the officer's company); the row's `Code` and `CompanyName` are its code
      and name. */
  datatype Party = Party(subject: Company, name: string, kind: PartyKind, level: Level, relation: Relation, identity: string)

  /** A company's `Identity`: its tax code, or its Code when that is empty. */
  function Identity(c: Company): (r: string)
    ensures c.mst != "" ==> r == c.mst
    ensures c.mst == "" ==> r == c.code
  {
    if c.mst != "" then c.mst else c.code
  }

  function OrgParty(s: Company, ownership: real, level: Level): Party {
    Party(s, s.name, Organisation, level, Stake(ownership), Identity(s))
  }

  function PersonParty(s: Company, m: Member, level: Level): Party {
    Party(s, m.name, Person, level, Role(m.chucVu), m.cccd)
  }

  /** The text an officer row is de-duplicated by: Code, name and identity
      number joined by underscores. */
  function MemberKey(code: string, name: string, cccd: string): string {
    code + "_" + name + "_" + cccd
  }

  function KeyOf(p: Party): string {
    MemberKey(p.subject.code, p.name, p.identity)
  }

  /** The officers with Code `code`. */
  function MembersWithCode(ms: seq<Member>, code: string): (r: seq<Member>)
    ensures forall m :: m in r <==> m in ms && m.code == code
  {
    Filter(ms, (m: Member) => m.code == code)
  }

  /* ---------------------------------------------------------------- */
  /* The accumulator                                                   */
  /* ---------------------------------------------------------------- */

  /** The rows so far, the company IDs already listed and the officer keys
      already listed. */
  datatype Acc = Acc(parties: seq<Party>, companyIds: set<int>, memberKeys: set<string>)

  /** Two rows are not duplicates: two officer rows differ in key, and two
      company rows differ in ID unless the first has none. */
  predicate Apart(p: Party, q: Party) {
    (p.kind == Person && q.kind == Person ==> KeyOf(p) != KeyOf(q)) &&
    (p.kind == Organisation && q.kind == Organisation && (p.subject.id != 0 || q.subject.id != 0) ==> p.subject.id != q.subject.id)
  }

  lemma ApartSymmetric()
    ensures forall p, q :: Apart(p, q) == Apart(q, p)
  {
  }

  /** The processed sets are exactly the keys and IDs of the rows, and no two
      rows are duplicates. */
  predicate Good(acc: Acc) {
    (forall p :: p in acc.parties && p.kind == Person ==> KeyOf(p) in acc.memberKeys) &&
    (forall k :: k in acc.memberKeys ==> exists p :: p in acc.parties && p.kind == Person && KeyOf(p) == k) &&
    (forall p :: p in acc.parties && p.kind == Organisation ==> p.subject.id in acc.companyIds) &&
    (forall id :: id in acc.companyIds ==> exists p :: p in acc.parties && p.kind == Organisation && p.subject.id == id) &&
    PairwiseApart(acc.parties, Apart)
  }

  /** Appending an officer row whose key is new keeps the accumulator good. */
  lemma PushPerson(acc: Acc, p: Party)
    ensures Good(acc) && p.kind == Person && KeyOf(p) !in acc.memberKeys ==>
              Good(Acc(acc.parties + [p], acc.companyIds, acc.memberKeys + {KeyOf(p)}))
  {
    if Good(acc) && p.kind == Person && KeyOf(p) !in acc.memberKeys {
      var ps := acc.parties + [p];
      forall i, j | 0 <= i < j < |ps| ensures Apart(ps[i], ps[j]) {
        if j < |acc.parties| {
          assert Apart(acc.parties[i], acc.parties[j]);
        } else {
          assert ps[i] in acc.parties;
        }
      }
    }
  }

  /** Appending a company row whose ID is new, or absent and not yet used,
      keeps the accumulator good. */
  lemma PushOrg(acc: Acc, p: Party)
    ensures Good(acc) && p.kind == Organisation && (p.subject.id == 0 || p.subject.id !in acc.companyIds) ==>
              Good(Acc(acc.parties + [p], acc.companyIds + {p.subject.id}, acc.memberKeys))
  {
    if Good(acc) && p.kind == Organisation && (p.subject.id == 0 || p.subject.id !in acc.companyIds) {
      var ps := acc.parties + [p];
      forall i, j | 0 <= i < j < |ps| ensures Apart(ps[i], ps[j]) {
        if j < |acc.parties| {
          assert Apart(acc.parties[i], acc.parties[j]);
        } else {
          assert ps[i] in acc.parties;
        }
      }
    }
  }

  /* ---------------------------------------------------------------- */
  /* The five stages                                                   */
  /* ---------------------------------------------------------------- */

  /** A company row of a direct subsidiary. */
  predicate DirectOrgRow(direct: seq<Holding>, p: Party) {
    exists h :: h in direct && p == OrgParty(h.company, h.ownership, DirectSubsidiary)
  }

  /** A company row of an eligible equity row's company. */
  predicate IndirectOrgRow(equity: seq<Aggregate>, direct: seq<Holding>, cs: seq<Company>, p: Party) {
    exists a :: a in equity && Eligible(a, direct, cs) &&
      p == OrgParty(Resolved(a, direct, cs), a.ownership, IndirectSubsidiary)
  }

  /** Stage 1: each direct subsidiary with an ID not yet listed, as a company row. */
  function AddDirect(hs: seq<Holding>, acc: Acc): (r: Acc)
    ensures acc.parties <= r.parties && r.memberKeys == acc.memberKeys && acc.companyIds <= r.companyIds
    ensures Good(acc) ==> Good(r)
    ensures forall i :: |acc.parties| <= i < |r.parties| ==> DirectOrgRow(hs, r.parties[i])
    ensures forall h :: h in hs && h.company.id != 0 ==> h.company.id in r.companyIds
    decreases |hs|
  {
    if |hs| == 0 then acc
    else
      var h := hs[0];
      DirectOrgRowTail(hs);
      if h.company.id != 0 && h.company.id !in acc.companyIds then
        var p := OrgParty(h.company, h.ownership, DirectSubsidiary);
        PushOrg(acc, p);
        var r := AddDirect(hs[1..], Acc(acc.parties + [p], acc.companyIds + {h.company.id}, acc.memberKeys));
        assert r.parties[|acc.parties|] == p;
        assert DirectOrgRow(hs, p);
        r
      else
        AddDirect(hs[1..], acc)
  }

  /** A row sourced from the later holdings is sourced from all of them. */
  lemma DirectOrgRowTail(hs: seq<Holding>)
    requires |hs| > 0
    ensures forall p :: DirectOrgRow(hs[1..], p) ==> DirectOrgRow(hs, p)
  {
    forall p | DirectOrgRow(hs[1..], p) ensures DirectOrgRow(hs, p) {
      var h :| h in hs[1..] && p == OrgParty(h.company, h.ownership, DirectSubsidiary);
      assert h in hs;
    }
  }

  /** A row of the equity view that stage 2 and stage 5 take: held at 50% or
      more, not a direct subsidiary, and its ID names an active company with
      a Code. */
  predicate Eligible(a: Aggregate, direct: seq<Holding>, cs: seq<Company>) {
    a.ownership >= 50.0 &&
    (forall h :: h in direct ==> h.company.id != a.company.id) &&
    ActiveById(cs, a.company.id).Some? && ActiveById(cs, a.company.id).value.code != ""
  }

  /** The active company an eligible row's ID names. */
  function Resolved(a: Aggregate, direct: seq<Holding>, cs: seq<Company>): (s: Company)
    requires Eligible(a, direct, cs)
    ensures s in cs && s.id == a.company.id && IsActive(s) && s.code != ""
  {
    ActiveById(cs, a.company.id).value
  }

  /** Stage 2: each eligible equity row whose ID is not yet listed (a row
      without an ID is never found listed), as a company row. */
  function AddIndirectOrgs(rows: seq<Aggregate>, direct: seq<Holding>, cs: seq<Company>, acc: Acc): (r: Acc)
    ensures acc.parties <= r.parties && r.memberKeys == acc.memberKeys && acc.companyIds <= r.companyIds
    ensures Good(acc) ==> Good(r)
    ensures forall i :: |acc.parties| <= i < |r.parties| ==> IndirectOrgRow(rows, direct, cs, r.parties[i])
    ensures forall a :: a in rows && Eligible(a, direct, cs) ==> a.company.id in r.companyIds
    decreases |rows|
  {
    if |rows| == 0 then acc
    else
      var a := rows[0];
      IndirectOrgRowTail(rows, direct, cs);
      if Eligible(a, direct, cs) && (a.company.id == 0 || a.company.id !in acc.companyIds) then
        var p := OrgParty(Resolved(a, direct, cs), a.ownership, IndirectSubsidiary);
        var next := Acc(acc.parties + [p], acc.companyIds + {a.company.id}, acc.memberKeys);
        PushOrg(acc, p);
        var r := AddIndirectOrgs(rows[1..], direct, cs, next);
        assert r.parties[|acc.parties|] == p;
        assert IndirectOrgRow(rows, direct, cs, p);
        r
      else
        AddIndirectOrgs(rows[1..], direct, cs, acc)
  }

  /** A row sourced from the later equity rows is sourced from all of them. */
  lemma IndirectOrgRowTail(rows: seq<Aggregate>, direct: seq<Holding>, cs: seq<Company>)
    requires |rows| > 0
    ensures forall p :: IndirectOrgRow(rows[1..], direct, cs, p) ==> IndirectOrgRow(rows, direct, cs, p)
  {
    forall p | IndirectOrgRow(rows[1..], direct, cs, p) ensures IndirectOrgRow(rows, direct, cs, p) {
      var a :| a in rows[1..] && Eligible(a, direct, cs) &&
        p == OrgParty(Resolved(a, direct, cs), a.ownership, IndirectSubsidiary);
      assert a in rows;
    }
  }

  /** Adding the officers `ms` of company `s` at `level`, each whose key is
      not yet listed. */
  function AddMembersOf(s: Company, ms: seq<Member>, level: Level, acc: Acc): (r: Acc)
    ensures acc.parties <= r.parties && r.companyIds == acc.companyIds && acc.memberKeys <= r.memberKeys
    ensures Good(acc) ==> Good(r)
    ensures forall i :: |acc.parties| <= i < |r.parties| ==> exists m :: m in ms && r.parties[i] == PersonParty(s, m, level)
    ensures forall m :: m in ms ==> MemberKey(s.code, m.name, m.cccd) in r.memberKeys
    decreases |ms|
  {
    if |ms| == 0 then acc
    else
      var m := ms[0];
      var p := PersonParty(s, m, level);
      var next := if KeyOf(p) !in acc.memberKeys
                  then Acc(acc.parties + [p], acc.companyIds, acc.memberKeys + {KeyOf(p)}) else acc;
      PushPerson(acc, p);
      var r := AddMembersOf(s, ms[1..], level, next);
      assert forall i :: |acc.parties| <= i < |next.parties| ==> r.parties[i] == p;
      r
  }

  /** A row of stage 4: an officer of an active company whose `ParentID` is
      the root and which has a Code. */
  predicate ChildMemberRow(subs: seq<Company>, ms: seq<Member>, p: Party) {
    exists s, m :: s in subs && s.code != "" && m in ms && m.code == s.code && p == PersonParty(s, m, DirectSubsidiary)
  }

  /** Stage 4: the officers of every subsidiary in `subs` that has a Code. */
  function AddChildMembers(subs: seq<Company>, ms: seq<Member>, acc: Acc): (r: Acc)
    ensures acc.parties <= r.parties && r.companyIds == acc.companyIds && acc.memberKeys <= r.memberKeys
    ensures Good(acc) ==> Good(r)
    ensures forall i :: |acc.parties| <= i < |r.parties| ==> ChildMemberRow(subs, ms, r.parties[i])
    ensures forall s, m :: s in subs && s.code != "" && m in ms && m.code == s.code ==>
              MemberKey(s.code, m.name, m.cccd) in r.memberKeys
    decreases |subs|
  {
    if |subs| == 0 then acc
    else
      var s := subs[0];
      var next := if s.code != "" then AddMembersOf(s, MembersWithCode(ms, s.code), DirectSubsidiary, acc) else acc;
      var r := AddChildMembers(subs[1..], ms, next);
      assert forall i :: |acc.parties| <= i < |next.parties| ==> ChildMemberRow(subs, ms, r.parties[i]) by {
        forall i | |acc.parties| <= i < |next.parties| ensures ChildMemberRow(subs, ms, r.parties[i]) {
          var m :| m in MembersWithCode(ms, s.code) && next.parties[i] == PersonParty(s, m, DirectSubsidiary);
          assert r.parties[i] == next.parties[i];
        }
      }
      r
  }

  /** A row of stage 5: an officer of the company an eligible equity row names. */
  predicate IndirectMemberRow(rows: seq<Aggregate>, direct: seq<Holding>, cs: seq<Company>, ms: seq<Member>, p: Party) {
    exists a, m :: a in rows && Eligible(a, direct, cs) && m in ms && m.code == Resolved(a, direct, cs).code &&
      p == PersonParty(Resolved(a, direct, cs), m, IndirectSubsidiary)
  }

  /** Stage 5: the officers of the company each eligible equity row names. */
  function AddIndirectMembers(rows: seq<Aggregate>, direct: seq<Holding>, cs: seq<Company>, ms: seq<Member>, acc: Acc): (r: Acc)
    ensures acc.parties <= r.parties && r.companyIds == acc.companyIds && acc.memberKeys <= r.memberKeys
    ensures Good(acc) ==> Good(r)
    ensures forall i :: |acc.parties| <= i < |r.parties| ==> IndirectMemberRow(rows, direct, cs, ms, r.parties[i])
    ensures forall a, m :: a in rows && Eligible(a, direct, cs) && m in ms && m.code == Resolved(a, direct, cs).code ==>
              MemberKey(Resolved(a, direct, cs).code, m.name, m.cccd) in r.memberKeys
    decreases |rows|
  {
    if |rows| == 0 then acc
    else
      var a := rows[0];
      if !Eligible(a, direct, cs) then AddIndirectMembers(rows[1..], direct, cs, ms, acc)
      else
        var s := Resolved(a, direct, cs);
        var next := AddMembersOf(s, MembersWithCode(ms, s.code), IndirectSubsidiary, acc);
        var r := AddIndirectMembers(rows[1..], direct, cs, ms, next);
        assert forall i :: |acc.parties| <= i < |next.parties| ==> IndirectMemberRow(rows, direct, cs, ms, r.parties[i]) by {
          forall i | |acc.parties| <= i < |next.parties| ensures IndirectMemberRow(rows, direct, cs, ms, r.parties[i]) {
            var m :| m in MembersWithCode(ms, s.code) && next.parties[i] == PersonParty(s, m, IndirectSubsidiary);
            assert r.parties[i] == next.parties[i];
          }
        }
        r
  }

  /* ---------------------------------------------------------------- */
  /* Ordering and the tab                                              */
  /* ---------------------------------------------------------------- */

  /** `typeOrder`: company rows before officer rows. */
  function KindRank(k: PartyKind): nat {
    if k == Organisation then 1 else 2
  }

  /** `levelOrder`: the company itself, then direct, then indirect subsidiaries. */
  function LevelRank(l: Level): nat {
    match l
    case CurrentCompany => 1
    case DirectSubsidiary => 2
    case IndirectSubsidiary => 3
  }

  /** The tab's comparator: by kind, then by level, then by name. */
  predicate PartyLe(a: Party, b: Party) {
    KindRank(a.kind) < KindRank(b.kind) ||
    (KindRank(a.kind) == KindRank(b.kind) &&
     (LevelRank(a.level) < LevelRank(b.level) || (LevelRank(a.level) == LevelRank(b.level) && TextLe(a.name, b.name))))
  }

  lemma PartyLeOrder()
    ensures TotalPreorder(PartyLe)
  {
    forall a, b ensures PartyLe(a, b) || PartyLe(b, a) {
      TextLeTotal(a.name, b.name);
    }
    forall a, b, c | PartyLe(a, b) && PartyLe(b, c) ensures PartyLe(a, c) {
      if TextLe(a.name, b.name) && TextLe(b.name, c.name) {
        TextLeTrans(a.name, b.name, c.name);
      }
    }
  }

  const Empty: Acc := Acc([], {}, {})

  /** The five stages in order, from nothing. */
  function Collect(db: Store, root: Company, direct: seq<Holding>, equity: seq<Aggregate>): (r: Acc)
    ensures Good(r)
  {
    var a1 := AddDirect(direct, Empty);
    var a2 := AddIndirectOrgs(equity, direct, db.companies, a1);
    var a3 := AddMembersOf(root, Listings.CompanyMembers(db, root), CurrentCompany, a2);
    var a4 := AddChildMembers(Reach.IdChildren(db, root), db.members, a3);
    AddIndirectMembers(equity, direct, db.companies, db.members, a4)
  }

  /** `relatedParties` given the direct subsidiaries and the equity rows:
      none for a company without a Code; otherwise the collected rows, none
      duplicating another, in the tab's order. */
  function RelatedPartiesOf(db: Store, root: Company, direct: seq<Holding>, equity: seq<Aggregate>): (r: seq<Party>)
    ensures root.code == "" ==> r == []
    ensures SortedBy(r, PartyLe)
    ensures PairwiseApart(r, Apart)
    ensures forall p :: p in r <==> root.code != "" && p in Collect(db, root, direct, equity).parties
    ensures root.code != "" ==> multiset(r) == multiset(Collect(db, root, direct, equity).parties)
  {
    if root.code == "" then []
    else
      var ps := Collect(db, root, direct, equity).parties;
      PartyLeOrder();
      var r := SortBy(ps, PartyLe);
      ApartSymmetric();
      PairwiseApartReordered(ps, r, Apart);
      assert forall p :: p in r <==> p in multiset(ps);
      r
  }

  /** `relatedParties` of the detail view for `root` at `threshold`. */
  function Parties(db: Store, root: Company, threshold: real): seq<Party> {
    RelatedPartiesOf(db, root, DirectSubsidiaries(db, root, threshold), Equity(db, root, threshold))
  }

  /** Where a row may come from: a direct subsidiary; an eligible equity row's
      company; an officer of the company itself, of an active company whose
      `ParentID` is the root, or of an eligible equity row's company. */
  predicate Sourced(db: Store, root: Company, direct: seq<Holding>, equity: seq<Aggregate>, p: Party) {
    DirectOrgRow(direct, p) ||
    IndirectOrgRow(equity, direct, db.companies, p) ||
    OwnMemberRow(db, root, p) ||
    SubsidiaryMemberRow(db, root, p) ||
    IndirectMemberRow(equity, direct, db.companies, db.members, p)
  }

  /** An officer row of the company itself. */
  predicate OwnMemberRow(db: Store, root: Company, p: Party) {
    exists m :: m in db.members && m.code == root.code && p == PersonParty(root, m, CurrentCompany)
  }

  /** An officer row of an active company whose `ParentID` is the root. */
  predicate SubsidiaryMemberRow(db: Store, root: Company, p: Party) {
    exists s, m :: s in db.companies && IsIdChild(root, s) && s.code != "" && m in db.members && m.code == s.code &&
      p == PersonParty(s, m, DirectSubsidiary)
  }

  /** A row of the first two stages is a company row of a direct subsidiary
      or of an eligible equity row's company. */
  lemma OrgStagesSourced(direct: seq<Holding>, equity: seq<Aggregate>, cs: seq<Company>, k: nat)
    requires k < |AddIndirectOrgs(equity, direct, cs, AddDirect(direct, Empty)).parties|
    ensures var p := AddIndirectOrgs(equity, direct, cs, AddDirect(direct, Empty)).parties[k];
      DirectOrgRow(direct, p) || IndirectOrgRow(equity, direct, cs, p)
  {
    var a1 := AddDirect(direct, Empty);
    var a2 := AddIndirectOrgs(equity, direct, cs, a1);
    if k < |a1.parties| {
      assert a1.parties[k] == a2.parties[k];
      assert DirectOrgRow(direct, a2.parties[k]);
    } else {
      assert IndirectOrgRow(equity, direct, cs, a2.parties[k]);
    }
  }

  /** A row added by the third or fourth stage is an officer row of the
      company itself or of an active company whose `ParentID` is the root. */
  lemma MemberStagesSourced(db: Store, root: Company, a2: Acc, k: nat)
    requires |a2.parties| <= k
    requires k < |AddChildMembers(Reach.IdChildren(db, root), db.members,
                    AddMembersOf(root, Listings.CompanyMembers(db, root), CurrentCompany, a2)).parties|
    ensures var p := AddChildMembers(Reach.IdChildren(db, root), db.members,
                       AddMembersOf(root, Listings.CompanyMembers(db, root), CurrentCompany, a2)).parties[k];
      OwnMemberRow(db, root, p) || SubsidiaryMemberRow(db, root, p)
  {
    var a3 := AddMembersOf(root, Listings.CompanyMembers(db, root), CurrentCompany, a2);
    var a4 := AddChildMembers(Reach.IdChildren(db, root), db.members, a3);
    var p := a4.parties[k];
    if k < |a3.parties| {
      assert a3.parties[k] == p;
      assert OwnMemberRow(db, root, p) by {
        var m :| m in Listings.CompanyMembers(db, root) && p == PersonParty(root, m, CurrentCompany);
      }
    } else {
      assert SubsidiaryMemberRow(db, root, p) by {
        assert ChildMemberRow(Reach.IdChildren(db, root), db.members, p);
        var s, m :| s in Reach.IdChildren(db, root) && s.code != "" && m in db.members && m.code == s.code &&
          p == PersonParty(s, m, DirectSubsidiary);
      }
    }
  }

  /** The row at position `k` of the collected rows comes from its stage's source. */
  lemma SourcedAt(db: Store, root: Company, direct: seq<Holding>, equity: seq<Aggregate>, k: nat)
    requires k < |Collect(db, root, direct, equity).parties|
    ensures Sourced(db, root, direct, equity, Collect(db, root, direct, equity).parties[k])
  {
    var a2 := AddIndirectOrgs(equity, direct, db.companies, AddDirect(direct, Empty));
    var a4 := AddChildMembers(Reach.IdChildren(db, root), db.members,
                AddMembersOf(root, Listings.CompanyMembers(db, root), CurrentCompany, a2));
    var a5 := AddIndirectMembers(equity, direct, db.companies, db.members, a4);
    var p := a5.parties[k];
    if k < |a2.parties| {
      OrgStagesSourced(direct, equity, db.companies, k);
      assert a2.parties[k] == a4.parties[k] == p;
    } else if k < |a4.parties| {
      MemberStagesSourced(db, root, a2, k);
      assert a4.parties[k] == p;
    } else {
      assert IndirectMemberRow(equity, direct, db.companies, db.members, p);
    }
  }

  /** Every row of the tab comes from one of the five stages' sources. */
  lemma RelatedPartiesSound(db: Store, root: Company, direct: seq<Holding>, equity: seq<Aggregate>)
    ensures forall p :: p in RelatedPartiesOf(db, root, direct, equity) ==> Sourced(db, root, direct, equity, p)
  {
    var ps := Collect(db, root, direct, equity).parties;
    forall p | p in RelatedPartiesOf(db, root, direct, equity) ensures Sourced(db, root, direct, equity, p) {
      var k :| 0 <= k < |ps| && ps[k] == p;
      SourcedAt(db, root, direct, equity, k);
    }
  }

  /** Nothing a stage takes is missing: every direct subsidiary with an ID
      and every eligible equity row's company has a company row with its ID,
      and every officer of the company, of its active `ParentID` children with
      a Code and of the eligible equity rows' companies has an officer row
      with its key. */
  lemma RelatedPartiesComplete(db: Store, root: Company, direct: seq<Holding>, equity: seq<Aggregate>)
    requires root.code != ""
    ensures forall h :: h in direct && h.company.id != 0 ==>
              exists p :: p in RelatedPartiesOf(db, root, direct, equity) && p.kind == Organisation && p.subject.id == h.company.id
    ensures forall a :: a in equity && Eligible(a, direct, db.companies) ==>
              exists p :: p in RelatedPartiesOf(db, root, direct, equity) && p.kind == Organisation && p.subject.id == a.company.id
    ensures forall m :: m in db.members && m.code == root.code ==>
              exists p :: p in RelatedPartiesOf(db, root, direct, equity) && p.kind == Person &&
                KeyOf(p) == MemberKey(root.code, m.name, m.cccd)
    ensures forall s, m :: s in db.companies && IsIdChild(root, s) && s.code != "" && m in db.members && m.code == s.code ==>
              exists p :: p in RelatedPartiesOf(db, root, direct, equity) && p.kind == Person &&
                KeyOf(p) == MemberKey(s.code, m.name, m.cccd)
    ensures forall a, m ::
              a in equity && Eligible(a, direct, db.companies) && m in db.members && m.code == Resolved(a, direct, db.companies).code ==>
              exists p :: p in RelatedPartiesOf(db, root, direct, equity) && p.kind == Person &&
                KeyOf(p) == MemberKey(Resolved(a, direct, db.companies).code, m.name, m.cccd)
  {
    var a1 := AddDirect(direct, Empty);
    var a2 := AddIndirectOrgs(equity, direct, db.companies, a1);
    var a3 := AddMembersOf(root, Listings.CompanyMembers(db, root), CurrentCompany, a2);
    var a4 := AddChildMembers(Reach.IdChildren(db, root), db.members, a3);
    var a5 := AddIndirectMembers(equity, direct, db.companies, db.members, a4);
    assert a5 == Collect(db, root, direct, equity);
    assert Good(a5);
  }

  /** Two different officers whose names or codes hold an underscore can
      share a key, and the second is then dropped. */
  lemma MemberKeyCollision()
    ensures MemberKey("A_B", "C", "1") == MemberKey("A", "B_C", "1")
  {
  }
}
