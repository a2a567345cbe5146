/** The record tabs of the company detail view: the company's shareholders
    with their active flag, its officers, its business-registration history
    and its business locations. Today's date is a parameter. */
module Listings {
  import opened Base
  import opened Records
  import opened Sorting
  import opened Fields
  import opened Calendar

  /* ---------------------------------------------------------------- */
  /* Shareholders and officers                                         */
  /* ---------------------------------------------------------------- */

  /** `isShareholderActive`: a record without an end date (absent or empty) is
      active; otherwise it is active up to and including the day `new Date`
      makes of its end date, and an end date that does not read as a date
      makes it inactive. */
  function IsShareholderActive(sh: Shareholder, today: Day): (r: bool)
    ensures sh.to.None? || sh.to == Some("") ==> r
    ensures r && sh.to.Some? && sh.to.value != "" ==> ParseIsoDay(sh.to.value).Some?
  {
    match sh.to
    case None => true
    case Some(t) =>
      if t == "" then true
      else
        match ParseIsoDay(t)
        case None => false
        case Some(end) => DayLe(today, Rollover(end))
  }

  /** A record ending on a day written as the migration writes it is active
      exactly up to the day `new Date` reads from it: that day itself when it
      is a real calendar day, the rolled-over day otherwise. */
  lemma ActiveThroughEndDate(sh: Shareholder, end: Day, today: Day)
    requires InRange(end) && 1000 <= end.year <= 9999
    requires sh.to == Some(IsoDate(end.year, end.month, end.day))
    ensures IsShareholderActive(sh, today) <==> DayLe(today, Rollover(end))
    ensures IsCalendarDay(end) ==> (IsShareholderActive(sh, today) <==> DayLe(today, end))
  {
    IsoDayRoundTrip(end);
  }

  /** The end date `parseDate` writes for `31-Apr-21` stands for the 1st of
      May: the holding is still active on that day and no longer on the 2nd. */
  lemma EndPastMonthRollsOver(sh: Shareholder)
    requires sh.to == Some("2021-04-31")
    ensures IsShareholderActive(sh, Day(2021, 5, 1))
    ensures !IsShareholderActive(sh, Day(2021, 5, 2))
  {
    AprilThirtyFirst();
  }

  /** A shareholder row of the tab with its active flag. */
  datatype ShareholderRow = ShareholderRow(holder: Shareholder, active: bool)

  /** Larger ownership first (`b.Ownership - a.Ownership`). */
  predicate OwnershipFirst(a: ShareholderRow, b: ShareholderRow) {
    a.holder.ownership >= b.holder.ownership
  }

  lemma OwnershipFirstOrder()
    ensures TotalPreorder(OwnershipFirst)
  {
  }

  /** Each record with its active flag for `today`. */
  function Annotate(shs: seq<Shareholder>, today: Day): (r: seq<ShareholderRow>)
    ensures |r| == |shs|
    ensures forall i :: 0 <= i < |r| ==> r[i] == ShareholderRow(shs[i], IsShareholderActive(shs[i], today))
  {
    if |shs| == 0 then [] else [ShareholderRow(shs[0], IsShareholderActive(shs[0], today))] + Annotate(shs[1..], today)
  }

  /** Annotation pairs each record with its flag: a row occurs as often as its
      record does when the flag is right, and not at all otherwise. */
  lemma {:induction false} AnnotateCount(shs: seq<Shareholder>, today: Day)
    ensures forall row :: multiset(Annotate(shs, today))[row] ==
              if row.active == IsShareholderActive(row.holder, today) then multiset(shs)[row.holder] else 0
  {
    if |shs| > 0 {
      AnnotateCount(shs[1..], today);
      assert shs == [shs[0]] + shs[1..];
      assert multiset(shs) == multiset{shs[0]} + multiset(shs[1..]);
      var h := ShareholderRow(shs[0], IsShareholderActive(shs[0], today));
      assert Annotate(shs, today) == [h] + Annotate(shs[1..], today);
      assert multiset(Annotate(shs, today)) == multiset{h} + multiset(Annotate(shs[1..], today));
    }
  }

  /** The records of `shs` holding shares in the company with code `code`. */
  function RecordsOf(shs: seq<Shareholder>, code: string): (r: seq<Shareholder>)
    ensures forall sh :: sh in r <==> sh in shs && sh.code == code
  {
    Filter(shs, (sh: Shareholder) => sh.code == code)
  }

  /** `shareholders` of the detail view: none for a company without a Code;
      otherwise every record with the company's Code, flagged active or not
      for `today`, largest ownership first. */
  function CompanyShareholders(db: Store, c: Company, today: Day): (r: seq<ShareholderRow>)
    ensures c.code == "" ==> r == []
    ensures SortedBy(r, OwnershipFirst)
    ensures forall row :: row in r ==> row.active == IsShareholderActive(row.holder, today)
    ensures forall sh :: (exists row :: row in r && row.holder == sh) <==>
              c.code != "" && sh in db.shareholders && sh.code == c.code
    ensures forall row :: multiset(r)[row] ==
              if c.code != "" && row.holder.code == c.code && row.active == IsShareholderActive(row.holder, today)
              then multiset(db.shareholders)[row.holder] else 0
  {
    if c.code == "" then []
    else
      var rows := Annotate(RecordsOf(db.shareholders, c.code), today);
      OwnershipFirstOrder();
      var r := SortBy(rows, OwnershipFirst);
      CodeRowsCount(db.shareholders, c.code, today);
      assert multiset(r) == multiset(rows);
      CountedHolders(r, db.shareholders, c.code, today);
      r
  }

  /** The annotated records of one Code, counted: a row occurs as often as
      its record when the record has the Code and the flag is right. */
  lemma CodeRowsCount(shs: seq<Shareholder>, code: string, today: Day)
    ensures forall row :: multiset(Annotate(RecordsOf(shs, code), today))[row] ==
              if row.holder.code == code && row.active == IsShareholderActive(row.holder, today)
              then multiset(shs)[row.holder] else 0
  {
    FilterCount(shs, (sh: Shareholder) => sh.code == code);
    AnnotateCount(RecordsOf(shs, code), today);
  }

  /** Rows counted as the records of one Code name exactly those records,
      each with its flag. */
  lemma CountedHolders(r: seq<ShareholderRow>, shs: seq<Shareholder>, code: string, today: Day)
    requires forall row :: multiset(r)[row] ==
               if row.holder.code == code && row.active == IsShareholderActive(row.holder, today)
               then multiset(shs)[row.holder] else 0
    ensures forall row :: row in r ==> row.active == IsShareholderActive(row.holder, today)
    ensures forall sh :: (exists row :: row in r && row.holder == sh) <==> sh in shs && sh.code == code
  {
    forall row | row in r ensures row.active == IsShareholderActive(row.holder, today) && row.holder in shs && row.holder.code == code {
      assert multiset(r)[row] > 0;
    }
    forall sh | sh in shs && sh.code == code ensures exists row :: row in r && row.holder == sh {
      var row := ShareholderRow(sh, IsShareholderActive(sh, today));
      assert multiset(r)[row] == multiset(shs)[sh] > 0;
      assert row in r;
    }
  }

  /** `companyMembers`: none for a company without a Code; otherwise the
      officers with the company's Code, in table order. */
  function CompanyMembers(db: Store, c: Company): (r: seq<Member>)
    ensures forall m :: m in r <==> c.code != "" && m in db.members && m.code == c.code
    ensures forall m :: multiset(r)[m] == if c.code != "" && m.code == c.code then multiset(db.members)[m] else 0
    ensures |r| <= |db.members|
  {
    if c.code == "" then []
    else
      var r := Filter(db.members, (m: Member) => m.code == c.code);
      FilterCount(db.members, (m: Member) => m.code == c.code);
      r
  }

  /** The officer tab keeps table order: the officers among the first `k`
      rows of the table come before those among the rest. */
  lemma CompanyMembersInOrder(db: Store, c: Company, k: nat)
    requires k <= |db.members|
    ensures CompanyMembers(db, c) ==
      CompanyMembers(db.(members := db.members[..k]), c) + CompanyMembers(db.(members := db.members[k..]), c)
  {
    if c.code != "" {
      assert db.members == db.members[..k] + db.members[k..];
      FilterAppend(db.members[..k], db.members[k..], (m: Member) => m.code == c.code);
    }
  }

  /* ---------------------------------------------------------------- */
  /* Business-registration history                                     */
  /* ---------------------------------------------------------------- */

  /** The `Loai` of the company's own registration, listed before branches and
      representative offices. */
  const COMPANY_KIND: string := "Công ty"

  /** The comparator of the registration tab as written: a different kind
      sorts first when it is the company's own, else last; the same kind
      sorts by amendment number. A negative result puts `a` first. */
  function RegistrationCompare(a: RegistrationRecord, b: RegistrationRecord): int {
    if a.loai != b.loai then (if a.loai == COMPANY_KIND then -1 else 1)
    else a.lan - b.lan
  }

  /** Two records of two different kinds, neither the company's own, each
      compare after the other, so the comparator is not consistent and the
      order the tab shows is left to the sort implementation. */
  lemma RegistrationCompareInconsistent()
    ensures var a := RegistrationRecord(1, "C1", 1, None, "", "", "Chi nhánh");
      var b := RegistrationRecord(2, "C1", 2, None, "", "", "VPĐD");
      RegistrationCompare(a, b) > 0 && RegistrationCompare(b, a) > 0
  {
  }

  /** 0 for the company's own registration, 1 for any other kind. */
  function KindRank(r: RegistrationRecord): (k: nat)
    ensures k == 0 <==> r.loai == COMPANY_KIND
  {
    if r.loai == COMPANY_KIND then 0 else 1
  }

  /** The order the comparator evidently means: the company's own
      registrations first, then by amendment number. */
  predicate RegistrationLe(a: RegistrationRecord, b: RegistrationRecord) {
    KindRank(a) < KindRank(b) || (KindRank(a) == KindRank(b) && a.lan <= b.lan)
  }

  lemma RegistrationLeOrder()
    ensures TotalPreorder(RegistrationLe)
  {
  }

  /** Where the comparator is consistent, when the two kinds are equal or one
      is the company's own, it agrees with the order. */
  lemma RegistrationCompareAgrees(a: RegistrationRecord, b: RegistrationRecord)
    requires a.loai == b.loai || a.loai == COMPANY_KIND || b.loai == COMPANY_KIND
    ensures RegistrationCompare(a, b) <= 0 <==> RegistrationLe(a, b)
  {
  }

  /** `lsdkkdRecords`: the registration records with the company's Code, the
      company's own first, then by amendment number. */
  function RegistrationHistory(records: seq<RegistrationRecord>, c: Company): (r: seq<RegistrationRecord>)
    ensures forall x :: x in r <==> x in records && x.code == c.code
    ensures forall x :: multiset(r)[x] == if x.code == c.code then multiset(records)[x] else 0
    ensures SortedBy(r, RegistrationLe)
  {
    var kept := Filter(records, (x: RegistrationRecord) => x.code == c.code);
    FilterCount(records, (x: RegistrationRecord) => x.code == c.code);
    RegistrationLeOrder();
    var r := SortBy(kept, RegistrationLe);
    assert forall x :: x in r <==> x in multiset(kept);
    r
  }

  /* ---------------------------------------------------------------- */
  /* Business locations                                                */
  /* ---------------------------------------------------------------- */

  /** The `Loai` of a branch, listed before other business locations. */
  const BRANCH_KIND: string := "Chi nhánh"

  /** `localeCompare` standing as code-point order: negative, zero or positive. */
  function TextCompare(a: string, b: string): (r: int)
    ensures r == 0 <==> a == b
    ensures r < 0 <==> TextLe(a, b) && a != b
  {
    if a == b then 0 else if TextLe(a, b) then -1 else 1
  }

  /** The comparator of the location tab as written: branches first, then
      operating locations first, then by name. */
  function LocationCompare(a: LocationRecord, b: LocationRecord): int {
    if a.loai != b.loai then (if a.loai == BRANCH_KIND then -1 else 1)
    else if a.tinhTrang != b.tinhTrang then (if a.tinhTrang == ACTIVE then -1 else 1)
    else TextCompare(a.tenDdkd, b.tenDdkd)
  }

  /** Two locations of the same kind with two different statuses, neither of
      them operating, each compare after the other. */
  lemma LocationCompareInconsistent()
    ensures var a := LocationRecord(1, "C1", "", "A", "", "", "", "", BRANCH_KIND, "Tạm ngừng");
      var b := LocationRecord(2, "C1", "", "B", "", "", "", "", BRANCH_KIND, "Đã đóng");
      LocationCompare(a, b) > 0 && LocationCompare(b, a) > 0
  {
  }

  /** 0 for a branch, 1 for any other kind. */
  function BranchRank(r: LocationRecord): (k: nat)
    ensures k == 0 <==> r.loai == BRANCH_KIND
  {
    if r.loai == BRANCH_KIND then 0 else 1
  }

  /** 0 for an operating location, 1 for any other status. */
  function StatusRank(r: LocationRecord): (k: nat)
    ensures k == 0 <==> r.tinhTrang == ACTIVE
  {
    if r.tinhTrang == ACTIVE then 0 else 1
  }

  /** The order the comparator evidently means: branches first, then
      operating locations, then by name. */
  predicate LocationLe(a: LocationRecord, b: LocationRecord) {
    BranchRank(a) < BranchRank(b) ||
    (BranchRank(a) == BranchRank(b) &&
     (StatusRank(a) < StatusRank(b) || (StatusRank(a) == StatusRank(b) && TextLe(a.tenDdkd, b.tenDdkd))))
  }

  lemma LocationLeOrder()
    ensures TotalPreorder(LocationLe)
  {
    forall a, b ensures LocationLe(a, b) || LocationLe(b, a) {
      TextLeTotal(a.tenDdkd, b.tenDdkd);
    }
    forall a, b, c | LocationLe(a, b) && LocationLe(b, c) ensures LocationLe(a, c) {
      if TextLe(a.tenDdkd, b.tenDdkd) && TextLe(b.tenDdkd, c.tenDdkd) {
        TextLeTrans(a.tenDdkd, b.tenDdkd, c.tenDdkd);
      }
    }
  }

  /** Where the comparator is consistent, when both kinds and both statuses
      are equal or one of each pair is the preferred value, it agrees with
      the order. */
  lemma LocationCompareAgrees(a: LocationRecord, b: LocationRecord)
    requires a.loai == b.loai || a.loai == BRANCH_KIND || b.loai == BRANCH_KIND
    requires a.tinhTrang == b.tinhTrang || a.tinhTrang == ACTIVE || b.tinhTrang == ACTIVE
    ensures LocationCompare(a, b) <= 0 <==> LocationLe(a, b)
  {
    TextLeTotal(a.tenDdkd, a.tenDdkd);
  }

  /** `ddkdRecords`: the locations with the company's Code, branches first,
      then operating ones, then by name. */
  function Locations(records: seq<LocationRecord>, c: Company): (r: seq<LocationRecord>)
    ensures forall x :: x in r <==> x in records && x.code == c.code
    ensures forall x :: multiset(r)[x] == if x.code == c.code then multiset(records)[x] else 0
    ensures SortedBy(r, LocationLe)
  {
    var kept := Filter(records, (x: LocationRecord) => x.code == c.code);
    FilterCount(records, (x: LocationRecord) => x.code == c.code);
    LocationLeOrder();
    var r := SortBy(kept, LocationLe);
    assert forall x :: x in r <==> x in multiset(kept);
    r
  }
}
