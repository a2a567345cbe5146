/** The six migration scripts that turn the tab-separated export into the
    JSON tables: each locates its section, reads the data rows with the
    shared scanner and numbers the records it emits from 1. The scripts'
    `throw` becomes an error result; writing the JSON file is left out. */
module Migrations {
  import opened Base
  import opened Text
  import opened Fields
  import opened Records
  import opened Scanning

  /** Why a script stops: its section marker is absent, or the section marker
      is the last line, so reading the header line after it fails. */
  datatype Failure = SectionNotFound(message: string) | HeaderMissing

  /** The first data line of a section: the line after the marker, or the
      line after the header that follows the marker. */
  function DataStart(ls: seq<string>, isStart: string -> bool, headerNext: bool, missing: string): (r: Result<nat, Failure>)
    ensures r == Err(SectionNotFound(missing)) <==> forall i :: 0 <= i < |ls| ==> !isStart(Trim(ls[i]))
    ensures r == Err(HeaderMissing) <==> headerNext && FirstLine(ls, isStart) == |ls| - 1
    ensures r.Ok? ==> r.value <= |ls| && isStart(Trim(ls[FirstLine(ls, isStart)]))
    ensures r.Ok? ==> r.value == FirstLine(ls, isStart) + (if headerNext then 2 else 1)
  {
    var k := FirstLine(ls, isStart);
    if k == |ls| then Err(SectionNotFound(missing))
    else if headerNext && k + 1 == |ls| then Err(HeaderMissing)
    else Ok(k + (if headerNext then 2 else 1))
  }

  /* ---------------------------------------------------------------- */
  /* Shareholders keyed by company code                                */
  /* ---------------------------------------------------------------- */

  /** The marker of the shareholder section: exactly `Tab SharedHolders`, or
      any line whose lower-cased text contains `shareholders`. */
  predicate IsShareholderTab(t: string) {
    t == "Tab SharedHolders" || Contains(Lower(t), "shareholders")
  }

  /** The shareholder scans end at a line starting with `Tab` or a blank one. */
  predicate EndsAtTabOrBlank(t: string) {
    StartsWith(t, "Tab") || t == ""
  }

  /** The shareholder record of a row: columns 0 to 7, the ownership through
      `parseOwnership`, the dates through `parseDate`, and `Active` for an
      empty status. */
  function ShareholderOf(id: int, cols: seq<string>): (sh: Shareholder)
    ensures sh.id == id && sh.code == Col(cols, 0) && sh.personaOrg == Col(cols, 1)
    ensures sh.mstCccdHc == Col(cols, 2) && sh.loaiCd == Col(cols, 3)
    ensures sh.ownership == ParseOwnership(Col(cols, 4))
    ensures sh.from == ParseMonDate(Col(cols, 5)) && sh.to == ParseMonDate(Col(cols, 6))
    ensures sh.trangThai == (if Col(cols, 7) == "" then "Active" else Col(cols, 7))
  {
    Shareholder(id, Col(cols, 0), Col(cols, 1), Col(cols, 2), Col(cols, 3),
      ParseOwnership(Col(cols, 4)), ParseMonDate(Col(cols, 5)), ParseMonDate(Col(cols, 6)),
      if Col(cols, 7) == "" then "Active" else Col(cols, 7))
  }

  /** `parseShareHolders` of migrate-shareholders-by-code.js over the file's
      text: the non-blank lines, the section after its marker and header,
      rows of at least eight columns, records numbered from 1. */
  function ShareholdersByCode(content: string): (r: Result<seq<Shareholder>, Failure>)
    ensures var ls := NonBlankLines(Lines(content));
      r == Err(SectionNotFound("Không tìm thấy Tab SharedHolders")) <==>
      forall i :: 0 <= i < |ls| ==> !IsShareholderTab(Trim(ls[i]))
    ensures r.Ok? ==> forall i :: 0 <= i < |r.value| ==> r.value[i].id == i + 1
    ensures r.Ok? ==> |r.value| <= |Lines(content)|
  {
    var ls := NonBlankLines(Lines(content));
    match DataStart(ls, IsShareholderTab, true, "Không tìm thấy Tab SharedHolders")
    case Err(e) => Err(e)
    case Ok(d) =>
      Ok(ShareholderRecords(Rows(ls[d..], EndsAtTabOrBlank, 8)))
  }

  /** One shareholder per row, numbered from 1. */
  function ShareholderRecords(rows: seq<seq<string>>): (out: seq<Shareholder>)
    ensures |out| == |rows|
    ensures forall i :: 0 <= i < |out| ==> out[i].id == i + 1 && out[i].code == Col(rows[i], 0)
  {
    seq(|rows|, i requires 0 <= i < |rows| => ShareholderOf(i + 1, rows[i]))
  }

  /* ---------------------------------------------------------------- */
  /* Shareholders linked to company ID and name                        */
  /* ---------------------------------------------------------------- */

  /** What the code map holds for a company code. */
  datatype CompanyRef = CompanyRef(companyId: int, companyName: string)

  /** `loadCompanyMap`: Code to ID and Name, a later company overwriting an
      earlier one with the same Code. */
  function CompanyMap(cs: seq<Company>): (m: map<string, CompanyRef>)
    ensures forall code :: code in m <==> exists c :: c in cs && c.code == code
  {
    if |cs| == 0 then map[]
    else
      var init := cs[..|cs| - 1];
      var last := cs[|cs| - 1];
      assert forall c :: c in cs <==> c in init || c == last;
      CompanyMap(init)[last.code := CompanyRef(last.id, last.name)]
  }

  /** The map holds, for each code, the ID and name of the last company with
      that code. */
  lemma {:induction false} CompanyMapLastWins(cs: seq<Company>, k: nat)
    requires k < |cs|
    requires forall j :: k < j < |cs| ==> cs[j].code != cs[k].code
    ensures CompanyMap(cs)[cs[k].code] == CompanyRef(cs[k].id, cs[k].name)
  {
    if k < |cs| - 1 {
      var init := cs[..|cs| - 1];
      assert init[k] == cs[k];
      CompanyMapLastWins(init, k);
    }
  }

  /** Every entry of the map names a company of the table. */
  lemma {:induction false} CompanyMapSound(cs: seq<Company>, code: string)
    requires code in CompanyMap(cs)
    ensures exists c :: c in cs && c.code == code && CompanyMap(cs)[code] == CompanyRef(c.id, c.name)
  {
    var init := cs[..|cs| - 1];
    var last := cs[|cs| - 1];
    if code != last.code {
      CompanyMapSound(init, code);
      var c :| c in init && c.code == code && CompanyMap(init)[code] == CompanyRef(c.id, c.name);
      assert c in cs;
    }
  }

  /** The linked record of a row whose code the map holds. */
  function LinkedOf(id: int, cols: seq<string>, ref: CompanyRef): (sh: LinkedShareholder)
    ensures sh.id == id && sh.companyId == ref.companyId && sh.companyName == ref.companyName
    ensures sh.personaOrg == Col(cols, 1) && sh.ownership == ParseOwnership(Col(cols, 4))
    ensures sh.from == ParseMonDate(Col(cols, 5)) && sh.to == ParseMonDate(Col(cols, 6))
  {
    LinkedShareholder(id, Col(cols, 1), ParseOwnership(Col(cols, 4)), ref.companyId, ref.companyName,
      ParseMonDate(Col(cols, 5)), ParseMonDate(Col(cols, 6)))
  }

  /** The rows whose code the map holds; the others are skipped without
      taking an ID. */
  function Known(rows: seq<seq<string>>, m: map<string, CompanyRef>): (r: seq<seq<string>>)
    ensures |r| <= |rows|
    ensures forall i :: 0 <= i < |r| ==> r[i] in rows && Col(r[i], 0) in m
    ensures forall row :: row in rows && Col(row, 0) in m ==> row in r
    ensures forall row :: multiset(r)[row] == if Col(row, 0) in m then multiset(rows)[row] else 0
  {
    FilterCount(rows, (row: seq<string>) => Col(row, 0) in m);
    Filter(rows, (row: seq<string>) => Col(row, 0) in m)
  }

  /** `parseShareHolders` of migrate-shareholders.js: as the code-keyed script,
      but each row is linked through the code map and rows with an unknown
      code are dropped; the IDs stay consecutive. */
  function LinkedShareholders(content: string, companies: seq<Company>): (r: Result<seq<LinkedShareholder>, Failure>)
    ensures var ls := NonBlankLines(Lines(content));
      r == Err(SectionNotFound("Không tìm thấy Tab SharedHolders")) <==>
      forall i :: 0 <= i < |ls| ==> !IsShareholderTab(Trim(ls[i]))
    ensures var ls := NonBlankLines(Lines(content));
      r == Err(HeaderMissing) <==> FirstLine(ls, IsShareholderTab) == |ls| - 1
    ensures r.Ok? ==> forall i :: 0 <= i < |r.value| ==> r.value[i].id == i + 1
    ensures r.Ok? ==> forall x :: x in r.value ==>
              exists c :: c in companies && c.id == x.companyId && c.name == x.companyName
  {
    var ls := NonBlankLines(Lines(content));
    var m := CompanyMap(companies);
    match DataStart(ls, IsShareholderTab, true, "Không tìm thấy Tab SharedHolders")
    case Err(e) => Err(e)
    case Ok(d) =>
      Ok(LinkedRecords(Known(Rows(ls[d..], EndsAtTabOrBlank, 8), m), companies))
  }

  /** One linked record per row whose code the map of `companies` holds,
      numbered from 1, each naming a company of the table. */
  function LinkedRecords(rows: seq<seq<string>>, companies: seq<Company>): (out: seq<LinkedShareholder>)
    requires forall i :: 0 <= i < |rows| ==> Col(rows[i], 0) in CompanyMap(companies)
    ensures |out| == |rows|
    ensures forall i :: 0 <= i < |out| ==> out[i].id == i + 1
    ensures forall x :: x in out ==> exists c :: c in companies && c.id == x.companyId && c.name == x.companyName
  {
    var out := LinkedRows(rows, CompanyMap(companies));
    LinkedRowsSound(rows, companies);
    out
  }

  /** The numbered records of the rows, each linked through `m`. */
  function LinkedRows(rows: seq<seq<string>>, m: map<string, CompanyRef>): (out: seq<LinkedShareholder>)
    requires forall i :: 0 <= i < |rows| ==> Col(rows[i], 0) in m
    ensures |out| == |rows|
    ensures forall i :: 0 <= i < |out| ==> out[i].id == i + 1 && out[i].companyId == m[Col(rows[i], 0)].companyId
    ensures forall i :: 0 <= i < |out| ==> out[i].companyName == m[Col(rows[i], 0)].companyName
  {
    seq(|rows|, i requires 0 <= i < |rows| => LinkedOf(i + 1, rows[i], m[Col(rows[i], 0)]))
  }

  /** Each linked record carries the ID and name of a company of the table. */
  lemma LinkedRowsSound(rows: seq<seq<string>>, companies: seq<Company>)
    requires forall i :: 0 <= i < |rows| ==> Col(rows[i], 0) in CompanyMap(companies)
    ensures forall x :: x in LinkedRows(rows, CompanyMap(companies)) ==>
      exists c :: c in companies && c.id == x.companyId && c.name == x.companyName
  {
    var out := LinkedRows(rows, CompanyMap(companies));
    forall x | x in out ensures exists c :: c in companies && c.id == x.companyId && c.name == x.companyName {
      var i :| 0 <= i < |out| && out[i] == x;
      CompanyMapSound(companies, Col(rows[i], 0));
    }
  }

  /* ---------------------------------------------------------------- */
  /* Companies                                                         */
  /* ---------------------------------------------------------------- */

  /** The marker of the company section. */
  predicate IsCompanyTab(t: string) {
    t == "Tab Company"
  }

  /** The company, officer scans end at a line starting with `Tab`. */
  predicate EndsAtTab(t: string) {
    StartsWith(t, "Tab")
  }

  /** `VonDieuLe`: empty text is 0; otherwise the text without its commas
      through `parseInt`, whose NaN the JSON file stores as null. */
  function Capital(s: string): (r: Option<int>)
    ensures s == "" ==> r == Some(0)
    ensures s != "" ==> r.None? <==> ParseInt(RemoveAll(s, ',')).None?
    ensures s != "" && r.Some? ==> r.value == ParseInt(RemoveAll(s, ',')).value
  {
    if s == "" then Some(0) else ParseInt(RemoveAll(s, ','))
  }

  /** The company record of a row: ID and ParentID through `parseInt(…) || 0`,
      the dates through `parseDate`, the text columns as they are. */
  function CompanyOf(cols: seq<string>): (c: Company)
    ensures c.id == IntOrZero(Col(cols, 0)) && c.parentId == IntOrZero(Col(cols, 1))
    ensures c.name == Col(cols, 2) && c.code == Col(cols, 3) && c.vonDieuLe == Capital(Col(cols, 6))
    ensures c.mst == Col(cols, 4) && c.loaiHinh == Col(cols, 5) && c.tinhTrangNiemYet == Col(cols, 7)
    ensures c.repInside == Col(cols, 8) && c.repOutside == Col(cols, 9)
    ensures c.ngayThanhLap == ParseMonDate(Col(cols, 10)) && c.dkkd == ParseMonDate(Col(cols, 11))
    ensures c.trangThai == Col(cols, 12) && c.nganhNghe == Col(cols, 13)
  {
    Company(IntOrZero(Col(cols, 0)), IntOrZero(Col(cols, 1)), Col(cols, 2), Col(cols, 3), Col(cols, 4),
      Col(cols, 5), Capital(Col(cols, 6)), Col(cols, 7), Col(cols, 8), Col(cols, 9),
      ParseMonDate(Col(cols, 10)), ParseMonDate(Col(cols, 11)), Col(cols, 12), Col(cols, 13))
  }

  /** `parseCompanyMGT` of migrate-company.js: the section after `Tab Company`
      and its header, rows of at least three columns, one company per row. */
  function Companies(content: string): (r: Result<seq<Company>, Failure>)
    ensures var ls := NonBlankLines(Lines(content));
      r == Err(SectionNotFound("Không tìm thấy Tab Company")) <==>
      forall i :: 0 <= i < |ls| ==> Trim(ls[i]) != "Tab Company"
    ensures r.Ok? ==> |r.value| <= |Lines(content)|
  {
    var ls := NonBlankLines(Lines(content));
    match DataStart(ls, IsCompanyTab, true, "Không tìm thấy Tab Company")
    case Err(e) => Err(e)
    case Ok(d) =>
      Ok(CompanyRecords(Rows(ls[d..], EndsAtTab, 3)))
  }

  /** One company per row. */
  function CompanyRecords(rows: seq<seq<string>>): (out: seq<Company>)
    ensures |out| == |rows|
    ensures forall i :: 0 <= i < |out| ==> out[i].name == Col(rows[i], 2) && out[i].code == Col(rows[i], 3)
  {
    seq(|rows|, i requires 0 <= i < |rows| => CompanyOf(rows[i]))
  }

  /* ---------------------------------------------------------------- */
  /* Officers                                                          */
  /* ---------------------------------------------------------------- */

  /** The marker of the officer section: exactly `TabCompanyMembers`, a line
      whose lower-cased text contains `companymembers`, or a line starting
      with `Tab` whose lower-cased text contains `member`. */
  predicate IsMembersTab(t: string) {
    t == "TabCompanyMembers" || Contains(Lower(t), "companymembers") ||
    (StartsWith(t, "Tab") && Contains(Lower(t), "member"))
  }

  /** The officer record of a row: columns 0 to 3. */
  function MemberOf(id: int, cols: seq<string>): (m: Member)
    ensures m.id == id && m.code == Col(cols, 0) && m.name == Col(cols, 1)
    ensures m.chucVu == Col(cols, 2) && m.cccd == Col(cols, 3)
  {
    Member(id, Col(cols, 0), Col(cols, 1), Col(cols, 2), Col(cols, 3))
  }

  /** `parseCompanyMembers` of migrate-company-members.js: the section after
      its marker and header, rows of at least three columns, records numbered
      from 1. */
  function CompanyMembers(content: string): (r: Result<seq<Member>, Failure>)
    ensures var ls := NonBlankLines(Lines(content));
      r == Err(SectionNotFound("Không tìm thấy TabCompanyMembers")) <==>
      forall i :: 0 <= i < |ls| ==> !IsMembersTab(Trim(ls[i]))
    ensures r.Ok? ==> forall i :: 0 <= i < |r.value| ==> r.value[i].id == i + 1
  {
    var ls := NonBlankLines(Lines(content));
    match DataStart(ls, IsMembersTab, true, "Không tìm thấy TabCompanyMembers")
    case Err(e) => Err(e)
    case Ok(d) =>
      Ok(MemberRecords(Rows(ls[d..], EndsAtTab, 3)))
  }

  /** One member record per row, numbered from 1. */
  function MemberRecords(rows: seq<seq<string>>): (out: seq<Member>)
    ensures |out| == |rows|
    ensures forall i :: 0 <= i < |out| ==> out[i].id == i + 1 && out[i].code == Col(rows[i], 0)
  {
    seq(|rows|, i requires 0 <= i < |rows| => MemberOf(i + 1, rows[i]))
  }

  /* ---------------------------------------------------------------- */
  /* Business-registration history                                     */
  /* ---------------------------------------------------------------- */

  /** The header of the registration section names all five columns. */
  predicate IsRegistrationHeader(t: string) {
    Contains(t, "Code") && Contains(t, "Lần") && Contains(t, "Thời gian") &&
    Contains(t, "Chi tiết") && Contains(t, "Loại")
  }

  /** The registration and location scans end at a line starting with `#`. */
  predicate EndsAtHash(t: string) {
    StartsWith(t, "#")
  }

  /** The registration record of a row: the amendment number through
      `parseInt(…) || 0`, the date through the `d/m/y` parser, and the date
      column's text kept for display. */
  function RegistrationOf(id: int, cols: seq<string>): (x: RegistrationRecord)
    ensures x.id == id && x.code == Col(cols, 0) && x.lan == IntOrZero(Col(cols, 1))
    ensures x.thoiGian == ParseSlashDate(Col(cols, 2)) && x.thoiGianDisplay == Col(cols, 2)
    ensures x.chiTiet == Col(cols, 3) && x.loai == Col(cols, 4)
  {
    RegistrationRecord(id, Col(cols, 0), IntOrZero(Col(cols, 1)), ParseSlashDate(Col(cols, 2)), Col(cols, 2),
      Col(cols, 3), Col(cols, 4))
  }

  /** `parseLSDKKD` of migrate-lsdkkd.js: every line of the file, the rows
      after the header line, rows of at least four columns, records numbered
      from 1. */
  function RegistrationHistory(content: string): (r: Result<seq<RegistrationRecord>, Failure>)
    ensures var ls := Lines(content);
      r.Err? <==> forall i :: 0 <= i < |ls| ==> !IsRegistrationHeader(Trim(ls[i]))
    ensures r.Ok? ==> forall i :: 0 <= i < |r.value| ==> r.value[i].id == i + 1
  {
    var ls := Lines(content);
    match DataStart(ls, IsRegistrationHeader, false, "Không tìm thấy phần Lịch sử đăng ký KD")
    case Err(e) => Err(e)
    case Ok(d) =>
      Ok(RegistrationRecords(Rows(ls[d..], EndsAtHash, 4)))
  }

  /** One registration record per row, numbered from 1. */
  function RegistrationRecords(rows: seq<seq<string>>): (out: seq<RegistrationRecord>)
    ensures |out| == |rows|
    ensures forall i :: 0 <= i < |out| ==> out[i].id == i + 1 && out[i].code == Col(rows[i], 0)
  {
    seq(|rows|, i requires 0 <= i < |rows| => RegistrationOf(i + 1, rows[i]))
  }

  /* ---------------------------------------------------------------- */
  /* Business locations                                                */
  /* ---------------------------------------------------------------- */

  /** The header of the location section names its first three columns. */
  predicate IsLocationHeader(t: string) {
    Contains(t, "Code") && Contains(t, "Đơn vị chủ quản") && Contains(t, "Tên ĐKKD")
  }

  /** The location record of a row: columns 0 to 8, a missing status empty. */
  function LocationOf(id: int, cols: seq<string>): (x: LocationRecord)
    ensures x.id == id && x.code == Col(cols, 0) && x.tenDdkd == Col(cols, 2)
    ensures x.loai == Col(cols, 7) && x.tinhTrang == Col(cols, 8)
    ensures |cols| == 8 ==> x.tinhTrang == ""
  {
    LocationRecord(id, Col(cols, 0), Col(cols, 1), Col(cols, 2), Col(cols, 3), Col(cols, 4), Col(cols, 5),
      Col(cols, 6), Col(cols, 7), Col(cols, 8))
  }

  /** `parseDDKD` of migrate-ddkd.js: every line of the file, the rows after
      the header line, rows of at least eight columns, records numbered from 1. */
  function Locations(content: string): (r: Result<seq<LocationRecord>, Failure>)
    ensures var ls := Lines(content);
      r.Err? <==> forall i :: 0 <= i < |ls| ==> !IsLocationHeader(Trim(ls[i]))
    ensures r.Ok? ==> forall i :: 0 <= i < |r.value| ==> r.value[i].id == i + 1
  {
    var ls := Lines(content);
    match DataStart(ls, IsLocationHeader, false, "Không tìm thấy phần Địa Điểm kinh doanh")
    case Err(e) => Err(e)
    case Ok(d) =>
      Ok(LocationRecords(Rows(ls[d..], EndsAtHash, 8)))
  }

  /** One location record per row, numbered from 1. */
  function LocationRecords(rows: seq<seq<string>>): (out: seq<LocationRecord>)
    ensures |out| == |rows|
    ensures forall i :: 0 <= i < |out| ==> out[i].id == i + 1 && out[i].code == Col(rows[i], 0)
  {
    seq(|rows|, i requires 0 <= i < |rows| => LocationOf(i + 1, rows[i]))
  }

  /* ---------------------------------------------------------------- */
  /* Round trips: an export written from records reads back            */
  /* ---------------------------------------------------------------- */

  /** A line the export may carry as it is: one line, not blank, and its
      own trim. */
  predicate PlainLine(l: string) {
    '\n' !in l && l != [] && !IsSpace(l[0]) && !IsSpace(l[|l| - 1])
  }

  /** The text of an export section: its leading lines, then one line per row. */
  function Export(lead: seq<string>, rows: seq<seq<string>>): (content: string)
    requires |lead| >= 1
    requires forall i :: 0 <= i < |rows| ==> CleanRow(rows[i])
  {
    Join(lead + RowLines(rows), '\n')
  }

  /** The lines of an export are its leading lines and its row lines, none
      of them blank. */
  lemma {:induction false} ExportLines(lead: seq<string>, rows: seq<seq<string>>)
    requires |lead| >= 1 && forall i :: 0 <= i < |lead| ==> PlainLine(lead[i])
    requires forall i :: 0 <= i < |rows| ==> CleanRow(rows[i])
    ensures Lines(Export(lead, rows)) == lead + RowLines(rows)
    ensures NonBlankLines(Lines(Export(lead, rows))) == lead + RowLines(rows)
  {
    var ls := lead + RowLines(rows);
    forall i | 0 <= i < |ls| ensures '\n' !in ls[i] && !IsBlank(ls[i]) {
      if i < |lead| {
        assert PlainLine(lead[i]);
        assert !IsSpace(ls[i][0]);
      } else {
        assert ls[i] == Join(rows[i - |lead|], '\t');
        CleanRowLine(rows[i - |lead|]);
      }
    }
    SplitJoin(ls, '\n');
    NoBlankLines(ls);
  }

  /** A section whose first leading line is its marker: the data starts after
      the leading lines, and the scan gives the rows back. */
  lemma ExportSection(ls: seq<string>, lead: seq<string>, rows: seq<seq<string>>,
                      isStart: string -> bool, headerNext: bool, missing: string,
                      stop: string -> bool, minCols: nat)
    requires |lead| == (if headerNext then 2 else 1) && PlainLine(lead[0]) && isStart(lead[0])
    requires forall i :: 0 <= i < |rows| ==> CleanRow(rows[i]) && |rows[i]| >= minCols && !stop(Join(rows[i], '\t'))
    requires ls == lead + RowLines(rows)
    ensures DataStart(ls, isStart, headerNext, missing) == Ok(|lead|)
    ensures Rows(ls[|lead|..], stop, minCols) == rows
  {
    ExportStart(ls, lead, isStart, headerNext, missing);
    assert ls[|lead|..] == RowLines(rows);
    RowsOfRowLines(rows, stop, minCols);
  }

  /** The marker on the first line is found there. */
  lemma ExportStart(ls: seq<string>, lead: seq<string>, isStart: string -> bool, headerNext: bool, missing: string)
    requires |lead| == (if headerNext then 2 else 1) && PlainLine(lead[0]) && isStart(lead[0])
    requires |ls| >= |lead| && ls[..|lead|] == lead
    ensures DataStart(ls, isStart, headerNext, missing) == Ok(|lead|)
  {
    assert ls[0] == lead[0];
    TrimUnchanged(lead[0]);
    assert FirstLine(ls, isStart) == 0;
  }

  /** An officer export with the section marker, a header and clean rows of
      at least three columns, none starting with `Tab`, reads back as one
      officer per row, numbered from 1. */
  lemma CompanyMembersRoundTrip(header: string, rows: seq<seq<string>>)
    requires PlainLine(header)
    requires forall i :: 0 <= i < |rows| ==> CleanRow(rows[i]) && |rows[i]| >= 3 && !StartsWith(Join(rows[i], '\t'), "Tab")
    ensures CompanyMembers(Export(["TabCompanyMembers", header], rows))
         == Ok(seq(|rows|, i requires 0 <= i < |rows| => MemberOf(i + 1, rows[i])))
  {
    var lead := ["TabCompanyMembers", header];
    ExportLines(lead, rows);
    ExportSection(lead + RowLines(rows), lead, rows, IsMembersTab, true, "Không tìm thấy TabCompanyMembers", EndsAtTab, 3);
  }

  /** A code-keyed shareholder export with the section marker, a header and
      clean rows of at least eight columns, none starting with `Tab`, reads
      back as one shareholder per row, numbered from 1. */
  lemma ShareholdersByCodeRoundTrip(header: string, rows: seq<seq<string>>)
    requires PlainLine(header)
    requires forall i :: 0 <= i < |rows| ==> CleanRow(rows[i]) && |rows[i]| >= 8 && !StartsWith(Join(rows[i], '\t'), "Tab")
    ensures ShareholdersByCode(Export(["Tab SharedHolders", header], rows))
         == Ok(seq(|rows|, i requires 0 <= i < |rows| => ShareholderOf(i + 1, rows[i])))
  {
    var lead := ["Tab SharedHolders", header];
    forall i | 0 <= i < |rows| ensures !EndsAtTabOrBlank(Join(rows[i], '\t')) {
      CleanRowLine(rows[i]);
    }
    ExportLines(lead, rows);
    ExportSection(lead + RowLines(rows), lead, rows, IsShareholderTab, true, "Không tìm thấy Tab SharedHolders", EndsAtTabOrBlank, 8);
  }

  /** A shareholder export with the section marker, a header and clean rows
      of at least eight columns, none starting with `Tab`, reads back as the
      rows whose Code the code map of `companies` holds, in order, each
      linked to that Code's company and numbered from 1. */
  lemma LinkedShareholdersRoundTrip(header: string, rows: seq<seq<string>>, companies: seq<Company>)
    requires PlainLine(header)
    requires forall i :: 0 <= i < |rows| ==> CleanRow(rows[i]) && |rows[i]| >= 8 && !StartsWith(Join(rows[i], '\t'), "Tab")
    ensures var m := CompanyMap(companies);
      LinkedShareholders(Export(["Tab SharedHolders", header], rows), companies)
         == Ok(LinkedRows(Known(rows, m), m))
  {
    var lead := ["Tab SharedHolders", header];
    forall i | 0 <= i < |rows| ensures !EndsAtTabOrBlank(Join(rows[i], '\t')) {
      CleanRowLine(rows[i]);
    }
    ExportLines(lead, rows);
    ExportSection(lead + RowLines(rows), lead, rows, IsShareholderTab, true, "Không tìm thấy Tab SharedHolders", EndsAtTabOrBlank, 8);
  }

  /** When every Code is known, each row reads back as its own linked record. */
  lemma LinkedShareholdersAllKnown(header: string, rows: seq<seq<string>>, companies: seq<Company>)
    requires PlainLine(header)
    requires forall i :: 0 <= i < |rows| ==> CleanRow(rows[i]) && |rows[i]| >= 8 && !StartsWith(Join(rows[i], '\t'), "Tab")
    requires forall i :: 0 <= i < |rows| ==> Col(rows[i], 0) in CompanyMap(companies)
    ensures var m := CompanyMap(companies);
      LinkedShareholders(Export(["Tab SharedHolders", header], rows), companies)
         == Ok(seq(|rows|, i requires 0 <= i < |rows| => LinkedOf(i + 1, rows[i], m[Col(rows[i], 0)])))
  {
    LinkedShareholdersRoundTrip(header, rows, companies);
    KnownAll(rows, CompanyMap(companies));
  }

  /** Rows whose Codes are all in the map are all kept. */
  lemma KnownAll(rows: seq<seq<string>>, m: map<string, CompanyRef>)
    requires forall i :: 0 <= i < |rows| ==> Col(rows[i], 0) in m
    ensures Known(rows, m) == rows
  {
    FilterAll(rows, (row: seq<string>) => Col(row, 0) in m);
  }

  /** A company export with the section marker, a header and clean rows of
      at least three columns, none starting with `Tab`, reads back as one
      company per row. */
  lemma CompaniesRoundTrip(header: string, rows: seq<seq<string>>)
    requires PlainLine(header)
    requires forall i :: 0 <= i < |rows| ==> CleanRow(rows[i]) && |rows[i]| >= 3 && !StartsWith(Join(rows[i], '\t'), "Tab")
    ensures Companies(Export(["Tab Company", header], rows))
         == Ok(seq(|rows|, i requires 0 <= i < |rows| => CompanyOf(rows[i])))
  {
    var lead := ["Tab Company", header];
    ExportLines(lead, rows);
    ExportSection(lead + RowLines(rows), lead, rows, IsCompanyTab, true, "Không tìm thấy Tab Company", EndsAtTab, 3);
  }

  /** A registration export whose first line is the header and whose clean
      rows of at least four columns do not start with `#` reads back as one
      record per row, numbered from 1. */
  lemma RegistrationHistoryRoundTrip(header: string, rows: seq<seq<string>>)
    requires PlainLine(header) && IsRegistrationHeader(header)
    requires forall i :: 0 <= i < |rows| ==> CleanRow(rows[i]) && |rows[i]| >= 4 && !StartsWith(Join(rows[i], '\t'), "#")
    ensures RegistrationHistory(Export([header], rows))
         == Ok(seq(|rows|, i requires 0 <= i < |rows| => RegistrationOf(i + 1, rows[i])))
  {
    ExportLines([header], rows);
    ExportSection([header] + RowLines(rows), [header], rows, IsRegistrationHeader, false, "Không tìm thấy phần Lịch sử đăng ký KD", EndsAtHash, 4);
  }

  /** A location export whose first line is the header and whose clean rows
      of at least eight columns do not start with `#` reads back as one
      record per row, numbered from 1. */
  lemma LocationsRoundTrip(header: string, rows: seq<seq<string>>)
    requires PlainLine(header) && IsLocationHeader(header)
    requires forall i :: 0 <= i < |rows| ==> CleanRow(rows[i]) && |rows[i]| >= 8 && !StartsWith(Join(rows[i], '\t'), "#")
    ensures Locations(Export([header], rows))
         == Ok(seq(|rows|, i requires 0 <= i < |rows| => LocationOf(i + 1, rows[i])))
  {
    ExportLines([header], rows);
    ExportSection([header] + RowLines(rows), [header], rows, IsLocationHeader, false, "Không tìm thấy phần Địa Điểm kinh doanh", EndsAtHash, 8);
  }
}
