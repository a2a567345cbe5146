# companymgt ownership engine — a Dafny model

This project models the core of a company-management application that keeps
its data in three JSON tables: companies, shareholders and company officers.
Two further tables hold the business-registration history and the business
locations. The model covers two parts.

- **The ownership-graph engine of the front end.**
  - It looks up a shareholding rate.
  - It resolves the companies a company owns and the companies that control it. This merges `ParentID` links with shareholder records naming a company by Name or Code.
  - It enumerates every ownership path breadth first, multiplying the rates along each path and dropping branches below 1%.
  - It groups the paths by company. The equity view sums them, the control view keeps the strongest path, and the company list sums them by ID and keeps those of at least 50%.
  - It gathers the related parties in five deduplicating stages.
  - It builds the company list: distinct by name, narrowed by the search filters.
- **The migration scripts** that turn a tab-separated export into those tables.
  - Each script locates its section by a marker line and reads trimmed data rows until a terminator.
  - It splits each row on tabs, converts the date, capital and ownership columns, and numbers the records from 1.

Percentages are exact `real`s. Text is `seq<char>`. The clock, and the
contents of the files the scripts read, are parameters. The table contents
are a `Store` value, not globals.

Modules follow the program's structure:

| Module | What it models |
|---|---|
| `Base`, `Text`, `Sorting`, `Grouping` | The JavaScript built-ins the code relies on: `find`/`some`/`filter`, `split`/`trim`/`includes`/`toLowerCase`/`parseInt`/`parseFloat`, `sort`, and grouping into a `Map`. |
| `Fields`, `Calendar` | Field parsers and ISO days. |
| `Scanning`, `Migrations` | The scripts. |
| `Records` | The tables. |
| `Ownership`, `Traversal` | Edges and path enumeration. |
| `Views`, `Reach`, `Listings`, `RelatedParties` | The tabs of the detail view. |
| `App` | The company list. |

## Model

| member | source | states |
|---|---|---|
| Ownership.OwnershipRateOfRecords | src/components/CompanyDetail.js:11-28 | The rate between two table companies is the Ownership of the first shareholder record that names the parent (by Name or Code) as holder of the child's Code. It is 0 when there is no such record. |
| Ownership.OwnershipRateMissing | src/App.js:73-88 | The rate is 0 whenever either ID is absent from the company table. |
| Ownership.OwnedCompanies | src/components/CompanyDetail.js:88-120 | Owned companies start with the active `ParentID` children that carry a positive rate. Every entry is an active table company held at a positive rate. Each entry after the `ParentID` children lists an ID not listed before it. It is the edge of the first shareholder record, in table order, that names the parent and leads to that ID: to the first active company with the record's Code, at that record's Ownership, never the parent itself. Later records for the same ID are skipped. |
| Ownership.HeldEdgesFromRecords | src/components/CompanyDetail.js:101-117 | Every edge the shareholder branch adds is the edge of the first record, in table order, naming the parent with a positive Ownership and leading to that company's ID. |
| Ownership.OwnedCompaniesComplete | src/components/CompanyDetail.js:88-120 | Completeness: every active `ParentID` child with a positive rate is listed with that rate. Every company whose shareholder record names the parent is listed by ID. |
| Ownership.OwnedCompaniesUnique | src/App.js:201-233 | When table IDs are unique, owned companies are listed at most once per ID. |
| Ownership.ParentCompanies | src/App.js:101-136 | Controlling parents: the `ParentID` parent, if active and holding at least 50%, comes first. All entries are active, held at 50% or more, and listed once per ID. Each later entry is the holder named by the first record, in table order, of the child's Code with 50% or more that names a holder with that ID, at that record's Ownership. Later records for the same holder are skipped. |
| Ownership.HolderEdgesFromRecords | src/App.js:118-133 | Every holder the upward shareholder branch adds comes from the first controlling record of the child's Code that names that holder's ID, at that record's Ownership. |
| Ownership.ParentCompaniesComplete | src/App.js:118-133 | Every holder named by a 50%-or-more shareholder record of the child, other than the child, appears among the parents. |
| Traversal.Floor | src/components/CompanyDetail.js:212-221 | A path is queued again exactly when its cumulative share is at least 1%. |
| Traversal.AllWalksDirect | src/components/CompanyDetail.js:134-166 | The recorded paths begin with one direct path per owned company, in order, at that edge's rate. Every direct path comes from such an edge. |
| Traversal.AllWalksFloor | src/components/CompanyDetail.js:169-223 | Every path longer than two hops was extended from a prefix holding at least 1%. |
| Traversal.AllWalksClosed | src/components/CompanyDetail.js:169-223 | Closure: every one-hop extension of a recorded path is recorded too, as long as the path is direct or holds at least 1% and the extension does not revisit an ID on the path. |
| Traversal.AllWalksSound | src/components/CompanyDetail.js:169-223 | Soundness: every recorded path of more than one hop is a recorded path, direct or holding at least 1%, followed by one direct edge of its end to an ID not on it. |
| Traversal.AllWalksDistinct | src/components/CompanyDetail.js:134-223 | With unique table IDs, no path is recorded twice. |
| Grouping.GroupIsKeysAndMembers | src/components/CompanyDetail.js:226-250 | Grouping into a `Map` gives the distinct keys in first-seen order, each with exactly the elements carrying it, in order. |
| Views.Classify | src/components/CompanyDetail.js:258-265 | Tiers: above 50% is a subsidiary, 20% to 50% an associate, below 20% an investment. |
| Views.DirectSubsidiaries | src/components/CompanyDetail.js:58-84 | Every listed row is an active `ParentID` child at or above the threshold. Every such child is listed. |
| Views.EquityOfPaths | src/components/CompanyDetail.js:225-276 | Equity rows correspond one-to-one with company names. Each name's row sums all its paths, is kept only if it is not excluded and meets the threshold, and every such name has a row. |
| Views.EquityDisplay | src/components/CompanyDetail.js:670-672 | The displayed equity rows are exactly the equity rows at 50% or more, each as often as among the equity rows. |
| Views.ControlOfPaths | src/components/CompanyDetail.js:604-666 | Each control row carries the strongest of its name's paths. When no path is negative, every name reached has a row. |
| Views.ControlKeepsEveryName | src/components/CompanyDetail.js:662-666 | For a root with an ID, every company name the downward walk reaches appears in the control view. |
| Views.ControlAtMostEquity | src/components/CompanyDetail.js:637 | For a company named in both views, the control (strongest-path) figure never exceeds the equity (summed) figure. |
| Views.SumAndMaxExample | src/components/CompanyDetail.js:249 | Worked example: a direct 30% plus 50% of 50% through an intermediate gives equity 55% and control 30%. |
| Views.RelatedOf | src/components/CompanyDetail.js:675-683 | Related companies are exactly the equity rows between the threshold and 50% (exclusive), each as often as among the equity rows. They are sorted by ownership, highest first. |
| Reach.AllSubsidiaries | src/components/CompanyDetail.js:298-343 | Each company met by the visited-set walk is listed once per ID. Every entry is an active table company. Every entry is a `ParentID` child of the root, or a company the root owns, or a company owned by a table company whose ID is that of an earlier entry. |
| Reach.ReachableIds | src/components/CompanyDetail.js:301-337 | The visited IDs are distinct IDs of active table companies. Each is a seed (a `ParentID` child or owned company of the root) or is owned under an ID visited before it. |
| Reach.AllSubsidiariesClosed | src/components/CompanyDetail.js:298-343 | The reached IDs include every `ParentID` child of the root and every company with an ID the root owns. They are closed under taking owned companies with an ID, matching the `child.ID` guard. |
| Reach.AllSubsidiariesResolved | src/components/CompanyDetail.js:339-342 | For any table, entry `i` of the listing is the first active company of the table, in table order, whose ID is the `i`-th reached ID. When table IDs are unique, the listed companies are exactly the table companies whose ID was reached. |
| Listings.IsShareholderActive | src/components/CompanyDetail.js:47-55 | A holding with no end date is active. An active holding with an end date has a parseable ISO date. Otherwise it is active up to the day `new Date` makes of the end date. |
| Listings.ActiveThroughEndDate | src/components/CompanyDetail.js:47-55 | A holding with an ISO end date is active exactly while today is on or before the rolled-over end day. When the end date is a real calendar day, that is the end date itself. |
| Listings.EndPastMonthRollsOver | src/components/CompanyDetail.js:47-55 | An end date of `2021-04-31`, which the migration writes for `31-Apr-21`, keeps the holding active on 1 May 2021 and not on 2 May. |
| Listings.CompanyShareholders | src/components/CompanyDetail.js:279-288 | The shareholder tab shows exactly the records with the company's Code, each as often as in the table and flagged active or not, sorted by Ownership, highest first. It is empty for a company without a Code. |
| Listings.CompanyMembers | src/components/CompanyDetail.js:291-294 | The officer tab shows exactly the officers with the company's Code, each as often as in the table. |
| Listings.CompanyMembersInOrder | src/components/CompanyDetail.js:291-294 | The officer tab keeps table order: for any split of the table, the officers from the front part come first, followed by those from the rest. |
| Listings.RegistrationCompareInconsistent | src/components/CompanyDetail.js:690-696 | Counterexample: two registrations of two non-company kinds each compare after the other. |
| Listings.RegistrationLeOrder | src/components/CompanyDetail.js:690-696 | The intended registration order (company's own first, then by amendment number) is a total preorder. |
| Listings.RegistrationCompareAgrees | src/components/CompanyDetail.js:690-696 | Where the written comparator is consistent (same kind, or one of them the company's own), it agrees with the intended order. |
| Listings.RegistrationHistory | src/components/CompanyDetail.js:686-697 | The registration tab holds exactly the company's records, each as often as in the table, ordered by the intended order. |
| Listings.LocationCompareInconsistent | src/components/CompanyDetail.js:704-713 | Counterexample: two branches with two non-operating statuses each compare after the other. |
| Listings.LocationLeOrder | src/components/CompanyDetail.js:704-713 | The intended location order (branches, then operating locations, then name) is a total preorder. |
| Listings.LocationCompareAgrees | src/components/CompanyDetail.js:704-713 | Where the written comparator is consistent, it agrees with the intended order. |
| Listings.Locations | src/components/CompanyDetail.js:700-714 | The location tab holds exactly the company's records, each as often as in the table, ordered by the intended order. |
| RelatedParties.Identity | src/components/CompanyDetail.js:362 | An organisation's identity is its tax code, or its Code when the tax code is empty. |
| RelatedParties.RelatedPartiesOf | src/components/CompanyDetail.js:346-487 | The list is empty for a company without a Code. Otherwise it is sorted (organisations first, then by level, then by name) and holds no two organisations with one ID and no two persons with one key. Its rows are the collected rows of the five stages, each as often as collected. |
| RelatedParties.RelatedPartiesSound | src/components/CompanyDetail.js:354-473 | Soundness: every related party comes from one of the five stages (a direct subsidiary, an eligible indirect one, an officer of the company, of a `ParentID` child, or of an eligible indirect subsidiary). |
| RelatedParties.RelatedPartiesComplete | src/components/CompanyDetail.js:354-473 | Completeness, for a company with a Code: every direct subsidiary and every eligible indirect subsidiary appears as an organisation. Every officer of the company, of its `ParentID` children and of eligible indirect subsidiaries appears as a person under the stage's key. |
| RelatedParties.MemberKeyCollision | src/components/CompanyDetail.js:403 | Two different officers can share a deduplication key when a Code or name holds an underscore. |
| App.HeavyWalksSpec | src/App.js:185-187 | Summing recorded paths by ID keeps exactly the companies whose paths total at least 50%, once each. Every direct edge of 50% or more is kept. |
| App.AllParentCompaniesSpec | src/App.js:91-188 | All parents of a company: active table companies whose upward paths sum to at least 50%. Every such company, and every direct controlling parent, is listed, each once. |
| App.WideningSpec | src/App.js:299-317 | Widening: the result extends the summed list. It adds exactly the companies owned by a listed one, each once. |
| App.AllSubsidiariesSpec | src/App.js:191-320 | All subsidiaries: the summed-to-50% companies, then the companies they own. Every entry is active, each ID appears once, and every direct holding of 50% or more is included. |
| App.FirstsByName | src/App.js:323-333 | The distinct-name list holds exactly the first company of each name. |
| App.UniqueCompanies | src/App.js:323-333 | The company list is sorted by name, one company per name, the first in table order. |
| App.SubsidiaryCount | src/App.js:530-538 | The count is the number of table positions whose company has a non-zero ParentID equal to the ID of some company named `name`. It is zero exactly when no table company has such a parent, and never exceeds the table size. |
| App.SubsidiaryCountCoversIdChildren | src/App.js:530-538 | The count is at least the number of `ParentID` children of any company with that name. |
| App.FilteredCompanies | src/App.js:336-465 | The filtered list is exactly the distinct-name companies that pass the parent-name restriction and every other filter. It stays sorted and distinct by name. |
| App.NoFiltersListAll | src/App.js:364-464 | With every filter empty, the filtered list is the whole distinct-name list. |
| App.CapitalRange | src/App.js:376-400 | Numeric capital bounds keep exactly the companies whose capital is present and within the bounds. |
| App.YearRange | src/App.js:403-422 | Numeric year bounds on an ISO date keep exactly the dates whose year is within the bounds. |
| App.ParentFilterKeepsMajorityOwned | src/App.js:341-362 | The parent-name filter keeps every company that an active matching company owns directly at 50% or more. |
| App.ChildFilterKeepsMajorityOwner | src/App.js:453-461 | The child-name filter keeps every company that directly owns, at 50% or more, a company whose name matches. |
| Text.JoinSplit | migrate-company.js:32 | Joining the parts of a split with the separator gives back the text. |
| Text.SplitJoin | migrate-company.js:59 | Splitting a join of separator-free parts gives back the parts. |
| Text.Trim | migrate-company.js:53 | Trimmed text is empty exactly for blank text. Otherwise it neither starts nor ends with white space. |
| Text.ParseIntOfNat | migrate-company.js:69 | `parseInt` reads a decimal numeral back as its value, whatever non-digit text follows. |
| Text.ToNumberOfNat | src/App.js:388 | `Number` reads a decimal numeral back as its value. |
| Text.ContainsIffOccurs | src/App.js:366 | `includes` holds exactly when the pattern occurs at some position. |
| Fields.MonthNumber | migrate-company.js:13-18 | Month abbreviations map to their position in the year. An unknown abbreviation maps to January. |
| Fields.PivotYear | migrate-company.js:22-24 | Two-digit years below 50 are in the 2000s, others in the 1900s. |
| Fields.MonDateRoundTrip | migrate-company.js:6-27 | A `d-Mon-yy` date of a real month parses to the ISO date of the pivoted year. |
| Fields.SlashDateRoundTrip | migrate-lsdkkd.js:6-29 | A `d/m/yy` date with day 1-31 and month 1-12 parses to the ISO date in year 2000 + yy; a two-digit year never lands in the 1900s here. |
| Fields.SlashDateAcceptsDay31 | migrate-lsdkkd.js:24-26 | Day 31 is accepted in every month. |
| Fields.OwnershipDecimalComma | migrate-shareholders-by-code.js:30-35 | A decimal-comma ownership reads as the decimal number it writes. |
| Fields.OwnershipSecondComma | migrate-shareholders-by-code.js:33-34 | Only the first comma becomes a point, so a second comma ends the number. |
| Calendar.Rollover | src/components/CompanyDetail.js:49-52 | `new Date` of an ISO date counts the day from the 1st of its month. The result is a real calendar day of the same year, with Gregorian month lengths and leap years. A real calendar day is kept as it is, and a day past its month's end moves into the next month. |
| Calendar.IsoDayRoundTrip | src/components/CompanyDetail.js:49-52 | An in-range day written as `YYYY-MM-DD` parses back to the same day. |
| Scanning.RowsAsFilter | migrate-company.js:52-80 | The row loop with `break` and `continue` equals taking the lines before the first terminator and keeping the non-blank, wide-enough ones, split on tabs. |
| Scanning.RowsOfRowLines | migrate-company.js:52-80 | Scanning the export lines of clean rows that are not terminators gives the rows back. |
| Migrations.DataStart | migrate-lsdkkd.js:39-63 | A missing section is an error exactly when no line matches. A missing header is an error exactly when the marker is the last line. Otherwise the data start just past the marker, or past the marker and its header. |
| Migrations.CompanyMapLastWins | migrate-shareholders.js:38-51 | In the Code map, a Code is bound to its last company in the table. |
| Migrations.CompanyMapSound | migrate-shareholders.js:38-51 | Every binding of the Code map comes from a company with that Code. |
| Migrations.LinkedShareholders | migrate-shareholders.js:54-122 | The script fails with "tab not found" exactly when no line is the marker. It fails for a missing header exactly when the marker is the last non-blank line. Otherwise records are numbered from 1, and each names a company of the table by its ID and name. |
| Migrations.ShareholderOf | migrate-shareholders-by-code.js:77-87 | A record takes Code, PersonaOrg, MST/CCCD/HC and LoaiCD from columns 0 to 3, Ownership through `parseOwnership` of column 4, From and To through `parseDate` of columns 5 and 6, and status column 7, `Active` when empty. Its ID is the counter value. |
| Migrations.CompanyOf | migrate-company.js:63-77 | A company takes ID and ParentID through `parseInt` of columns 0 and 1, 0 when that gives NaN or 0, text columns 2 to 5, 7 to 9, 12 and 13 as they are, capital through `Capital` of column 6, and the founding and registration dates through `parseDate` of columns 10 and 11. |
| Migrations.LinkedOf | migrate-shareholders.js:108-116 | A linked record takes PersonaOrg from column 1, Ownership through `parseOwnership` of column 4, the dates from columns 5 and 6, and the company ID and name from the Code map. |
| Migrations.LinkedShareholdersRoundTrip | migrate-shareholders.js:54-122 | Exporting shareholder rows and parsing the file gives, in order, the rows whose Code the Code map holds, each linked to that Code's company and numbered from 1. |
| Migrations.LinkedShareholdersAllKnown | migrate-shareholders.js:54-122 | When every row's Code is in the Code map, each row reads back as its own linked record. |
| Migrations.Known | migrate-shareholders.js:100-106 | The rows kept are exactly those whose Code the map holds, each as often as in the input. |
| Migrations.Capital | migrate-company.js:69 | An empty capital reads as 0. Otherwise it is the `parseInt` of the text with its commas removed. |
| Migrations.CompanyMembersRoundTrip | migrate-company-members.js:6-62 | Exporting officer rows under the tab marker and a header and parsing the file gives one record per row, numbered from 1. |
| Migrations.ShareholdersByCodeRoundTrip | migrate-shareholders-by-code.js:38-93 | Exporting shareholder rows of at least eight columns and parsing the file gives one record per row, numbered from 1. |
| Migrations.CompaniesRoundTrip | migrate-company.js:30-83 | Exporting company rows of at least three columns and parsing the file gives one company per row. |
| Migrations.RegistrationHistoryRoundTrip | migrate-lsdkkd.js:32-96 | Exporting registration rows under the header and parsing the file gives one record per row, numbered from 1. |
| Migrations.LocationsRoundTrip | migrate-ddkd.js:6-63 | Exporting location rows under the header and parsing the file gives one record per row, numbered from 1. |
| Migrations.LocationOf | migrate-ddkd.js:46-57 | A location row without a ninth column has an empty status. |

## Left out

- File reading and writing, console output and `process.exit` in the scripts. The scanners take the file's text and return a result in place of a `throw`.
- The React rendering, the event handlers, the dropdown value lists (src/App.js:468-490) and the display-only strings. The display-only strings are the `toFixed` path texts, `MoiQuanHe` and the tier labels.
- Floating-point arithmetic: percentages are exact reals, so rounding in products and sums is not modelled.
- `formatDate`: it only formats for display.
- Listings.IsShareholderActive: today's date is a parameter, not the clock.
- Listings.IsShareholderActive: `new Date` is modelled for ISO `YYYY-MM-DD` texts only, with month 1 to 12 and day 1 to 31, as V8 reads them. Other texts read as invalid dates. A day past its month's end rolls over into the next month as V8 does; other engines may reject such a text instead.
- Listings.IsShareholderActive: the model compares calendar days as in a time zone at or east of UTC. `new Date("YYYY-MM-DD")` is midnight UTC, and `setHours(0, 0, 0, 0)` truncates in local time. West of UTC the end date therefore falls on the previous local day, and the source ends a holding one day earlier than the model.
- App.YearOf: `getFullYear` is taken in UTC, with no time-zone shift.
- Text.ParseFloat: accepts decimal digits with an optional sign and fraction. Exponents, `Infinity`, hexadecimal and `0x` prefixes are not modelled.
- Text.ToNumber: accepts decimal digits with an optional sign and fraction. Exponents, `Infinity`, hexadecimal and `0x` prefixes are not modelled.
- Text.Lower: lowers ASCII letters only. Vietnamese capitals are left as they are.
- Text.Trim: strips ASCII white space, U+00A0 and U+FEFF. It does not strip the other Unicode spaces that JavaScript's `trim` removes: U+1680, U+2000 to U+200A, U+2028, U+2029, U+202F, U+205F and U+3000.
- Text.ParseInt: reads decimal digits only. JavaScript's `parseInt` also reads a `0x` prefix as hexadecimal (`parseInt("0x1A")` is 26), where the model gives 0.
- Sorting.TextLe: `localeCompare` is modelled as code-point order.
- Sorting.SortBy: states sortedness and permutation, not the stability of the JavaScript sort.
- Reach.AllSubsidiariesClosed: requires unique company IDs in the table. With duplicate IDs the walk resolves an ID to its first company only.
- App.ChildFilterKeepsMajorityOwner: requires unique company IDs in the table, for the same reason.
- Ownership.OwnedCompaniesUnique: requires unique company IDs in the table, for the same reason.
- App.AllParentCompanies: its own contract covers only the missing-root case. The full statement is App.AllParentCompaniesSpec.
- App.AllSubsidiaries: its own contract covers only the missing-root case. The full statement is App.AllSubsidiariesSpec.
- Listings.RegistrationHistory: sorts by the intended order rather than the inconsistent comparator (see Findings).
- Listings.Locations: sorts by the intended order rather than the inconsistent comparator (see Findings).
- `try`/`catch` around JSON parsing. The tables are given as values.

## Findings

| source | as written | input that shows it | evidently intended | confidence | as-written member | corrected member |
|---|---|---|---|---|---|---|
| src/components/CompanyDetail.js:690-696 | Records of different kinds compare as -1 when `a` is the company's own and +1 otherwise. This includes the case where neither is the company's own. | A "Chi nhánh" and a "VPĐD" registration each compare after the other, so the comparator is inconsistent and the order is left to the sort implementation. | The company's own registrations first, then by amendment number. | not executed | Listings.RegistrationCompareInconsistent | Listings.RegistrationLeOrder |
| src/components/CompanyDetail.js:704-713 | Locations of different statuses compare as -1 when `a` is operating and +1 otherwise. This includes the case where neither is operating. | Two branches, "Tạm ngừng" and "Đã đóng", each compare after the other. | Branches first, then operating locations, then by name. | not executed | Listings.LocationCompareInconsistent | Listings.LocationLeOrder |
