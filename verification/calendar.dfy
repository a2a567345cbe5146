/** Calendar days as the detail view compares them: `new Date(text)` of an ISO
    `YYYY-MM-DD` date, with the time of day cleared. */
module Calendar {
  import opened Base
  import opened Text
  import opened Fields

  /** A calendar day. */
  datatype Day = Day(year: int, month: nat, day: nat)

  /** The month and day are in the ranges an ISO date may carry. */
  predicate InRange(d: Day) {
    1 <= d.month <= 12 && 1 <= d.day <= 31
  }

  /** `a` is the same day as `b` or an earlier one. */
  predicate DayLe(a: Day, b: Day) {
    a.year < b.year || (a.year == b.year && (a.month < b.month || (a.month == b.month && a.day <= b.day)))
  }

  /** Reading `YYYY-MM-DD`: four, two and two digits separated by dashes, with
      the month and the day in range; any other text is an invalid date. */
  function ParseIsoDay(s: string): (r: Option<Day>)
    ensures r.Some? ==> InRange(r.value) && 0 <= r.value.year <= 9999
    ensures r.Some? ==> |s| == 10 && s[4] == '-' && s[7] == '-'
  {
    if |s| == 10 && s[4] == '-' && s[7] == '-' && AllDigits(s[..4]) && AllDigits(s[5..7]) && AllDigits(s[8..]) then
      var y := DigitsValue(s[..4]);
      var m := DigitsValue(s[5..7]);
      var d := DigitsValue(s[8..]);
      FourDigitsBound(s[..4]);
      if 1 <= m <= 12 && 1 <= d <= 31 then Some(Day(y, m, d)) else None
    else None
  }

  /** A leap year of the Gregorian calendar. */
  predicate IsLeapYear(y: int) {
    (y % 4 == 0 && y % 100 != 0) || y % 400 == 0
  }

  /** The number of days of month `m` of year `y`. */
  function DaysInMonth(y: int, m: nat): (n: nat)
    requires 1 <= m <= 12
    ensures 28 <= n <= 31
    ensures n == 31 <==> m in {1, 3, 5, 7, 8, 10, 12}
    ensures m == 2 ==> (n == 29 <==> IsLeapYear(y))
  {
    if m == 2 then (if IsLeapYear(y) then 29 else 28)
    else if m == 4 || m == 6 || m == 9 || m == 11 then 30
    else 31
  }

  /** The day exists in the calendar: its month has at least that many days. */
  predicate IsCalendarDay(d: Day) {
    1 <= d.month <= 12 && 1 <= d.day <= DaysInMonth(d.year, d.month)
  }

  /** The days of the months of year `y` before month `m`. */
  function MonthStart(y: int, m: nat): nat
    requires 1 <= m <= 12
  {
    if m == 1 then 0 else MonthStart(y, m - 1) + DaysInMonth(y, m - 1)
  }

  /** The number of days from the 1st of January of the day's year to the day. */
  function DayOfYear(d: Day): int
    requires 1 <= d.month <= 12
  {
    MonthStart(d.year, d.month) + d.day - 1
  }

  /** The day `new Date` makes of an in-range ISO date (MakeDay, section
      21.4.1.28 of ECMA-262): day `d.day` of the month counted from its 1st,
      so a day past the month's end rolls over into the next month. Since
      December has 31 days the year never changes. */
  function Rollover(d: Day): (r: Day)
    requires InRange(d)
    ensures IsCalendarDay(r) && r.year == d.year
    ensures DayOfYear(r) == MonthStart(d.year, d.month) + d.day - 1
    ensures IsCalendarDay(d) ==> r == d
  {
    var n := DaysInMonth(d.year, d.month);
    if d.day <= n then d
    else
      assert d.month < 12;
      var r := Day(d.year, d.month + 1, d.day - n);
      assert MonthStart(d.year, d.month + 1) == MonthStart(d.year, d.month) + n;
      r
  }

  /** Four digits stand for a number below 10000. */
  lemma FourDigitsBound(ds: string)
    requires |ds| == 4 && AllDigits(ds)
    ensures DigitsValue(ds) <= 9999
  {
    DigitsValueBound(ds);
    assert Pow10(4) == 10000;
  }

  /** `n` digits stand for a number below 10 to the `n`. */
  lemma {:induction false} DigitsValueBound(ds: string)
    requires AllDigits(ds)
    ensures DigitsValue(ds) < Pow10(|ds|)
  {
    if |ds| > 0 {
      DigitsValueBound(ds[..|ds| - 1]);
    }
  }

  /** A number below 100 prints as two digits that read back as the number. */
  lemma TwoDigitsValue(n: nat)
    requires n < 100
    ensures |TwoDigits(n)| == 2 && AllDigits(TwoDigits(n)) && DigitsValue(TwoDigits(n)) == n
  {
    var ds := NatToString(n);
    var t := TwoDigits(n);
    NatToStringValue(n);
    if n >= 10 {
      assert NatToString(n / 10) == [DigitChar(n / 10)];
      assert |ds| == 2;
    } else {
      assert t == ['0'] + ds;
      assert t[..1] == ['0'];
      assert DigitsValue(ds) == DigitsValue(ds[..0]) * 10 + DigitValue(ds[0]);
    }
  }

  /** A year of four digits prints as four digits that read back as the year. */
  lemma FourDigitYear(y: nat)
    requires 1000 <= y <= 9999
    ensures |NatToString(y)| == 4 && AllDigits(NatToString(y)) && DigitsValue(NatToString(y)) == y
  {
    NatToStringValue(y);
    var y1, y2, y3 := y / 10, y / 100, y / 1000;
    assert y1 / 10 == y2 && y2 / 10 == y3 && 1 <= y3 < 10 && 10 <= y2 < 100 && 100 <= y1 < 1000;
    assert |NatToString(y3)| == 1;
    assert |NatToString(y2)| == 2;
    assert |NatToString(y1)| == 3;
  }

  /** A text of four, two and two digits joined by dashes reads as the day
      they spell, when the month and the day are in range. */
  lemma ParseIsoParts(y: string, m: string, d: string)
    requires |y| == 4 && |m| == 2 && |d| == 2 && AllDigits(y) && AllDigits(m) && AllDigits(d)
    ensures ParseIsoDay(y + "-" + m + "-" + d) ==
      if 1 <= DigitsValue(m) <= 12 && 1 <= DigitsValue(d) <= 31
      then Some(Day(DigitsValue(y), DigitsValue(m), DigitsValue(d))) else None
  {
    var s := y + "-" + m + "-" + d;
    assert s[..4] == y && s[5..7] == m && s[8..] == d;
    assert s[4] == '-' && s[7] == '-';
  }

  /** The ISO text the migration scripts write for a day reads back as that day. */
  lemma {:induction false} IsoDayRoundTrip(d: Day)
    requires InRange(d) && 1000 <= d.year <= 9999
    ensures ParseIsoDay(IsoDate(d.year, d.month, d.day)) == Some(d)
  {
    FourDigitYear(d.year);
    TwoDigitsValue(d.month);
    TwoDigitsValue(d.day);
    assert IsoDate(d.year, d.month, d.day) == NatToString(d.year) + "-" + TwoDigits(d.month) + "-" + TwoDigits(d.day);
    ParseIsoParts(NatToString(d.year), TwoDigits(d.month), TwoDigits(d.day));
  }

  /** `2021-04-31`, which `parseDate` writes for `31-Apr-21`, reads as day 31
      of April and stands for the 1st of May. */
  lemma AprilThirtyFirst()
    ensures ParseIsoDay("2021-04-31") == Some(Day(2021, 4, 31))
    ensures Rollover(Day(2021, 4, 31)) == Day(2021, 5, 1)
  {
    assert "2021-04-31" == "2021" + "-" + "04" + "-" + "31";
    assert "2"[..0] == "" && DigitsValue("2") == 2;
    assert "20"[..1] == "2" && DigitsValue("20") == 20;
    assert "202"[..2] == "20" && DigitsValue("202") == 202;
    assert "2021"[..3] == "202" && DigitsValue("2021") == 2021;
    assert "0"[..0] == "" && "04"[..1] == "0" && DigitsValue("04") == 4;
    assert "3"[..0] == "" && "31"[..1] == "3" && DigitsValue("31") == 31;
    ParseIsoParts("2021", "04", "31");
  }
}
