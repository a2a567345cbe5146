/** Field-level parsers of the migration scripts: the `d-Mon-yy` date parser
    shared by migrate-company.js and both shareholder scripts, the `d/m/y` date
    parser of migrate-lsdkkd.js, and the decimal-comma ownership parser. */
module Fields {
  import opened Base
  import opened Text

  const MONTHS: seq<string> := ["Jan", "Feb", "Mar", "Apr", "May", "Jun", "Jul", "Aug", "Sep", "Oct", "Nov", "Dec"]

  /** Month number of a three-letter English abbreviation; anything else is January. */
  function MonthNumber(abbr: string): (m: nat)
    ensures 1 <= m <= 12
    ensures abbr in MONTHS ==> MONTHS[m - 1] == abbr
    ensures abbr !in MONTHS ==> m == 1
  {
    var k := FirstIndex(MONTHS, (x: string) => x == abbr);
    if k < |MONTHS| then k + 1 else 1
  }

  /** Two-digit text of a month or day number (`padStart(2, '0')`). */
  function TwoDigits(n: nat): string {
    PadTwo(NatToString(n))
  }

  /** Years below 100 are two-digit years: below 50 they are 20xx, otherwise 19xx. */
  function PivotYear(y: int): (r: int)
    ensures 0 <= y < 50 ==> r == 2000 + y
    ensures 50 <= y < 100 ==> r == 1900 + y
    ensures y >= 100 ==> r == y
  {
    if y < 100 then (if y < 50 then 2000 + y else 1900 + y) else y
  }

  /** The ISO text `YYYY-MM-DD` of a calendar date. */
  function IsoDate(year: int, month: nat, day: nat): string {
    IntToString(year) + "-" + TwoDigits(month) + "-" + TwoDigits(day)
  }

  /** `parseDate` of the company and shareholder scripts (`11-Feb-96`): blank
      text or a split on '-' that does not give three parts is null; the day
      and year go through `parseInt`, so NaN prints as "NaN". */
  function ParseMonDate(s: string): (r: Option<string>)
    ensures r.None? <==> IsBlank(s) || |Split(s, '-')| != 3
  {
    if IsBlank(s) then None
    else
      var parts := Split(s, '-');
      if |parts| != 3 then None
      else
        var day := ParseInt(parts[0]);
        var year := match ParseInt(parts[2]) case None => None case Some(y) => Some(PivotYear(y));
        var month := TwoDigits(MonthNumber(parts[1]));
        Some(NumberText(year) + "-" + month + "-" + PadTwo(NumberText(day)))
  }

  /** `parseDate` of migrate-lsdkkd.js (`6/3/08`): the trimmed text split on '/'
      must give three integers; two-digit years are 20xx; the month must lie in
      1..12 and the day in 1..31, whatever the month. */
  function ParseSlashDate(s: string): (r: Option<string>)
    ensures r.Some? ==> !IsBlank(s) && |Split(Trim(s), '/')| == 3
    ensures r.Some? ==> var parts := Split(Trim(s), '/');
      && ParseInt(parts[0]).Some? && 1 <= ParseInt(parts[0]).value <= 31
      && ParseInt(parts[1]).Some? && 1 <= ParseInt(parts[1]).value <= 12
      && ParseInt(parts[2]).Some?
  {
    if IsBlank(s) then None
    else
      var parts := Split(Trim(s), '/');
      if |parts| != 3 then None
      else SlashDateOf(ParseInt(parts[0]), ParseInt(parts[1]), ParseInt(parts[2]))
  }

  /** The date `ParseSlashDate` builds from the three numbers read. */
  function SlashDateOf(day: Option<int>, month: Option<int>, y: Option<int>): (r: Option<string>)
    ensures r.Some? ==> day.Some? && 1 <= day.value <= 31 && month.Some? && 1 <= month.value <= 12 && y.Some?
  {
    match (day, month, y)
    case (Some(d), Some(m), Some(y)) =>
      var year := if y < 100 then 2000 + y else y;
      if m < 1 || m > 12 then None
      else if d < 1 || d > 31 then None
      else Some(IsoDate(year, m, d))
    case _ => None
  }

  /** `parseOwnership`: empty text is 0; the first ',' becomes '.', and text
      `parseFloat` cannot read is 0. */
  function ParseOwnership(s: string): (r: real)
    ensures s == "" ==> r == 0.0
    ensures ParseFloat(ReplaceFirst(s, ',', '.')).None? ==> r == 0.0
  {
    if s == "" then 0.0
    else
      match ParseFloat(ReplaceFirst(s, ',', '.'))
      case None => 0.0
      case Some(v) => v
  }

  /** `parseInt(s) || 0`: NaN becomes 0. */
  function IntOrZero(s: string): (r: int)
    ensures ParseInt(s).None? ==> r == 0
    ensures ParseInt(s).Some? ==> r == ParseInt(s).value
  {
    match ParseInt(s)
    case None => 0
    case Some(v) => v
  }

  lemma MonthsDistinct()
    ensures Distinct(MONTHS)
  {
  }

  lemma MonthNumberOf(m: nat)
    requires 1 <= m <= 12
    ensures MonthNumber(MONTHS[m - 1]) == m
  {
    MonthsDistinct();
  }

  /** Two-digit text reads back as its number. */
  lemma ParseTwoDigits(n: nat, rest: string)
    requires rest == [] || !IsDigit(rest[0])
    ensures ParseInt(TwoDigits(n) + rest) == Some(n)
  {
    var ds := NatToString(n);
    if |ds| >= 2 {
      ParseIntOfNat(n, rest);
    } else {
      var t := TwoDigits(n);
      assert t == ['0'] + ds;
      var s := t + rest;
      assert AllDigits(t);
      assert s[0] == '0' && !IsSpace(s[0]);
      assert TrimStart(s) == s && Unsigned(s) == s;
      DigitPrefixOf(t, rest);
      NatToStringValue(n);
      assert t[..1] == ['0'];
      assert DigitsValue(t) == DigitsValue(['0']) * 10 + DigitValue(t[1]);
      assert DigitsValue(ds) == DigitsValue(ds[..0]) * 10 + DigitValue(ds[0]);
    }
  }

  lemma SplitThree(a: string, b: string, c: string, sep: char)
    requires sep !in a && sep !in b && sep !in c
    ensures Split(a + [sep] + b + [sep] + c, sep) == [a, b, c]
  {
    var parts := [a, b, c];
    assert parts[1..] == [b, c];
    assert [b, c][1..] == [c];
    assert Join([c], sep) == c;
    assert Join([b, c], sep) == b + [sep] + c;
    assert Join(parts, sep) == a + [sep] + (b + [sep] + c);
    assert a + [sep] + (b + [sep] + c) == a + [sep] + b + [sep] + c;
    SplitJoin(parts, sep);
  }

  lemma DigitsHaveNo(s: string, c: char)
    requires AllDigits(s) && !IsDigit(c)
    ensures c !in s
  {
  }

  /** `ParseMonDate` once its three parts are known to read as numbers. */
  lemma MonDateOfParts(s: string, a: string, b: string, c: string, day: nat, month: nat, y: int)
    requires !IsBlank(s) && Split(s, '-') == [a, b, c]
    requires ParseInt(a) == Some(day) && MonthNumber(b) == month && ParseInt(c) == Some(y)
    ensures ParseMonDate(s) == Some(IsoDate(PivotYear(y), month, day))
  {
  }

  /** Round trip of the `d-Mon-yy` parser: a day, a month abbreviation and a
      two-digit year come back as the ISO date with the year pivoted at 50. */
  lemma {:induction false} MonDateRoundTrip(day: nat, month: nat, yy: nat)
    requires 1 <= day <= 31 && 1 <= month <= 12 && yy < 100
    ensures ParseMonDate(NatToString(day) + "-" + MONTHS[month - 1] + "-" + TwoDigits(yy))
         == Some(IsoDate(PivotYear(yy), month, day))
  {
    var a, b, c := NatToString(day), MONTHS[month - 1], TwoDigits(yy);
    var s := a + "-" + b + "-" + c;
    MonDateText(a, b, c);
    assert ParseInt(a) == Some(day) by { ParseIntOfNat(day, ""); assert a + "" == a; }
    assert ParseInt(c) == Some(yy) by { ParseTwoDigits(yy, ""); assert c + "" == c; }
    assert MonthNumber(b) == month by { MonthNumberOf(month); }
    MonDateOfParts(s, a, b, c, day, month, yy);
  }

  /** Digits, a month abbreviation and digits joined by '-' form non-blank
      text that splits back into the three. */
  lemma MonDateText(a: string, b: string, c: string)
    requires AllDigits(a) && AllDigits(c) && a != "" && b in MONTHS
    ensures var s := a + "-" + b + "-" + c;
      !IsBlank(s) && Split(s, '-') == [a, b, c]
  {
    var s := a + "-" + b + "-" + c;
    assert s == a + ['-'] + b + ['-'] + c;
    DigitsHaveNo(a, '-');
    DigitsHaveNo(c, '-');
    assert '-' !in b;
    SplitThree(a, b, c, '-');
    assert s[0] == a[0] && !IsSpace(s[0]);
  }

  /** `11-Feb-96` reads as `1996-02-11`. */
  lemma MonDateExample()
    ensures ParseMonDate("11-Feb-96") == Some("1996-02-11")
  {
    MonDateExampleText();
    MonDateExampleIso();
    MonDateRoundTrip(11, 2, 96);
  }

  lemma MonDateExampleText()
    ensures NatToString(11) + "-" + MONTHS[1] + "-" + TwoDigits(96) == "11-Feb-96"
  {
    assert NatToString(11) == "11";
    assert TwoDigits(96) == "96";
  }

  lemma MonDateExampleIso()
    ensures IsoDate(1996, 2, 11) == "1996-02-11"
  {
    assert IntToString(1996) == "1996";
    assert TwoDigits(2) == "02";
    assert TwoDigits(11) == "11";
  }

  /** Three digit runs joined by a non-digit separator form a trimmed,
      non-blank text that splits back into the three runs. */
  lemma DigitTriple(a: string, b: string, c: string, sep: char)
    requires AllDigits(a) && AllDigits(b) && AllDigits(c) && a != "" && c != "" && !IsDigit(sep)
    ensures var s := a + [sep] + b + [sep] + c;
      Trim(s) == s && !IsBlank(s) && Split(s, sep) == [a, b, c]
  {
    var s := a + [sep] + b + [sep] + c;
    assert s[0] == a[0] && !IsSpace(s[0]);
    assert s[|s| - 1] == c[|c| - 1] && !IsSpace(s[|s| - 1]);
    TrimUnchanged(s);
    DigitsHaveNo(a, sep);
    DigitsHaveNo(b, sep);
    DigitsHaveNo(c, sep);
    SplitThree(a, b, c, sep);
  }

  /** `ParseSlashDate` once its three parts are known to read as numbers. */
  lemma SlashDateOfParts(s: string, a: string, b: string, c: string, day: nat, month: nat, y: int)
    requires !IsBlank(s) && Split(Trim(s), '/') == [a, b, c]
    requires ParseInt(a) == Some(day) && ParseInt(b) == Some(month) && ParseInt(c) == Some(y)
    requires 1 <= day <= 31 && 1 <= month <= 12
    ensures ParseSlashDate(s) == Some(IsoDate(if y < 100 then 2000 + y else y, month, day))
  {
    var parts := Split(Trim(s), '/');
    assert parts[0] == a && parts[1] == b && parts[2] == c;
    assert ParseSlashDate(s) == SlashDateOf(Some(day), Some(month), Some(y));
    SlashDateOfValid(day, month, y);
  }

  lemma SlashDateOfValid(day: nat, month: nat, y: int)
    requires 1 <= day <= 31 && 1 <= month <= 12
    ensures SlashDateOf(Some(day), Some(month), Some(y)) == Some(IsoDate(if y < 100 then 2000 + y else y, month, day))
  {
  }

  /** Round trip of the `d/m/y` parser: valid day and month numbers and any
      non-negative year come back as the ISO date, two-digit years as 20xx. */
  lemma {:induction false} SlashDateRoundTrip(day: nat, month: nat, y: nat)
    requires 1 <= day <= 31 && 1 <= month <= 12
    ensures ParseSlashDate(NatToString(day) + "/" + NatToString(month) + "/" + TwoDigits(y))
         == Some(IsoDate(if y < 100 then 2000 + y else y, month, day))
  {
    var a, b, c := NatToString(day), NatToString(month), TwoDigits(y);
    var s := a + "/" + b + "/" + c;
    assert s == a + ['/'] + b + ['/'] + c;
    DigitTriple(a, b, c, '/');
    assert ParseInt(a) == Some(day) by { ParseIntOfNat(day, ""); assert a + "" == a; }
    assert ParseInt(b) == Some(month) by { ParseIntOfNat(month, ""); assert b + "" == b; }
    assert ParseInt(c) == Some(y) by { ParseTwoDigits(y, ""); assert c + "" == c; }
    SlashDateOfParts(s, a, b, c, day, month, y);
  }

  /** `6/3/08` reads as `2008-03-06`. */
  lemma SlashDateExample()
    ensures ParseSlashDate("6/3/08") == Some("2008-03-06")
  {
    SlashDateExampleText();
    SlashDateExampleIso();
    SlashDateRoundTrip(6, 3, 8);
  }

  lemma SlashDateExampleText()
    ensures NatToString(6) + "/" + NatToString(3) + "/" + TwoDigits(8) == "6/3/08"
  {
    assert NatToString(6) == "6" && NatToString(3) == "3" && TwoDigits(8) == "08";
  }

  lemma SlashDateExampleIso()
    ensures IsoDate(2008, 3, 6) == "2008-03-06"
  {
    assert IntToString(2008) == "2008";
    assert TwoDigits(3) == "03";
    assert TwoDigits(6) == "06";
  }

  /** Day 31 is accepted in every month, February included. */
  lemma SlashDateAcceptsDay31(month: nat, y: nat)
    requires 1 <= month <= 12
    ensures ParseSlashDate(NatToString(31) + "/" + NatToString(month) + "/" + TwoDigits(y)).Some?
  {
    SlashDateRoundTrip(31, month, y);
  }

  /** Replacing the first comma of text whose first comma follows `a`. */
  lemma ReplaceFirstAfter(a: string, rest: string)
    requires ',' !in a
    ensures ReplaceFirst(a + "," + rest, ',', '.') == a + "." + rest
  {
    var s := a + "," + rest;
    forall j | 0 <= j < |a| ensures s[j] != ',' {
      assert s[j] == a[j];
    }
    IndexOfAt(s, ',', |a|);
  }

  /** `parseFloat` of text that starts with its own integer digits. */
  lemma ParseFloatOfParts(t: string, ip: string, fp: string)
    requires |t| > 0 && t[0] != '-' && TrimStart(t) == t && Unsigned(t) == t
    requires |ip| >= 1
    requires DigitPrefix(t) == ip && FractionDigits(t) == fp
    ensures ParseFloat(t) == Some(DecimalValue(ip, fp))
  {
  }

  /** `parseFloat` of digits, a point, fraction digits and non-digit text. */
  lemma ParseFloatDecimal(a: string, frac: string, rest: string)
    requires |a| >= 1 && AllDigits(a) && AllDigits(frac)
    requires rest == [] || !IsDigit(rest[0])
    ensures ParseFloat(a + "." + frac + rest)
         == Some(DecimalValue(a, frac))
  {
    var tail := "." + frac + rest;
    var t := a + tail;
    assert t == a + "." + frac + rest;
    assert t[0] == a[0];
    assert TrimStart(t) == t && Unsigned(t) == t by {
      assert IsDigit(t[0]) && !IsSpace(t[0]);
    }
    assert DigitPrefix(t) == a by {
      DigitPrefixOf(a, tail);
    }
    assert FractionDigits(t) == frac by {
      assert t[|a|..] == tail;
      assert tail[1..] == frac + rest;
      DigitPrefixOf(frac, rest);
    }
    ParseFloatOfParts(t, a, frac);
  }

  /** A decimal-comma number reads as its value; only the first comma is a
      decimal separator, so whatever follows the fraction digits is ignored. */
  lemma {:induction false} OwnershipDecimalComma(whole: nat, frac: string, rest: string)
    requires AllDigits(frac)
    requires rest == [] || !IsDigit(rest[0])
    ensures ParseOwnership(NatToString(whole) + "," + frac + rest)
         == DecimalValue(NatToString(whole), frac)
  {
    var a := NatToString(whole);
    assert a + "," + frac + rest == a + "," + (frac + rest);
    assert ReplaceFirst(a + "," + frac + rest, ',', '.') == a + "." + frac + rest by {
      DigitsHaveNo(a, ',');
      ReplaceFirstAfter(a, frac + rest);
      assert a + "." + (frac + rest) == a + "." + frac + rest;
    }
    ParseFloatDecimal(a, frac, rest);
    NatToStringValue(whole);
  }

  /** `"12,5"` reads as 12.5. */
  lemma OwnershipExample()
    ensures ParseOwnership("12,5") == 12.5
  {
    var s := NatToString(12) + "," + "5" + "";
    assert s == "12,5" by {
      assert NatToString(12) == "12";
    }
    assert DecimalValue(NatToString(12), "5") == 12.5 by {
      NatToStringValue(12);
      assert DigitsValue("5") == 5 by { assert "5"[..0] == ""; }
    }
    OwnershipDecimalComma(12, "5", "");
  }

  /** `"1,5,3"` reads as 1.5: the second comma ends the number. */
  lemma OwnershipSecondComma()
    ensures ParseOwnership("1,5,3") == 1.5
  {
    var s := NatToString(1) + "," + "5" + ",3";
    assert s == "1,5,3" by {
      assert NatToString(1) == "1";
    }
    assert DecimalValue(NatToString(1), "5") == 1.5 by {
      NatToStringValue(1);
      assert DigitsValue("5") == 5 by { assert "5"[..0] == ""; }
    }
    OwnershipDecimalComma(1, "5", ",3");
  }
}
