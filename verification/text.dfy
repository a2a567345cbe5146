/** The JavaScript string and number built-ins the source relies on, written
    over `seq<char>`: `split`, `trim`, `startsWith`, `includes`, `toLowerCase`,
    `replace`, `padStart`, `parseInt`, `parseFloat` and number-to-text. */
module Text {
  import opened Base

  predicate IsDigit(c: char) {
    '0' <= c <= '9'
  }

  function DigitValue(c: char): nat
    requires IsDigit(c)
  {
    c as int - '0' as int
  }

  function DigitChar(d: nat): (c: char)
    requires d < 10
    ensures IsDigit(c) && DigitValue(c) == d
  {
    ('0' as int + d) as char
  }

  predicate AllDigits(s: string) {
    forall i :: 0 <= i < |s| ==> IsDigit(s[i])
  }

  /** White space removed by `trim`: the ASCII white-space and line-terminator
      characters, NO-BREAK SPACE and the byte-order mark. */
  predicate IsSpace(c: char) {
    c == ' ' || c == '\t' || c == '\n' || c == '\r'
    || c as int == 0x0B || c as int == 0x0C || c as int == 0xA0 || c as int == 0xFEFF
  }

  predicate IsBlank(s: string) {
    forall i :: 0 <= i < |s| ==> IsSpace(s[i])
  }

  function TrimStart(s: string): (r: string)
    ensures |r| <= |s| && r == s[|s| - |r|..]
    ensures forall i :: 0 <= i < |s| - |r| ==> IsSpace(s[i])
    ensures r == [] || !IsSpace(r[0])
  {
    if |s| > 0 && IsSpace(s[0]) then TrimStart(s[1..]) else s
  }

  function TrimEnd(s: string): (r: string)
    ensures |r| <= |s| && r == s[..|r|]
    ensures forall i :: |r| <= i < |s| ==> IsSpace(s[i])
    ensures r == [] || !IsSpace(r[|r| - 1])
  {
    if |s| > 0 && IsSpace(s[|s| - 1]) then TrimEnd(s[..|s| - 1]) else s
  }

  /** `s.trim()`. */
  function Trim(s: string): (r: string)
    ensures r == [] <==> IsBlank(s)
    ensures r == [] || (!IsSpace(r[0]) && !IsSpace(r[|r| - 1]))
    ensures |r| <= |s|
  {
    TrimBlank(s);
    TrimEnd(TrimStart(s))
  }

  lemma TrimBlank(s: string)
    ensures TrimEnd(TrimStart(s)) == [] <==> IsBlank(s)
    ensures TrimEnd(TrimStart(s)) != [] ==> !IsSpace(TrimEnd(TrimStart(s))[0])
  {
    var t := TrimStart(s);
    var r := TrimEnd(t);
    if r == [] {
      assert |t| == 0;
      assert forall i :: 0 <= i < |s| ==> IsSpace(s[i]);
    } else {
      assert r[0] == t[0] == s[|s| - |t|];
    }
  }

  /** Text without white space at either end is its own trim. */
  lemma TrimUnchanged(s: string)
    requires s != [] && !IsSpace(s[0]) && !IsSpace(s[|s| - 1])
    ensures Trim(s) == s
  {
    assert TrimStart(s) == s;
    assert TrimEnd(s) == s;
  }

  /** `s.startsWith(p)`. */
  predicate StartsWith(s: string, p: string) {
    |p| <= |s| && s[..|p|] == p
  }

  /** `s.includes(p)`. */
  predicate Contains(s: string, p: string)
    decreases |s|
  {
    StartsWith(s, p) || (|s| > 0 && Contains(s[1..], p))
  }

  /** `Contains` holds exactly when `p` occurs at some position of `s`. */
  lemma {:induction false} ContainsIffOccurs(s: string, p: string)
    ensures Contains(s, p) <==> exists i :: 0 <= i <= |s| && StartsWith(s[i..], p)
    decreases |s|
  {
    assert s[0..] == s;
    if |s| > 0 {
      ContainsIffOccurs(s[1..], p);
      if Contains(s[1..], p) {
        var i :| 0 <= i <= |s[1..]| && StartsWith(s[1..][i..], p);
        assert s[1..][i..] == s[i + 1..];
      }
      if exists i :: 0 <= i <= |s| && StartsWith(s[i..], p) {
        var i :| 0 <= i <= |s| && StartsWith(s[i..], p);
        if i > 0 {
          assert s[1..][i - 1..] == s[i..];
        }
      }
    }
  }

  /** Lower-case a character; only the ASCII letters are mapped. */
  function LowerChar(c: char): char {
    if 'A' <= c <= 'Z' then (c as int + 32) as char else c
  }

  /** `s.toLowerCase()`, restricted to ASCII letters. */
  function Lower(s: string): (r: string)
    ensures |r| == |s|
    ensures forall i :: 0 <= i < |s| ==> r[i] == LowerChar(s[i])
  {
    seq(|s|, i requires 0 <= i < |s| => LowerChar(s[i]))
  }

  /** Number of occurrences of `c` in `s`. */
  function Occurrences(s: string, c: char): nat {
    if |s| == 0 then 0 else (if s[0] == c then 1 else 0) + Occurrences(s[1..], c)
  }

  /** `s.split(sep)` for a one-character separator: n separators give n + 1
      parts, and the empty string gives one empty part. */
  function Split(s: string, sep: char): (parts: seq<string>)
    ensures |parts| == Occurrences(s, sep) + 1
    ensures forall i :: 0 <= i < |parts| ==> sep !in parts[i]
  {
    if |s| == 0 then [""]
    else
      var rest := Split(s[1..], sep);
      if s[0] == sep then [""] + rest
      else [[s[0]] + rest[0]] + rest[1..]
  }

  /** `parts.join(sep)`. */
  function Join(parts: seq<string>, sep: char): string
    requires |parts| >= 1
  {
    if |parts| == 1 then parts[0] else parts[0] + [sep] + Join(parts[1..], sep)
  }

  /** Splitting loses nothing: joining the parts restores the text. */
  lemma {:induction false} JoinSplit(s: string, sep: char)
    ensures Join(Split(s, sep), sep) == s
  {
    if |s| > 0 {
      JoinSplit(s[1..], sep);
      var rest := Split(s[1..], sep);
      if s[0] != sep {
        var parts := Split(s, sep);
        assert parts[1..] == rest[1..];
        if |rest| > 1 {
          assert Join(rest, sep) == rest[0] + [sep] + Join(rest[1..], sep);
        }
      } else {
        assert Split(s, sep)[1..] == rest;
      }
    }
  }

  /** Joining separator-free parts and splitting again gives the parts back. */
  lemma {:induction false} SplitJoin(parts: seq<string>, sep: char)
    requires |parts| >= 1
    requires forall i :: 0 <= i < |parts| ==> sep !in parts[i]
    ensures Split(Join(parts, sep), sep) == parts
    decreases |parts|, |parts[0]|
  {
    if |parts| == 1 {
      SplitFree(parts[0], sep);
    } else if |parts[0]| == 0 {
      SplitJoin(parts[1..], sep);
      assert Join(parts, sep) == [sep] + Join(parts[1..], sep);
      assert Join(parts, sep)[1..] == Join(parts[1..], sep);
      assert [""] + parts[1..] == parts;
    } else {
      var shorter := [parts[0][1..]] + parts[1..];
      assert shorter[1..] == parts[1..];
      assert parts[0][0] in parts[0];
      SplitJoin(shorter, sep);
      JoinShorter(parts, sep);
      SplitCons(Join(parts, sep), sep);
      assert [parts[0][0]] + parts[0][1..] == parts[0];
      assert [[parts[0][0]] + shorter[0]] + shorter[1..] == parts;
    }
  }

  /** A join whose first part is not empty is that part's first character
      followed by the join with the part shortened by it. */
  lemma JoinShorter(parts: seq<string>, sep: char)
    requires |parts| >= 1 && |parts[0]| > 0
    ensures |Join(parts, sep)| > 0 && Join(parts, sep)[0] == parts[0][0]
    ensures Join(parts, sep)[1..] == Join([parts[0][1..]] + parts[1..], sep)
  {
    var shorter := [parts[0][1..]] + parts[1..];
    assert shorter[1..] == parts[1..];
    assert Join(parts, sep) == [parts[0][0]] + Join(shorter, sep);
  }

  /** A text starting with a character other than the separator splits into
      that character glued to the rest's first part, then the rest's other parts. */
  lemma SplitCons(x: string, sep: char)
    requires |x| > 0 && x[0] != sep
    ensures Split(x, sep) == [[x[0]] + Split(x[1..], sep)[0]] + Split(x[1..], sep)[1..]
  {
  }

  lemma {:induction false} SplitFree(s: string, sep: char)
    requires sep !in s
    ensures Split(s, sep) == [s]
  {
    if |s| > 0 {
      assert s[0] in s;
      assert forall c :: c in s[1..] ==> c in s;
      SplitFree(s[1..], sep);
      assert [s[0]] + s[1..] == s;
    }
  }

  /** The longest prefix of `s` made of decimal digits. */
  function DigitPrefix(s: string): (r: string)
    ensures |r| <= |s| && r == s[..|r|]
    ensures AllDigits(r)
    ensures |r| == |s| || !IsDigit(s[|r|])
  {
    if |s| > 0 && IsDigit(s[0]) then [s[0]] + DigitPrefix(s[1..]) else []
  }

  /** The value of a string of decimal digits, most significant first. */
  function DigitsValue(ds: string): nat
    requires AllDigits(ds)
  {
    if |ds| == 0 then 0 else DigitsValue(ds[..|ds| - 1]) * 10 + DigitValue(ds[|ds| - 1])
  }

  function Pow10(n: nat): (r: nat)
    ensures r >= 1
  {
    if n == 0 then 1 else 10 * Pow10(n - 1)
  }

  /** `String(n)` for a natural number. */
  function NatToString(n: nat): (r: string)
    ensures |r| >= 1 && AllDigits(r)
    ensures n >= 10 <==> |r| >= 2
  {
    if n < 10 then [DigitChar(n)] else NatToString(n / 10) + [DigitChar(n % 10)]
  }

  /** `String(i)` for an integer. */
  function IntToString(i: int): (r: string)
    ensures |r| >= 1
  {
    if i < 0 then "-" + NatToString(-i) else NatToString(i)
  }

  /** `String(x)` for the result of `parseInt`: NaN prints as "NaN". */
  function NumberText(x: Option<int>): string {
    match x
    case None => "NaN"
    case Some(i) => IntToString(i)
  }

  /** `s.padStart(2, '0')`. */
  function PadTwo(s: string): (r: string)
    ensures |r| == if |s| >= 2 then |s| else 2
    ensures r[|r| - |s|..] == s
    ensures forall i :: 0 <= i < |r| - |s| ==> r[i] == '0'
  {
    if |s| >= 2 then s else seq(2 - |s|, _ => '0') + s
  }

  /** Printing a natural number and reading the digits back gives the number. */
  lemma {:induction false} NatToStringValue(n: nat)
    ensures DigitsValue(NatToString(n)) == n
  {
    if n >= 10 {
      NatToStringValue(n / 10);
      var r := NatToString(n);
      assert r[..|r| - 1] == NatToString(n / 10);
    }
  }

  /** The digit prefix of a digit string followed by a non-digit is that string. */
  lemma {:induction false} DigitPrefixOf(ds: string, rest: string)
    requires AllDigits(ds)
    requires rest == [] || !IsDigit(rest[0])
    ensures DigitPrefix(ds + rest) == ds
  {
    if |ds| > 0 {
      assert (ds + rest)[1..] == ds[1..] + rest;
      DigitPrefixOf(ds[1..], rest);
      assert [ds[0]] + ds[1..] == ds;
    } else {
      assert ds + rest == rest;
    }
  }

  /** JavaScript `parseInt(s)` in base ten: leading white space, an optional
      sign, then the longest run of digits; None stands for NaN. */
  function ParseInt(s: string): (r: Option<int>)
    ensures r.None? <==> DigitPrefix(Unsigned(TrimStart(s))) == []
  {
    var t := TrimStart(s);
    var ds := DigitPrefix(Unsigned(t));
    if |ds| == 0 then None
    else if |t| > 0 && t[0] == '-' then Some(-(DigitsValue(ds) as int))
    else Some(DigitsValue(ds) as int)
  }

  /** The text after an optional leading sign. */
  function Unsigned(t: string): (r: string)
    ensures r == t || (|t| > 0 && r == t[1..])
  {
    if |t| > 0 && (t[0] == '-' || t[0] == '+') then t[1..] else t
  }

  /** `parseInt` reads back what `String` printed, whatever non-digit text follows. */
  lemma ParseIntOfNat(n: nat, rest: string)
    requires rest == [] || !IsDigit(rest[0])
    ensures ParseInt(NatToString(n) + rest) == Some(n)
  {
    var ds := NatToString(n);
    var s := ds + rest;
    assert s[0] == ds[0] && IsDigit(s[0]);
    assert !IsSpace(s[0]);
    assert TrimStart(s) == s;
    assert Unsigned(s) == s;
    DigitPrefixOf(ds, rest);
    NatToStringValue(n);
    assert DigitPrefix(Unsigned(TrimStart(s))) == ds;
  }

  /** JavaScript `parseFloat(s)` for plain decimal notation: leading white space,
      an optional sign, integer digits, optionally a point and fraction digits;
      None stands for NaN. */
  function ParseFloat(s: string): (r: Option<real>)
    ensures r.None? <==> DigitPrefix(Unsigned(TrimStart(s))) == [] && FractionDigits(Unsigned(TrimStart(s))) == []
  {
    var t := TrimStart(s);
    var body := Unsigned(t);
    var ip := DigitPrefix(body);
    var fp := FractionDigits(body);
    if |ip| == 0 && |fp| == 0 then None
    else
      var v := DecimalValue(ip, fp);
      Some(if |t| > 0 && t[0] == '-' then -v else v)
  }

  /** The value of integer digits `ip` followed by fraction digits `fp`. */
  function DecimalValue(ip: string, fp: string): (v: real)
    requires AllDigits(ip) && AllDigits(fp)
    ensures v >= DigitsValue(ip) as real
  {
    DigitsValue(ip) as real + DigitsValue(fp) as real / Pow10(|fp|) as real
  }

  /** JavaScript `Number(s)` for plain decimal notation: surrounding white
      space is ignored, blank text is 0, otherwise the whole text must be an
      optional sign, integer digits and optionally a point with fraction
      digits, with at least one digit; None stands for NaN. */
  function ToNumber(s: string): (r: Option<real>)
    ensures IsBlank(s) ==> r == Some(0.0)
    ensures r.Some? && !IsBlank(s) ==> HasDigit(Trim(s))
  {
    var t := Trim(s);
    if t == [] then Some(0.0) else TrimmedNumber(t)
  }

  /** `Number` of non-empty trimmed text: the whole of it must be read. */
  function TrimmedNumber(t: string): (r: Option<real>)
    requires t != []
    ensures r.Some? ==> HasDigit(t)
  {
    var body := Unsigned(t);
    var ip := DigitPrefix(body);
    var fp := FractionDigits(body);
    var pointed := |ip| < |body| && body[|ip|] == '.';
    var used := |ip| + (if pointed then 1 + |fp| else 0);
    if (|ip| == 0 && |fp| == 0) || used != |body| then None
    else
      HasDigitOfBody(t);
      var v := DecimalValue(ip, fp);
      Some(if t[0] == '-' then -v else v)
  }

  /** Some character of `t` is a decimal digit. */
  predicate HasDigit(t: string) {
    exists i :: 0 <= i < |t| && IsDigit(t[i])
  }

  /** Text whose unsigned part starts with integer or fraction digits holds a digit. */
  lemma HasDigitOfBody(t: string)
    requires DigitPrefix(Unsigned(t)) != [] || FractionDigits(Unsigned(t)) != []
    ensures HasDigit(t)
  {
    var body := Unsigned(t);
    var off := |t| - |body|;
    assert body == t[off..];
    var ip := DigitPrefix(body);
    if ip != [] {
      assert t[off] == body[0] == ip[0];
    } else {
      var fp := FractionDigits(body);
      assert body[|ip|..] == body;
      assert fp == DigitPrefix(body[1..]);
      assert t[off + 1] == body[1] == fp[0];
    }
  }

  /** `Number` reads back the decimal text `String` prints for a natural number. */
  lemma ToNumberOfNat(n: nat)
    ensures ToNumber(NatToString(n)) == Some(n as real)
  {
    var ds := NatToString(n);
    assert Trim(ds) == ds by {
      assert !IsSpace(ds[0]) && !IsSpace(ds[|ds| - 1]);
      TrimUnchanged(ds);
    }
    NatToStringValue(n);
    ToNumberOfDigits(ds);
  }

  /** Untrimmed digits read as their value. */
  lemma ToNumberOfDigits(ds: string)
    requires |ds| >= 1 && AllDigits(ds) && Trim(ds) == ds
    ensures ToNumber(ds) == Some(DigitsValue(ds) as real)
  {
    assert ToNumber(ds) == TrimmedNumber(ds);
    assert Unsigned(ds) == ds;
    assert DigitPrefix(ds) == ds by {
      DigitPrefixOf(ds, []);
      assert ds + [] == ds;
    }
    assert FractionDigits(ds) == [] by {
      assert ds[|ds|..] == [];
    }
    assert DecimalValue(ds, []) == DigitsValue(ds) as real by {
      assert DigitsValue([]) == 0 && Pow10(0) == 1;
    }
    assert ds[0] != '-';
  }

  /** A number `Number` accepts is written only with digits, at most one sign
      at the front and points. */
  lemma ToNumberChars(s: string)
    requires ToNumber(s).Some?
    ensures forall i :: 0 <= i < |Trim(s)| ==> IsDigit(Trim(s)[i]) || Trim(s)[i] == '.' || (i == 0 && Trim(s)[i] in "+-")
  {
    var t := Trim(s);
    if t != [] {
      TrimmedNumberChars(t);
    }
  }

  lemma TrimmedNumberChars(t: string)
    requires t != [] && TrimmedNumber(t).Some?
    ensures forall i :: 0 <= i < |t| ==> IsDigit(t[i]) || t[i] == '.' || (i == 0 && t[i] in "+-")
  {
    var body := Unsigned(t);
    var ip := DigitPrefix(body);
    var fp := FractionDigits(body);
    var pointed := |ip| < |body| && body[|ip|] == '.';
    assert |ip| + (if pointed then 1 + |fp| else 0) == |body|;
    var off := |t| - |body|;
    assert body == t[off..];
    assert off == 0 || (off == 1 && t[0] in "+-");
    NumberBodyChars(body);
    forall i | off <= i < |t| ensures IsDigit(t[i]) || t[i] == '.' {
      assert t[i] == body[i - off];
    }
  }

  /** A sign-free body read in full holds only digits and the point. */
  lemma NumberBodyChars(body: string)
    requires var ip := DigitPrefix(body);
      var pointed := |ip| < |body| && body[|ip|] == '.';
      |ip| + (if pointed then 1 + |FractionDigits(body)| else 0) == |body|
    ensures forall k :: 0 <= k < |body| ==> IsDigit(body[k]) || body[k] == '.'
  {
    var ip := DigitPrefix(body);
    var fp := FractionDigits(body);
    forall k | 0 <= k < |body| ensures IsDigit(body[k]) || body[k] == '.' {
      if k < |ip| {
        assert body[k] == ip[k];
      } else if k > |ip| {
        assert fp == DigitPrefix(body[|ip| + 1..]);
        assert body[k] == fp[k - |ip| - 1];
      }
    }
  }

  /** The digits after the point that follows the integer digits of `body`. */
  function FractionDigits(body: string): (r: string)
    ensures AllDigits(r)
  {
    var ip := DigitPrefix(body);
    var after := body[|ip|..];
    if |after| > 0 && after[0] == '.' then DigitPrefix(after[1..]) else []
  }

  /** Position of the first `c` in `s`, or `|s|` when there is none (`indexOf`). */
  function IndexOf(s: string, c: char): (k: nat)
    ensures k <= |s|
    ensures k < |s| ==> s[k] == c
    ensures c !in s[..k]
  {
    if |s| == 0 then 0
    else if s[0] == c then 0
    else
      var k := 1 + IndexOf(s[1..], c);
      assert s[..k] == [s[0]] + s[1..][..k - 1];
      k
  }

  /** `IndexOf` finds a character at `k` when none occurs before `k`. */
  lemma IndexOfAt(s: string, c: char, k: nat)
    requires k < |s| && s[k] == c
    requires forall j :: 0 <= j < k ==> s[j] != c
    ensures IndexOf(s, c) == k
  {
    var k' := IndexOf(s, c);
    assert s[..k'] <= s;
    assert forall j :: 0 <= j < k' ==> s[..k'][j] == s[j];
  }

  /** `s.replace(a, b)` with a one-character pattern: only the first `a` changes. */
  function ReplaceFirst(s: string, a: char, b: char): (r: string)
    ensures |r| == |s|
    ensures forall i :: 0 <= i < |s| ==> r[i] == if i == IndexOf(s, a) then b else s[i]
  {
    var k := IndexOf(s, a);
    if k == |s| then s else s[..k] + [b] + s[k + 1..]
  }

  /** `s.replace(/c/g, '')`: every `c` removed, the rest kept in order. */
  function RemoveAll(s: string, c: char): (r: string)
    ensures c !in r
    ensures |r| == |s| - Occurrences(s, c)
    ensures forall x :: x in r <==> x in s && x != c
  {
    if |s| == 0 then "" else (if s[0] == c then "" else [s[0]]) + RemoveAll(s[1..], c)
  }
}
