/** The line scanning every migration script shares: the file's text split
    on '\n', a section located by its first matching line, and the data rows
    after it read one trimmed line at a time until a terminator line, each
    row split on tabs. File reading is left to the caller: the scanners take
    the file's text. */
module Scanning {
  import opened Base
  import opened Text

  /** `content.split('\n')`. */
  function Lines(content: string): (ls: seq<string>)
    ensures |ls| >= 1
    ensures forall i :: 0 <= i < |ls| ==> '\n' !in ls[i]
  {
    Split(content, '\n')
  }

  /** `.filter(line => line.trim())`: the lines that are not blank. */
  function NonBlankLines(ls: seq<string>): (r: seq<string>)
    ensures forall l :: l in r <==> l in ls && !IsBlank(l)
  {
    var r := Filter(ls, NotBlank);
    assert forall l :: l in ls && !IsBlank(l) ==> l in r by {
      forall l | l in ls && !IsBlank(l) ensures l in r {
        var i :| 0 <= i < |ls| && ls[i] == l;
      }
    }
    r
  }

  /** A line with some non-white-space character. */
  predicate NotBlank(l: string) {
    !IsBlank(l)
  }

  /** A file without blank lines loses none to the filter. */
  lemma NoBlankLines(ls: seq<string>)
    requires forall i :: 0 <= i < |ls| ==> !IsBlank(ls[i])
    ensures NonBlankLines(ls) == ls
  {
    FilterAll(ls, NotBlank);
  }

  /** The columns of a data line: the trimmed line split on tabs. */
  function Columns(l: string): (cols: seq<string>)
    ensures |cols| >= 1
  {
    Split(Trim(l), '\t')
  }

  /** `columns[i] || ''`: a missing column reads as empty text. */
  function Col(cols: seq<string>, i: nat): (r: string)
    ensures i < |cols| ==> r == cols[i]
    ensures i >= |cols| ==> r == ""
  {
    if i < |cols| then cols[i] else ""
  }

  /** Position of the first line whose trimmed text satisfies `p`, or the
      number of lines when there is none. */
  function FirstLine(ls: seq<string>, p: string -> bool): (k: nat)
    ensures k <= |ls|
    ensures k < |ls| ==> p(Trim(ls[k]))
    ensures forall i :: 0 <= i < k ==> !p(Trim(ls[i]))
  {
    FirstIndex(ls, (l: string) => p(Trim(l)))
  }

  /** Past a line that does not match, the search goes on from the next. */
  lemma FirstLineStep(ls: seq<string>, p: string -> bool)
    requires |ls| > 0 && !p(Trim(ls[0]))
    ensures FirstLine(ls, p) == 1 + FirstLine(ls[1..], p)
  {
    var f := (l: string) => p(Trim(l));
    assert FirstLine(ls, p) == FirstIndex(ls, f);
    assert FirstLine(ls[1..], p) == FirstIndex(ls[1..], f);
  }

  /** A line the scan keeps: not blank, with at least `minCols` columns. */
  predicate Keep(l: string, minCols: nat) {
    Trim(l) != "" && |Columns(l)| >= minCols
  }

  /** The columns of each line, in order. */
  function ColumnsOf(ls: seq<string>): (rows: seq<seq<string>>)
    ensures |rows| == |ls|
    ensures forall i :: 0 <= i < |ls| ==> rows[i] == Columns(ls[i])
  {
    seq(|ls|, i requires 0 <= i < |ls| => Columns(ls[i]))
  }

  /** The data-row loop of the scripts: each line is trimmed; a line `stop`
      accepts ends the scan, a blank line is skipped, and a line with fewer
      than `minCols` columns is skipped; every other line is a row. */
  function Rows(ls: seq<string>, stop: string -> bool, minCols: nat): (rows: seq<seq<string>>)
    ensures |rows| <= |ls|
    ensures forall i :: 0 <= i < |rows| ==> |rows[i]| >= minCols
  {
    if |ls| == 0 then []
    else
      var t := Trim(ls[0]);
      if stop(t) then []
      else if t == "" || |Split(t, '\t')| < minCols then Rows(ls[1..], stop, minCols)
      else [Split(t, '\t')] + Rows(ls[1..], stop, minCols)
  }

  /** The lines `Keep` accepts, in order. */
  function Kept(ls: seq<string>, minCols: nat): (r: seq<string>)
    ensures forall l :: l in r <==> l in ls && Keep(l, minCols)
  {
    if |ls| == 0 then []
    else
      var r := (if Keep(ls[0], minCols) then [ls[0]] else []) + Kept(ls[1..], minCols);
      assert forall l :: l in ls <==> l == ls[0] || l in ls[1..];
      r
  }

  /** The loop reads the lines before the first terminator, keeps the
      non-blank ones with enough columns, and splits each: a direct
      description of what the loop with `break` and `continue` returns. */
  lemma {:induction false} RowsAsFilter(ls: seq<string>, stop: string -> bool, minCols: nat)
    ensures Rows(ls, stop, minCols) == ColumnsOf(Kept(ls[..FirstLine(ls, stop)], minCols))
  {
    if |ls| == 0 || stop(Trim(ls[0])) {
      assert FirstLine(ls, stop) == 0;
      assert ls[..0] == [];
    } else {
      var k := FirstLine(ls[1..], stop);
      FirstLineStep(ls, stop);
      var head := if Keep(ls[0], minCols) then [ls[0]] else [];
      RowsAsFilter(ls[1..], stop, minCols);
      KeptPrefixStep(ls, k, minCols);
      ColumnsOfAppend(head, Kept(ls[1..][..k], minCols));
      RowsStep(ls, stop, minCols);
    }
  }

  /** The kept lines of a prefix: the first line, if kept, then the kept
      lines of the rest of the prefix. */
  lemma KeptPrefixStep(ls: seq<string>, k: nat, minCols: nat)
    requires k + 1 <= |ls|
    ensures Kept(ls[..k + 1], minCols)
         == (if Keep(ls[0], minCols) then [ls[0]] else []) + Kept(ls[1..][..k], minCols)
  {
    var pre := ls[..k + 1];
    assert pre[0] == ls[0] && pre[1..] == ls[1..][..k];
  }

  /** One step of the loop past a line that does not stop it. */
  lemma RowsStep(ls: seq<string>, stop: string -> bool, minCols: nat)
    requires |ls| > 0 && !stop(Trim(ls[0]))
    ensures Rows(ls, stop, minCols)
         == ColumnsOf(if Keep(ls[0], minCols) then [ls[0]] else []) + Rows(ls[1..], stop, minCols)
  {
    var t := Trim(ls[0]);
    var cols := Split(t, '\t');
    assert Columns(ls[0]) == cols;
    if t == "" || |cols| < minCols {
      assert !Keep(ls[0], minCols);
      assert Rows(ls, stop, minCols) == Rows(ls[1..], stop, minCols);
      assert ColumnsOf([]) == [];
    } else {
      assert Keep(ls[0], minCols);
      assert Rows(ls, stop, minCols) == [cols] + Rows(ls[1..], stop, minCols);
      assert ColumnsOf([ls[0]]) == [cols];
    }
  }

  /** Splitting distributes over concatenation. */
  lemma ColumnsOfAppend(a: seq<string>, b: seq<string>)
    ensures ColumnsOf(a + b) == ColumnsOf(a) + ColumnsOf(b)
  {
  }

  /** A data line whose fields carry no tab or newline, the first not
      starting and the last not ending with white space, reads back as its
      fields. */
  lemma {:induction false} RowRoundTrip(fields: seq<string>)
    requires |fields| >= 1
    requires forall i :: 0 <= i < |fields| ==> '\t' !in fields[i]
    requires fields[0] != "" && !IsSpace(fields[0][0])
    requires fields[|fields| - 1] != "" && !IsSpace(fields[|fields| - 1][|fields[|fields| - 1]| - 1])
    ensures Trim(Join(fields, '\t')) == Join(fields, '\t')
    ensures Columns(Join(fields, '\t')) == fields
  {
    var l := Join(fields, '\t');
    JoinFirst(fields, '\t');
    JoinLast(fields, '\t');
    TrimUnchanged(l);
    SplitJoin(fields, '\t');
  }

  /** A join starts with the first part's first character. */
  lemma JoinFirst(parts: seq<string>, sep: char)
    requires |parts| >= 1 && parts[0] != ""
    ensures |Join(parts, sep)| >= 1 && Join(parts, sep)[0] == parts[0][0]
  {
  }

  /** A join ends with the last part's last character. */
  lemma {:induction false} JoinLast(parts: seq<string>, sep: char)
    requires |parts| >= 1 && parts[|parts| - 1] != ""
    ensures var j := Join(parts, sep);
      |j| >= 1 && j[|j| - 1] == parts[|parts| - 1][|parts[|parts| - 1]| - 1]
  {
    if |parts| > 1 {
      JoinLast(parts[1..], sep);
    }
  }

  /** A row an export can hold as one line: at least one field, no tab or
      line break inside a field, and no white space at the line's two ends. */
  predicate CleanRow(fields: seq<string>) {
    |fields| >= 1 &&
    (forall i :: 0 <= i < |fields| ==> '\t' !in fields[i] && '\n' !in fields[i]) &&
    fields[0] != "" && !IsSpace(fields[0][0]) &&
    fields[|fields| - 1] != "" && !IsSpace(fields[|fields| - 1][|fields[|fields| - 1]| - 1])
  }

  /** The export line of each row: its fields joined by tabs. */
  function RowLines(rows: seq<seq<string>>): (ls: seq<string>)
    requires forall i :: 0 <= i < |rows| ==> CleanRow(rows[i])
    ensures |ls| == |rows|
  {
    forall i | 0 <= i < |rows| ensures |rows[i]| >= 1 {
      assert CleanRow(rows[i]);
    }
    seq(|rows|, i requires 0 <= i < |rows| => Join(rows[i], '\t'))
  }

  /** A character absent from the parts and distinct from the separator is
      absent from the join. */
  lemma {:induction false} JoinFree(parts: seq<string>, sep: char, c: char)
    requires |parts| >= 1 && c != sep
    requires forall i :: 0 <= i < |parts| ==> c !in parts[i]
    ensures c !in Join(parts, sep)
  {
    if |parts| > 1 {
      JoinFree(parts[1..], sep, c);
    }
  }

  /** The export line of a clean row is one non-blank line of the file. */
  lemma CleanRowLine(fields: seq<string>)
    requires CleanRow(fields)
    ensures '\n' !in Join(fields, '\t') && !IsBlank(Join(fields, '\t'))
    ensures Trim(Join(fields, '\t')) == Join(fields, '\t')
    ensures Columns(Join(fields, '\t')) == fields
  {
    JoinFree(fields, '\t', '\n');
    JoinFirst(fields, '\t');
    RowRoundTrip(fields);
  }

  /** Scanning the export lines of clean rows, none of them a terminator
      and each wide enough, gives the rows back. */
  lemma {:induction false} RowsOfRowLines(rows: seq<seq<string>>, stop: string -> bool, minCols: nat)
    requires forall i :: 0 <= i < |rows| ==> CleanRow(rows[i]) && |rows[i]| >= minCols && !stop(Join(rows[i], '\t'))
    ensures Rows(RowLines(rows), stop, minCols) == rows
  {
    if |rows| > 0 {
      var ls := RowLines(rows);
      assert ls[0] == Join(rows[0], '\t');
      assert ls[1..] == RowLines(rows[1..]);
      CleanRowLine(rows[0]);
      assert Keep(ls[0], minCols);
      RowsStep(ls, stop, minCols);
      assert ColumnsOf([ls[0]]) == [rows[0]];
      RowsOfRowLines(rows[1..], stop, minCols);
      assert [rows[0]] + rows[1..] == rows;
    }
  }
}
