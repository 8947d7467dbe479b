/** The audit-log export against a parser for section 2 of RFC 4180, with a line feed as the line
    break: rows are records, the last record may or may not end in a line break, fields may be quoted,
    a quote inside a quoted field is doubled, and a bare field holds no quote, comma or line break. */
module Csv {
  import opened Common

  // ---------------------------------------------------------------- printing

  predicate FormulaLeader(c: char) { c == '=' || c == '+' || c == '-' || c == '@' || c == '\t' || c == '\r' }

  /** The text of a cell with the spreadsheet-formula guard; NULL is empty. */
  function Guard(v: Option<string>): string {
    if v.None? then ""
    else if v.value != "" && FormulaLeader(v.value[0]) then "'" + v.value
    else v.value
  }

  predicate NeedsQuotes(s: string) { ',' in s || '"' in s || '\n' in s }

  /** Every quote doubled. */
  function DoubleQuotes(s: string): string {
    if s == "" then "" else (if s[0] == '"' then "\"\"" else [s[0]]) + DoubleQuotes(s[1..])
  }

  function EscapeCsv(v: Option<string>): string {
    var s := Guard(v);
    if NeedsQuotes(s) then "\"" + DoubleQuotes(s) + "\"" else s
  }

  function Join(parts: seq<string>, sep: char): string {
    if parts == [] then "" else if |parts| == 1 then parts[0] else parts[0] + [sep] + Join(parts[1..], sep)
  }

  type Row = seq<Option<string>>

  function Cells(row: Row): seq<string> {
    if row == [] then [] else [EscapeCsv(row[0])] + Cells(row[1..])
  }

  function Line(row: Row): string { Join(Cells(row), ',') }

  function Lines(rows: seq<Row>): seq<string> {
    if rows == [] then [] else [Line(rows[0])] + Lines(rows[1..])
  }

  function Print(rows: seq<Row>): string { Join(Lines(rows), '\n') }

  const HEADINGS := [
    "ID", "User ID", "User Name", "User Email", "Action", "Target Type", "Target ID", "Detail", "IP", "Created At"]

  /** The body of the export: the line of headings, a line break, the printed rows. */
  function Export(headings: seq<string>, rows: seq<Row>): string { Join(headings, ',') + "\n" + Print(rows) }

  // ---------------------------------------------------------------- parsing

  /** The inside of a quoted field and what follows its closing quote. */
  function ParseQuoted(s: string): (r: Option<(string, string)>)
    ensures r.Some? ==> |r.value.1| < |s|
  {
    if s == "" then None
    else if s[0] != '"' then Cons(s[0], ParseQuoted(s[1..]))
    else if |s| > 1 && s[1] == '"' then Cons('"', ParseQuoted(s[2..]))
    else Some(("", s[1..]))
  }

  function ParseBare(s: string): (r: Option<(string, string)>)
    ensures r.Some? ==> |r.value.1| <= |s|
  {
    if s == "" || s[0] == ',' || s[0] == '\n' then Some(("", s))
    else if s[0] == '"' then None
    else Cons(s[0], ParseBare(s[1..]))
  }

  function Cons(c: char, r: Option<(string, string)>): (t: Option<(string, string)>)
    ensures t.Some? <==> r.Some?
    ensures r.Some? ==> t.value.1 == r.value.1
  {
    if r.None? then None else Some(([c] + r.value.0, r.value.1))
  }

  function ParseField(s: string): (r: Option<(string, string)>)
    ensures r.Some? ==> |r.value.1| <= |s|
  {
    if s != "" && s[0] == '"' then ParseQuoted(s[1..]) else ParseBare(s)
  }

  /** Fields separated by commas, and what follows: nothing, or a line break. */
  function ParseRecord(s: string): (r: Option<(seq<string>, string)>)
    ensures r.Some? ==> |r.value.1| <= |s|
    decreases |s|
  {
    var f := ParseField(s);
    if f.None? then None
    else
      var rest := f.value.1;
      if rest == "" || rest[0] == '\n' then Some(([f.value.0], rest))
      else if rest[0] != ',' then None
      else
        var more := ParseRecord(rest[1..]);
        if more.None? then None else Some(([f.value.0] + more.value.0, more.value.1))
  }

  function Parse(s: string): Option<seq<seq<string>>>
    decreases |s|
  {
    var r := ParseRecord(s);
    if r.None? then None
    else
      var rest := r.value.1;
      if |rest| <= 1 then Some([r.value.0])
      else
        var more := Parse(rest[1..]);
        if more.None? then None else Some([r.value.0] + more.value)
  }

  // ---------------------------------------------------------------- round trip

  predicate AtFieldEnd(rest: string) { rest == "" || rest[0] == ',' || rest[0] == '\n' }

  lemma {:induction false} QuotedRoundTrip(s: string, rest: string)
    requires AtFieldEnd(rest)
    ensures ParseQuoted(DoubleQuotes(s) + "\"" + rest) == Some((s, rest))
  {
    if s == "" {
      assert DoubleQuotes(s) + "\"" + rest == "\"" + rest;
    } else {
      QuotedRoundTrip(s[1..], rest);
      var tail := DoubleQuotes(s[1..]) + "\"" + rest;
      assert s == [s[0]] + s[1..];
      if s[0] == '"' {
        assert DoubleQuotes(s) + "\"" + rest == "\"\"" + tail;
      } else {
        assert DoubleQuotes(s) + "\"" + rest == [s[0]] + tail;
      }
    }
  }

  /** No quote follows, so that one before it closes its field. */
  predicate NoQuoteNext(rest: string) { rest == "" || rest[0] != '"' }

  /** The quoted fields are exactly the texts with every quote doubled. */
  lemma {:induction false} QuotedIff(s: string, t: string, rest: string)
    ensures ParseQuoted(s) == Some((t, rest))
            <==> s == DoubleQuotes(t) + "\"" + rest && NoQuoteNext(rest)
  {
    var doubled := DoubleQuotes(t) + "\"" + rest;
    if s != "" {
      if s[0] == '"' && |s| > 1 && s[1] == '"' {
        if t != "" {
          QuotedIff(s[2..], t[1..], rest);
          assert t == [t[0]] + t[1..];
          assert t[0] == '"' ==> doubled == "\"\"" + (DoubleQuotes(t[1..]) + "\"" + rest);
          assert s == "\"\"" + s[2..];
        } else {
          assert doubled == "\"" + rest;
        }
      } else if s[0] == '"' {
        assert t == "" ==> doubled == "\"" + rest;
        assert s == "\"" + s[1..];
      } else if t != "" {
        QuotedIff(s[1..], t[1..], rest);
        assert t == [t[0]] + t[1..] && s == [s[0]] + s[1..];
        assert t[0] != '"' ==> doubled == [t[0]] + (DoubleQuotes(t[1..]) + "\"" + rest);
      }
    }
  }

  lemma {:induction false} BareRoundTrip(s: string, rest: string)
    requires AtFieldEnd(rest) && !NeedsQuotes(s)
    ensures ParseBare(s + rest) == Some((s, rest))
  {
    if s == "" {
      assert s + rest == rest;
    } else {
      BareRoundTrip(s[1..], rest);
      assert s + rest == [s[0]] + (s[1..] + rest) && s == [s[0]] + s[1..];
    }
  }

  lemma FieldRoundTrip(v: Option<string>, rest: string)
    requires AtFieldEnd(rest)
    ensures ParseField(EscapeCsv(v) + rest) == Some((Guard(v), rest))
  {
    var s := Guard(v);
    if NeedsQuotes(s) {
      var tail := DoubleQuotes(s) + "\"" + rest;
      QuotedRoundTrip(s, rest);
      assert EscapeCsv(v) + rest == "\"" + tail;
      assert ("\"" + tail)[1..] == tail;
    } else {
      BareRoundTrip(s, rest);
      if s != "" {
        assert s[0] in s;
        assert (s + rest)[0] == s[0];
      } else {
        assert s + rest == rest;
      }
    }
  }

  lemma JoinCons(part: string, parts: seq<string>, sep: char)
    requires parts != []
    ensures Join([part] + parts, sep) == part + [sep] + Join(parts, sep)
  {
    assert ([part] + parts)[1..] == parts;
  }

  lemma LineCons(row: Row)
    requires row != []
    ensures Line(row) == if |row| == 1 then EscapeCsv(row[0]) else EscapeCsv(row[0]) + "," + Line(row[1..])
  {
    if |row| == 1 {
      assert row[1..] == [];
      assert Cells(row) == [EscapeCsv(row[0])];
    } else {
      assert Cells(row[1..]) != [];
      JoinCons(EscapeCsv(row[0]), Cells(row[1..]), ',');
    }
  }

  lemma PrintCons(rows: seq<Row>)
    requires rows != []
    ensures Print(rows) == if |rows| == 1 then Line(rows[0]) else Line(rows[0]) + "\n" + Print(rows[1..])
  {
    if |rows| == 1 {
      assert rows[1..] == [];
      assert Lines(rows) == [Line(rows[0])];
    } else {
      assert Lines(rows[1..]) != [];
      JoinCons(Line(rows[0]), Lines(rows[1..]), '\n');
    }
  }

  function GuardedRow(row: Row): seq<string> {
    if row == [] then [] else [Guard(row[0])] + GuardedRow(row[1..])
  }

  function Guarded(rows: seq<Row>): seq<seq<string>> {
    if rows == [] then [] else [GuardedRow(rows[0])] + Guarded(rows[1..])
  }

  lemma ParseLastField(s: string, f: string, rest: string)
    requires ParseField(s) == Some((f, rest)) && (rest == "" || rest[0] == '\n')
    ensures ParseRecord(s) == Some(([f], rest))
  {
  }

  lemma ParseMoreFields(s: string, f: string, tail: string, fs: seq<string>, rest: string)
    requires ParseField(s) == Some((f, "," + tail)) && ParseRecord(tail) == Some((fs, rest))
    ensures ParseRecord(s) == Some(([f] + fs, rest))
  {
    assert ("," + tail)[1..] == tail;
  }

  lemma PrependField(v: Option<string>, more: string, fs: seq<string>, rest: string)
    requires ParseRecord(more + rest) == Some((fs, rest))
    ensures ParseRecord(EscapeCsv(v) + "," + more + rest) == Some(([Guard(v)] + fs, rest))
  {
    ConcatAssociates(EscapeCsv(v), ",", more);
    ConcatAssociates(EscapeCsv(v), "," + more, rest);
    ConcatAssociates(",", more, rest);
    FieldRoundTrip(v, "," + (more + rest));
    ParseMoreFields(EscapeCsv(v) + ("," + (more + rest)), Guard(v), more + rest, fs, rest);
  }

  lemma {:induction false} RecordRoundTrip(row: Row, rest: string)
    requires row != [] && (rest == "" || rest[0] == '\n')
    ensures ParseRecord(Line(row) + rest) == Some((GuardedRow(row), rest))
  {
    LineCons(row);
    if |row| == 1 {
      FieldRoundTrip(row[0], rest);
      ParseLastField(Line(row) + rest, Guard(row[0]), rest);
      SingleGuardedRow(row);
    } else {
      RecordRoundTrip(row[1..], rest);
      PrependField(row[0], Line(row[1..]), GuardedRow(row[1..]), rest);
    }
  }

  lemma SingleGuardedRow(row: Row)
    requires |row| == 1
    ensures GuardedRow(row) == [Guard(row[0])]
  {
    assert row[1..] == [];
  }

  /** The last row is one empty cell: its line is empty, and the line break before it reads as the
      optional final one. */
  predicate EndsInEmptyLine(rows: seq<Row>) {
    |rows| > 1 && GuardedRow(rows[|rows| - 1]) == [""]
  }

  lemma EmptyLineIff(row: Row)
    requires row != []
    ensures Line(row) == "" <==> GuardedRow(row) == [""]
  {
    LineCons(row);
    if |row| == 1 { assert row[1..] == []; } else { assert |GuardedRow(row[1..])| > 0; }
  }

  lemma ParseMoreRows(row: Row, more: string, rs: seq<seq<string>>)
    requires row != [] && Parse(more) == Some(rs)
    ensures Parse(Line(row) + "\n" + more) == Some(if more == "" then [GuardedRow(row)] else [GuardedRow(row)] + rs)
  {
    ConcatAssociates(Line(row), "\n", more);
    RecordRoundTrip(row, "\n" + more);
    assert ("\n" + more)[1..] == more;
  }

  /** The rows that come back: all but a last one that is one empty cell. */
  function Kept(rows: seq<Row>): seq<Row> { if EndsInEmptyLine(rows) then rows[..|rows| - 1] else rows }

  lemma KeptCons(rows: seq<Row>)
    requires |rows| > 1 && rows[0] != []
    ensures Kept(rows) == [rows[0]] + if |rows| == 2 && GuardedRow(rows[1]) == [""] then [] else Kept(rows[1..])
  {
    var tail := rows[1..];
    assert tail[|tail| - 1] == rows[|rows| - 1];
    assert rows == [rows[0]] + tail;
    if EndsInEmptyLine(rows) { assert rows[..|rows| - 1] == [rows[0]] + tail[..|tail| - 1]; }
  }

  /** What parsing the printed table gives: the guarded table, less an empty last line. */
  lemma {:induction false} ParsePrinted(rows: seq<Row>)
    requires rows != [] && forall i :: 0 <= i < |rows| ==> rows[i] != []
    ensures Parse(Print(rows)) == Some(Guarded(Kept(rows)))
  {
    PrintCons(rows);
    if |rows| == 1 {
      RecordRoundTrip(rows[0], "");
      assert Print(rows) + "" == Print(rows);
      GuardedCons(rows);
    } else {
      var tail := rows[1..];
      ParsePrinted(tail);
      EmptyPrintIff(tail);
      ParseMoreRows(rows[0], Print(tail), Guarded(Kept(tail)));
      KeptCons(rows);
      var more := if Print(tail) == "" then [] else Kept(tail);
      assert Print(tail) == "" <==> |rows| == 2 && GuardedRow(rows[1]) == [""];
      assert Kept(rows) == [rows[0]] + more;
      GuardedPrepend(rows[0], more);
      assert more == [] ==> [GuardedRow(rows[0])] + Guarded(more) == [GuardedRow(rows[0])];
    }
  }

  lemma GuardedPrepend(row: Row, rows: seq<Row>)
    ensures Guarded([row] + rows) == [GuardedRow(row)] + Guarded(rows)
  {
    assert ([row] + rows)[1..] == rows;
  }

  lemma GuardedCons(rows: seq<Row>)
    requires rows != []
    ensures Guarded(rows) == if |rows| == 1 then [GuardedRow(rows[0])] else [GuardedRow(rows[0])] + Guarded(rows[1..])
  {
    if |rows| == 1 { assert rows[1..] == []; }
  }

  lemma EmptyPrintIff(rows: seq<Row>)
    requires rows != [] && forall i :: 0 <= i < |rows| ==> rows[i] != []
    ensures Print(rows) == "" <==> |rows| == 1 && GuardedRow(rows[0]) == [""]
  {
    PrintCons(rows);
    EmptyLineIff(rows[0]);
  }

  lemma {:induction false} GuardedLength(rows: seq<Row>)
    ensures |Guarded(rows)| == |rows|
  {
    if rows != [] { GuardedLength(rows[1..]); }
  }

  /** Printing and parsing gives the guarded table back exactly when it does not end in an empty line. */
  lemma RoundTripIff(rows: seq<Row>)
    requires rows != [] && forall i :: 0 <= i < |rows| ==> rows[i] != []
    ensures Parse(Print(rows)) == Some(Guarded(rows)) <==> !EndsInEmptyLine(rows)
  {
    ParsePrinted(rows);
    GuardedLength(rows);
    GuardedLength(rows[..|rows| - 1]);
  }

  /** The guard leaves no cell that a spreadsheet would read as a formula: it puts an apostrophe in front
      of those that start with one of the six leaders, once, and touches no other. */
  lemma GuardNeutralises(v: Option<string>)
    ensures Guard(v) == "" || Guard(v)[0] !in "=+-@\t\r"
    ensures Guard(Some(Guard(v))) == Guard(v)
    ensures v == None ==> Guard(v) == ""
    ensures v.Some? && v.value != "" && v.value[0] in "=+-@\t\r" ==> Guard(v) == "'" + v.value
    ensures v.Some? && (v.value == "" || v.value[0] !in "=+-@\t\r") ==> Guard(v) == v.value
  {
    forall c: char ensures FormulaLeader(c) <==> c in "=+-@\t\r" { LeaderIff(c); }
  }

  lemma LeaderIff(c: char)
    ensures FormulaLeader(c) <==> c in "=+-@\t\r"
  {
  }

  // ---------------------------------------------------------------- the export

  function Plain(texts: seq<string>): Row {
    if texts == [] then [] else [Some(texts[0])] + Plain(texts[1..])
  }

  /** Headings without commas, quotes, line breaks or formula leaders are printed as they are. */
  predicate Bare(texts: seq<string>) {
    forall t :: t in texts ==> Guard(Some(t)) == t && !NeedsQuotes(t)
  }

  lemma {:induction false} BareLine(texts: seq<string>)
    requires Bare(texts)
    ensures Cells(Plain(texts)) == texts && GuardedRow(Plain(texts)) == texts
  {
    if texts != [] {
      assert texts[0] in texts;
      BareLine(texts[1..]);
    }
  }

  lemma {:induction false} PlainLength(texts: seq<string>)
    ensures |Plain(texts)| == |texts|
  {
    if texts != [] { PlainLength(texts[1..]); }
  }

  lemma {:induction false} GuardedRowLength(row: Row)
    ensures |GuardedRow(row)| == |row|
  {
    if row != [] { GuardedRowLength(row[1..]); }
  }

  /** Parsing the export gives the headings and every guarded row, even when there are no rows. */
  lemma ExportRoundTrip(headings: seq<string>, rows: seq<Row>)
    requires |headings| > 1 && Bare(headings) && forall i :: 0 <= i < |rows| ==> |rows[i]| == |headings|
    ensures Parse(Export(headings, rows)) == Some([headings] + Guarded(rows))
  {
    BareLine(headings);
    PlainLength(headings);
    var head := Plain(headings);
    var all := [head] + rows;
    assert all[1..] == rows && Line(head) == Join(headings, ',');
    if rows == [] {
      RecordRoundTrip(head, "\n");
      assert Export(headings, rows) == Line(head) + "\n";
      assert [headings] + Guarded(rows) == [headings];
    } else {
      PrintCons(all);
      assert Export(headings, rows) == Print(all);
      GuardedRowLength(all[|all| - 1]);
      ParsePrinted(all);
    }
  }

  predicate LetterOrSpace(c: char) { 'A' <= c <= 'Z' || 'a' <= c <= 'z' || c == ' ' }

  /** The headings of the audit log need no quoting. */
  lemma HeadingsAreBare()
    ensures |HEADINGS| == 10 && Bare(HEADINGS)
  {
    forall t | t in HEADINGS
      ensures Guard(Some(t)) == t && !NeedsQuotes(t)
    {
      assert forall i :: 0 <= i < |t| ==> LetterOrSpace(t[i]);
    }
  }

  /** The export of the audit log reads back as its ten headings and every guarded row. */
  lemma AuditExportRoundTrip(rows: seq<Row>)
    requires forall i :: 0 <= i < |rows| ==> |rows[i]| == 10
    ensures Parse(Export(HEADINGS, rows))
         == Some([["ID", "User ID", "User Name", "User Email", "Action", "Target Type", "Target ID", "Detail", "IP",
                   "Created At"]] + Guarded(rows))
  {
    HeadingsAreBare();
    ExportRoundTrip(HEADINGS, rows);
  }
}
