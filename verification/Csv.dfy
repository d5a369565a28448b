/** The CSV report, and reading it back by section 2 of RFC 4180 (internal/web/static/app.js). */
module Csv {
  import opened Text
  import opened Credentials

  /** A value of the report: None stands for null and undefined, the rest are rendered as text. */
  type Cell = Option<string>

  function TextOf(value: Cell): string {
    if value.None? then "" else value.value
  }

  predicate IsFormula(c: char) {
    c in {'=', '+', '-', '@', '\t', '\r'}
  }

  predicate NeedsQuotes(c: char) {
    c in {'"', ',', '\r', '\n'}
  }

  /** Text that opens like a formula is moved behind a quote, out of a spreadsheet's way. */
  function Guarded(text: string): string {
    if text != "" && IsFormula(text[0]) then "'" + text else text
  }

  function Doubled(text: string): string {
    if text == "" then "" else (if text[0] == '"' then "\"\"" else [text[0]]) + Doubled(text[1..])
  }

  function CsvCell(value: Cell): string {
    var text := Guarded(TextOf(value));
    if exists i :: 0 <= i < |text| && NeedsQuotes(text[i]) then "\"" + Doubled(text) + "\"" else text
  }

  function CsvRow(row: seq<Cell>): string {
    Join(seq(|row|, i requires 0 <= i < |row| => CsvCell(row[i])), ",")
  }

  /** The report: the header and the rows, each on a line of its own. */
  function ReportCsv(rows: seq<seq<Cell>>): string {
    Join(seq(|rows|, i requires 0 <= i < |rows| => CsvRow(rows[i])), "\r\n") + "\r\n"
  }

  // A reader

  /** The rest of a quoted field, after its opening quote. */
  function ParseQuoted(s: string): (r: Option<(string, string)>)
    ensures r.Some? ==> |r.value.1| < |s|
  {
    if s == "" then None
    else if s[0] != '"' then
      match ParseQuoted(s[1..])
      case None => None
      case Some((text, rest)) => Some(([s[0]] + text, rest))
    else if |s| > 1 && s[1] == '"' then
      match ParseQuoted(s[2..])
      case None => None
      case Some((text, rest)) => Some(("\"" + text, rest))
    else Some(("", s[1..]))
  }

  /** What ends a field outside quotes, or calls for them. */
  predicate EndsPlain(c: char) {
    c == ',' || c == '"' || c == '\r' || c == '\n'
  }

  function ParsePlain(s: string): (r: (string, string))
    ensures |r.1| <= |s|
  {
    if s == "" || EndsPlain(s[0]) then ("", s)
    else
      var (text, rest) := ParsePlain(s[1..]);
      ([s[0]] + text, rest)
  }

  function ParseField(s: string): (r: Option<(string, string)>)
    ensures r.Some? ==> |r.value.1| <= |s|
  {
    if s != "" && s[0] == '"' then ParseQuoted(s[1..]) else Some(ParsePlain(s))
  }

  /** Fields separated by commas, up to a line break or the end. */
  function ParseRecord(s: string): (r: Option<(seq<string>, string)>)
    ensures r.Some? ==> |r.value.0| >= 1 && |r.value.1| <= |s| && (s != "" ==> |r.value.1| < |s|)
    decreases |s|
  {
    match ParseField(s)
    case None => None
    case Some((field, rest)) =>
      if rest == "" then Some(([field], ""))
      else if "\r\n" <= rest then Some(([field], rest[2..]))
      else if rest[0] == ',' then
        match ParseRecord(rest[1..])
        case None => None
        case Some((fields, after)) => Some(([field] + fields, after))
      else None
  }

  function ParseFile(s: string): (r: Option<seq<seq<string>>>)
    ensures r.Some? ==> forall i :: 0 <= i < |r.value| ==> |r.value[i]| >= 1
    decreases |s|
  {
    if s == "" then Some([])
    else
      match ParseRecord(s)
      case None => None
      case Some((record, rest)) =>
        match ParseFile(rest)
        case None => None
        case Some(records) => Some([record] + records)
  }

  // Reading back

  lemma {:induction false} QuotedReadsBack(text: string, rest: string)
    requires rest == "" || rest[0] != '"'
    ensures ParseQuoted(Doubled(text) + "\"" + rest) == Some((text, rest))
  {
    var s := Doubled(text) + "\"" + rest;
    if text == "" {
      assert s == "\"" + rest && s[1..] == rest;
    } else {
      QuotedReadsBack(text[1..], rest);
      var tail := Doubled(text[1..]) + "\"" + rest;
      assert text == [text[0]] + text[1..];
      if text[0] == '"' {
        assert s == "\"\"" + tail && s[2..] == tail;
      } else {
        assert s == [text[0]] + tail && s[1..] == tail;
      }
    }
  }

  lemma {:induction false} PlainReadsBack(text: string, rest: string)
    requires forall i :: 0 <= i < |text| ==> !EndsPlain(text[i])
    requires rest == "" || EndsPlain(rest[0])
    ensures ParsePlain(text + rest) == (text, rest)
  {
    if text == "" {
      assert text + rest == rest;
    } else {
      PlainReadsBack(text[1..], rest);
      assert (text + rest)[1..] == text[1..] + rest;
      assert text == [text[0]] + text[1..];
    }
  }

  lemma FieldReadsBack(value: Cell, rest: string)
    requires rest == "" || rest[0] == ',' || "\r\n" <= rest
    ensures ParseField(CsvCell(value) + rest) == Some((Guarded(TextOf(value)), rest))
  {
    var text := Guarded(TextOf(value));
    if exists i :: 0 <= i < |text| && NeedsQuotes(text[i]) {
      BehindQuote(Doubled(text), rest);
      QuotedReadsBack(text, rest);
    } else {
      PlainReadsBack(text, rest);
      StartsPlainly(text, rest);
    }
  }

  /** A cell stands in quotes exactly when its guarded text holds what would end it. */
  lemma QuotedExactly(value: Cell)
    ensures var text := Guarded(TextOf(value));
            CsvCell(value) == text <==> forall i :: 0 <= i < |text| ==> !EndsPlain(text[i])
  {
    var text := Guarded(TextOf(value));
    if exists i :: 0 <= i < |text| && EndsPlain(text[i]) {
      DoubledIsNoShorter(text);
      assert |CsvCell(value)| == |Doubled(text)| + 2;
    }
  }

  lemma {:induction false} DoubledIsNoShorter(text: string)
    ensures |Doubled(text)| >= |text|
  {
    if text != "" {
      DoubledIsNoShorter(text[1..]);
    }
  }

  lemma BehindQuote(text: string, rest: string)
    ensures var s := "\"" + text + "\"" + rest; s != "" && s[0] == '"' && s[1..] == text + "\"" + rest
  {
  }

  lemma StartsPlainly(text: string, rest: string)
    requires forall i :: 0 <= i < |text| ==> text[i] != '"'
    requires rest == "" || rest[0] != '"'
    ensures text + rest == "" || (text + rest)[0] != '"'
  {
  }

  function GuardedRow(row: seq<Cell>): seq<string> {
    seq(|row|, i requires 0 <= i < |row| => Guarded(TextOf(row[i])))
  }

  lemma LastField(s: string, field: string, rest: string)
    requires ParseField(s) == Some((field, "\r\n" + rest))
    ensures ParseRecord(s) == Some(([field], rest))
  {
    var after := "\r\n" + rest;
    assert after[2..] == rest;
  }

  lemma OneMoreField(s: string, field: string, more: string)
    requires ParseField(s) == Some((field, "," + more)) && ParseRecord(more).Some?
    ensures ParseRecord(s) == Some(([field] + ParseRecord(more).value.0, ParseRecord(more).value.1))
  {
    var after := "," + more;
    assert after[0] == ',' && after[1..] == more;
    assert !("\r\n" <= after);
  }

  lemma RowStep(row: seq<Cell>)
    requires |row| >= 1
    ensures |row| == 1 ==> CsvRow(row) == CsvCell(row[0])
    ensures |row| > 1 ==> CsvRow(row) == CsvCell(row[0]) + "," + CsvRow(row[1..])
  {
    var cells := seq(|row|, i requires 0 <= i < |row| => CsvCell(row[i]));
    var tail := row[1..];
    assert cells[1..] == seq(|tail|, i requires 0 <= i < |tail| => CsvCell(tail[i]));
  }

  /** The text of a row is its first cell, and then what is left. */
  lemma RowText(cell: string, row: string, rest: string)
    ensures cell + "\r\n" + rest == cell + ("\r\n" + rest)
    ensures cell + "," + row + "\r\n" + rest == cell + ("," + (row + "\r\n" + rest))
  {
  }

  lemma GuardedStep(row: seq<Cell>)
    requires |row| >= 1
    ensures GuardedRow(row) == [Guarded(TextOf(row[0]))] + GuardedRow(row[1..])
    ensures |row| == 1 ==> GuardedRow(row) == [Guarded(TextOf(row[0]))]
  {
  }

  lemma {:induction false} RecordReadsBack(row: seq<Cell>, rest: string)
    requires |row| >= 1
    ensures ParseRecord(CsvRow(row) + "\r\n" + rest) == Some((GuardedRow(row), rest))
  {
    var s, field := CsvRow(row) + "\r\n" + rest, Guarded(TextOf(row[0]));
    RowStep(row);
    GuardedStep(row);
    if |row| == 1 {
      RowText(CsvCell(row[0]), "", rest);
      FieldReadsBack(row[0], "\r\n" + rest);
      LastField(s, field, rest);
    } else {
      var more := CsvRow(row[1..]) + "\r\n" + rest;
      RowText(CsvCell(row[0]), CsvRow(row[1..]), rest);
      FieldReadsBack(row[0], "," + more);
      RecordReadsBack(row[1..], rest);
      OneMoreField(s, field, more);
    }
  }

  function GuardedRows(rows: seq<seq<Cell>>): seq<seq<string>> {
    seq(|rows|, i requires 0 <= i < |rows| => GuardedRow(rows[i]))
  }

  /** The report is its first row, and then the report on the others. */
  lemma FileStep(rows: seq<seq<Cell>>)
    requires |rows| >= 1
    ensures ReportCsv(rows) == CsvRow(rows[0]) + "\r\n" + if |rows| == 1 then "" else ReportCsv(rows[1..])
  {
    var tail := rows[1..];
    var lines := seq(|rows|, i requires 0 <= i < |rows| => CsvRow(rows[i]));
    assert lines[1..] == seq(|tail|, i requires 0 <= i < |tail| => CsvRow(tail[i]));
    if |rows| > 1 {
      Associative(CsvRow(rows[0]), "\r\n", Join(lines[1..], "\r\n"), "\r\n");
    }
  }

  lemma GuardedRowsStep(rows: seq<seq<Cell>>)
    requires |rows| >= 1
    ensures GuardedRows(rows) == [GuardedRow(rows[0])] + if |rows| == 1 then [] else GuardedRows(rows[1..])
  {
  }

  lemma OneMoreRecord(s: string, record: seq<string>, rest: string)
    requires s != "" && ParseRecord(s) == Some((record, rest)) && ParseFile(rest).Some?
    ensures ParseFile(s) == Some([record] + ParseFile(rest).value)
  {
  }

  lemma {:induction false} RowsReadBack(rows: seq<seq<Cell>>)
    requires |rows| >= 1 && forall i :: 0 <= i < |rows| ==> |rows[i]| >= 1
    ensures ParseFile(ReportCsv(rows)) == Some(GuardedRows(rows))
  {
    var rest := if |rows| == 1 then "" else ReportCsv(rows[1..]);
    FileStep(rows);
    GuardedRowsStep(rows);
    RecordReadsBack(rows[0], rest);
    if |rows| > 1 {
      RowsReadBack(rows[1..]);
    }
    OneMoreRecord(ReportCsv(rows), GuardedRow(rows[0]), rest);
  }

  /** A reader of the report gets exactly the guarded cells, in their rows and order, unless some
      row has no cell at all. */
  lemma ReportReadsBack(rows: seq<seq<Cell>>)
    requires |rows| >= 1
    ensures ParseFile(ReportCsv(rows)) == Some(GuardedRows(rows)) <==> forall i :: 0 <= i < |rows| ==> |rows[i]| >= 1
  {
    if forall i :: 0 <= i < |rows| ==> |rows[i]| >= 1 {
      RowsReadBack(rows);
    } else {
      var i :| 0 <= i < |rows| && |rows[i]| == 0;
      assert |GuardedRows(rows)[i]| == 0;
    }
  }

  /** No field of the report starts a formula, and only those that would have are changed. */
  predicate StartsFormula(c: char) {
    c == '=' || c == '+' || c == '-' || c == '@' || c == '\t' || c == '\r'
  }

  predicate WouldCalculate(value: Cell) {
    value.Some? && value.value != "" && StartsFormula(value.value[0])
  }

  lemma NoFieldIsAFormula(rows: seq<seq<Cell>>, i: nat, k: nat)
    requires forall j :: 0 <= j < |rows| ==> |rows[j]| >= 1
    requires i < |rows| && k < |rows[i]|
    ensures var file := ParseFile(ReportCsv(rows));
            && file.Some? && |file.value| == |rows| && |file.value[i]| == |rows[i]|
            && var field := file.value[i][k];
               (field == "" || !StartsFormula(field[0]))
               && field == (if WouldCalculate(rows[i][k]) then "'" else "")
                           + (if rows[i][k].Some? then rows[i][k].value else "")
  {
    RowsReadBack(rows);
  }
}
