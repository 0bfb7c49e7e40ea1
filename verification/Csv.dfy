/** The issue CSV codec: a printer that quotes every cell and guards spreadsheet formulas,
    and a parser that walks the text character by character. */
module Csv {
  import opened Wrappers

  const COLUMNS: seq<string> := [
    "externalId", "summary", "description", "type", "status", "priority", "assigneeEmail", "labels",
    "estimate", "dueDate", "parentExternalId", "links", "releases", "customFields"]

  /** One exported record: a text, or nothing, for each column. */
  type Row = r: seq<Option<string>> | |r| == 14 witness seq(14, i => None)

  datatype Problem = Unterminated | WrongHeader | TooManyRows | WrongWidth(received: nat)
  datatype CsvError = CsvError(row: nat, problem: Problem)
  datatype Parsed = Parsed(rows: seq<seq<string>>, errors: seq<CsvError>)

  // ---- Printing

  function DoubleQuotes(s: string): string {
    if s == "" then ""
    else (if s[0] == '"' then "\"\"" else [s[0]]) + DoubleQuotes(s[1..])
  }

  /** A text that a spreadsheet would take for a formula is prefixed by an apostrophe. */
  function Guard(text: string): string {
    if text != "" && (text[0] == '=' || text[0] == '+' || text[0] == '-' || text[0] == '@') then "'" + text else text
  }

  function Safe(cell: Option<string>): string {
    Guard(cell.GetOr(""))
  }

  function CsvCell(cell: Option<string>): string {
    "\"" + DoubleQuotes(Safe(cell)) + "\""
  }

  function Join(parts: seq<string>, separator: string): string {
    if parts == [] then ""
    else if |parts| == 1 then parts[0]
    else parts[0] + separator + Join(parts[1..], separator)
  }

  function EncodeRow(row: seq<Option<string>>): string {
    Join(seq(|row|, i requires 0 <= i < |row| => CsvCell(row[i])), ",")
  }

  function EncodeCsv(rows: seq<Row>): string {
    Join([Join(COLUMNS, ",")] + LinesOf(rows), "\r\n") + "\r\n"
  }

  function LinesOf(rows: seq<Row>): (r: seq<string>)
    ensures |r| == |rows| && forall i :: 0 <= i < |rows| ==> r[i] == EncodeRow(rows[i])
  {
    seq(|rows|, i requires 0 <= i < |rows| => EncodeRow(rows[i]))
  }

  // ---- Parsing

  /** Finished records, the current record and field, and whether a quotation is open. */
  datatype State = State(records: seq<seq<string>>, record: seq<string>, field: string, quoted: bool)

  const START := State([], [], "", false)

  function StripReturn(s: string): string {
    if s != "" && s[|s| - 1] == '\r' then s[..|s| - 1] else s
  }

  /** How many characters the next turn of the loop takes. */
  function Taken(st: State, s: string): (n: nat)
    requires s != ""
    ensures 0 < n <= |s|
  {
    if st.quoted && s[0] == '"' && |s| > 1 && s[1] == '"' then 2 else 1
  }

  function Turn(st: State, s: string): State
    requires s != ""
  {
    if st.quoted then
      if Taken(st, s) == 2 then st.(field := st.field + "\"")
      else if s[0] == '"' then st.(quoted := false)
      else st.(field := st.field + [s[0]])
    else if s[0] == '"' && st.field == "" then st.(quoted := true)
    else if s[0] == ',' then st.(record := st.record + [st.field], field := "")
    else if s[0] == '\n' then
      State(st.records + [st.record + [StripReturn(st.field)]], [], "", false)
    else st.(field := st.field + [s[0]])
  }

  /** The state after the rest `s` of the input. */
  function Scan(st: State, s: string): State
    decreases |s|
  {
    if s == "" then st else Scan(Turn(st, s), s[Taken(st, s)..])
  }

  /** All records of a scan whose quotations are closed. */
  function Records(st: State): seq<seq<string>> {
    if st.field != "" || st.record != [] then st.records + [st.record + [StripReturn(st.field)]] else st.records
  }

  predicate Blank(values: seq<string>) {
    forall v <- values :: v == ""
  }

  function NonBlank(records: seq<seq<string>>): (r: seq<seq<string>>)
    ensures forall v <- r :: v in records && !Blank(v)
  {
    if records == [] then []
    else if Blank(records[0]) then NonBlank(records[1..]) else [records[0]] + NonBlank(records[1..])
  }

  /** The record cut or filled up to `width` fields. */
  function Fill(values: seq<string>, width: nat): (r: seq<string>)
    ensures |r| == width
  {
    seq(width, i requires 0 <= i < width => if i < |values| then values[i] else "")
  }

  /** A complaint about every row that is not as wide as the header, or one field narrower;
      `row` is the number of the first. */
  function WidthErrors(records: seq<seq<string>>, width: nat, row: nat): seq<CsvError> {
    if records == [] then []
    else
      (if |records[0]| < width - 1 || |records[0]| > width
       then [CsvError(row, WrongWidth(|records[0]|))] else [])
      + WidthErrors(records[1..], width, row + 1)
  }

  function FillAll(records: seq<seq<string>>, width: nat): (r: seq<seq<string>>)
    ensures |r| == |records| && forall i :: 0 <= i < |r| ==> r[i] == Fill(records[i], width)
  {
    seq(|records|, i requires 0 <= i < |records| => Fill(records[i], width))
  }

  function Interpret(records: seq<seq<string>>, columns: seq<string>, maxRows: nat): Parsed {
    var header := if records == [] then [] else records[0];
    var body := if records == [] then [] else records[1..];
    var kept := NonBlank(if |body| > maxRows then body[..maxRows] else body);
    Parsed(
      FillAll(kept, |columns|),
      HeaderErrors(header, columns) + SizeErrors(|body|, maxRows) + WidthErrors(kept, |columns|, 2))
  }

  function HeaderErrors(header: seq<string>, expected: seq<string>): seq<CsvError> {
    if Join(header, "\0") != Join(expected, "\0") then [CsvError(1, WrongHeader)] else []
  }

  function SizeErrors(count: nat, maxRows: nat): seq<CsvError> {
    if count > maxRows then [CsvError(maxRows + 2, TooManyRows)] else []
  }

  function Parse(input: string, maxRows: nat): Parsed {
    var st := Scan(START, input);
    if st.quoted then Parsed([], [CsvError(|st.records| + 1, Unterminated)])
    else Interpret(Records(st), COLUMNS, maxRows)
  }

  method ParseCsv(input: string, maxRows: nat) returns (r: Parsed)
    ensures r == Parse(input, maxRows)
  {
    var records: seq<seq<string>>, record: seq<string>, field: string, quoted := [], [], "", false;
    var index := 0;
    assert input[0..] == input;
    while index < |input|
      invariant 0 <= index <= |input|
      invariant Scan(START, input) == Scan(State(records, record, field, quoted), input[index..])
    {
      var character := input[index];
      ghost var st, rest := State(records, record, field, quoted), input[index..];
      if quoted {
        if character == '"' && index + 1 < |input| && input[index + 1] == '"' {
          field := field + "\"";
          index := index + 1;
        } else if character == '"' {
          quoted := false;
        } else {
          field := field + [character];
        }
      } else if character == '"' && field == "" {
        quoted := true;
      } else if character == ',' {
        record, field := record + [field], "";
      } else if character == '\n' {
        records, record, field := records + [record + [StripReturn(field)]], [], "";
      } else {
        field := field + [character];
      }
      index := index + 1;
      assert rest[Taken(st, rest)..] == input[index..];
      assert State(records, record, field, quoted) == Turn(st, rest);
    }
    if quoted {
      return Parsed([], [CsvError(|records| + 1, Unterminated)]);
    }
    if field != "" || record != [] {
      records := records + [record + [StripReturn(field)]];
    }
    r := Interpret(records, COLUMNS, maxRows);
  }

  // ---- Scanning what was printed

  /** Inside a quotation, doubled text followed by a lone quote is read back and closes it. */
  lemma {:induction false} ScanQuoted(st: State, text: string, rest: string)
    requires st.quoted && (rest == "" || rest[0] != '"')
    ensures Scan(st, DoubleQuotes(text) + "\"" + rest) == Scan(st.(field := st.field + text, quoted := false), rest)
    decreases |text|
  {
    var s := DoubleQuotes(text) + "\"" + rest;
    if text == "" {
      assert s[1..] == rest && s[0] == '"' && st.field + text == st.field;
    } else {
      var tail := DoubleQuotes(text[1..]) + "\"" + rest;
      if text[0] == '"' {
        assert s == "\"\"" + tail;
        assert s[2..] == tail;
      } else {
        assert s == [text[0]] + tail;
        assert s[1..] == tail;
      }
      ScanQuoted(st.(field := st.field + [text[0]]), text[1..], rest);
      assert st.field + [text[0]] + text[1..] == st.field + text;
    }
  }

  lemma ScanCell(st: State, cell: Option<string>, rest: string)
    requires !st.quoted && st.field == "" && (rest == "" || rest[0] != '"')
    ensures Scan(st, CsvCell(cell) + rest) == Scan(st.(field := Safe(cell)), rest)
  {
    var s := CsvCell(cell) + rest;
    assert s[1..] == DoubleQuotes(Safe(cell)) + "\"" + rest;
    ScanQuoted(st.(quoted := true), Safe(cell), rest);
    assert "" + Safe(cell) == Safe(cell);
  }

  /** One unquoted character. */
  lemma ScanOne(st: State, c: char, s: string, rest: string)
    requires !st.quoted && s == [c] + rest
    ensures Scan(st, s) == Scan(Turn(st, s), rest)
  {
    assert s[1..] == rest;
  }

  lemma StripAdded(field: string)
    ensures StripReturn(field + "\r") == field
  {}

  /** A line end after a finished last field; the return belongs to the line end. */
  lemma ScanLineEnd(st: State, s: string, rest: string)
    requires !st.quoted && s == "\r\n" + rest
    ensures Scan(st, s) == Scan(State(st.records + [st.record + [st.field]], [], "", false), rest)
  {
    var middle := "\n" + rest;
    assert s == ['\r'] + middle;
    ScanOne(st, '\r', s, middle);
    ScanOne(st.(field := st.field + "\r"), '\n', middle, rest);
    StripAdded(st.field);
  }

  function Texts(row: seq<Option<string>>): (r: seq<string>)
    ensures |r| == |row| && forall i :: 0 <= i < |row| ==> r[i] == Safe(row[i])
  {
    seq(|row|, i requires 0 <= i < |row| => Safe(row[i]))
  }

  lemma EncodeRowSplit(row: seq<Option<string>>)
    requires |row| > 1
    ensures EncodeRow(row) == CsvCell(row[0]) + "," + EncodeRow(row[1..])
  {
    var cells := seq(|row|, i requires 0 <= i < |row| => CsvCell(row[i]));
    assert cells[1..] == seq(|row[1..]|, i requires 0 <= i < |row[1..]| => CsvCell(row[1..][i]));
  }

  lemma ScanCellComma(st: State, cell: Option<string>, s: string, tail: string)
    requires !st.quoted && st.field == "" && s == CsvCell(cell) + ("," + tail)
    ensures Scan(st, s) == Scan(st.(record := st.record + [Safe(cell)]), tail)
  {
    ScanCell(st, cell, "," + tail);
    ScanOne(st.(field := Safe(cell)), ',', "," + tail, tail);
  }

  lemma ScanCellEnd(st: State, cell: Option<string>, s: string, rest: string)
    requires !st.quoted && st.field == "" && s == CsvCell(cell) + ("\r\n" + rest)
    ensures Scan(st, s) == Scan(State(st.records + [st.record + [Safe(cell)]], [], "", false), rest)
  {
    ScanCell(st, cell, "\r\n" + rest);
    ScanLineEnd(st.(field := Safe(cell)), "\r\n" + rest, rest);
  }

  lemma {:induction false} ScanRow(
    st: State, row: seq<Option<string>>, s: string, rest: string, next: State)
    requires row != [] && s == EncodeRow(row) + ("\r\n" + rest)
    requires !st.quoted && st.field == ""
    requires next == State(st.records + [st.record + Texts(row)], [], "", false)
    ensures Scan(st, s) == Scan(next, rest)
    decreases |row|
  {
    if |row| == 1 {
      assert Texts(row) == [Safe(row[0])];
      ScanCellEnd(st, row[0], s, rest);
    } else {
      var tail := EncodeRow(row[1..]) + ("\r\n" + rest);
      assert s == CsvCell(row[0]) + ("," + tail) by { EncodeRowSplit(row); }
      var middle := st.(record := st.record + [Safe(row[0])]);
      assert st.record + Texts(row) == middle.record + Texts(row[1..]);
      ScanCellComma(st, row[0], s, tail);
      ScanRow(middle, row[1..], tail, rest, next);
    }
  }

  predicate Plain(s: string) {
    forall c <- s :: c != '"' && c != ',' && c != '\n'
  }

  lemma {:induction false} ScanPlain(st: State, text: string, s: string, rest: string)
    requires !st.quoted && Plain(text) && s == text + rest
    ensures Scan(st, s) == Scan(st.(field := st.field + text), rest)
    decreases |text|
  {
    if text == "" {
      assert s == rest && st.field + text == st.field;
    } else {
      assert text[0] in text && forall c <- text[1..] :: c in text;
      var tail := text[1..] + rest;
      assert s == [text[0]] + tail;
      ScanOne(st, text[0], s, tail);
      ScanPlain(st.(field := st.field + [text[0]]), text[1..], tail, rest);
      assert st.field + [text[0]] + text[1..] == st.field + text;
    }
  }

  lemma JoinSplit(names: seq<string>, rest: string)
    requires |names| > 1
    ensures Join(names, ",") + rest == names[0] + ("," + (Join(names[1..], ",") + rest))
  {
    var others := Join(names[1..], ",");
    assert Join(names, ",") == names[0] + "," + others;
  }

  lemma ScanNameComma(st: State, name: string, s: string, tail: string)
    requires !st.quoted && st.field == "" && Plain(name) && s == name + ("," + tail)
    ensures Scan(st, s) == Scan(st.(record := st.record + [name]), tail)
  {
    ScanPlain(st, name, s, "," + tail);
    assert "" + name == name;
    ScanOne(st.(field := name), ',', "," + tail, tail);
  }

  lemma ScanNameEnd(st: State, name: string, s: string, rest: string)
    requires !st.quoted && st.field == "" && Plain(name) && s == name + ("\r\n" + rest)
    ensures Scan(st, s) == Scan(State(st.records + [st.record + [name]], [], "", false), rest)
  {
    ScanPlain(st, name, s, "\r\n" + rest);
    assert "" + name == name;
    ScanLineEnd(st.(field := name), "\r\n" + rest, rest);
  }

  lemma {:induction false} ScanHeader(st: State, names: seq<string>, s: string, rest: string, next: State)
    requires names != [] && (forall n <- names :: Plain(n)) && s == Join(names, ",") + ("\r\n" + rest)
    requires !st.quoted && st.field == ""
    requires next == State(st.records + [st.record + names], [], "", false)
    ensures Scan(st, s) == Scan(next, rest)
    decreases |names|
  {
    assert names[0] in names;
    if |names| == 1 {
      assert names == [names[0]];
      ScanNameEnd(st, names[0], s, rest);
    } else {
      var tail := Join(names[1..], ",") + ("\r\n" + rest);
      JoinSplit(names, "\r\n" + rest);
      var middle := st.(record := st.record + [names[0]]);
      assert st.record + names == middle.record + names[1..];
      ScanHeader(middle, names[1..], tail, rest, next);
      ScanNameComma(st, names[0], s, tail);
    }
  }

  /** The lines of the rows, each with its line end. */
  function Lines(rows: seq<Row>): string {
    if rows == [] then "" else EncodeRow(rows[0]) + ("\r\n" + Lines(rows[1..]))
  }

  lemma JoinFirst(head: string, lines: seq<string>)
    requires lines != []
    ensures Join([head] + lines, "\r\n") == head + ("\r\n" + Join(lines, "\r\n"))
  {
    assert ([head] + lines)[1..] == lines;
  }

  lemma {:induction false} EncodeIsLines(head: string, rows: seq<Row>)
    ensures Join([head] + LinesOf(rows), "\r\n") + "\r\n" == head + ("\r\n" + Lines(rows))
    decreases |rows|
  {
    var lines := LinesOf(rows);
    if rows == [] {
      assert [head] + lines == [head];
    } else {
      assert lines == [EncodeRow(rows[0])] + LinesOf(rows[1..]);
      JoinFirst(head, lines);
      EncodeIsLines(EncodeRow(rows[0]), rows[1..]);
    }
  }

  function AllTexts(rows: seq<Row>): (r: seq<seq<string>>)
    ensures |r| == |rows| && forall i :: 0 <= i < |rows| ==> r[i] == Texts(rows[i])
  {
    seq(|rows|, i requires 0 <= i < |rows| => Texts(rows[i]))
  }

  lemma {:induction false} ScanLines(records: seq<seq<string>>, rows: seq<Row>)
    ensures Scan(State(records, [], "", false), Lines(rows)) == State(records + AllTexts(rows), [], "", false)
    decreases |rows|
  {
    if rows == [] {
      assert records + AllTexts(rows) == records;
    } else {
      assert [] + Texts(rows[0]) == Texts(rows[0]);
      var next := State(records + [Texts(rows[0])], [], "", false);
      ScanRow(State(records, [], "", false), rows[0], Lines(rows), Lines(rows[1..]), next);
      ScanLines(records + [Texts(rows[0])], rows[1..]);
      assert records + [Texts(rows[0])] + AllTexts(rows[1..]) == records + AllTexts(rows);
    }
  }

  lemma ColumnsArePlain()
    ensures forall n <- COLUMNS :: Plain(n)
  {
    forall n <- COLUMNS ensures Plain(n) {
      var i :| 0 <= i < |COLUMNS| && COLUMNS[i] == n;
      ColumnLetters();
      forall c <- n ensures c != '"' && c != ',' && c != '\n' {
        var k :| 0 <= k < |n| && n[k] == c;
      }
    }
  }

  lemma ColumnLetters()
    ensures forall i, k :: 0 <= i < |COLUMNS| && 0 <= k < |COLUMNS[i]| ==> 'A' <= COLUMNS[i][k] <= 'z'
  {}

  /** The parser's state after the whole of an export. */
  lemma ScanExport(rows: seq<Row>)
    ensures Scan(START, EncodeCsv(rows)) == State([COLUMNS] + AllTexts(rows), [], "", false)
  {
    EncodeIsLines(Join(COLUMNS, ","), rows);
    ColumnsArePlain();
    assert [] + COLUMNS == COLUMNS;
    ScanHeader(START, COLUMNS, EncodeCsv(rows), Lines(rows), State([COLUMNS], [], "", false));
    ScanLines([COLUMNS], rows);
  }

  // ---- The round trip

  lemma {:induction false} FullWidth(records: seq<seq<string>>, width: nat, row: nat)
    requires forall v <- records :: |v| == width
    ensures WidthErrors(records, width, row) == [] && FillAll(records, width) == records
    decreases |records|
  {
    if records != [] {
      assert records[0] in records;
      FullWidth(records[1..], width, row + 1);
    }
    forall i | 0 <= i < |records| ensures Fill(records[i], width) == records[i] {
      assert records[i] in records;
    }
  }

  /** Whatever the rows, parsing the export yields the guarded texts of the first `maxRows`
      rows without the blank ones, and complains exactly about an overlong file. */
  lemma ParseOfEncode(rows: seq<Row>, maxRows: nat)
    ensures Parse(EncodeCsv(rows), maxRows) == Parsed(
      NonBlank(if |rows| > maxRows then AllTexts(rows)[..maxRows] else AllTexts(rows)),
      if |rows| > maxRows then [CsvError(maxRows + 2, TooManyRows)] else [])
  {
    ScanExport(rows);
    InterpretExport([COLUMNS] + AllTexts(rows), COLUMNS, AllTexts(rows), maxRows);
  }

  lemma InterpretExport(records: seq<seq<string>>, columns: seq<string>, texts: seq<seq<string>>, maxRows: nat)
    requires records == [columns] + texts && forall v <- texts :: |v| == |columns|
    ensures Interpret(records, columns, maxRows) == Parsed(
      NonBlank(if |texts| > maxRows then texts[..maxRows] else texts), SizeErrors(|texts|, maxRows))
  {
    var kept := NonBlank(if |texts| > maxRows then texts[..maxRows] else texts);
    FullWidth(kept, |columns|, 2);
    assert records[1..] == texts;
    SameHeader(records[0], columns);
    assert [] + SizeErrors(|texts|, maxRows) + [] == SizeErrors(|texts|, maxRows);
  }

  lemma SameHeader(header: seq<string>, expected: seq<string>)
    requires header == expected
    ensures HeaderErrors(header, expected) == []
  {}

  lemma {:induction false} NonBlankKeepsAllIff(records: seq<seq<string>>)
    ensures |NonBlank(records)| <= |records|
    ensures NonBlank(records) == records <==> forall v <- records :: !Blank(v)
    decreases |records|
  {
    if records != [] {
      NonBlankKeepsAllIff(records[1..]);
      assert records == [records[0]] + records[1..];
      if !Blank(records[0]) {
        assert NonBlank(records)[1..] == NonBlank(records[1..]);
      }
    }
  }

  predicate HasText(row: Row) {
    exists cell <- row :: cell.GetOr("") != ""
  }

  lemma BlankIffNoText(row: Row)
    ensures Blank(Texts(row)) <==> !HasText(row)
  {
    if HasText(row) {
      var i :| 0 <= i < |row| && row[i].GetOr("") != "";
      assert Texts(row)[i] in Texts(row) && Texts(row)[i] != "";
    }
    if !Blank(Texts(row)) {
      var v :| v in Texts(row) && v != "";
      var i :| 0 <= i < |row| && Texts(row)[i] == v;
      assert row[i] in row;
    }
  }

  /** The export survives as it is, formulas guarded, exactly when it fits and no row is blank. */
  lemma RoundTrip(rows: seq<Row>, maxRows: nat)
    ensures Parse(EncodeCsv(rows), maxRows) == Parsed(AllTexts(rows), [])
      <==> |rows| <= maxRows && forall row <- rows :: HasText(row)
  {
    ParseOfEncode(rows, maxRows);
    NonBlankKeepsAllIff(AllTexts(rows));
    forall i | 0 <= i < |rows| ensures Blank(AllTexts(rows)[i]) <==> !HasText(rows[i]) {
      BlankIffNoText(rows[i]);
    }
    if forall row <- rows :: HasText(row) {
      assert forall i :: 0 <= i < |rows| ==> rows[i] in rows;
    } else {
      var row :| row in rows && !HasText(row);
      var i :| 0 <= i < |rows| && rows[i] == row;
      assert AllTexts(rows)[i] in AllTexts(rows);
    }
  }

  /** The parsed texts as rows to export again. */
  function Present(texts: seq<string>): (r: seq<Option<string>>)
    ensures |r| == |texts| && forall i :: 0 <= i < |texts| ==> r[i] == Some(texts[i])
  {
    seq(|texts|, i requires 0 <= i < |texts| => Some(texts[i]))
  }

  function AllPresent(rows: seq<Row>): (r: seq<Row>)
    ensures |r| == |rows| && forall i :: 0 <= i < |rows| ==> r[i] == Present(Texts(rows[i]))
  {
    seq(|rows|, i requires 0 <= i < |rows| => Present(Texts(rows[i])))
  }

  lemma GuardOnce(text: string)
    ensures Guard(Guard(text)) == Guard(text)
  {}

  lemma ReencodeRow(row: Row)
    ensures EncodeRow(Present(Texts(row))) == EncodeRow(row)
  {
    var again := Present(Texts(row));
    forall i | 0 <= i < |row| ensures CsvCell(again[i]) == CsvCell(row[i]) {
      GuardOnce(row[i].GetOr(""));
    }
    assert seq(|again|, i requires 0 <= i < |again| => CsvCell(again[i]))
        == seq(|row|, i requires 0 <= i < |row| => CsvCell(row[i]));
  }

  /** Exporting what was read back gives the same text: the guard is applied only once. */
  lemma Reencode(rows: seq<Row>)
    ensures EncodeCsv(AllPresent(rows)) == EncodeCsv(rows)
  {
    var again := AllPresent(rows);
    forall i | 0 <= i < |rows| ensures EncodeRow(again[i]) == EncodeRow(rows[i]) {
      ReencodeRow(rows[i]);
    }
    assert LinesOf(again) == LinesOf(rows);
  }
}
