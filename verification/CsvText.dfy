/** The texts the CSV reader reads: every text is lines of cells or breaks off inside a quotation, and
    what is read is what the cells say. */
module CsvText {
  import opened Csv
  import opened Wrappers

  // ---- How cells are spelled

  /** A bare cell does not begin with a quote; a quoted one may go on behind its closing quote. */
  datatype Cell = Bare(text: string) | Quoted(text: string, tail: string)

  ghost predicate NoBreak(s: string) {
    forall k :: 0 <= k < |s| ==> s[k] != ',' && s[k] != '\n'
  }

  ghost predicate NoQuoteFirst(s: string) {
    |s| > 0 ==> s[0] != '"'
  }

  ghost predicate Proper(c: Cell) {
    match c
    case Bare(text) => NoBreak(text) && NoQuoteFirst(text)
    case Quoted(_, tail) => NoBreak(tail) && NoQuoteFirst(tail)
  }

  /** Inside a quotation every quote stands twice. */
  ghost predicate Doubled(text: string, spelled: string)
    decreases |text|
  {
    if text == "" then spelled == ""
    else if text[0] == '"' then
      |spelled| >= 2 && spelled[0] == '"' && spelled[1] == '"' && Doubled(text[1..], spelled[2..])
    else |spelled| >= 1 && spelled[0] == text[0] && Doubled(text[1..], spelled[1..])
  }

  lemma {:induction false} DoubledIs(text: string, spelled: string)
    ensures Doubled(text, spelled) <==> spelled == DoubleQuotes(text)
    decreases |text|
  {
    if text != "" {
      if text[0] == '"' {
        if |spelled| >= 2 {
          DoubledIs(text[1..], spelled[2..]);
          assert spelled == [spelled[0], spelled[1]] + spelled[2..];
        }
      } else if |spelled| >= 1 {
        DoubledIs(text[1..], spelled[1..]);
        assert spelled == [spelled[0]] + spelled[1..];
      }
    }
  }

  function Spelled(c: Cell): string {
    match c
    case Bare(text) => text
    case Quoted(text, tail) => "\"" + DoubleQuotes(text) + "\"" + tail
  }

  function Says(c: Cell): string {
    match c
    case Bare(text) => text
    case Quoted(text, tail) => text + tail
  }

  type Line = cells: seq<Cell> | |cells| > 0 witness [Bare("")]

  ghost predicate ProperLine(line: Line) {
    forall c <- line :: Proper(c)
  }

  function SpelledLine(line: Line): string {
    if |line| == 1 then Spelled(line[0]) else Spelled(line[0]) + "," + SpelledLine(line[1..])
  }

  function SpelledText(lines: seq<Line>, last: Line): string {
    if lines == [] then SpelledLine(last) else SpelledLine(lines[0]) + "\n" + SpelledText(lines[1..], last)
  }

  /** The record of a line: one return before the line end is not part of the last field. */
  function RecordOf(line: Line): seq<string> {
    if |line| == 1 then [StripReturn(Says(line[0]))] else [Says(line[0])] + RecordOf(line[1..])
  }

  function RecordsOf(lines: seq<Line>): seq<seq<string>> {
    if lines == [] then [] else [RecordOf(lines[0])] + RecordsOf(lines[1..])
  }

  /** What follows the last line end makes a record unless it is one cell that says nothing. */
  function AllRecords(lines: seq<Line>, last: Line): seq<seq<string>> {
    RecordsOf(lines) + if |last| == 1 && Says(last[0]) == "" then [] else [RecordOf(last)]
  }

  /** Text that breaks off inside a quotation, which `cells` precede on its line. */
  function SpelledCells(cells: seq<Cell>): string {
    if cells == [] then "" else Spelled(cells[0]) + "," + SpelledCells(cells[1..])
  }

  function SpelledOpen(lines: seq<Line>, cells: seq<Cell>, text: string): string {
    if lines == [] then SpelledCells(cells) + "\"" + DoubleQuotes(text)
    else SpelledLine(lines[0]) + "\n" + SpelledOpen(lines[1..], cells, text)
  }

  // ---- Reading what is spelled

  lemma {:induction false} ScanUnquoted(st: State, text: string, s: string, rest: string)
    requires !st.quoted && NoBreak(text) && s == text + rest && (st.field == "" ==> NoQuoteFirst(text))
    ensures Scan(st, s) == Scan(st.(field := st.field + text), rest)
    decreases |text|
  {
    if text == "" {
      assert s == rest && st.field + text == st.field;
    } else {
      var tail := text[1..] + rest;
      assert s == [text[0]] + tail && s[1..] == tail;
      assert forall k :: 0 <= k < |text[1..]| ==> text[1..][k] == text[k + 1];
      ScanUnquoted(st.(field := st.field + [text[0]]), text[1..], tail, rest);
      assert st.field + [text[0]] + text[1..] == st.field + text;
    }
  }

  ghost predicate Breaks(rest: string) {
    rest == "" || rest[0] == ',' || rest[0] == '\n'
  }

  lemma ScanSpelledCell(st: State, c: Cell, s: string, rest: string)
    requires !st.quoted && st.field == "" && Proper(c) && s == Spelled(c) + rest && Breaks(rest)
    ensures Scan(st, s) == Scan(st.(field := Says(c)), rest)
  {
    match c
    case Bare(text) =>
      ScanUnquoted(st, text, s, rest);
      assert "" + text == text;
    case Quoted(text, tail) =>
      var behind := tail + rest;
      QuotedSplit(text, tail, rest);
      ScanOpen(st, s, DoubleQuotes(text) + "\"" + behind);
      ScanQuoted(st.(quoted := true), text, behind);
      assert "" + text == text;
      ScanUnquoted(st.(field := text), tail, behind, rest);
  }

  lemma QuotedSplit(text: string, tail: string, rest: string)
    ensures Spelled(Quoted(text, tail)) + rest == "\"" + (DoubleQuotes(text) + "\"" + (tail + rest))
  {
    Regroup("\"", DoubleQuotes(text), "\"", tail, rest);
  }

  lemma Regroup(a: string, b: string, c: string, d: string, e: string)
    ensures a + b + c + d + e == a + (b + c + (d + e)) == a + b + (c + d + e)
  {}

  lemma ScanOpen(st: State, s: string, rest: string)
    requires !st.quoted && st.field == "" && s == "\"" + rest
    ensures Scan(st, s) == Scan(st.(quoted := true), rest)
  {
    assert s[1..] == rest;
  }

  lemma ScanComma(st: State, s: string, rest: string)
    requires !st.quoted && s == "," + rest
    ensures Scan(st, s) == Scan(st.(record := st.record + [st.field], field := ""), rest)
  {
    assert s[1..] == rest;
  }

  lemma ScanEnd(st: State, s: string, rest: string)
    requires !st.quoted && s == "\n" + rest
    ensures Scan(st, s) == Scan(State(st.records + [st.record + [StripReturn(st.field)]], [], "", false), rest)
  {
    assert s[1..] == rest;
  }

  lemma CellComma(st: State, c: Cell, s: string, tail: string)
    requires !st.quoted && st.field == "" && Proper(c) && s == Spelled(c) + ("," + tail)
    ensures Scan(st, s) == Scan(st.(record := st.record + [Says(c)]), tail)
  {
    ScanSpelledCell(st, c, s, "," + tail);
    ScanComma(st.(field := Says(c)), "," + tail, tail);
  }

  lemma CellEnd(st: State, c: Cell, s: string, rest: string)
    requires !st.quoted && st.field == "" && Proper(c) && s == Spelled(c) + ("\n" + rest)
    ensures Scan(st, s) == Scan(State(st.records + [st.record + [StripReturn(Says(c))]], [], "", false), rest)
  {
    ScanSpelledCell(st, c, s, "\n" + rest);
    ScanEnd(st.(field := Says(c)), "\n" + rest, rest);
  }

  lemma LineSplit(line: Line, rest: string)
    requires |line| > 1
    ensures SpelledLine(line) + rest == Spelled(line[0]) + ("," + (SpelledLine(line[1..]) + rest))
  {}

  lemma RecordSplit(record: seq<string>, line: Line)
    requires |line| > 1
    ensures record + RecordOf(line) == record + [Says(line[0])] + RecordOf(line[1..])
  {}

  lemma LineSplitLast(line: Line)
    requires |line| > 1
    ensures SpelledLine(line) == Spelled(line[0]) + ("," + SpelledLine(line[1..]))
  {}

  lemma ProperParts(line: Line)
    requires ProperLine(line)
    ensures Proper(line[0]) && (|line| > 1 ==> ProperLine(line[1..]))
  {}

  /** A line and its end make one record. */
  lemma {:induction false} ScanSpelledLine(st: State, line: Line, s: string, rest: string, next: State)
    requires !st.quoted && st.field == "" && ProperLine(line) && s == SpelledLine(line) + ("\n" + rest)
    requires next == State(st.records + [st.record + RecordOf(line)], [], "", false)
    ensures Scan(st, s) == Scan(next, rest)
    decreases |line|
  {
    ProperParts(line);
    if |line| == 1 {
      CellEnd(st, line[0], s, rest);
    } else {
      var tail := SpelledLine(line[1..]) + ("\n" + rest);
      assert s == Spelled(line[0]) + ("," + tail) by { LineSplit(line, "\n" + rest); }
      var middle := st.(record := st.record + [Says(line[0])]);
      RecordSplit(st.record, line);
      CellComma(st, line[0], s, tail);
      ScanSpelledLine(middle, line[1..], tail, rest, next);
    }
  }

  /** The records after a last line that has no end. */
  function Finished(st: State, line: Line): seq<seq<string>> {
    st.records
    + if st.record == [] && |line| == 1 && Says(line[0]) == "" then [] else [st.record + RecordOf(line)]
  }

  lemma LastCell(st: State, c: Cell, s: string)
    requires !st.quoted && st.field == "" && Proper(c) && s == Spelled(c)
    ensures !Scan(st, s).quoted && Records(Scan(st, s)) == Finished(st, [c])
  {
    assert s == Spelled(c) + "";
    ScanSpelledCell(st, c, s, "");
  }

  lemma FinishedOn(st: State, line: Line, middle: State)
    requires |line| > 1 && middle == st.(record := st.record + [Says(line[0])])
    ensures Finished(middle, line[1..]) == Finished(st, line)
  {
    assert st.record + RecordOf(line) == middle.record + RecordOf(line[1..]);
  }

  lemma {:induction false} ScanLast(st: State, line: Line, s: string, end: State)
    requires !st.quoted && st.field == "" && ProperLine(line) && s == SpelledLine(line) && end == Scan(st, s)
    ensures !end.quoted && Records(end) == Finished(st, line)
    decreases |line|
  {
    ProperParts(line);
    if |line| == 1 {
      assert line == [line[0]];
      LastCell(st, line[0], s);
    } else {
      var tail, middle := SpelledLine(line[1..]), st.(record := st.record + [Says(line[0])]);
      LineSplitLast(line);
      CellComma(st, line[0], s, tail);
      FinishedOn(st, line, middle);
      ScanLast(middle, line[1..], tail, end);
    }
  }

  lemma TextSplit(lines: seq<Line>, last: Line)
    requires lines != []
    ensures SpelledText(lines, last) == SpelledLine(lines[0]) + ("\n" + SpelledText(lines[1..], last))
  {}

  lemma AllRecordsOn(records: seq<seq<string>>, lines: seq<Line>, last: Line)
    ensures records + AllRecords(lines, last) ==
      if lines == [] then Finished(State(records, [], "", false), last)
      else records + [RecordOf(lines[0])] + AllRecords(lines[1..], last)
  {
    if lines == [] {
      assert [] + RecordOf(last) == RecordOf(last);
    } else {
      var end := if |last| == 1 && Says(last[0]) == "" then [] else [RecordOf(last)];
      RegroupRecords(records, RecordOf(lines[0]), RecordsOf(lines[1..]), end);
    }
  }

  lemma RegroupRecords(a: seq<seq<string>>, r: seq<string>, b: seq<seq<string>>, c: seq<seq<string>>)
    ensures a + (([r] + b) + c) == a + [r] + (b + c)
  {}

  lemma {:induction false} ScanSpelledText(
    records: seq<seq<string>>, lines: seq<Line>, last: Line, s: string, end: State)
    requires (forall line <- lines :: ProperLine(line)) && ProperLine(last)
    requires s == SpelledText(lines, last) && end == Scan(State(records, [], "", false), s)
    ensures !end.quoted && Records(end) == records + AllRecords(lines, last)
    decreases |lines|
  {
    var st := State(records, [], "", false);
    AllRecordsOn(records, lines, last);
    if lines == [] {
      ScanLast(st, last, s, end);
    } else {
      assert lines[0] in lines && forall line <- lines[1..] :: line in lines;
      var first, rest := RecordOf(lines[0]), SpelledText(lines[1..], last);
      assert [] + first == first;
      TextSplit(lines, last);
      ScanSpelledLine(st, lines[0], s, rest, State(records + [first], [], "", false));
      ScanSpelledText(records + [first], lines[1..], last, rest, end);
    }
  }

  lemma {:induction false} ScanDoubled(st: State, text: string)
    requires st.quoted
    ensures Scan(st, DoubleQuotes(text)) == st.(field := st.field + text)
    decreases |text|
  {
    if text == "" {
      assert st.field + text == st.field;
    } else {
      var middle := st.(field := st.field + [text[0]]);
      assert middle.field + text[1..] == st.field + text;
      ScanInside(st, text, DoubleQuotes(text), DoubleQuotes(text[1..]));
      ScanDoubled(middle, text[1..]);
    }
  }

  lemma ScanInside(st: State, text: string, s: string, tail: string)
    requires st.quoted && text != "" && s == DoubleQuotes(text) && tail == DoubleQuotes(text[1..])
    ensures Scan(st, s) == Scan(st.(field := st.field + [text[0]]), tail)
  {
    if text[0] == '"' { assert s == "\"\"" + tail && s[2..] == tail; }
    else { assert s == [text[0]] + tail && s[1..] == tail; }
  }

  lemma CellsSplit(cells: seq<Cell>, rest: string)
    requires cells != []
    ensures SpelledCells(cells) + rest == Spelled(cells[0]) + ("," + (SpelledCells(cells[1..]) + rest))
  {}

  lemma {:induction false} ScanCells(st: State, cells: seq<Cell>, s: string, rest: string, end: State)
    returns (record: seq<string>)
    requires !st.quoted && st.field == "" && (forall c <- cells :: Proper(c)) && s == SpelledCells(cells) + rest
    requires end == Scan(st, s)
    ensures end == Scan(st.(record := record), rest)
    decreases |cells|
  {
    if cells == [] {
      assert s == rest;
      record := st.record;
    } else {
      assert cells[0] in cells && forall c <- cells[1..] :: c in cells;
      var tail := SpelledCells(cells[1..]) + rest;
      CellsSplit(cells, rest);
      CellComma(st, cells[0], s, tail);
      record := ScanCells(st.(record := st.record + [Says(cells[0])]), cells[1..], tail, rest, end);
    }
  }

  lemma OpenSplit(lines: seq<Line>, cells: seq<Cell>, text: string)
    ensures SpelledOpen(lines, cells, text) ==
      if lines == [] then SpelledCells(cells) + ("\"" + DoubleQuotes(text))
      else SpelledLine(lines[0]) + ("\n" + SpelledOpen(lines[1..], cells, text))
  {}

  lemma ScanOpening(st: State, text: string, s: string)
    requires !st.quoted && st.field == "" && s == "\"" + DoubleQuotes(text)
    ensures Scan(st, s) == st.(field := text, quoted := true)
  {
    assert "" + text == text;
    ScanOpen(st, s, DoubleQuotes(text));
    ScanDoubled(st.(quoted := true), text);
  }

  lemma {:induction false} ScanSpelledOpen(
    records: seq<seq<string>>, lines: seq<Line>, cells: seq<Cell>, text: string, s: string, end: State)
    requires (forall line <- lines :: ProperLine(line)) && forall c <- cells :: Proper(c)
    requires s == SpelledOpen(lines, cells, text) && end == Scan(State(records, [], "", false), s)
    ensures end.quoted && |end.records| == |records| + |lines|
    decreases |lines|
  {
    var st := State(records, [], "", false);
    OpenSplit(lines, cells, text);
    if lines == [] {
      var rest := "\"" + DoubleQuotes(text);
      var record := ScanCells(st, cells, s, rest, end);
      ScanOpening(st.(record := record), text, rest);
    } else {
      assert lines[0] in lines && forall line <- lines[1..] :: line in lines;
      var first, rest := RecordOf(lines[0]), SpelledOpen(lines[1..], cells, text);
      assert [] + first == first;
      ScanSpelledLine(st, lines[0], s, rest, State(records + [first], [], "", false));
      ScanSpelledOpen(records + [first], lines[1..], cells, text, rest, end);
    }
  }

  // ---- Every text is spelled in one of the two ways

  datatype Form = Closed(lines: seq<Line>, last: Line) | Open(lines: seq<Line>, cells: seq<Cell>, text: string)

  ghost predicate ProperForm(f: Form) {
    && (forall line <- f.lines :: ProperLine(line))
    && (if f.Closed? then ProperLine(f.last) else forall c <- f.cells :: Proper(c))
  }

  function SpelledForm(f: Form): string {
    match f
    case Closed(lines, last) => SpelledText(lines, last)
    case Open(lines, cells, text) => SpelledOpen(lines, cells, text)
  }

  /** Up to the first comma or line end. */
  lemma {:induction false} UpToBreak(s: string) returns (text: string, rest: string)
    ensures s == text + rest && NoBreak(text) && Breaks(rest)
    decreases |s|
  {
    if Breaks(s) {
      text, rest := "", s;
    } else {
      text, rest := UpToBreak(s[1..]);
      text := [s[0]] + text;
    }
  }

  /** Up to the lone quote that closes a quotation, or to the end. */
  lemma {:induction false} UpToClose(s: string) returns (text: string, closed: bool, rest: string)
    ensures s == DoubleQuotes(text) + if closed then "\"" + rest else ""
    ensures closed ==> NoQuoteFirst(rest) && |rest| < |s|
    decreases |s|
  {
    if s == "" {
      text, closed, rest := "", false, "";
    } else if s[0] != '"' {
      text, closed, rest := UpToClose(s[1..]);
      assert ([s[0]] + text)[1..] == text;
      text := [s[0]] + text;
    } else if |s| > 1 && s[1] == '"' {
      text, closed, rest := UpToClose(s[2..]);
      assert ("\"" + text)[1..] == text;
      text := "\"" + text;
    } else {
      text, closed, rest := "", true, s[1..];
    }
  }

  lemma FirstCell(s: string) returns (c: Cell, closed: bool, rest: string)
    ensures closed ==> Proper(c) && s == Spelled(c) + rest && Breaks(rest)
    ensures !closed ==> s == "\"" + DoubleQuotes(c.text)
  {
    if NoQuoteFirst(s) {
      var text;
      text, rest := UpToBreak(s);
      c, closed := Bare(text), true;
    } else {
      var text, behind;
      text, closed, behind := UpToClose(s[1..]);
      var tail;
      tail, rest := UpToBreak(behind);
      c := Quoted(text, tail);
    }
  }

  /** Puts a cell and the comma behind it before the first cell of a form. */
  function Before(c: Cell, f: Form): Form {
    match f
    case Closed(lines, last) =>
      if lines == [] then Closed([], [c] + last) else Closed([[c] + lines[0]] + lines[1..], last)
    case Open(lines, cells, text) =>
      if lines == [] then Open([], [c] + cells, text) else Open([[c] + lines[0]] + lines[1..], cells, text)
  }

  lemma BeforeSpelled(c: Cell, f: Form)
    requires ProperForm(f) && Proper(c)
    ensures ProperForm(Before(c, f)) && SpelledForm(Before(c, f)) == Spelled(c) + "," + SpelledForm(f)
  {
    if f.lines != [] {
      BeforeFirst(c, f);
    } else if f.Closed? {
      LineBefore(c, f.last);
    } else {
      assert ([c] + f.cells)[1..] == f.cells;
      Regroup(Spelled(c), ",", SpelledCells(f.cells), "\"", DoubleQuotes(f.text));
    }
  }

  lemma LineBefore(c: Cell, line: Line)
    ensures SpelledLine([c] + line) == Spelled(c) + "," + SpelledLine(line)
  {
    assert ([c] + line)[1..] == line;
  }

  lemma BeforeFirst(c: Cell, f: Form)
    requires ProperForm(f) && Proper(c) && f.lines != []
    ensures ProperForm(Before(c, f)) && SpelledForm(Before(c, f)) == Spelled(c) + "," + SpelledForm(f)
  {
    var line: Line, rest := [c] + f.lines[0], f.lines[1..];
    var more: seq<Line> := [line] + rest;
    assert more[0] == line && more[1..] == rest && f.lines[0] in f.lines && forall l <- rest :: l in f.lines;
    LineBefore(c, f.lines[0]);
    var behind := if f.Closed? then SpelledText(rest, f.last) else SpelledOpen(rest, f.cells, f.text);
    Regroup(Spelled(c), ",", SpelledLine(f.lines[0]), "\n", behind);
  }

  function Above(line: Line, f: Form): Form {
    var more: seq<Line> := [line] + f.lines;
    if f.Closed? then Closed(more, f.last) else Open(more, f.cells, f.text)
  }

  lemma AboveSpelled(c: Cell, f: Form)
    requires ProperForm(f) && Proper(c)
    ensures ProperForm(Above([c], f)) && SpelledForm(Above([c], f)) == Spelled(c) + "\n" + SpelledForm(f)
  {
    var line: Line := [c];
    var more: seq<Line> := [line] + f.lines;
    assert more[1..] == f.lines && more[0] == line;
  }

  lemma Rejoin(s: string, a: string, rest: string)
    requires s == a + rest && rest != ""
    ensures s == a + [rest[0]] + rest[1..]
  {}

  lemma {:induction false} SpellingOf(s: string) returns (f: Form)
    ensures ProperForm(f) && SpelledForm(f) == s
    decreases |s|
  {
    var c, closed, rest := FirstCell(s);
    if !closed {
      f := Open([], [], c.text);
      assert SpelledCells([]) + "\"" + DoubleQuotes(c.text) == s;
    } else if rest == "" {
      f := Closed([], [c]);
    } else {
      f := SpellingOf(rest[1..]);
      Rejoin(s, Spelled(c), rest);
      if rest[0] == ',' {
        BeforeSpelled(c, f);
        f := Before(c, f);
      } else {
        AboveSpelled(c, f);
        f := Above([c], f);
      }
    }
  }

  // ---- Records and complaints

  predicate SaysNothing(record: seq<string>) {
    forall k :: 0 <= k < |record| ==> |record[k]| == 0
  }

  /** Rows are kept or dropped one by one: those that say nothing are dropped. */
  lemma {:induction false} KeptPiecewise(a: seq<seq<string>>, b: seq<seq<string>>)
    ensures NonBlank(a + b) == NonBlank(a) + NonBlank(b)
    decreases |a|
  {
    if a == [] {
      assert a + b == b;
    } else {
      assert (a + b)[1..] == a[1..] + b;
      KeptPiecewise(a[1..], b);
    }
  }

  lemma KeptOfOne(record: seq<string>)
    ensures NonBlank([record]) == if SaysNothing(record) then [] else [record]
  {
    assert NonBlank([record][1..]) == [];
    if Blank(record) {
      forall k | 0 <= k < |record| ensures |record[k]| == 0 { assert record[k] in record; }
    }
  }

  /** The k-th of the rows that are kept has neither the width of the header nor one field less. */
  ghost predicate Complaint(records: seq<seq<string>>, width: nat, row: nat, k: nat, x: CsvError) {
    && k < |records| && (|records[k]| + 1 < width || width < |records[k]|)
    && x == CsvError(row + k, WrongWidth(|records[k]|))
  }

  lemma {:induction false} WidthComplaints(records: seq<seq<string>>, width: nat, row: nat, x: CsvError)
    ensures x in WidthErrors(records, width, row) <==>
      exists k: nat :: Complaint(records, width, row, k, x)
    decreases |records|
  {
    if records != [] {
      var rest, next := records[1..], row + 1;
      WidthComplaints(rest, width, next, x);
      if k: nat :| Complaint(rest, width, next, k, x) { assert Complaint(records, width, row, k + 1, x); }
      if k: nat :| Complaint(records, width, row, k, x) {
        if k > 0 { assert Complaint(rest, width, next, k - 1, x); }
      }
      assert Complaint(records, width, row, 0, x) <==>
        (|records[0]| + 1 < width || width < |records[0]|) && x == CsvError(row, WrongWidth(|records[0]|));
    }
  }

  // ---- The header

  /** The texts between the NULs. */
  function Parts(s: string): (r: seq<string>)
    ensures |r| > 0
  {
    if s == "" then [""]
    else if s[0] == '\0' then [""] + Parts(s[1..])
    else var rest := Parts(s[1..]); [[s[0]] + rest[0]] + rest[1..]
  }

  /** All texts between NULs, of all the fields in turn. */
  function Flattened(fields: seq<string>): seq<string> {
    if fields == [] then [] else Parts(fields[0]) + Flattened(fields[1..])
  }

  lemma {:induction false} PartsOfTwo(a: string, b: string)
    ensures Parts(a + ("\0" + b)) == Parts(a) + Parts(b)
    decreases |a|
  {
    var s := a + ("\0" + b);
    if a == "" {
      assert s[1..] == b;
    } else {
      assert s[1..] == a[1..] + ("\0" + b);
      PartsOfTwo(a[1..], b);
    }
  }

  lemma JoinOn(fields: seq<string>)
    requires |fields| > 1
    ensures Join(fields, "\0") == fields[0] + ("\0" + Join(fields[1..], "\0"))
  {}

  lemma {:induction false} PartsOfJoin(fields: seq<string>)
    requires fields != []
    ensures Parts(Join(fields, "\0")) == Flattened(fields)
    decreases |fields|
  {
    if |fields| == 1 {
      assert Flattened(fields[1..]) == [];
    } else {
      JoinOn(fields);
      PartsOfTwo(fields[0], Join(fields[1..], "\0"));
      PartsOfJoin(fields[1..]);
    }
  }

  lemma {:induction false} JoinOfParts(s: string)
    ensures Join(Parts(s), "\0") == s
    decreases |s|
  {
    if s != "" {
      var rest := Parts(s[1..]);
      JoinOfParts(s[1..]);
      if s[0] == '\0' {
        JoinOn([""] + rest);
        assert ([""] + rest)[1..] == rest;
      } else {
        var more := [[s[0]] + rest[0]] + rest[1..];
        if |rest| > 1 {
          JoinOn(rest);
          JoinOn(more);
          assert more[1..] == rest[1..];
        }
        assert Join(more, "\0") == [s[0]] + Join(rest, "\0");
      }
    }
  }

  lemma {:induction false} PartsOfPlain(s: string)
    requires forall k :: 0 <= k < |s| ==> s[k] != '\0'
    ensures Parts(s) == [s]
    decreases |s|
  {
    if s != "" {
      assert [s[0]] + s[1..] == s;
      PartsOfPlain(s[1..]);
    }
  }

  lemma {:induction false} FlattenedPlain(fields: seq<string>)
    requires forall i, k :: 0 <= i < |fields| && 0 <= k < |fields[i]| ==> fields[i][k] != '\0'
    ensures Flattened(fields) == fields
    decreases |fields|
  {
    if fields != [] {
      PartsOfPlain(fields[0]);
      var rest := fields[1..];
      assert forall i, k :: 0 <= i < |rest| && 0 <= k < |rest[i]| ==> rest[i][k] == fields[i + 1][k];
      FlattenedPlain(rest);
    }
  }

  /** Fields are compared joined by NULs: a header passes exactly when its fields, taken apart at the NULs
      that they may hold themselves, are the columns. */
  lemma HeaderPassesIff(header: seq<string>, columns: seq<string>)
    requires columns != [] && columns != [""]
    requires forall i, k :: 0 <= i < |columns| && 0 <= k < |columns[i]| ==> columns[i][k] != '\0'
    ensures HeaderErrors(header, columns) == [] <==> Flattened(header) == columns
  {
    FlattenedPlain(columns);
    PartsOfJoin(columns);
    JoinOfParts(Join(columns, "\0"));
    if header == [] {
      assert Parts("") == [""];
    } else {
      PartsOfJoin(header);
      JoinOfParts(Join(header, "\0"));
    }
  }

  lemma HeadersDecided()
    ensures forall header :: HeaderErrors(header, COLUMNS) == [] <==> Flattened(header) == COLUMNS
  {
    ColumnLetters();
    forall header { HeaderPassesIff(header, COLUMNS); }
  }

  // ---- The whole reader

  /** What is reported of records: the header apart, no more than `maxRows` rows, as many fields each as
      there are columns, and a complaint for everything amiss. */
  ghost predicate ReportOf(records: seq<seq<string>>, columns: seq<string>, maxRows: nat, r: Parsed) {
    var header := if records == [] then [] else records[0];
    var body := if records == [] then [] else records[1..];
    var kept := NonBlank(if |body| <= maxRows then body else body[..maxRows]);
    && |r.rows| == |kept|
    && (forall k :: 0 <= k < |kept| ==> FilledTo(|columns|, kept[k], r.rows[k]))
    && forall x :: x in r.errors <==> Complained(header, |body|, kept, columns, maxRows, x)
  }

  ghost predicate Complained(
    header: seq<string>, count: nat, kept: seq<seq<string>>, columns: seq<string>, maxRows: nat, x: CsvError)
  {
    || (x == CsvError(1, WrongHeader) && Flattened(header) != columns)
    || (x == CsvError(maxRows + 2, TooManyRows) && maxRows < count)
    || exists k: nat :: Complaint(kept, |columns|, 2, k, x)
  }

  ghost predicate FilledTo(width: nat, record: seq<string>, row: seq<string>) {
    && |row| == width
    && forall c :: 0 <= c < width ==> row[c] == if c < |record| then record[c] else ""
  }

  lemma InterpretMeans(records: seq<seq<string>>, columns: seq<string>, maxRows: nat)
    requires forall header :: HeaderErrors(header, columns) == [] <==> Flattened(header) == columns
    ensures ReportOf(records, columns, maxRows, Interpret(records, columns, maxRows))
  {
    var header := if records == [] then [] else records[0];
    var body := if records == [] then [] else records[1..];
    var kept := NonBlank(if |body| <= maxRows then body else body[..maxRows]);
    forall x
      ensures x in HeaderErrors(header, columns) + SizeErrors(|body|, maxRows) + WidthErrors(kept, |columns|, 2)
        <==> Complained(header, |body|, kept, columns, maxRows, x)
    {
      WidthComplaints(kept, |columns|, 2, x);
    }
  }

  /** Every text is lines of cells, and gives the report of what they say; or it breaks off inside a
      quotation, and gives the number of the row that does. */
  lemma ParseMeans(input: string, maxRows: nat) returns (f: Form)
    ensures ProperForm(f) && SpelledForm(f) == input
    ensures f.Closed? ==> ReportOf(AllRecords(f.lines, f.last), COLUMNS, maxRows, Parse(input, maxRows))
    ensures f.Open? ==> Parse(input, maxRows) == Parsed([], [CsvError(|f.lines| + 1, Unterminated)])
  {
    f := SpellingOf(input);
    if f.Closed? {
      ScanSpelledText([], f.lines, f.last, input, Scan(START, input));
      assert [] + AllRecords(f.lines, f.last) == AllRecords(f.lines, f.last);
      HeadersDecided();
      InterpretMeans(AllRecords(f.lines, f.last), COLUMNS, maxRows);
    } else {
      ScanSpelledOpen([], f.lines, f.cells, f.text, input, Scan(START, input));
    }
  }

  // ---- Exported texts

  ghost predicate LooksLikeFormula(text: string) {
    |text| > 0 && text[0] in "=+-@"
  }

  /** No exported text looks like a formula; one that would gets an apostrophe, and any other stays. */
  lemma GuardMeans(cell: Option<string>)
    ensures !LooksLikeFormula(Safe(cell))
    ensures var text := match cell case Some(s) => s case None => "";
      Safe(cell) == if LooksLikeFormula(text) then "'" + text else text
  {}
}
