/** The report CSV scanner and the RFC 4180 writer it undoes. */
module CsvScanner {
  import opened Text

  type Row = seq<string>

  // ---- The scanner as a function of its state and the text still to read ----

  datatype Scan = Scan(rows: seq<Row>, row: Row, field: string, inQuotes: bool)

  const FRESH := Scan([], [], "", false)

  function EndField(s: Scan): Scan {
    s.(row := s.row + [s.field], field := "")
  }

  /** A row is kept unless it is a single empty field. */
  predicate IsBlank(r: Row) {
    |r| == 1 && r[0] == ""
  }

  function EndRow(s: Scan): Scan {
    var ended := EndField(s);
    ended.(rows := if IsBlank(ended.row) then s.rows else s.rows + [ended.row], row := [])
  }

  function Finish(s: Scan): seq<Row> {
    if s.field != "" || s.row != [] then EndRow(s).rows else s.rows
  }

  /** One turn of the scanning loop: the new state and how many characters it consumed. */
  function Turn(s: Scan, text: string): (r: (Scan, nat))
    requires text != ""
    ensures 1 <= r.1 <= |text|
  {
    var c := text[0];
    var paired := |text| > 1 && if s.inQuotes then c == '"' && text[1] == '"' else c == '\r' && text[1] == '\n';
    (if s.inQuotes then
       if c == '"' then (if paired then s.(field := s.field + "\"") else s.(inQuotes := false))
       else s.(field := s.field + [c])
     else if c == '"' then s.(inQuotes := true)
     else if c == ',' then EndField(s)
     else if c == '\n' || c == '\r' then EndRow(s)
     else s.(field := s.field + [c]),
     if paired then 2 else 1)
  }

  function ScanFrom(s: Scan, text: string): seq<Row>
    decreases |text|
  {
    if text == "" then Finish(s)
    else
      var (next, consumed) := Turn(s, text);
      ScanFrom(next, text[consumed..])
  }

  lemma ScanEnds(s: Scan, text: string)
    ensures ScanFrom(s, text[|text|..]) == Finish(s)
  {
  }

  /** One turn from position i on, in terms of the text's own characters. */
  lemma ScanStep(s: Scan, text: string, i: nat)
    requires i < |text|
    ensures var rest := text[i..];
            && rest[0] == text[i] && |rest| == |text| - i && (i + 1 < |text| ==> rest[1] == text[i + 1])
            && i + Turn(s, rest).1 <= |text|
            && ScanFrom(s, rest) == ScanFrom(Turn(s, rest).0, text[i + Turn(s, rest).1..])
  {
    var rest, consumed := text[i..], Turn(s, text[i..]).1;
    assert rest[consumed..] == text[i + consumed..];
  }

  /** The scanning loop, with its lookahead and its explicit index. */
  method ScanRows(text: string) returns (rows: seq<Row>)
    ensures rows == ScanFrom(FRESH, text)
  {
    hide ScanFrom;
    rows := [];
    var field := "";
    var row: Row := [];
    var inQuotes := false;
    var i := 0;
    assert text[0..] == text;
    while i < |text|
      invariant 0 <= i <= |text|
      invariant ScanFrom(FRESH, text) == ScanFrom(Scan(rows, row, field, inQuotes), text[i..])
    {
      ghost var start := i;
      ghost var before := Scan(rows, row, field, inQuotes);
      ScanStep(before, text, start);
      var c := text[i];
      if inQuotes {
        if c == '"' {
          if i + 1 < |text| && text[i + 1] == '"' {
            field := field + "\"";
            i := i + 1;
          } else {
            inQuotes := false;
          }
        } else {
          field := field + [c];
        }
      } else if c == '"' {
        inQuotes := true;
      } else if c == ',' {
        row := row + [field];
        field := "";
      } else if c == '\n' || c == '\r' {
        if c == '\r' && i + 1 < |text| && text[i + 1] == '\n' {
          i := i + 1;
        }
        row := row + [field];
        field := "";
        if |row| > 1 || row[0] != "" {
          rows := rows + [row];
        }
        row := [];
      } else {
        field := field + [c];
      }
      i := i + 1;
      assert Turn(before, text[start..]) == (Scan(rows, row, field, inQuotes), i - start);
    }
    ScanEnds(Scan(rows, row, field, inQuotes), text);
    if field != "" || |row| > 0 {
      row := row + [field];
      if |row| > 1 || row[0] != "" {
        rows := rows + [row];
      }
    }
  }

  // ---- The writer of RFC 4180, section 2 ----

  datatype LineEnd = LF | CR | CRLF

  datatype Cell = Cell(value: string, quoted: bool)

  /** A row as written: its cells, and the line end after it. */
  datatype Line = Line(cells: seq<Cell>, lineEnd: LineEnd)

  predicate IsPlain(c: char) {
    c != '"' && c != ',' && c != '\n' && c != '\r'
  }

  /** A cell may be written bare only when nothing in it needs quoting. */
  predicate LegalCell(c: Cell) {
    c.quoted || forall i :: 0 <= i < |c.value| ==> IsPlain(c.value[i])
  }

  predicate LegalLine(l: Line) {
    l.cells != [] && forall i :: 0 <= i < |l.cells| ==> LegalCell(l.cells[i])
  }

  predicate Legal(lines: seq<Line>) {
    forall i :: 0 <= i < |lines| ==> LegalLine(lines[i])
  }

  function Doubled(v: string): string {
    if v == "" then "" else (if v[0] == '"' then "\"\"" else [v[0]]) + Doubled(v[1..])
  }

  function PrintCell(c: Cell): string {
    if c.quoted then "\"" + Doubled(c.value) + "\"" else c.value
  }

  function PrintCells(cells: seq<Cell>): string
    requires cells != []
  {
    if |cells| == 1 then PrintCell(cells[0]) else PrintCell(cells[0]) + "," + PrintCells(cells[1..])
  }

  function PrintEnd(e: LineEnd): string {
    match e
    case LF => "\n"
    case CR => "\r"
    case CRLF => "\r\n"
  }

  /** The printed table; `closed` says whether the last row also gets its line end. */
  function Print(lines: seq<Line>, closed: bool): string
    requires Legal(lines)
  {
    if lines == [] then ""
    else
      assert LegalLine(lines[0]);
      PrintCells(lines[0].cells) +
      (if |lines| > 1 || closed then PrintEnd(lines[0].lineEnd) else "") + Print(lines[1..], closed)
  }

  function Values(cells: seq<Cell>): (r: Row)
    ensures |r| == |cells|
  {
    if cells == [] then [] else [cells[0].value] + Values(cells[1..])
  }

  /** The table that was written, without the rows of one empty field. */
  function Table(lines: seq<Line>): seq<Row> {
    if lines == [] then []
    else (if IsBlank(Values(lines[0].cells)) then [] else [Values(lines[0].cells)]) + Table(lines[1..])
  }

  function AllRows(lines: seq<Line>): seq<Row> {
    if lines == [] then [] else [Values(lines[0].cells)] + AllRows(lines[1..])
  }

  // ---- Scanning undoes printing ----

  lemma {:induction false} ScanBare(s: Scan, v: string, rest: string)
    requires !s.inQuotes && forall i :: 0 <= i < |v| ==> IsPlain(v[i])
    ensures ScanFrom(s, v + rest) == ScanFrom(s.(field := s.field + v), rest)
    decreases |v|
  {
    if v == "" {
      assert v + rest == rest && s.field + v == s.field;
    } else {
      var text := v + rest;
      assert IsPlain(v[0]) && text[0] == v[0];
      assert text[1..] == v[1..] + rest;
      var next := s.(field := s.field + [v[0]]);
      assert Turn(s, text) == (next, 1);
      forall i | 0 <= i < |v[1..]| ensures IsPlain(v[1..][i]) {
        assert v[1..][i] == v[i + 1];
      }
      ScanBare(next, v[1..], rest);
      assert next.field + v[1..] == s.field + v;
    }
  }

  lemma {:induction false} ScanDoubled(s: Scan, v: string, rest: string)
    requires s.inQuotes && (rest != "" ==> rest[0] != '"')
    ensures ScanFrom(s, Doubled(v) + "\"" + rest) == ScanFrom(s.(field := s.field + v, inQuotes := false), rest)
    decreases |v|
  {
    var text := Doubled(v) + "\"" + rest;
    if v == "" {
      assert text == "\"" + rest && s.field + v == s.field;
      assert Turn(s, text) == (s.(inQuotes := false), 1);
      assert text[1..] == rest;
    } else {
      var head := if v[0] == '"' then "\"\"" else [v[0]];
      var next := s.(field := s.field + [v[0]]);
      assert text == head + (Doubled(v[1..]) + "\"" + rest);
      assert Turn(s, text) == (next, |head|);
      assert text[|head|..] == Doubled(v[1..]) + "\"" + rest;
      ScanDoubled(next, v[1..], rest);
      assert next.field + v[1..] == s.field + v;
    }
  }

  lemma ScanCell(s: Scan, c: Cell, rest: string)
    requires !s.inQuotes && s.field == "" && LegalCell(c) && (rest != "" ==> rest[0] != '"')
    ensures ScanFrom(s, PrintCell(c) + rest) == ScanFrom(s.(field := c.value), rest)
  {
    if c.quoted {
      var text := PrintCell(c) + rest;
      assert text[1..] == Doubled(c.value) + "\"" + rest;
      assert Turn(s, text) == (s.(inQuotes := true), 1);
      ScanDoubled(s.(inQuotes := true), c.value, rest);
      assert s.field + c.value == c.value;
    } else {
      ScanBare(s, c.value, rest);
      assert s.field + c.value == c.value;
    }
  }

  lemma ScanTurn(s: Scan, head: string, rest: string, next: Scan)
    requires head + rest != "" && Turn(s, head + rest) == (next, |head|)
    ensures ScanFrom(s, head + rest) == ScanFrom(next, rest)
  {
    assert (head + rest)[|head|..] == rest;
  }

  /** The scanner after the text of `cells`: all but the last are in the row and the last is the open field. */
  function AtLastCell(rows: seq<Row>, row: Row, cells: seq<Cell>): (s: Scan)
    requires cells != []
    ensures !s.inQuotes
    decreases |cells|
  {
    if |cells| == 1 then Scan(rows, row, cells[0].value, false)
    else AtLastCell(rows, row + [cells[0].value], cells[1..])
  }

  lemma {:induction false} ScanCells(rows: seq<Row>, row: Row, cells: seq<Cell>, rest: string)
    requires cells != [] && (forall i :: 0 <= i < |cells| ==> LegalCell(cells[i]))
    requires rest != "" ==> rest[0] != '"'
    ensures ScanFrom(Scan(rows, row, "", false), PrintCells(cells) + rest) ==
            ScanFrom(AtLastCell(rows, row, cells), rest)
    decreases |cells|
  {
    hide ScanFrom, LegalCell;
    var s := Scan(rows, row, "", false);
    if |cells| == 1 {
      ScanCell(s, cells[0], rest);
    } else {
      var others := PrintCells(cells[1..]) + rest;
      assert PrintCells(cells) + rest == PrintCell(cells[0]) + ("," + others);
      ScanCell(s, cells[0], "," + others);
      ScanTurn(s.(field := cells[0].value), ",", others, Scan(rows, row + [cells[0].value], "", false));
      ScanCells(rows, row + [cells[0].value], cells[1..], rest);
    }
  }

  /** A line end closes the row; after a bare CR a following LF would be swallowed with it. */
  lemma ScanLineEnd(s: Scan, e: LineEnd, rest: string)
    requires !s.inQuotes && (e == CR && rest != "" ==> rest[0] != '\n')
    ensures ScanFrom(s, PrintEnd(e) + rest) == ScanFrom(EndRow(s), rest)
  {
    ScanTurn(s, PrintEnd(e), rest, EndRow(s));
  }

  /** A printed table begins with LF only when its first row is one bare empty cell. */
  lemma PrintStartsWith(lines: seq<Line>, closed: bool)
    requires Legal(lines) && Print(lines, closed) != "" && Print(lines, closed)[0] == '\n'
    ensures IsBlank(Values(lines[0].cells)) && lines[0].lineEnd == LF
    ensures Print(lines, closed) == "\n" + Print(lines[1..], closed)
  {
    var cells := lines[0].cells;
    assert LegalLine(lines[0]) && LegalCell(cells[0]);
    assert PrintCell(cells[0]) == "";
    assert PrintCells(cells) == "";
  }

  function Kept(rows: seq<Row>, r: Row): seq<Row> {
    rows + if IsBlank(r) then [] else [r]
  }

  lemma {:induction false} EndOfLastCell(rows: seq<Row>, row: Row, cells: seq<Cell>)
    requires cells != []
    ensures EndRow(AtLastCell(rows, row, cells)) == Scan(Kept(rows, row + Values(cells)), [], "", false)
    ensures AtLastCell(rows, row, cells).field == "" && AtLastCell(rows, row, cells).row == [] ==>
              AtLastCell(rows, row, cells).rows == Kept(rows, row + Values(cells))
    decreases |cells|
  {
    if |cells| == 1 {
      assert Values(cells) == [cells[0].value];
    } else {
      EndOfLastCell(rows, row + [cells[0].value], cells[1..]);
      assert row + [cells[0].value] + Values(cells[1..]) == row + Values(cells);
    }
  }

  /** Scanning the cells of a line and its line end adds the row, unless it is blank. */
  lemma ScanLine(rows: seq<Row>, cells: seq<Cell>, e: LineEnd, rest: string)
    requires LegalLine(Line(cells, e)) && (e == CR && rest != "" ==> rest[0] != '\n')
    ensures ScanFrom(Scan(rows, [], "", false), PrintCells(cells) + (PrintEnd(e) + rest)) ==
            ScanFrom(Scan(Kept(rows, Values(cells)), [], "", false), rest)
  {
    hide ScanFrom, PrintCells, Kept, EndRow, AtLastCell;
    ScanCells(rows, [], cells, PrintEnd(e) + rest);
    EndOfLastCell(rows, [], cells);
    assert [] + Values(cells) == Values(cells);
    ScanLineEnd(AtLastCell(rows, [], cells), e, rest);
  }

  /** At the end of the text a last row without a line end is added in the same way. */
  lemma ScanLastLine(rows: seq<Row>, cells: seq<Cell>, e: LineEnd)
    requires LegalLine(Line(cells, e))
    ensures ScanFrom(Scan(rows, [], "", false), PrintCells(cells)) == Kept(rows, Values(cells))
  {
    hide PrintCells, Kept, EndRow, AtLastCell;
    assert PrintCells(cells) + "" == PrintCells(cells);
    ScanCells(rows, [], cells, "");
    EndOfLastCell(rows, [], cells);
    assert [] + Values(cells) == Values(cells);
  }

  /** A blank row swallowed with the line end before it adds nothing to the table anyway. */
  lemma {:induction false} ScanLines(rows: seq<Row>, lines: seq<Line>, closed: bool)
    requires Legal(lines)
    ensures ScanFrom(Scan(rows, [], "", false), Print(lines, closed)) == rows + Table(lines)
    decreases |lines|
  {
    hide ScanFrom, Print, PrintCells, Values, Kept, Table, LegalLine;
    if lines == [] {
      PrintEmpty(rows, closed);
    } else {
      var cells := lines[0].cells;
      var kept := Kept(rows, Values(cells));
      var rest := Print(lines[1..], closed);
      PrintFirst(lines, closed);
      TableFirst(rows, lines);
      if |lines| == 1 && !closed {
        ScanLastLine(rows, cells, lines[0].lineEnd);
      } else if lines[0].lineEnd == CR && rest != "" && rest[0] == '\n' {
        assert lines[1..] != [];
        PrintStartsWith(lines[1..], closed);
        TableFirst(kept, lines[1..]);
        var after := Print(lines[1..][1..], closed);
        assert PrintEnd(CR) + rest == PrintEnd(CRLF) + after;
        ScanLine(rows, cells, CRLF, after);
        ScanLines(kept, lines[1..][1..], closed);
      } else {
        ScanLine(rows, cells, lines[0].lineEnd, rest);
        ScanLines(kept, lines[1..], closed);
      }
    }
  }

  lemma {:induction false} TableFirst(rows: seq<Row>, lines: seq<Line>)
    requires Legal(lines) && lines != []
    ensures forall e :: LegalLine(Line(lines[0].cells, e))
    ensures Kept(rows, Values(lines[0].cells)) + Table(lines[1..]) == rows + Table(lines)
    ensures |lines| == 1 ==> Kept(rows, Values(lines[0].cells)) == rows + Table(lines)
    ensures IsBlank(Values(lines[0].cells)) ==> Kept(rows, Values(lines[0].cells)) == rows
  {
    assert LegalLine(lines[0]);
    var vs := Values(lines[0].cells);
    assert rows + (if IsBlank(vs) then [] else [vs]) + Table(lines[1..]) == rows + Table(lines);
    assert |lines| == 1 ==> lines[1..] == [];
  }

  lemma PrintEmpty(rows: seq<Row>, closed: bool)
    ensures ScanFrom(Scan(rows, [], "", false), Print([], closed)) == rows + Table([])
  {
    assert rows + [] == rows;
  }

  lemma PrintFirst(lines: seq<Line>, closed: bool)
    requires Legal(lines) && lines != []
    ensures |lines| == 1 ==> Print(lines[1..], closed) == ""
    ensures Print(lines, closed) ==
            if |lines| == 1 && !closed then PrintCells(lines[0].cells)
            else PrintCells(lines[0].cells) + (PrintEnd(lines[0].lineEnd) + Print(lines[1..], closed))
  {
    var cells, e, rest := PrintCells(lines[0].cells), PrintEnd(lines[0].lineEnd), Print(lines[1..], closed);
    assert cells + e + rest == cells + (e + rest);
    assert |lines| == 1 ==> lines[1..] == [];
    assert |lines| == 1 && !closed ==> cells + "" + rest == cells;
  }

  /**
   * Scanning undoes every legal writer: whatever mixture of bare and quoted cells and of LF, CR and CRLF, and
   * with or without a final line end, the scanner returns the written table without its one-empty-field rows.
   */
  lemma RoundTrip(lines: seq<Line>, closed: bool)
    requires Legal(lines)
    ensures ScanFrom(FRESH, Print(lines, closed)) == Table(lines)
  {
    ScanLines([], lines, closed);
  }

  lemma {:induction false} TableIsAllRows(lines: seq<Line>)
    ensures |Table(lines)| <= |AllRows(lines)| == |lines|
    ensures Table(lines) == AllRows(lines) <==> forall i :: 0 <= i < |lines| ==> !IsBlank(Values(lines[i].cells))
  {
    if lines != [] {
      TableIsAllRows(lines[1..]);
      if IsBlank(Values(lines[0].cells)) {
        assert |Table(lines)| < |AllRows(lines)|;
      } else {
        assert Table(lines)[1..] == Table(lines[1..]) && AllRows(lines)[1..] == AllRows(lines[1..]);
        assert forall i :: 0 < i < |lines| ==> lines[i] == lines[1..][i - 1];
        assert forall i :: 0 <= i < |lines[1..]| ==> lines[1..][i] == lines[i + 1];
      }
    }
  }

  /** The table comes back whole exactly when it has no row of one empty field. */
  lemma RoundTripIsExact(lines: seq<Line>, closed: bool)
    requires Legal(lines)
    ensures ScanFrom(FRESH, Print(lines, closed)) == AllRows(lines) <==>
            forall i :: 0 <= i < |lines| ==> !IsBlank(Values(lines[i].cells))
  {
    RoundTrip(lines, closed);
    TableIsAllRows(lines);
  }

  // ---- Rows to records ----

  predicate IsSpace(c: char) {
    IsWhiteSpace(c as int)
  }

  function TrimStart(s: string): string {
    if s != "" && IsSpace(s[0]) then TrimStart(s[1..]) else s
  }

  function TrimEnd(s: string): string {
    if s != "" && IsSpace(s[|s| - 1]) then TrimEnd(s[..|s| - 1]) else s
  }

  function Trim(s: string): string {
    TrimEnd(TrimStart(s))
  }

  predicate AllSpace(s: string) {
    forall i :: 0 <= i < |s| ==> IsSpace(s[i])
  }

  lemma {:induction false} TrimStartCuts(s: string) returns (left: string)
    ensures AllSpace(left) && s == left + TrimStart(s)
    ensures TrimStart(s) != "" ==> !IsSpace(TrimStart(s)[0])
  {
    left := "";
    if s != "" && IsSpace(s[0]) {
      left := TrimStartCuts(s[1..]);
      left := [s[0]] + left;
    }
  }

  lemma {:induction false} TrimEndCuts(s: string) returns (right: string)
    ensures AllSpace(right) && s == TrimEnd(s) + right
    ensures TrimEnd(s) != "" ==> !IsSpace(TrimEnd(s)[|TrimEnd(s)| - 1])
  {
    right := "";
    if s != "" && IsSpace(s[|s| - 1]) {
      right := TrimEndCuts(s[..|s| - 1]);
      right := right + [s[|s| - 1]];
    }
  }

  lemma {:induction false} TrimStartOf(left: string, rest: string)
    requires AllSpace(left)
    ensures TrimStart(left + rest) == TrimStart(rest)
  {
    if left == "" {
      assert left + rest == rest;
    } else {
      assert (left + rest)[1..] == left[1..] + rest;
      TrimStartOf(left[1..], rest);
    }
  }

  lemma {:induction false} TrimEndOf(rest: string, right: string)
    requires AllSpace(right)
    ensures TrimEnd(rest + right) == TrimEnd(rest)
    decreases |right|
  {
    if right == "" {
      assert rest + right == rest;
    } else {
      assert (rest + right)[..|rest + right| - 1] == rest + right[..|right| - 1];
      TrimEndOf(rest, right[..|right| - 1]);
    }
  }

  /** White space is what trimming takes off both ends, and all of it; what is inside stays. */
  lemma TrimTakesOffSpace(s: string, inner: string)
    ensures Trim(s) == inner <==>
              && (inner != "" ==> !IsSpace(inner[0]) && !IsSpace(inner[|inner| - 1]))
              && exists left: string, right: string :: AllSpace(left) && AllSpace(right) && s == left + inner + right
  {
    TrimLeavesInner(s);
    forall left: string, right: string | AllSpace(left) && AllSpace(right) && s == left + inner + right &&
                                         (inner != "" ==> !IsSpace(inner[0]) && !IsSpace(inner[|inner| - 1]))
      ensures Trim(s) == inner
    {
      TrimOf(left, inner, right);
    }
  }

  lemma TrimLeavesInner(s: string)
    ensures var inner := Trim(s);
            && (inner != "" ==> !IsSpace(inner[0]) && !IsSpace(inner[|inner| - 1]))
            && exists left: string, right: string :: AllSpace(left) && AllSpace(right) && s == left + inner + right
  {
    hide IsSpace;
    var left := TrimStartCuts(s);
    var right := TrimEndCuts(TrimStart(s));
    assert s == left + Trim(s) + right;
    assert Trim(s) != "" ==> Trim(s)[0] == TrimStart(s)[0];
  }

  lemma TrimOf(left: string, inner: string, right: string)
    requires AllSpace(left) && AllSpace(right)
    requires inner != "" ==> !IsSpace(inner[0]) && !IsSpace(inner[|inner| - 1])
    ensures Trim(left + inner + right) == inner
  {
    hide IsSpace;
    TrimStartOf(left, inner + right);
    assert left + (inner + right) == left + inner + right;
    if inner == "" {
      TrimStartOf(right, "");
      assert inner + right == right && right + "" == right;
    } else {
      TrimEndOf(inner, right);
    }
  }

  type Record = map<string, string>

  function CellAt(r: Row, i: nat): string {
    if i < |r| then r[i] else ""
  }

  /** The record of `r` under the first `n` header cells; a later column of the same name wins. */
  function RecordOf(header: Row, r: Row, n: nat): Record
    requires n <= |header|
  {
    if n == 0 then map[] else RecordOf(header, r, n - 1)[Trim(header[n - 1]) := CellAt(r, n - 1)]
  }

  method ToRecord(header: Row, r: Row) returns (record: Record)
    ensures record == RecordOf(header, r, |header|)
  {
    record := map[];
    for idx := 0 to |header|
      invariant record == RecordOf(header, r, idx)
    {
      record := record[Trim(header[idx]) := if idx < |r| then r[idx] else ""];
    }
  }

  method ParseCsv(text: string) returns (records: seq<Record>)
    ensures var rows := ScanFrom(FRESH, text);
            if rows == [] then records == []
            else |records| == |rows| - 1 &&
                 forall i :: 0 <= i < |records| ==> records[i] == RecordOf(rows[0], rows[i + 1], |rows[0]|)
  {
    var rows := ScanRows(text);
    records := [];
    if |rows| == 0 {
      return;
    }
    for i := 1 to |rows|
      invariant |records| == i - 1
      invariant forall j :: 0 <= j < |records| ==> records[j] == RecordOf(rows[0], rows[j + 1], |rows[0]|)
    {
      var record := ToRecord(rows[0], rows[i]);
      records := records + [record];
    }
  }

  /** A record answers each column name with the cell of the last column so named, or "" past the row's end. */
  lemma RecordLooksUpLastColumn(header: Row, r: Row, n: nat, name: string)
    requires n <= |header|
    ensures name in RecordOf(header, r, n) <==> exists i :: 0 <= i < n && Trim(header[i]) == name
    ensures forall i :: 0 <= i < n && Trim(header[i]) == name && (forall j :: i < j < n ==> Trim(header[j]) != name) ==>
              name in RecordOf(header, r, n) && RecordOf(header, r, n)[name] == if i < |r| then r[i] else ""
  {
    hide Trim, RecordOf;
    RecordHasNames(header, r, n, name);
    forall i | 0 <= i < n && Trim(header[i]) == name && (forall j :: i < j < n ==> Trim(header[j]) != name)
      ensures name in RecordOf(header, r, n) && RecordOf(header, r, n)[name] == if i < |r| then r[i] else ""
    {
      RecordHasLast(header, r, n, i);
    }
  }

  lemma {:induction false} RecordHasNames(header: Row, r: Row, n: nat, name: string)
    requires n <= |header|
    ensures name in RecordOf(header, r, n) <==> exists i :: 0 <= i < n && Trim(header[i]) == name
  {
    hide Trim;
    if n > 0 {
      RecordHasNames(header, r, n - 1, name);
    }
  }

  lemma {:induction false} RecordHasLast(header: Row, r: Row, n: nat, i: nat)
    requires i < n <= |header| && forall j :: i < j < n ==> Trim(header[j]) != Trim(header[i])
    ensures Trim(header[i]) in RecordOf(header, r, n)
    ensures RecordOf(header, r, n)[Trim(header[i])] == if i < |r| then r[i] else ""
  {
    hide Trim;
    if i < n - 1 {
      RecordHasLast(header, r, n - 1, i);
    }
  }
}
