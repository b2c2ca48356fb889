/**
 * The dashboard's CSV handling (public/script.js): `parseCSVLine`, which
 * turns a stored log line back into values, the record the table builds
 * from those values, and `convertToCSV`, which exports records.
 */
module ClientCsv {
  import opened Wrappers
  import opened Text
  import opened SyslogProcessor

  /** What `parseCSVLine` holds between characters: `result`, `current` and `inQuotes`. */
  datatype ScanState = ScanState(result: seq<string>, current: string, inQuotes: bool)

  /** The effect of one character: `"` toggles quoting, an unquoted `,` ends a value, anything else is kept. */
  function Step(st: ScanState, c: char): ScanState
  {
    if c == '"' then st.(inQuotes := !st.inQuotes)
    else if c == ',' && !st.inQuotes then ScanState(st.result + [Trim(st.current)], "", st.inQuotes)
    else st.(current := st.current + [c])
  }

  /** The state after reading `s` from `st`, one character at a time. */
  function ScanFrom(st: ScanState, s: string): ScanState
    decreases |s|
  {
    if s == [] then st else ScanFrom(Step(st, s[0]), s[1..])
  }

  const Start := ScanState([], "", false)

  /** The values of a line: the ended ones, and the last one when it has any characters. */
  function CsvFields(line: string): seq<string>
  {
    var st := ScanFrom(Start, line);
    if st.current != "" then st.result + [Trim(st.current)] else st.result
  }

  /** Reading `a + b` is reading `a`, then `b`. */
  lemma {:induction false} ScanFromAppend(st: ScanState, a: string, b: string)
    ensures ScanFrom(st, a + b) == ScanFrom(ScanFrom(st, a), b)
    decreases |a|
  {
    if a == [] {
      assert a + b == b;
    } else {
      assert (a + b)[1..] == a[1..] + b;
      ScanFromAppend(Step(st, a[0]), a[1..], b);
    }
  }

  /** Reading one more character is one more step. */
  lemma ScanSnoc(st: ScanState, s: string, c: char)
    ensures ScanFrom(st, s + [c]) == Step(ScanFrom(st, s), c)
  {
    ScanFromAppend(st, s, [c]);
    assert ScanFrom(ScanFrom(st, s), [c]) == ScanFrom(Step(ScanFrom(st, s), c), []);
  }

  /** `parseCSVLine(line)`. */
  method ParseCsvLine(line: string) returns (result: seq<string>)
    ensures result == CsvFields(line)
  {
    result := [];
    var current := "";
    var inQuotes := false;
    var i := 0;
    while i < |line|
      invariant 0 <= i <= |line|
      invariant ScanFrom(Start, line[..i]) == ScanState(result, current, inQuotes)
    {
      var c := line[i];
      ScanSnoc(Start, line[..i], c);
      assert line[..i + 1] == line[..i] + [c];
      if c == '"' {
        inQuotes := !inQuotes;
      } else if c == ',' && !inQuotes {
        result := result + [Trim(current)];
        current := "";
      } else {
        current := current + [c];
      }
      i := i + 1;
    }
    assert line[..i] == line;
    if current != "" {
      result := result + [Trim(current)];
    }
  }

  /** Every character of a trimmed text comes from the text. */
  lemma TrimKeepsCharacters(s: string, c: char)
    requires c !in s
    ensures c !in Trim(s)
  {
    var t := TrimStart(s);
    assert forall x :: x in t ==> x in s;
    assert forall x :: x in TrimEnd(t) ==> x in t;
  }

  /** No state reached from a quote-free state holds a quote. */
  ghost predicate QuoteFree(st: ScanState)
  {
    '"' !in st.current && forall k :: 0 <= k < |st.result| ==> '"' !in st.result[k]
  }

  lemma {:induction false} ScanQuoteFree(st: ScanState, s: string)
    requires QuoteFree(st)
    ensures QuoteFree(ScanFrom(st, s))
    decreases |s|
  {
    if s != [] {
      var next := Step(st, s[0]);
      if s[0] == ',' && !st.inQuotes {
        TrimKeepsCharacters(st.current, '"');
      }
      ScanQuoteFree(next, s[1..]);
    }
  }

  /** A `"` only toggles quoting: no value `parseCSVLine` returns holds one. */
  lemma FieldsQuoteFree(line: string)
    ensures forall k :: 0 <= k < |CsvFields(line)| ==> '"' !in CsvFields(line)[k]
  {
    ScanQuoteFree(Start, line);
    var st := ScanFrom(Start, line);
    if st.current != "" {
      TrimKeepsCharacters(st.current, '"');
    }
  }

  /**
   * A comma that ends a line outside quotes emits the value before it and
   * nothing after it: the empty final value is dropped.
   */
  lemma TrailingComma(line: string)
    requires !ScanFrom(Start, line).inQuotes
    ensures var st := ScanFrom(Start, line);
            CsvFields(line + ",") == st.result + [Trim(st.current)]
  {
    var st := ScanFrom(Start, line);
    ScanFromAppend(Start, line, ",");
    assert ScanFrom(st, ",") == ScanFrom(Step(st, ','), ","[1..]);
    assert ","[1..] == [];
  }

  /**
   * An empty line gives no values, and a plain value followed by a comma
   * (`'a,'`) gives that one value.
   */
  lemma EmptyTail(v: string)
    requires v != "" && '"' !in v && ',' !in v && Unpadded(v)
    ensures CsvFields("") == []
    ensures CsvFields(v + ",") == [v]
  {
    ScanPlain(Start, v);
    TrailingComma(v);
    TrimUnpadded(v);
  }

  /** A cell as written into a line: bare, or inside double quotes. */
  datatype Cell = Bare(value: string) | Quoted(value: string)

  function CellText(c: Cell): string
  {
    match c
    case Bare(v) => v
    case Quoted(v) => "\"" + v + "\""
  }

  /** A cell `parseCSVLine` reads back unchanged: no quote inside, no comma unless quoted, no surrounding whitespace. */
  predicate Readable(c: Cell)
  {
    && '"' !in c.value
    && (c.Bare? ==> ',' !in c.value)
    && Unpadded(c.value)
  }

  /** No whitespace at either end. */
  predicate Unpadded(s: string)
  {
    s == [] || (!IsWhitespace(s[0]) && !IsWhitespace(s[|s| - 1]))
  }

  /** Reading text with no `"` and, outside quotes, no `,` only extends the current value. */
  lemma {:induction false} ScanPlain(st: ScanState, s: string)
    requires '"' !in s && (!st.inQuotes ==> ',' !in s)
    ensures ScanFrom(st, s) == st.(current := st.current + s)
    decreases |s|
  {
    if s == [] {
      assert st.current + s == st.current;
    } else {
      ScanPlain(Step(st, s[0]), s[1..]);
      assert st.current + [s[0]] + s[1..] == st.current + s;
    }
  }

  /** Reading one written cell from an empty unquoted value leaves its value as the current value. */
  lemma ScanCell(res: seq<string>, c: Cell)
    requires Readable(c)
    ensures ScanFrom(ScanState(res, "", false), CellText(c)) == ScanState(res, c.value, false)
  {
    var st := ScanState(res, "", false);
    match c {
      case Bare(v) =>
        ScanPlain(st, v);
      case Quoted(v) =>
        var q := "\"";
        ScanFromAppend(st, q + v, q);
        ScanFromAppend(st, q, v);
        ScanPlain(ScanState(res, "", true), v);
    }
  }

  /**
   * Reading cells joined by commas from an empty unquoted value ends every
   * cell but the last, whose value stays current.
   */
  lemma {:induction false} ScanCells(res: seq<string>, cells: seq<Cell>)
    requires |cells| >= 1 && forall k :: 0 <= k < |cells| ==> Readable(cells[k])
    ensures ScanFrom(ScanState(res, "", false), Join(CellTexts(cells), ","))
            == ScanState(res + Values(cells[..|cells| - 1]), cells[|cells| - 1].value, false)
    decreases |cells|
  {
    if |cells| == 1 {
      SingleCell(res, cells);
    } else {
      var later := cells[1..];
      var res' := res + [cells[0].value];
      FirstCell(res, cells);
      ScanCells(res', later);
      FrontValues(res, cells);
      assert later[|later| - 1] == cells[|cells| - 1];
    }
  }

  lemma SingleCell(res: seq<string>, cells: seq<Cell>)
    requires |cells| == 1 && Readable(cells[0])
    ensures ScanFrom(ScanState(res, "", false), Join(CellTexts(cells), ","))
            == ScanState(res + Values(cells[..0]), cells[0].value, false)
  {
    ScanCell(res, cells[0]);
    assert CellTexts(cells) == [CellText(cells[0])];
    assert Values(cells[..0]) == [];
  }

  /** Reading the first of several written cells and its comma ends that cell. */
  lemma FirstCell(res: seq<string>, cells: seq<Cell>)
    requires |cells| >= 2 && Readable(cells[0])
    ensures ScanFrom(ScanState(res, "", false), Join(CellTexts(cells), ","))
            == ScanFrom(ScanState(res + [cells[0].value], "", false), Join(CellTexts(cells[1..]), ","))
  {
    var st := ScanState(res, "", false);
    ScanCell(res, cells[0]);
    var texts := CellTexts(cells);
    var rest := Join(texts[1..], ",");
    assert Join(texts, ",") == texts[0] + "," + rest;
    assert texts[1..] == CellTexts(cells[1..]);
    AfterFirstCell(st, texts[0], rest, ScanState(res, cells[0].value, false));
  }

  /** Reading a cell and a comma ends the cell. */
  lemma AfterFirstCell(st: ScanState, t0: string, rest: string, mid: ScanState)
    requires ScanFrom(st, t0) == mid && !mid.inQuotes && Unpadded(mid.current)
    ensures ScanFrom(st, t0 + "," + rest) == ScanFrom(ScanState(mid.result + [mid.current], "", false), rest)
  {
    TrimUnpadded(mid.current);
    ScanFromAppend(st, t0 + ",", rest);
    ScanFromAppend(st, t0, ",");
    assert ScanFrom(mid, ",") == Step(mid, ',');
  }

  /** The values of all but the last cell, split after the first. */
  lemma FrontValues(res: seq<string>, cells: seq<Cell>)
    requires |cells| >= 2
    ensures (res + [cells[0].value]) + Values(cells[1..][..|cells| - 2]) == res + Values(cells[..|cells| - 1])
  {
    assert Values(cells[..|cells| - 1]) == [cells[0].value] + Values(cells[1..][..|cells| - 2]);
  }

  function CellTexts(cells: seq<Cell>): (texts: seq<string>)
    ensures |texts| == |cells|
  {
    seq(|cells|, k requires 0 <= k < |cells| => CellText(cells[k]))
  }

  function Values(cells: seq<Cell>): (values: seq<string>)
    ensures |values| == |cells|
  {
    seq(|cells|, k requires 0 <= k < |cells| => cells[k].value)
  }

  /**
   * Cells written with `,` between them read back as their values, as long
   * as each is readable and the last one is not empty.
   */
  lemma ReadWrittenCells(cells: seq<Cell>)
    requires |cells| >= 1 && forall k :: 0 <= k < |cells| ==> Readable(cells[k])
    requires cells[|cells| - 1].value != ""
    ensures CsvFields(Join(CellTexts(cells), ",")) == Values(cells)
  {
    ScanCells([], cells);
    var last := cells[|cells| - 1];
    var front := Values(cells[..|cells| - 1]);
    assert [] + front == front;
    assert Readable(last);
    FieldsOfScan(Join(CellTexts(cells), ","), front, last.value);
    LastValue(cells);
  }

  /** A line read up to an unquoted, unpadded, non-empty final value yields the ended values and that value. */
  lemma FieldsOfScan(line: string, front: seq<string>, v: string)
    requires ScanFrom(Start, line) == ScanState(front, v, false) && v != "" && Unpadded(v)
    ensures CsvFields(line) == front + [v]
  {
    TrimUnpadded(v);
  }

  lemma LastValue(cells: seq<Cell>)
    requires |cells| >= 1
    ensures Values(cells[..|cells| - 1]) + [cells[|cells| - 1].value] == Values(cells)
  {
  }

  /** The cells of a log line: the protocol is the one written inside quotes. */
  function LineCells(e: ConnectionEvent): (cells: seq<Cell>)
    ensures CellTexts(cells) == LineFields(e)
  {
    [Bare(e.time), Bare(e.userId), Quoted(e.protocol), Bare(e.mac),
     Bare(Render(e.localIp)), Bare(Render(e.localPort)), Bare(Render(e.remoteIp)), Bare(Render(e.remotePort))]
  }

  /**
   * A stored log line, without its newline, parses back into the eight
   * values `formatLogLine` wrote, the protocol without its quotes; this
   * needs values free of `"`, commas only in the protocol, no surrounding
   * whitespace and a non-empty remote port.
   */
  lemma LogLineRoundTrip(e: ConnectionEvent)
    requires forall k :: 0 <= k < 8 ==> Readable(LineCells(e)[k])
    requires Render(e.remotePort) != ""
    ensures var line := FormatLogLine(e);
            CsvFields(line[..|line| - 1])
            == [e.time, e.userId, e.protocol, e.mac, Render(e.localIp), Render(e.localPort), Render(e.remoteIp), Render(e.remotePort)]
  {
    var cells := LineCells(e);
    LineText(e);
    LineValues(e);
    assert |cells| == 8;
    ReadWrittenCells(cells);
  }

  /** A stored line without its newline is its cells joined by commas. */
  lemma LineText(e: ConnectionEvent)
    ensures var line := FormatLogLine(e);
            line[..|line| - 1] == Join(CellTexts(LineCells(e)), ",")
  {
    LineIsJoin(e);
  }

  /** The values of a line's cells are the eight values `formatLogLine` writes. */
  lemma LineValues(e: ConnectionEvent)
    ensures Values(LineCells(e))
            == [e.time, e.userId, e.protocol, e.mac, Render(e.localIp), Render(e.localPort), Render(e.remoteIp), Render(e.remotePort)]
  {
  }

  /** The record the table builds from a parsed line: eleven values read by position, `undefined` past the end. */
  datatype Item = Item(
    time: JsValue, routerIp: JsValue, userId: JsValue, protocol: JsValue, mac: JsValue,
    localIp: JsValue, localPort: JsValue, remoteIp: JsValue, remotePort: JsValue,
    natIp: JsValue, natPort: JsValue)

  /** `{ time: parts[0], router_ip: parts[1], …, nat_port: parts[10] }`. */
  function ItemFromParts(parts: seq<string>): Item
  {
    Item(Element(parts, 0), Element(parts, 1), Element(parts, 2), Element(parts, 3), Element(parts, 4),
         Element(parts, 5), Element(parts, 6), Element(parts, 7), Element(parts, 8),
         Element(parts, 9), Element(parts, 10))
  }

  /** `Object.values(item)`: the values in the order the keys were written. */
  function ItemValues(item: Item): (values: seq<JsValue>)
    ensures |values| == 11
  {
    [item.time, item.routerIp, item.userId, item.protocol, item.mac, item.localIp, item.localPort,
     item.remoteIp, item.remotePort, item.natIp, item.natPort]
  }

  /**
   * Reading a stored log line into a record shifts every column after the
   * first by one: the line has no router column, so `router_ip` receives
   * the subscriber, `user_id` the protocol and so on, and `remote_port` and
   * both NAT fields are `undefined`.
   */
  lemma ItemOfLogLine(e: ConnectionEvent)
    requires forall k :: 0 <= k < 8 ==> Readable(LineCells(e)[k])
    requires Render(e.remotePort) != ""
    ensures var line := FormatLogLine(e);
            var item := ItemFromParts(CsvFields(line[..|line| - 1]));
            && item.time == Str(e.time) && item.routerIp == Str(e.userId) && item.userId == Str(e.protocol)
            && item.protocol == Str(e.mac) && item.mac == Str(Render(e.localIp)) && item.localIp == Str(Render(e.localPort))
            && item.localPort == Str(Render(e.remoteIp)) && item.remoteIp == Str(Render(e.remotePort))
            && item.remotePort == Undefined && item.natIp == Undefined && item.natPort == Undefined
  {
    LogLineRoundTrip(e);
  }

  /** `String(cell).replace(/"/g, '""')`. */
  function DoubleQuotes(s: string): string
  {
    if s == [] then [] else (if s[0] == '"' then "\"\"" else [s[0]]) + DoubleQuotes(s[1..])
  }

  /** Reading a doubled-quote text back: `""` stands for one `"`. */
  function UndoubleQuotes(t: string): string
    decreases |t|
  {
    if t == [] then []
    else if |t| >= 2 && t[0] == '"' && t[1] == '"' then "\"" + UndoubleQuotes(t[2..])
    else [t[0]] + UndoubleQuotes(t[1..])
  }

  /** Doubling quotes loses nothing: undoubling gives the value back. */
  lemma {:induction false} DoubleQuotesRoundTrip(s: string)
    ensures UndoubleQuotes(DoubleQuotes(s)) == s
    decreases |s|
  {
    if s != [] {
      DoubleQuotesRoundTrip(s[1..]);
      var rest := DoubleQuotes(s[1..]);
      if s[0] == '"' {
        assert DoubleQuotes(s) == "\"\"" + rest;
        assert (DoubleQuotes(s))[2..] == rest;
      } else {
        assert DoubleQuotes(s) == [s[0]] + rest;
        assert (DoubleQuotes(s))[1..] == rest;
      }
      assert s == [s[0]] + s[1..];
    }
  }

  /** Doubling quotes adds no other character. */
  lemma {:induction false} DoubleQuotesAvoid(s: string, c: char)
    requires c != '"' && c !in s
    ensures c !in DoubleQuotes(s)
    decreases |s|
  {
    if s != [] {
      DoubleQuotesAvoid(s[1..], c);
    }
  }

  /**
   * The TypeError of `cell.includes(',')` on an `undefined` cell, in the
   * wording of Chromium's V8 engine; other browsers word it differently, and
   * the lemmas only compare it with itself.
   */
  const IncludesOfUndefined := "TypeError: Cannot read properties of undefined (reading 'includes')"

  /** One exported cell: quotes doubled, and the whole inside quotes only when it holds a comma. */
  function EscapeCell(cell: JsValue): Result<string>
  {
    match cell
    case Undefined => Err(IncludesOfUndefined)
    case Str(s) =>
      var escaped := DoubleQuotes(s);
      Ok(if Contains(s, ",") then "\"" + escaped + "\"" else escaped)
  }

  /** The cells of a row, escaped; the first `undefined` cell throws. */
  function EscapeCells(cells: seq<JsValue>): (r: Result<seq<string>>)
    ensures r.Ok? ==> |r.value| == |cells|
  {
    if cells == [] then Ok([])
    else
      match EscapeCell(cells[0])
      case Err(m) => Err(m)
      case Ok(first) =>
        match EscapeCells(cells[1..])
        case Err(m) => Err(m)
        case Ok(rest) => Ok([first] + rest)
  }

  /** The header line's column names. */
  const HeaderNames := ["Time", "Router IP", "User ID", "Protocol", "MAC", "Local IP", "Port", "Remote IP", "Port", "NAT IP", "Port"]

  /** `headers.join(',')`. */
  function Header(): string
  {
    Join(HeaderNames, ",")
  }

  /**
   * The cells of an exported row. The time is shown through
   * `new Date(item.time).toLocaleString()`, the locale rendering
   * `localeTime`; `user_id` comes before `router_ip`.
   */
  function RowCells(item: Item, localeTime: JsValue -> string): (cells: seq<JsValue>)
    ensures |cells| == 11
  {
    [Str(localeTime(item.time)), item.userId, item.routerIp, item.protocol, item.mac, item.localIp, item.localPort,
     item.remoteIp, item.remotePort, item.natIp, item.natPort]
  }

  /** The exported lines of the records, or the error of the first `undefined` cell. */
  function ExportRows(items: seq<Item>, localeTime: JsValue -> string): (r: Result<seq<string>>)
    ensures r.Ok? ==> |r.value| == |items|
  {
    if items == [] then Ok([])
    else
      match EscapeCells(RowCells(items[0], localeTime))
      case Err(m) => Err(m)
      case Ok(cells) =>
        match ExportRows(items[1..], localeTime)
        case Err(m) => Err(m)
        case Ok(rest) => Ok([Join(cells, ",")] + rest)
  }

  /** `convertToCSV(data)`: the header line and one line per record, joined by newlines. */
  function ConvertToCsv(items: seq<Item>, localeTime: JsValue -> string): Result<string>
  {
    match ExportRows(items, localeTime)
    case Err(m) => Err(m)
    case Ok(rows) => Ok(Join([Header()] + rows, "\n"))
  }

  lemma {:induction false} EscapeCellsFailIff(cells: seq<JsValue>)
    ensures EscapeCells(cells).Err? <==> exists k :: 0 <= k < |cells| && cells[k].Undefined?
    ensures EscapeCells(cells).Err? ==> EscapeCells(cells).message == IncludesOfUndefined
    decreases |cells|
  {
    if cells != [] {
      EscapeCellsFailIff(cells[1..]);
      if exists k :: 0 <= k < |cells[1..]| && cells[1..][k].Undefined? {
        var k :| 0 <= k < |cells[1..]| && cells[1..][k].Undefined?;
        assert cells[k + 1].Undefined?;
      }
      if exists k :: 0 <= k < |cells| && cells[k].Undefined? {
        var k :| 0 <= k < |cells| && cells[k].Undefined?;
        if k > 0 {
          assert cells[1..][k - 1].Undefined?;
        }
      }
    }
  }

  /** A record some of whose exported values is `undefined`. */
  predicate HasUndefined(item: Item)
  {
    exists k :: 1 <= k < 11 && ItemValues(item)[k].Undefined?
  }

  lemma RowFailsIff(item: Item, localeTime: JsValue -> string)
    ensures EscapeCells(RowCells(item, localeTime)).Err? <==> HasUndefined(item)
  {
    var cells := RowCells(item, localeTime);
    var values := ItemValues(item);
    EscapeCellsFailIff(cells);
    RowCellsSwap(item, localeTime);
    if HasUndefined(item) {
      var k :| 1 <= k < 11 && values[k].Undefined?;
      assert cells[Swap(k)].Undefined?;
    }
    if exists k :: 0 <= k < 11 && cells[k].Undefined? {
      var k :| 0 <= k < 11 && cells[k].Undefined?;
      assert values[Swap(k)] == cells[k];
    }
  }

  /** Columns 1 and 2 trade places between a record's values and its exported cells. */
  function Swap(k: int): int
  {
    if k == 1 then 2 else if k == 2 then 1 else k
  }

  lemma RowCellsSwap(item: Item, localeTime: JsValue -> string)
    ensures RowCells(item, localeTime)[0].Str?
    ensures forall k :: 1 <= k < 11 ==> RowCells(item, localeTime)[k] == ItemValues(item)[Swap(k)]
  {
  }

  /**
   * Export fails, with the TypeError of `includes`, exactly when some record
   * has an `undefined` value; the time is always shown and never fails.
   */
  lemma ExportFailsIff(items: seq<Item>, localeTime: JsValue -> string)
    ensures ConvertToCsv(items, localeTime).Err? <==> exists i :: 0 <= i < |items| && HasUndefined(items[i])
    ensures ConvertToCsv(items, localeTime).Err? ==> ConvertToCsv(items, localeTime).message == IncludesOfUndefined
  {
    RowsFailIff(items, localeTime);
  }

  /** The rows of the export fail exactly when some record has an `undefined` value. */
  lemma {:induction false} RowsFailIff(items: seq<Item>, localeTime: JsValue -> string)
    ensures ExportRows(items, localeTime).Err? <==> exists i :: 0 <= i < |items| && HasUndefined(items[i])
    ensures ExportRows(items, localeTime).Err? ==> ExportRows(items, localeTime).message == IncludesOfUndefined
    decreases |items|
  {
    if items != [] {
      RowsFailIff(items[1..], localeTime);
      RowFailsIff(items[0], localeTime);
      EscapeCellsFailIff(RowCells(items[0], localeTime));
      if exists i :: 0 <= i < |items[1..]| && HasUndefined(items[1..][i]) {
        var i :| 0 <= i < |items[1..]| && HasUndefined(items[1..][i]);
        assert HasUndefined(items[i + 1]);
      }
      if exists i :: 0 <= i < |items| && HasUndefined(items[i]) {
        var i :| 0 <= i < |items| && HasUndefined(items[i]);
        if i > 0 {
          assert HasUndefined(items[1..][i - 1]);
        }
      }
    }
  }

  /** Records read from lines of at most ten values lack `nat_port`: exporting any of them fails. */
  lemma ShortRecordsCannotExport(lines: seq<seq<string>>, localeTime: JsValue -> string)
    requires |lines| > 0 && forall i :: 0 <= i < |lines| ==> |lines[i]| <= 10
    ensures ConvertToCsv(seq(|lines|, i requires 0 <= i < |lines| => ItemFromParts(lines[i])), localeTime).Err?
  {
    var items := seq(|lines|, i requires 0 <= i < |lines| => ItemFromParts(lines[i]));
    assert ItemValues(items[0])[10].Undefined?;
    ExportFailsIff(items, localeTime);
  }

  /** A stored line as `readLogFile` hands it on: without its newline. */
  function StoredText(e: ConnectionEvent): string
  {
    var line := FormatLogLine(e);
    line[..|line| - 1]
  }

  /**
   * A record whose line reads back cleanly: values free of `"`, commas only
   * in the protocol, no surrounding whitespace, and a non-empty remote port.
   * A user id or MAC holding a comma is not one: its line parses into more
   * values than were written.
   */
  predicate ReadableLine(e: ConnectionEvent)
  {
    (forall k :: 0 <= k < 8 ==> Readable(LineCells(e)[k])) && Render(e.remotePort) != ""
  }

  /** The eight values a stored line holds, the protocol without its quotes. */
  function StoredValues(e: ConnectionEvent): (values: seq<string>)
    ensures |values| == 8
  {
    [e.time, e.userId, e.protocol, e.mac, Render(e.localIp), Render(e.localPort), Render(e.remoteIp), Render(e.remotePort)]
  }

  /** A readable stored line parses into exactly its eight values. */
  lemma StoredFields(e: ConnectionEvent)
    requires ReadableLine(e)
    ensures CsvFields(StoredText(e)) == StoredValues(e)
  {
    LogLineRoundTrip(e);
  }

  /** Records loaded from readable stored lines can never be exported: each lacks `nat_port`. */
  lemma StoredRecordsCannotExport(events: seq<ConnectionEvent>, localeTime: JsValue -> string)
    requires |events| > 0 && forall i :: 0 <= i < |events| ==> ReadableLine(events[i])
    ensures ConvertToCsv(seq(|events|, i requires 0 <= i < |events| => ItemFromParts(CsvFields(StoredText(events[i])))),
                         localeTime).Err?
  {
    var items := seq(|events|, i requires 0 <= i < |events| => ItemFromParts(CsvFields(StoredText(events[i]))));
    StoredFields(events[0]);
    assert ItemValues(items[0])[10].Undefined?;
    ExportFailsIff(items, localeTime);
  }

  /** A record whose values, and whose shown time, hold no newline. */
  predicate SingleLine(item: Item, localeTime: JsValue -> string)
  {
    && '\n' !in localeTime(item.time)
    && forall k :: 0 <= k < 11 && ItemValues(item)[k].Str? ==> '\n' !in ItemValues(item)[k].s
  }

  lemma EscapedCellSingleLine(cell: JsValue)
    requires EscapeCell(cell).Ok? && '\n' !in cell.s
    ensures '\n' !in EscapeCell(cell).value
  {
    DoubleQuotesAvoid(cell.s, '\n');
  }

  lemma {:induction false} EscapedCellsSingleLine(cells: seq<JsValue>)
    requires EscapeCells(cells).Ok?
    requires forall k :: 0 <= k < |cells| && cells[k].Str? ==> '\n' !in cells[k].s
    ensures forall k :: 0 <= k < |cells| ==> '\n' !in EscapeCells(cells).value[k]
    decreases |cells|
  {
    if cells != [] {
      EscapedCellSingleLine(cells[0]);
      EscapedCellsSingleLine(cells[1..]);
      var r := EscapeCells(cells).value;
      assert r[1..] == EscapeCells(cells[1..]).value;
    }
  }

  lemma RowSingleLine(item: Item, localeTime: JsValue -> string)
    requires SingleLine(item, localeTime) && EscapeCells(RowCells(item, localeTime)).Ok?
    ensures '\n' !in Join(EscapeCells(RowCells(item, localeTime)).value, ",")
  {
    var cells := RowCells(item, localeTime);
    forall k | 0 <= k < 11 && cells[k].Str? ensures '\n' !in cells[k].s {
      var j := if k == 1 then 2 else if k == 2 then 1 else k;
      assert k > 0 ==> cells[k] == ItemValues(item)[j];
    }
    EscapedCellsSingleLine(cells);
    JoinAvoids(EscapeCells(cells).value, ",", '\n');
  }

  lemma {:induction false} RowsSingleLine(items: seq<Item>, localeTime: JsValue -> string)
    requires ExportRows(items, localeTime).Ok?
    requires forall i :: 0 <= i < |items| ==> SingleLine(items[i], localeTime)
    ensures forall i :: 0 <= i < |items| ==> '\n' !in ExportRows(items, localeTime).value[i]
    decreases |items|
  {
    if items != [] {
      RowSingleLine(items[0], localeTime);
      RowsSingleLine(items[1..], localeTime);
      var r := ExportRows(items, localeTime).value;
      assert r[1..] == ExportRows(items[1..], localeTime).value;
    }
  }

  /**
   * An export of records without newlines in their values has exactly one
   * line more than there are records, and the first line is the header.
   */
  lemma ExportLines(items: seq<Item>, localeTime: JsValue -> string)
    requires ConvertToCsv(items, localeTime).Ok?
    requires forall i :: 0 <= i < |items| ==> SingleLine(items[i], localeTime)
    ensures var lines := Split(ConvertToCsv(items, localeTime).value, "\n");
            |lines| == |items| + 1 && lines[0] == Header()
  {
    var rows := ExportRows(items, localeTime).value;
    RowsSingleLine(items, localeTime);
    HeaderNamesPlain();
    JoinAvoids(HeaderNames, ",", '\n');
    assert ConvertToCsv(items, localeTime).value == Join([Header()] + rows, "\n");
    SplitLines(Header(), rows);
  }

  /** Lines without a newline, joined by newlines, split back into the same lines. */
  lemma SplitLines(header: string, rows: seq<string>)
    requires '\n' !in header
    requires forall k :: 0 <= k < |rows| ==> '\n' !in rows[k]
    ensures Split(Join([header] + rows, "\n"), "\n") == [header] + rows
  {
    var all := [header] + rows;
    forall k | 0 <= k < |all| ensures '\n' !in all[k] {
      if k > 0 {
        assert all[k] == rows[k - 1];
      }
    }
    SplitJoin(all, "\n");
  }

  /**
   * The export puts `user_id` in the second column and `router_ip` in the
   * third, while the header names them the other way round.
   */
  lemma ExportSwapsUserAndRouter(item: Item, localeTime: JsValue -> string)
    ensures HeaderNames[1] == "Router IP" && HeaderNames[2] == "User ID"
    ensures RowCells(item, localeTime)[1] == item.userId && RowCells(item, localeTime)[2] == item.routerIp
  {
  }

  /** Splitting the header at commas gives back the column names. */
  lemma HeaderColumns()
    ensures Split(Header(), ",") == HeaderNames
  {
    HeaderNamesPlain();
    SplitJoin(HeaderNames, ",");
  }

  /** No column name holds a comma or a newline. */
  lemma HeaderNamesPlain()
    ensures forall k :: 0 <= k < |HeaderNames| ==> ',' !in HeaderNames[k] && '\n' !in HeaderNames[k]
  {
    forall k | 0 <= k < |HeaderNames| ensures ',' !in HeaderNames[k] && '\n' !in HeaderNames[k] {
      var name := HeaderNames[k];
      assert forall i :: 0 <= i < |name| ==> name[i] != ',' && name[i] != '\n';
    }
  }
}
