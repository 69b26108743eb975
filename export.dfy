/**
 * CSV export (src/export.ts): every chart bar becomes a row of five escaped fields under a
 * fixed header, each row ended by CRLF. A reader for the produced text is defined alongside,
 * and reading the export back yields the header and the tasks' fields, row by row.
 */
module Export {
  import opened Wrappers
  import opened Seqs
  import opened Text
  import opened Processor

  // ---------------------------------------------------------------------------
  // escapeCSVField

  /** `/[",\n]/`: the field holds a comma, a double quote or a line feed (a lone `\r` does not count). */
  predicate NeedsQuotes(f: string)
  {
    ',' in f || '"' in f || '\n' in f
  }

  /** `replace(/"/g, '""')`: every double quote doubled. */
  function DoubleQuotes(f: string): (r: string)
    ensures |r| >= |f|
  {
    if f == [] then []
    else (if f[0] == '"' then "\"\"" else [f[0]]) + DoubleQuotes(f[1..])
  }

  /** `escapeCSVField`: a field that needs it is quoted with its quotes doubled, any other is kept. */
  function EscapeField(f: string): (r: string)
    ensures r == f <==> !NeedsQuotes(f)
    ensures NeedsQuotes(f) ==> |r| >= 2 && r[0] == '"' && r[|r| - 1] == '"'
  {
    if NeedsQuotes(f) then "\"" + DoubleQuotes(f) + "\"" else f
  }

  // ---------------------------------------------------------------------------
  // The text `exportToCSV` builds

  const Headers: seq<string> := ["ID", "Title", "Start Date", "End Date", "Status"]

  /** `task.progress === 100 ? 'Closed' : 'Open'`. */
  function StatusText(progress: int): (r: string)
    ensures r == "Closed" <==> progress == 100
    ensures r == "Open" <==> progress != 100
  {
    if progress == 100 then "Closed" else "Open"
  }

  /**
   * The five fields of a task's row. `dateText` renders a day number as the 'YYYY-MM-DD'
   * text the bar carries.
   */
  function Fields(task: GanttTask, dateText: int -> string): seq<string>
  {
    [task.id, task.name, dateText(task.start), dateText(task.end), StatusText(task.progress)]
  }

  function RowOf(dateText: int -> string): GanttTask -> seq<string>
  {
    task => Fields(task, dateText)
  }

  /** One line of the file: the escaped fields joined by commas, then CRLF. */
  function CsvLine(fields: seq<string>): string
  {
    Join(Map(fields, EscapeField), ',') + "\r\n"
  }

  /** The lines of `rows`, one after another. */
  function Lines(rows: seq<seq<string>>): string
  {
    if rows == [] then "" else CsvLine(rows[0]) + Lines(rows[1..])
  }

  /** The header line, then the line of every task in order. */
  function CsvText(tasks: seq<GanttTask>, dateText: int -> string): string
  {
    CsvLine(Headers) + Lines(Map(tasks, RowOf(dateText)))
  }

  /** The whole file, or nothing when there are no tasks (the source alerts and returns). */
  function CsvDocument(tasks: seq<GanttTask>, dateText: int -> string): Option<string>
  {
    if tasks == [] then None else Some(CsvText(tasks, dateText))
  }

  /** The text-building part of `exportToCSV`: the header line, then one line per task appended in order. */
  method ExportToCsv(tasks: seq<GanttTask>, dateText: int -> string) returns (csv: Option<string>)
    ensures csv == CsvDocument(tasks, dateText)
  {
    if |tasks| == 0 {
      return None;
    }
    var content := CsvLine(Headers);
    ExportStart(dateText);
    var i := 0;
    while i < |tasks|
      invariant 0 <= i <= |tasks|
      invariant content == CsvText(tasks[..i], dateText)
    {
      var row := CsvLine(Fields(tasks[i], dateText));
      ExportStep(tasks, i, dateText);
      content := content + row;
      i := i + 1;
    }
    assert tasks[..i] == tasks;
    csv := Some(content);
  }

  /** Before any task, the text is the header line alone. */
  lemma {:induction false} ExportStart(dateText: int -> string)
    ensures CsvText([], dateText) == CsvLine(Headers)
  {
    assert Map([], RowOf(dateText)) == [];
  }

  /** One more task adds its row's line to the text built so far. */
  lemma {:induction false} ExportStep(tasks: seq<GanttTask>, i: nat, dateText: int -> string)
    requires i < |tasks|
    ensures CsvText(tasks[..i + 1], dateText) == CsvText(tasks[..i], dateText) + CsvLine(Fields(tasks[i], dateText))
  {
    var g := RowOf(dateText);
    assert tasks[..i + 1] == tasks[..i] + [tasks[i]];
    MapConcat(tasks[..i], [tasks[i]], g);
    assert Map([tasks[i]], g) == [Fields(tasks[i], dateText)];
    LinesSnoc(Map(tasks[..i], g), Fields(tasks[i], dateText));
  }

  /** Appending a row appends its line. */
  lemma {:induction false} LinesSnoc(rows: seq<seq<string>>, row: seq<string>)
    ensures Lines(rows + [row]) == Lines(rows) + CsvLine(row)
    decreases |rows|
  {
    if rows == [] {
      assert [] + [row] == [row];
    } else {
      assert (rows + [row])[1..] == rows[1..] + [row];
      LinesSnoc(rows[1..], row);
    }
  }

  /** None of the header names needs quoting, so the header line is the names joined by commas. */
  lemma {:induction false} HeaderLine()
    ensures CsvLine(Headers) == Join(Headers, ',') + "\r\n"
  {
    assert !NeedsQuotes("ID") && !NeedsQuotes("Title") && !NeedsQuotes("Status");
    assert !NeedsQuotes("Start Date");
    assert !NeedsQuotes("End Date");
    assert Map(Headers, EscapeField) == Headers;
  }

  /** The export exists exactly when there are tasks, and it begins with the header line. */
  lemma {:induction false} DocumentStartsWithHeader(tasks: seq<GanttTask>, dateText: int -> string)
    ensures CsvDocument(tasks, dateText).Some? <==> tasks != []
    ensures var header := Join(Headers, ',') + "\r\n";
      CsvDocument(tasks, dateText).Some? ==>
        |header| <= |CsvDocument(tasks, dateText).value| && CsvDocument(tasks, dateText).value[..|header|] == header
  {
    HeaderLine();
  }

  // ---------------------------------------------------------------------------
  // Reading the text back

  /** The start of `s` is a line end. */
  predicate AtCrlf(s: string)
  {
    |s| >= 2 && s[0] == '\r' && s[1] == '\n'
  }

  /** The start of `s` ends a field: a comma or a line end. */
  predicate AtFieldEnd(s: string)
  {
    (|s| >= 1 && s[0] == ',') || AtCrlf(s)
  }

  /** An unquoted field: everything up to the first comma or line end. */
  function TakeUnquoted(s: string): (r: (string, string))
    ensures r.0 + r.1 == s
    decreases |s|
  {
    if s == [] || s[0] == ',' || AtCrlf(s) then ("", s)
    else
      var (w, t) := TakeUnquoted(s[1..]);
      ([s[0]] + w, t)
  }

  /** The rest of a quoted field after its opening quote: `""` stands for `"`, a lone `"` closes it. */
  function ReadQuoted(s: string): (r: Option<(string, string)>)
    ensures r.Some? ==> |r.value.1| < |s|
    decreases |s|
  {
    if s == [] then None
    else if s[0] == '"' then
      if |s| > 1 && s[1] == '"' then
        match ReadQuoted(s[2..])
        case None => None
        case Some((f, t)) => Some(("\"" + f, t))
      else Some(("", s[1..]))
    else
      match ReadQuoted(s[1..])
      case None => None
      case Some((f, t)) => Some(([s[0]] + f, t))
  }

  /** One field, quoted or not, and the text after it. */
  function ReadField(s: string): (r: Option<(string, string)>)
    ensures r.Some? ==> |r.value.1| <= |s|
  {
    if s != [] && s[0] == '"' then ReadQuoted(s[1..]) else Some(TakeUnquoted(s))
  }

  /** The fields of one line up to and including its CRLF, and the text after it. */
  function ReadRecord(s: string): (r: Option<(seq<string>, string)>)
    ensures r.Some? ==> |r.value.0| >= 1 && |r.value.1| < |s|
    decreases |s|
  {
    match ReadField(s)
    case None => None
    case Some((f, t)) =>
      if AtCrlf(t) then Some(([f], t[2..]))
      else if |t| >= 1 && t[0] == ',' then
        match ReadRecord(t[1..])
        case None => None
        case Some((fs, u)) => Some(([f] + fs, u))
      else None
  }

  /** All lines of a CSV text. */
  function ReadCsv(s: string): Option<seq<seq<string>>>
    decreases |s|
  {
    if s == [] then Some([])
    else
      match ReadRecord(s)
      case None => None
      case Some((fs, u)) =>
        match ReadCsv(u)
        case None => None
        case Some(rows) => Some([fs] + rows)
  }

  /** A field without commas or line feeds is read up to the comma or line end after it. */
  lemma {:induction false} TakeUnquotedPrefix(w: string, t: string)
    requires ',' !in w && '\n' !in w && AtFieldEnd(t)
    ensures TakeUnquoted(w + t) == (w, t)
    decreases |w|
  {
    if w == [] {
      assert w + t == t;
    } else {
      var s := w + t;
      assert s[0] == w[0] && s[1..] == w[1..] + t;
      assert s[1] != '\n' by {
        if |w| > 1 {
          assert s[1] == w[1];
        } else {
          assert s[1] == t[0];
        }
      }
      TakeUnquotedPrefix(w[1..], t);
      assert [w[0]] + w[1..] == w;
    }
  }

  /** Reading a doubled field and its closing quote gives the field back. */
  lemma {:induction false} ReadQuotedDoubled(f: string, t: string)
    requires t == [] || t[0] != '"'
    ensures ReadQuoted(DoubleQuotes(f) + "\"" + t) == Some((f, t))
    decreases |f|
  {
    var s := DoubleQuotes(f) + "\"" + t;
    if f == [] {
      assert s == "\"" + t && s[1..] == t;
    } else {
      ReadQuotedDoubled(f[1..], t);
      var rest := DoubleQuotes(f[1..]) + "\"" + t;
      assert [f[0]] + f[1..] == f;
      if f[0] == '"' {
        assert s == "\"\"" + rest && s[2..] == rest;
      } else {
        assert s == [f[0]] + rest && s[1..] == rest;
      }
    }
  }

  /** `escapeCSVField` is undone by reading the field back, whatever follows it on the line. */
  lemma {:induction false} ReadEscaped(f: string, t: string)
    requires AtFieldEnd(t)
    ensures ReadField(EscapeField(f) + t) == Some((f, t))
  {
    var s := EscapeField(f) + t;
    if NeedsQuotes(f) {
      assert s == "\"" + (DoubleQuotes(f) + "\"" + t) && s[1..] == DoubleQuotes(f) + "\"" + t;
      ReadQuotedDoubled(f, t);
    } else {
      assert s[0] != '"' by {
        if f != [] {
          assert s[0] == f[0];
        }
      }
      TakeUnquotedPrefix(f, t);
    }
  }

  /** Stripping the outer quotes and collapsing `""` to `"` gives back the field. */
  lemma {:induction false} EscapeRoundTrip(f: string)
    ensures ReadField(EscapeField(f) + "\r\n") == Some((f, "\r\n"))
  {
    ReadEscaped(f, "\r\n");
  }

  /** The line of a non-empty row splits into its first field's text, a comma and the rest's line. */
  lemma {:induction false} CsvLineCons(fields: seq<string>)
    requires |fields| >= 2
    ensures CsvLine(fields) == EscapeField(fields[0]) + ("," + CsvLine(fields[1..]))
  {
    var e := Map(fields, EscapeField);
    assert e[1..] == Map(fields[1..], EscapeField);
  }

  /** A line reads back as its row. */
  lemma {:induction false} ReadLine(fields: seq<string>, u: string)
    requires |fields| >= 1
    ensures ReadRecord(CsvLine(fields) + u) == Some((fields, u))
    decreases |fields|
  {
    if |fields| == 1 {
      assert Map(fields, EscapeField) == [EscapeField(fields[0])];
      assert CsvLine(fields) + u == EscapeField(fields[0]) + ("\r\n" + u);
      var t := "\r\n" + u;
      ReadEscaped(fields[0], t);
      assert AtCrlf(t) && t[2..] == u;
      assert fields == [fields[0]];
    } else {
      var rest := CsvLine(fields[1..]) + u;
      CsvLineCons(fields);
      assert CsvLine(fields) + u == EscapeField(fields[0]) + ("," + rest);
      ReadEscaped(fields[0], "," + rest);
      assert ("," + rest)[1..] == rest;
      ReadLine(fields[1..], u);
      assert [fields[0]] + fields[1..] == fields;
    }
  }

  /** The lines of rows with at least one field each read back as those rows. */
  lemma {:induction false} ReadLines(rows: seq<seq<string>>)
    requires forall i :: 0 <= i < |rows| ==> |rows[i]| >= 1
    ensures ReadCsv(Lines(rows)) == Some(rows)
    decreases |rows|
  {
    if rows != [] {
      ReadLine(rows[0], Lines(rows[1..]));
      ReadLines(rows[1..]);
      assert [rows[0]] + rows[1..] == rows;
    }
  }

  /**
   * Reading the export back gives the header, then one row per task in task order holding
   * its ID, title, start and end dates and status.
   */
  lemma {:induction false} ExportReadsBack(tasks: seq<GanttTask>, dateText: int -> string)
    requires tasks != []
    ensures ReadCsv(CsvDocument(tasks, dateText).value) == Some([Headers] + Map(tasks, RowOf(dateText)))
  {
    var rows := [Headers] + Map(tasks, RowOf(dateText));
    assert rows[0] == Headers && rows[1..] == Map(tasks, RowOf(dateText));
    assert Lines(rows) == CsvDocument(tasks, dateText).value;
    ReadLines(rows);
  }
}
