/** The CSV text written by `exportData` and read by `importData`
    (src/hooks/useSpreadsheetData.ts:144-198): header line, one line per row,
    the job request wrapped in double quotes and every other field bare. */
module Csv {
  import opened Seqs
  import opened Text
  import opened Spreadsheet

  // ---------------------------------------------------------------- export

  /** The title of export column `i`. */
  function ColumnTitle(i: nat): string
    requires i < 8
  {
    if i == 0 then "Job Request"
    else if i == 1 then "Submitted"
    else if i == 2 then "Status"
    else if i == 3 then "Submitter"
    else if i == 4 then "Assigned"
    else if i == 5 then "Priority"
    else if i == 6 then "Due Date"
    else "Est. Value"
  }

  /** The column titles, in export order. */
  function ColumnTitles(): (r: seq<string>)
    ensures |r| == 8 && forall i :: 0 <= i < 8 ==> r[i] == ColumnTitle(i)
  {
    seq(8, i requires 0 <= i < 8 => ColumnTitle(i))
  }

  /** The field written into each export column, in column order: every
      field but `id`. */
  const ColumnFields: seq<Field> := [JobRequest, Submitted, Status, Submitter, Assigned, Priority, DueDate, EstValue]

  /** The import's fallback for an empty or missing value in column `i`. */
  function ColumnDefault(i: nat, today: string): string
    requires i < 8
  {
    if i == 1 || i == 6 then today
    else if i == 2 then "Need to start"
    else if i == 5 then "Medium"
    else if i == 7 then "0"
    else ""
  }

  /** The fixed first line of every export: the eight column titles joined
      by `,`, a single line that splits back into the titles. */
  function Header(): (r: string)
    ensures '\n' !in r
    ensures Split(r, ',') == ColumnTitles()
  {
    var titles := ColumnTitles();
    assert forall i :: 0 <= i < 8 ==> ',' !in titles[i] && '\n' !in titles[i];
    JoinExcludes(titles, ',', '\n');
    SplitJoin(titles, ',');
    Join(titles, ',')
  }

  /** `"${s}"` */
  function Quote(s: string): string
  {
    ['"'] + s + ['"']
  }

  /** The eight exported fields of a row, in column order: the job request
      in double quotes, then the field of each remaining column as stored;
      the id is not exported. */
  function ExportFields(row: Row): (r: seq<string>)
    ensures |r| == 8
    ensures r[0] == Quote(row.jobRequest)
    ensures forall i :: 1 <= i < 8 ==> r[i] == Get(row, ColumnFields[i])
  {
    [Quote(row.jobRequest), row.submitted, row.status, row.submitter,
     row.assignedTo, row.priority, row.dueDate, row.estValue]
  }

  /** One data line of the export; it opens with the quote around the job
      request. */
  function RowLine(row: Row): (r: string)
    ensures r != [] && r[0] == '"'
  {
    var fields := ExportFields(row);
    assert Join(fields, ',') == fields[0] + [','] + Join(fields[1..], ',');
    Join(fields, ',')
  }

  /** The data lines, one per row, in row order. */
  function RowLines(rows: seq<Row>): (r: seq<string>)
    ensures |r| == |rows|
    ensures forall i :: 0 <= i < |rows| ==> r[i] == RowLine(rows[i])
  {
    if rows == [] then [] else [RowLine(rows[0])] + RowLines(rows[1..])
  }

  /** The whole export: header and data lines joined by `\n`, no trailing
      newline; it opens with the header, and is only the header when there
      are no rows. */
  function ExportText(rows: seq<Row>): (r: string)
    ensures |Header()| <= |r| && r[..|Header()|] == Header()
    ensures rows == [] ==> r == Header()
  {
    var lines := [Header()] + RowLines(rows);
    JoinStartsWithFirst(lines, '\n');
    assert rows == [] ==> lines == [Header()];
    Join(lines, '\n')
  }

  /** A join opens with its first part, and is that part alone when there
      is no other. */
  lemma JoinStartsWithFirst(parts: seq<string>, sep: char)
    requires |parts| >= 1
    ensures |parts[0]| <= |Join(parts, sep)| && Join(parts, sep)[..|parts[0]|] == parts[0]
    ensures |parts| == 1 ==> Join(parts, sep) == parts[0]
  {
    if |parts| > 1 {
      var tail := [sep] + Join(parts[1..], sep);
      assert Join(parts, sep) == parts[0] + tail;
      assert (parts[0] + tail)[..|parts[0]|] == parts[0];
    }
  }

  // ---------------------------------------------------------------- import

  /** A line the import keeps: `line.trim()` is not empty. */
  predicate NonBlank(line: string)
  {
    Trim(line) != ""
  }

  /** The lines that become rows: everything after line 0 that is not blank. */
  function DataLines(text: string): (r: seq<string>)
    ensures |r| < |Split(text, '\n')|
  {
    Filter(NonBlank, Split(text, '\n')[1..])
  }

  /** The import reads exactly the non-blank lines after the first, none
      of which holds a line break. */
  lemma DataLinesMembers(text: string)
    ensures forall line :: line in DataLines(text) <==> line in Split(text, '\n')[1..] && NonBlank(line)
    ensures forall line :: line in DataLines(text) ==> '\n' !in line
  {
    var lines := Split(text, '\n');
    forall line | line in lines[1..] ensures '\n' !in line {
      var i :| 0 <= i < |lines[1..]| && lines[1..][i] == line;
      assert line == lines[i + 1];
    }
  }

  /** `line.split(',').map(val => val.replace(/"/g, ''))` */
  function Values(line: string): (r: seq<string>)
    ensures |r| == |Split(line, ',')|
    ensures forall i :: 0 <= i < |r| ==> '"' !in r[i] && ',' !in r[i]
  {
    var pieces := Split(line, ',');
    seq(|pieces|, i requires 0 <= i < |pieces| => RemoveChar(pieces[i], '"'))
  }

  /** `values[i] || fallback`: a missing or empty value gives the fallback. */
  function ValueOr(values: seq<string>, i: nat, fallback: string): (r: string)
    ensures i < |values| && values[i] != "" ==> r == values[i]
    ensures i >= |values| || values[i] == "" ==> r == fallback
  {
    if i < |values| && values[i] != "" then values[i] else fallback
  }

  /** The row built from one data line: the given id, and in the field of
      each column the value read there, or the column's fallback when that
      value is missing or empty. Status and priority are stored as read;
      `today` stands for `new Date().toLocaleDateString('en-GB')`. */
  function ParseLine(line: string, id: string, today: string): (r: Row)
    ensures r.id == id
    ensures forall i :: 0 <= i < 8 ==> Get(r, ColumnFields[i]) == ValueOr(Values(line), i, ColumnDefault(i, today))
  {
    var values := Values(line);
    var cols := seq(8, i requires 0 <= i < 8 => ValueOr(values, i, ColumnDefault(i, today)));
    var r := Row(id, cols[0], cols[1], cols[2], cols[3], cols[4], cols[5], cols[6], cols[7]);
    RowColumns(r, cols);
    r
  }

  /** A row whose fields, in column order, are `cols`. */
  lemma RowColumns(r: Row, cols: seq<string>)
    requires |cols| == 8
    requires r.jobRequest == cols[0] && r.submitted == cols[1] && r.status == cols[2] && r.submitter == cols[3]
    requires r.assignedTo == cols[4] && r.priority == cols[5] && r.dueDate == cols[6] && r.estValue == cols[7]
    ensures forall i :: 0 <= i < 8 ==> Get(r, ColumnFields[i]) == cols[i]
  {
    forall i | 0 <= i < 8 ensures Get(r, ColumnFields[i]) == cols[i] {
      if i == 0 {} else if i == 1 {} else if i == 2 {} else if i == 3 {}
      else if i == 4 {} else if i == 5 {} else if i == 6 {} else {}
    }
  }

  /** The rows `importData` appends when the largest stored id is `maxId`:
      one per data line, numbered `maxId + 1`, `maxId + 2`, ... in line order. */
  function ImportRows(text: string, maxId: nat, today: string): (r: seq<Row>)
    ensures |r| == |DataLines(text)|
    ensures forall k :: 0 <= k < |r| ==> r[k].id == NatToString(maxId + k + 1)
  {
    var lines := DataLines(text);
    seq(|lines|, k requires 0 <= k < |lines| => ParseLine(lines[k], NatToString(maxId + k + 1), today))
  }

  // ------------------------------------------------------------ properties

  /** Imported ids are fresh decimal numbers above `maxId`, all different. */
  lemma ImportIds(text: string, maxId: nat, today: string)
    ensures var r := ImportRows(text, maxId, today);
            && (forall k :: 0 <= k < |r| ==> IsDecimal(r[k].id) && DecimalValue(r[k].id) > maxId)
            && (forall k, l :: 0 <= k < l < |r| ==> DecimalValue(r[k].id) < DecimalValue(r[l].id))
  {
  }

  /** Neither a double quote nor a comma occurs in the string. */
  predicate Unquoted(s: string)
  {
    '"' !in s && ',' !in s
  }

  /** No field read from the text keeps a double quote or a comma; only
      `today` could bring one in. */
  lemma ParseLineClean(line: string, id: string, today: string)
    requires Unquoted(today)
    ensures var row := ParseLine(line, id, today);
            && Unquoted(row.jobRequest) && Unquoted(row.submitted) && Unquoted(row.status)
            && Unquoted(row.submitter) && Unquoted(row.assignedTo) && Unquoted(row.priority)
            && Unquoted(row.dueDate) && Unquoted(row.estValue)
  {
    var values := Values(line);
    forall j | 0 <= j < |values| ensures Unquoted(values[j]) {
    }
    assert Unquoted("") && Unquoted("Need to start") && Unquoted("Medium") && Unquoted("0");
  }

  /** A field the export writes and the import reads back unchanged, up to
      the fallback for an empty value: no comma, double quote or line break. */
  predicate Plain(s: string)
  {
    ',' !in s && '"' !in s && '\n' !in s
  }

  /** Every exported field of the row is plain. */
  predicate PlainRow(row: Row)
  {
    && Plain(row.jobRequest) && Plain(row.submitted) && Plain(row.status) && Plain(row.submitter)
    && Plain(row.assignedTo) && Plain(row.priority) && Plain(row.dueDate) && Plain(row.estValue)
  }

  /** A field that survives export and import exactly: plain and non-empty. */
  predicate Clean(s: string)
  {
    s != "" && Plain(s)
  }

  /** Every exported field of the row is clean. */
  predicate CsvSafe(row: Row)
  {
    && Clean(row.jobRequest) && Clean(row.submitted) && Clean(row.status) && Clean(row.submitter)
    && Clean(row.assignedTo) && Clean(row.priority) && Clean(row.dueDate) && Clean(row.estValue)
  }

  /** `s || fallback` */
  function OrElse(s: string, fallback: string): string
  {
    if s != "" then s else fallback
  }

  /** What the import makes of an exported row: the new id, and every empty
      field replaced by its column's fallback. */
  function Defaulted(row: Row, id: string, today: string): (r: Row)
    ensures r.id == id
    ensures forall i :: 0 <= i < 8 ==> Get(r, ColumnFields[i]) == OrElse(Get(row, ColumnFields[i]), ColumnDefault(i, today))
  {
    var cols := seq(8, i requires 0 <= i < 8 => OrElse(Get(row, ColumnFields[i]), ColumnDefault(i, today)));
    var r := Row(id, cols[0], cols[1], cols[2], cols[3], cols[4], cols[5], cols[6], cols[7]);
    RowColumns(r, cols);
    r
  }

  /** With no field empty, the fallbacks never apply: only the id changes. */
  lemma DefaultedFilled(row: Row, id: string, today: string)
    requires CsvSafe(row)
    ensures Defaulted(row, id, today) == Set(row, Id, id)
  {
  }

  /** No exported field of the row holds a line break. */
  predicate SingleLine(row: Row)
  {
    forall j :: 0 <= j < 8 ==> '\n' !in ExportFields(row)[j]
  }

  lemma PlainIsSingleLine(row: Row)
    requires PlainRow(row)
    ensures SingleLine(row)
  {
  }

  lemma RowLineSingleLine(row: Row)
    requires SingleLine(row)
    ensures '\n' !in RowLine(row)
  {
    JoinExcludes(ExportFields(row), ',', '\n');
  }

  /** Splitting lines joined by `\n` gives them back when none holds a line break. */
  lemma SplitLines(first: string, rest: seq<string>)
    requires '\n' !in first
    requires forall i :: 0 <= i < |rest| ==> '\n' !in rest[i]
    ensures Split(Join([first] + rest, '\n'), '\n') == [first] + rest
  {
    var lines := [first] + rest;
    assert forall i :: 0 < i < |lines| ==> lines[i] == rest[i - 1];
    SplitJoin(lines, '\n');
  }

  /** Export writes the header and then one line per row, in order. */
  lemma ExportLines(rows: seq<Row>)
    requires forall i :: 0 <= i < |rows| ==> SingleLine(rows[i])
    ensures Split(ExportText(rows), '\n') == [Header()] + RowLines(rows)
  {
    var body := RowLines(rows);
    forall i | 0 <= i < |body| ensures '\n' !in body[i] {
      RowLineSingleLine(rows[i]);
    }
    SplitLines(Header(), body);
  }

  /** A data line splits back into the exported fields. */
  lemma RowLineFields(row: Row)
    requires PlainRow(row)
    ensures Split(RowLine(row), ',') == ExportFields(row)
  {
    SplitJoin(ExportFields(row), ',');
  }

  /** Removing the quotes from a quoted field without quotes gives the field back. */
  lemma UnquoteQuote(s: string)
    requires '"' !in s
    ensures RemoveChar(Quote(s), '"') == s
  {
    RemoveCharAppend(['"'] + s, ['"'], '"');
    RemoveCharAppend(['"'], s, '"');
  }

  /** Importing the line written for a plain row gives that row back, with
      the new id and the fallbacks in place of its empty fields. */
  lemma ParseRowLine(row: Row, id: string, today: string)
    requires PlainRow(row)
    ensures ParseLine(RowLine(row), id, today) == Defaulted(row, id, today)
  {
    RowLineFields(row);
    UnquoteQuote(row.jobRequest);
    var values := Values(RowLine(row));
    assert values == [row.jobRequest, row.submitted, row.status, row.submitter,
                      row.assignedTo, row.priority, row.dueDate, row.estValue];
  }

  /** A joined line whose first piece starts with a visible character is not blank. */
  lemma JoinNonBlank(line: string)
    requires line != [] && !IsWhitespace(line[0])
    ensures NonBlank(line)
  {
    assert Trim(line) != "";
  }

  /** A data line starts with the opening quote of the job request, so the
      import never skips it as blank. */
  lemma RowLineNonBlank(row: Row)
    ensures NonBlank(RowLine(row))
  {
    JoinNonBlank(RowLine(row));
  }

  /** The lines the import reads back from an export are exactly the data lines. */
  lemma ExportDataLines(rows: seq<Row>)
    requires forall i :: 0 <= i < |rows| ==> SingleLine(rows[i])
    ensures DataLines(ExportText(rows)) == RowLines(rows)
  {
    ExportLines(rows);
    RowLinesNonBlank(rows);
    DataLinesAfterHeader(ExportText(rows), Header(), RowLines(rows));
  }

  /** A text whose lines after the first are all non-blank imports all of them. */
  lemma DataLinesAfterHeader(text: string, first: string, rest: seq<string>)
    requires Split(text, '\n') == [first] + rest
    requires forall i :: 0 <= i < |rest| ==> NonBlank(rest[i])
    ensures DataLines(text) == rest
  {
    assert ([first] + rest)[1..] == rest;
    FilterKeepsAll(NonBlank, rest);
  }

  lemma RowLinesNonBlank(rows: seq<Row>)
    ensures forall i :: 0 <= i < |rows| ==> NonBlank(RowLines(rows)[i])
  {
    forall i | 0 <= i < |rows| ensures NonBlank(RowLines(rows)[i]) {
      RowLineNonBlank(rows[i]);
    }
  }

  /** Row `k` of an import is parsed from data line `k` with id `maxId + k + 1`. */
  lemma ImportRowAt(text: string, maxId: nat, today: string, k: nat)
    requires k < |DataLines(text)|
    ensures ImportRows(text, maxId, today)[k] == ParseLine(DataLines(text)[k], NatToString(maxId + k + 1), today)
  {
  }

  /** Importing an export of plain rows reads back one row per exported row. */
  lemma ImportCount(rows: seq<Row>, maxId: nat, today: string)
    requires forall i :: 0 <= i < |rows| ==> PlainRow(rows[i])
    ensures |ImportRows(ExportText(rows), maxId, today)| == |rows|
    ensures DataLines(ExportText(rows)) == RowLines(rows)
  {
    forall i | 0 <= i < |rows| ensures SingleLine(rows[i]) {
      PlainIsSingleLine(rows[i]);
    }
    ExportDataLines(rows);
  }

  /** Round trip: importing an export of plain rows appends the same rows,
      in the same order, renumbered from `maxId + 1`, with the column
      fallbacks in place of empty fields. */
  lemma ExportImport(rows: seq<Row>, maxId: nat, today: string)
    requires forall i :: 0 <= i < |rows| ==> PlainRow(rows[i])
    ensures var r := ImportRows(ExportText(rows), maxId, today);
            |r| == |rows| && forall k :: 0 <= k < |rows| ==> r[k] == Defaulted(rows[k], NatToString(maxId + k + 1), today)
  {
    ImportCount(rows, maxId, today);
    var r := ImportRows(ExportText(rows), maxId, today);
    forall k | 0 <= k < |rows| ensures r[k] == Defaulted(rows[k], NatToString(maxId + k + 1), today) {
      ImportRowAt(ExportText(rows), maxId, today, k);
      ParseRowLine(rows[k], NatToString(maxId + k + 1), today);
    }
  }

  /** Round trip for rows with no empty field: the import gives back exactly
      the exported rows, renumbered from `maxId + 1`. */
  lemma ExportImportFilled(rows: seq<Row>, maxId: nat, today: string)
    requires forall i :: 0 <= i < |rows| ==> CsvSafe(rows[i])
    ensures var r := ImportRows(ExportText(rows), maxId, today);
            |r| == |rows| && forall k :: 0 <= k < |rows| ==> r[k] == Set(rows[k], Id, NatToString(maxId + k + 1))
  {
    ExportImport(rows, maxId, today);
    forall k | 0 <= k < |rows| ensures Defaulted(rows[k], NatToString(maxId + k + 1), today) == Set(rows[k], Id, NatToString(maxId + k + 1)) {
      DefaultedFilled(rows[k], NatToString(maxId + k + 1), today);
    }
  }

  // -------------------------------------------------------------- examples

  /** The row behind the first example line. */
  const TaskA := Row("", "Task A", "01-01-2025", "Complete", "Bob", "", "High", "2025-02-01", "500")

  lemma TaskAPlain()
    ensures PlainRow(TaskA)
  {
    TaskAPlainDates();
    assert Plain("Task A") && Plain("Complete") && Plain("Bob");
    assert Plain("") && Plain("High") && Plain("500");
  }

  lemma TaskAPlainDates()
    ensures Plain("01-01-2025") && Plain("2025-02-01")
  {
  }

  /** The line `"Task A",01-01-2025,Complete,Bob,,High,2025-02-01,500`,
      given as its eight comma-separated values: the empty Assigned column
      takes its fallback, the empty string, and the rest are read as written. */
  lemma ImportWithEmptyColumn(id: string, today: string)
    ensures ParseLine(Join(["\"Task A\"", "01-01-2025", "Complete", "Bob", "", "High", "2025-02-01", "500"], ','), id, today)
         == Row(id, "Task A", "01-01-2025", "Complete", "Bob", "", "High", "2025-02-01", "500")
  {
    assert Quote("Task A") == "\"Task A\"";
    assert ExportFields(TaskA) == ["\"Task A\"", "01-01-2025", "Complete", "Bob", "", "High", "2025-02-01", "500"];
    TaskAPlain();
    ParseRowLine(TaskA, id, today);
  }

  /** A line with only a job request: every other field takes its column's
      fallback, `today` for the two dates, "Need to start", "Medium" and "0". */
  lemma ImportShortLine(id: string, today: string)
    ensures ParseLine("Task B", id, today)
         == Row(id, "Task B", today, "Need to start", "", "", "Medium", today, "0")
  {
    SplitJoin(["Task B"], ',');
    assert Values("Task B") == ["Task B"];
  }
}
