/**
 * Exporting the result rows (`handleExport` in src/components/SqlAssistant.tsx)
 * as CSV text or as an SQL script. Each serialiser is paired with a reader
 * of the text it writes, and reading back recovers what was written.
 */
module Export {
  import opened Wrappers
  import opened Text
  import opened Types

  /** `value.toString()` for a present, non-null value; `None` for null or undefined. */
  function TextOf(v: Option<Value>): Option<string> {
    if v.Some? && v.value.Scalar? then Some(v.value.text) else None
  }

  /** `s.replace(/q/g, qq)`: every quote character doubled. */
  function Double(s: string, q: char): string {
    if s == [] then [] else (if s[0] == q then [q, q] else [s[0]]) + Double(s[1..], q)
  }

  /** `s` between quote characters, its own quotes doubled: the reader recovers `s` and nothing follows. */
  function Quote(s: string, q: char): (r: string)
    ensures |r| >= 2 && r[0] == q && r[|r| - 1] == q
    ensures ReadQuoted(r[1..], q) == Some((s, ""))
  {
    QuotedRoundTrip(s, q, []);
    assert ([q] + Double(s, q) + [q])[1..] == Double(s, q) + [q] + [];
    [q] + Double(s, q) + [q]
  }

  /**
   * Reads the body of a quoted text that starts right after its opening
   * quote: a doubled quote stands for one quote, a lone one closes the text.
   * Yields the body and what follows the closing quote.
   */
  function ReadQuoted(s: string, q: char): (r: Option<(string, string)>)
    ensures r.Some? ==> |r.value.1| < |s|
    decreases |s|
  {
    if s == [] then None
    else if s[0] == q && (|s| < 2 || s[1] != q) then Some(("", s[1..]))
    else
      var width := if s[0] == q then 2 else 1;
      match ReadQuoted(s[width..], q)
      case None => None
      case Some((body, rest)) => Some(([s[0]] + body, rest))
  }

  /** Undoubling inverts doubling: the reader recovers the text and stops at the closing quote. */
  lemma {:induction false} QuotedRoundTrip(x: string, q: char, rest: string)
    requires rest == [] || rest[0] != q
    ensures ReadQuoted(Double(x, q) + [q] + rest, q) == Some((x, rest))
    decreases |x|
  {
    if x == [] {
      assert Double(x, q) + [q] + rest == [q] + rest;
    } else {
      var tail := Double(x[1..], q) + [q] + rest;
      QuotedRoundTrip(x[1..], q, rest);
      var head := if x[0] == q then [q, q] else [x[0]];
      assert Double(x, q) + [q] + rest == head + tail;
      assert (head + tail)[|head|..] == tail;
      assert [x[0]] + x[1..] == x;
    }
  }

  // ---------------------------------------------------------------------------
  // CSV.

  /** The headers: the keys of the first row, in order. */
  function Headers(rows: seq<Row>): seq<string>
    requires |rows| > 0
  {
    Keys(rows[0])
  }

  /** `row[header]` for each header in turn. */
  function Lookups(row: Row, headers: seq<string>): (vs: seq<Option<Value>>)
    ensures |vs| == |headers| && forall i :: 0 <= i < |headers| ==> vs[i] == Lookup(row, headers[i])
  {
    seq(|headers|, i requires 0 <= i < |headers| => Lookup(row, headers[i]))
  }

  /** What a reader can learn from a row: the text of each header's value, `None` for null or missing. */
  function Cells(vs: seq<Option<Value>>): (cs: seq<Option<string>>)
    ensures |cs| == |vs| && forall i :: 0 <= i < |vs| ==> cs[i] == TextOf(vs[i])
  {
    seq(|vs|, i requires 0 <= i < |vs| => TextOf(vs[i]))
  }

  /** A CSV field: empty for null or undefined, otherwise the quoted text. */
  function CsvField(v: Option<Value>): string {
    match TextOf(v)
    case None => ""
    case Some(t) => Quote(t, '"')
  }

  function CsvFields(vs: seq<Option<Value>>): (fs: seq<string>)
    ensures |fs| == |vs| && forall i :: 0 <= i < |vs| ==> fs[i] == CsvField(vs[i])
  {
    seq(|vs|, i requires 0 <= i < |vs| => CsvField(vs[i]))
  }

  /** One data line: a field per header, comma-separated. */
  function CsvLine(row: Row, headers: seq<string>): string {
    Join(CsvFields(Lookups(row, headers)), ",")
  }

  function CsvLines(rows: seq<Row>, headers: seq<string>): (ls: seq<string>)
    ensures |ls| == |rows| && forall k :: 0 <= k < |rows| ==> ls[k] == CsvLine(rows[k], headers)
  {
    seq(|rows|, k requires 0 <= k < |rows| => CsvLine(rows[k], headers))
  }

  /**
   * The CSV text: the unquoted header line, a line feed, then the data lines
   * joined by line feeds. It reads back as its headers and, for each row in
   * order, the text of each header's value, provided there is a header and
   * the header names hold no comma and no line feed (the header line is not
   * quoted).
   */
  function Csv(rows: seq<Row>): (r: string)
    requires |rows| > 0
    ensures HeadersPlain(Headers(rows)) ==> ReadCsv(r) == Some((Headers(rows), Records(rows, Headers(rows))))
  {
    CsvTextReadsBack(rows);
    Join(Headers(rows), ",") + "\n" + Join(CsvLines(rows, Headers(rows)), "\n")
  }

  /** At least one header, and none holds a comma or a line feed. */
  predicate HeadersPlain(headers: seq<string>) {
    |headers| >= 1 && forall k :: 0 <= k < |headers| ==> ',' !in headers[k] && '\n' !in headers[k]
  }

  /** Reads one field: a quoted text, or the empty field (which consumes nothing). */
  function ReadCsvField(s: string): (r: Option<(Option<string>, string)>)
    ensures r.Some? ==> |r.value.1| <= |s|
  {
    if s != [] && s[0] == '"' then
      match ReadQuoted(s[1..], '"')
      case None => None
      case Some((x, rest)) => Some((Some(x), rest))
    else Some((None, s))
  }

  /** Reads `n` comma-separated fields. */
  function ReadCsvFields(s: string, n: nat): (r: Option<(seq<Option<string>>, string)>)
    requires n >= 1
    ensures r.Some? ==> |r.value.1| <= |s|
    decreases n
  {
    match ReadCsvField(s)
    case None => None
    case Some((f, rest)) =>
      if n == 1 then Some(([f], rest))
      else if rest != [] && rest[0] == ',' then
        match ReadCsvFields(rest[1..], n - 1)
        case None => None
        case Some((fs, rest')) => Some(([f] + fs, rest'))
      else None
  }

  /** Reads line-feed-separated records of `n` fields each, to the end of the text. */
  function ReadCsvRecords(s: string, n: nat): Option<seq<seq<Option<string>>>>
    requires n >= 1
    decreases |s|
  {
    match ReadCsvFields(s, n)
    case None => None
    case Some((fs, rest)) =>
      if rest == [] then Some([fs])
      else if rest[0] == '\n' then
        match ReadCsvRecords(rest[1..], n)
        case None => None
        case Some(more) => Some([fs] + more)
      else None
  }

  /** Reads a whole CSV text: the header line, then the records. */
  function ReadCsv(doc: string): Option<(seq<string>, seq<seq<Option<string>>>)> {
    match IndexOf(doc, "\n")
    case None => None
    case Some(i) =>
      var headers := Split(doc[..i], ",");
      match ReadCsvRecords(doc[i + 1..], |headers|)
      case None => None
      case Some(records) => Some((headers, records))
  }

  /** A quoted text followed by `rest` opens with the quote and reads back as the text. */
  lemma QuoteRoundTrip(t: string, q: char, rest: string)
    requires rest == [] || rest[0] != q
    ensures var s := Quote(t, q) + rest; s != [] && s[0] == q && ReadQuoted(s[1..], q) == Some((t, rest))
  {
    var body := Double(t, q) + [q] + rest;
    QuotedRoundTrip(t, q, rest);
    assert Quote(t, q) + rest == [q] + body;
  }

  lemma CsvFieldRoundTrip(v: Option<Value>, rest: string)
    requires rest == [] || rest[0] != '"'
    ensures ReadCsvField(CsvField(v) + rest) == Some((TextOf(v), rest))
  {
    match TextOf(v)
    case Some(t) =>
      QuoteRoundTrip(t, '"', rest);
    case None =>
      assert CsvField(v) + rest == rest;
  }

  lemma Regroup(a: string, b: string, c: string, d: string)
    ensures a + b + c + d == a + (b + (c + d))
  {
  }

  lemma Regroup3(a: string, b: string, c: string)
    ensures a + b + c == a + (b + c)
  {
  }

  /** A field followed by a comma, then the remaining fields, reads as all of them. */
  lemma ReadCsvFieldsStep(s: string, n: nat, f: Option<string>, fs: seq<Option<string>>, rest: string, rest': string)
    requires n >= 2
    requires ReadCsvField(s) == Some((f, "," + rest))
    requires ReadCsvFields(rest, n - 1) == Some((fs, rest'))
    ensures ReadCsvFields(s, n) == Some(([f] + fs, rest'))
  {
    assert ("," + rest)[1..] == rest;
  }

  /** A record followed by a line feed, then the remaining records, reads as all of them. */
  lemma ReadCsvRecordsStep(s: string, n: nat, fs: seq<Option<string>>, rest: string, more: seq<seq<Option<string>>>)
    requires n >= 1
    requires ReadCsvFields(s, n) == Some((fs, "\n" + rest))
    requires ReadCsvRecords(rest, n) == Some(more)
    ensures ReadCsvRecords(s, n) == Some([fs] + more)
  {
    assert ("\n" + rest)[1..] == rest;
  }

  /** A single value's line reads back as its one field. */
  lemma CsvLineSingle(vs: seq<Option<Value>>, rest: string)
    requires |vs| == 1 && (rest == [] || rest[0] == '\n')
    ensures ReadCsvFields(Join(CsvFields(vs), ",") + rest, 1) == Some((Cells(vs), rest))
  {
    CsvFieldRoundTrip(vs[0], rest);
    assert Join(CsvFields(vs), ",") == CsvField(vs[0]);
    assert Cells(vs) == [TextOf(vs[0])];
  }

  lemma CsvFieldsCons(vs: seq<Option<Value>>)
    requires |vs| >= 2
    ensures Join(CsvFields(vs), ",") == CsvField(vs[0]) + "," + Join(CsvFields(vs[1..]), ",")
  {
    JoinCons(CsvFields(vs), ",");
    assert CsvFields(vs)[1..] == CsvFields(vs[1..]);
  }

  lemma CellsCons(vs: seq<Option<Value>>)
    requires |vs| >= 1
    ensures Cells(vs) == [TextOf(vs[0])] + Cells(vs[1..])
  {
  }

  /** A field, a comma, then text that reads as `n` fields: `n + 1` fields in all. */
  lemma CsvFieldThenFields(v: Option<Value>, more: string, rest: string, n: nat, cells: seq<Option<string>>)
    requires n >= 1 && (rest == [] || rest[0] == '\n')
    requires ReadCsvFields(more + rest, n) == Some((cells, rest))
    ensures ReadCsvFields(CsvField(v) + "," + more + rest, n + 1) == Some(([TextOf(v)] + cells, rest))
  {
    Regroup(CsvField(v), ",", more, rest);
    CsvFieldRoundTrip(v, "," + (more + rest));
    ReadCsvFieldsStep(CsvField(v) + ("," + (more + rest)), n + 1, TextOf(v), cells, more + rest, rest);
  }

  /** A data line reads back as exactly one field per value, each the value's text. */
  lemma {:induction false} CsvLineRoundTrip(vs: seq<Option<Value>>, rest: string)
    requires |vs| >= 1
    requires rest == [] || rest[0] == '\n'
    ensures ReadCsvFields(Join(CsvFields(vs), ",") + rest, |vs|) == Some((Cells(vs), rest))
    decreases |vs|
  {
    if |vs| == 1 {
      CsvLineSingle(vs, rest);
    } else {
      var more := Join(CsvFields(vs[1..]), ",");
      CsvLineRoundTrip(vs[1..], rest);
      CsvFieldsCons(vs);
      CellsCons(vs);
      CsvFieldThenFields(vs[0], more, rest, |vs| - 1, Cells(vs[1..]));
      assert Join(CsvFields(vs), ",") + rest == CsvField(vs[0]) + "," + more + rest;
    }
  }

  /** What a reader can learn from each row, in row order. */
  function Records(rows: seq<Row>, headers: seq<string>): (rs: seq<seq<Option<string>>>)
    ensures |rs| == |rows| && forall k :: 0 <= k < |rows| ==> rs[k] == Cells(Lookups(rows[k], headers))
  {
    seq(|rows|, k requires 0 <= k < |rows| => Cells(Lookups(rows[k], headers)))
  }

  /** A single row's line reads back as its one record. */
  lemma CsvBodySingle(rows: seq<Row>, headers: seq<string>)
    requires |rows| == 1 && |headers| >= 1
    ensures ReadCsvRecords(Join(CsvLines(rows, headers), "\n"), |headers|) == Some(Records(rows, headers))
  {
    var first := Lookups(rows[0], headers);
    CsvLineRoundTrip(first, "");
    assert Join(CsvLines(rows, headers), "\n") == Join(CsvFields(first), ",") + "";
    assert Records(rows, headers) == [Cells(first)];
  }

  lemma CsvLinesCons(rows: seq<Row>, headers: seq<string>)
    requires |rows| >= 2
    ensures Join(CsvLines(rows, headers), "\n") == CsvLine(rows[0], headers) + "\n" + Join(CsvLines(rows[1..], headers), "\n")
  {
    JoinCons(CsvLines(rows, headers), "\n");
    assert CsvLines(rows, headers)[1..] == CsvLines(rows[1..], headers);
  }

  lemma RecordsCons(rows: seq<Row>, headers: seq<string>)
    requires |rows| >= 1
    ensures Records(rows, headers) == [Cells(Lookups(rows[0], headers))] + Records(rows[1..], headers)
  {
  }

  /** A data line, a line feed, then text that reads as records: one more record in front. */
  lemma CsvLineThenRecords(row: Row, headers: seq<string>, more: string, records: seq<seq<Option<string>>>)
    requires |headers| >= 1
    requires ReadCsvRecords(more, |headers|) == Some(records)
    ensures ReadCsvRecords(CsvLine(row, headers) + "\n" + more, |headers|) == Some([Cells(Lookups(row, headers))] + records)
  {
    var vs := Lookups(row, headers);
    Regroup3(CsvLine(row, headers), "\n", more);
    CsvLineRoundTrip(vs, "\n" + more);
    ReadCsvRecordsStep(CsvLine(row, headers) + ("\n" + more), |headers|, Cells(vs), more, records);
  }

  /** The data lines read back as one record per row, in row order. */
  lemma {:induction false} CsvBodyRoundTrip(rows: seq<Row>, headers: seq<string>)
    requires |rows| >= 1 && |headers| >= 1
    ensures ReadCsvRecords(Join(CsvLines(rows, headers), "\n"), |headers|) == Some(Records(rows, headers))
    decreases |rows|
  {
    if |rows| == 1 {
      CsvBodySingle(rows, headers);
    } else {
      CsvBodyRoundTrip(rows[1..], headers);
      CsvLinesCons(rows, headers);
      RecordsCons(rows, headers);
      CsvLineThenRecords(rows[0], headers, Join(CsvLines(rows[1..], headers), "\n"), Records(rows[1..], headers));
    }
  }

  /** The header line, a line feed and the data lines read back as the headers and the records. */
  lemma CsvTextReadsBack(rows: seq<Row>)
    requires |rows| >= 1
    ensures var headers := Headers(rows);
      HeadersPlain(headers) ==>
        ReadCsv(Join(headers, ",") + "\n" + Join(CsvLines(rows, headers), "\n")) == Some((headers, Records(rows, headers)))
  {
    var headers := Headers(rows);
    if HeadersPlain(headers) {
      var line := Join(headers, ",");
      var body := Join(CsvLines(rows, headers), "\n");
      JoinAvoids(headers, ",", '\n');
      IndexOfAfterFree(line, "\n", body);
      var doc := line + "\n" + body;
      assert doc[..|line|] == line;
      assert doc[|line| + 1..] == body;
      SplitJoin(headers, ",");
      CsvBodyRoundTrip(rows, headers);
    }
  }

  // ---------------------------------------------------------------------------
  // SQL script.

  const ExportTable := "query_results"

  /** An SQL literal: `NULL` for null or undefined, otherwise the text in single quotes, its own quotes doubled. */
  function SqlValue(v: Option<Value>): string {
    match TextOf(v)
    case None => "NULL"
    case Some(t) => Quote(t, '\'')
  }

  function SqlValues(vs: seq<Option<Value>>): (fs: seq<string>)
    ensures |fs| == |vs| && forall i :: 0 <= i < |vs| ==> fs[i] == SqlValue(vs[i])
  {
    seq(|vs|, i requires 0 <= i < |vs| => SqlValue(vs[i]))
  }

  /** Everything of an insert statement before its value list. */
  function InsertPrefix(headers: seq<string>): string {
    "INSERT INTO " + ExportTable + " (" + Join(headers, ", ") + ") VALUES ("
  }

  function InsertLine(row: Row, headers: seq<string>): string {
    InsertPrefix(headers) + Join(SqlValues(Lookups(row, headers)), ", ") + ");"
  }

  function ColumnDefinitions(headers: seq<string>): (ds: seq<string>)
    ensures |ds| == |headers| && forall i :: 0 <= i < |headers| ==> ds[i] == "  " + headers[i] + " TEXT"
  {
    seq(|headers|, i requires 0 <= i < |headers| => "  " + headers[i] + " TEXT")
  }

  function CreateStatement(headers: seq<string>): string {
    "CREATE TABLE " + ExportTable + " (\n" + Join(ColumnDefinitions(headers), ",\n") + "\n);\n\n"
  }

  function InsertLines(rows: seq<Row>, headers: seq<string>): (ls: seq<string>)
    ensures |ls| == |rows| && forall k :: 0 <= k < |rows| ==> ls[k] == InsertLine(rows[k], headers)
  {
    seq(|rows|, k requires 0 <= k < |rows| => InsertLine(rows[k], headers))
  }

  /**
   * The SQL script: the table definition, then one insert per row joined by
   * line feeds. After the definition, the text splits at line feeds back into
   * the insert statements, one per row in order, unless some value's text
   * itself holds a line feed.
   */
  function SqlScript(rows: seq<Row>): (r: string)
    requires |rows| > 0
    ensures StartsWith(r, CreateStatement(Headers(rows)))
    ensures var create := CreateStatement(Headers(rows));
      (forall k :: 0 <= k < |rows| ==> '\n' !in InsertLine(rows[k], Headers(rows))) ==>
        Split(r[|create|..], "\n") == InsertLines(rows, Headers(rows))
  {
    var create := CreateStatement(Headers(rows));
    var inserts := InsertLines(rows, Headers(rows));
    InsertLinesSplit(inserts);
    assert (create + Join(inserts, "\n"))[..|create|] == create;
    assert (create + Join(inserts, "\n"))[|create|..] == Join(inserts, "\n");
    create + Join(inserts, "\n")
  }

  /** Lines free of line feeds, joined by line feeds, split back into themselves. */
  lemma InsertLinesSplit(lines: seq<string>)
    requires |lines| >= 1
    ensures (forall k :: 0 <= k < |lines| ==> '\n' !in lines[k]) ==> Split(Join(lines, "\n"), "\n") == lines
  {
    if forall k :: 0 <= k < |lines| ==> '\n' !in lines[k] {
      SplitJoin(lines, "\n");
    }
  }

  /** Reads one literal: `NULL` or a single-quoted text. */
  function ReadSqlValue(s: string): Option<(Option<string>, string)> {
    if StartsWith(s, "NULL") then Some((None, s[4..]))
    else if s != [] && s[0] == '\'' then
      match ReadQuoted(s[1..], '\'')
      case None => None
      case Some((x, rest)) => Some((Some(x), rest))
    else None
  }

  /** Reads `n` literals separated by ", ". */
  function ReadSqlValues(s: string, n: nat): Option<(seq<Option<string>>, string)>
    requires n >= 1
    decreases n
  {
    match ReadSqlValue(s)
    case None => None
    case Some((v, rest)) =>
      if n == 1 then Some(([v], rest))
      else if StartsWith(rest, ", ") then
        match ReadSqlValues(rest[2..], n - 1)
        case None => None
        case Some((vs, rest')) => Some(([v] + vs, rest'))
      else None
  }

  lemma SqlValueRoundTrip(v: Option<Value>, rest: string)
    requires rest != [] && (rest[0] == ',' || rest[0] == ')')
    ensures ReadSqlValue(SqlValue(v) + rest) == Some((TextOf(v), rest))
  {
    match TextOf(v)
    case Some(t) =>
      QuoteRoundTrip(t, '\'', rest);
      var s := SqlValue(v) + rest;
      assert !StartsWith(s, "NULL") by {
        assert s[0] == '\'';
      }
    case None =>
      var s := SqlValue(v) + rest;
      assert s == "NULL" + rest;
      assert s[..4] == "NULL" && s[4..] == rest;
  }

  /** A literal followed by ", ", then the remaining literals, reads as all of them. */
  lemma ReadSqlValuesStep(s: string, n: nat, v: Option<string>, vs: seq<Option<string>>, rest: string, rest': string)
    requires n >= 2
    requires ReadSqlValue(s) == Some((v, ", " + rest))
    requires ReadSqlValues(rest, n - 1) == Some((vs, rest'))
    ensures ReadSqlValues(s, n) == Some(([v] + vs, rest'))
  {
    assert (", " + rest)[..2] == ", " && (", " + rest)[2..] == rest;
  }

  lemma SqlValuesCons(vs: seq<Option<Value>>)
    requires |vs| >= 2
    ensures Join(SqlValues(vs), ", ") == SqlValue(vs[0]) + ", " + Join(SqlValues(vs[1..]), ", ")
  {
    JoinCons(SqlValues(vs), ", ");
    assert SqlValues(vs)[1..] == SqlValues(vs[1..]);
  }

  /** A literal, ", ", then text that reads as `n` literals: `n + 1` literals in all. */
  lemma SqlValueThenValues(v: Option<Value>, more: string, rest: string, n: nat, cells: seq<Option<string>>)
    requires n >= 1 && rest != [] && rest[0] == ')'
    requires ReadSqlValues(more + rest, n) == Some((cells, rest))
    ensures ReadSqlValues(SqlValue(v) + ", " + more + rest, n + 1) == Some(([TextOf(v)] + cells, rest))
  {
    Regroup(SqlValue(v), ", ", more, rest);
    SqlValueRoundTrip(v, ", " + (more + rest));
    ReadSqlValuesStep(SqlValue(v) + (", " + (more + rest)), n + 1, TextOf(v), cells, more + rest, rest);
  }

  /** A value list reads back as exactly one literal per value, each the value's text or NULL. */
  lemma {:induction false} SqlValuesRoundTrip(vs: seq<Option<Value>>, rest: string)
    requires |vs| >= 1 && rest != [] && rest[0] == ')'
    ensures ReadSqlValues(Join(SqlValues(vs), ", ") + rest, |vs|) == Some((Cells(vs), rest))
    decreases |vs|
  {
    if |vs| == 1 {
      SqlValueRoundTrip(vs[0], rest);
      assert Join(SqlValues(vs), ", ") == SqlValue(vs[0]);
      assert Cells(vs) == [TextOf(vs[0])];
    } else {
      SqlValuesRoundTrip(vs[1..], rest);
      SqlValuesCons(vs);
      CellsCons(vs);
      SqlValueThenValues(vs[0], Join(SqlValues(vs[1..]), ", "), rest, |vs| - 1, Cells(vs[1..]));
    }
  }

  /**
   * Each insert statement lists exactly one literal per header, each the
   * text of that header's value (or NULL), and ends with ");".
   */
  lemma InsertLineRoundTrip(row: Row, headers: seq<string>)
    requires |headers| >= 1
    ensures var line := InsertLine(row, headers);
      && StartsWith(line, InsertPrefix(headers))
      && ReadSqlValues(line[|InsertPrefix(headers)|..], |headers|) == Some((Cells(Lookups(row, headers)), ");"))
  {
    var p := InsertPrefix(headers);
    var values := Join(SqlValues(Lookups(row, headers)), ", ");
    var line := InsertLine(row, headers);
    assert line == p + (values + ");");
    assert line[..|p|] == p;
    assert line[|p|..] == values + ");";
    SqlValuesRoundTrip(Lookups(row, headers), ");");
  }

  /**
   * The column list of the table definition splits back into one
   * `  <header> TEXT` line per header, in order, when no header holds a comma.
   */
  lemma CreateStatementColumns(headers: seq<string>)
    requires |headers| >= 1 && forall k :: 0 <= k < |headers| ==> ',' !in headers[k]
    ensures Split(Join(ColumnDefinitions(headers), ",\n"), ",\n") == ColumnDefinitions(headers)
  {
    var ds := ColumnDefinitions(headers);
    forall k | 0 <= k < |ds|
      ensures ',' !in ds[k]
    {
      assert ds[k] == "  " + headers[k] + " TEXT";
    }
    SplitJoin(ds, ",\n");
  }

  // ---------------------------------------------------------------------------
  // The export action.

  /**
   * The text `handleExport` offers for download: nothing when there are no
   * rows or the format is not one of "csv", "json" and "sql"; empty text
   * for "json".
   */
  function Export(rows: seq<Row>, format: string): (r: Option<string>)
    ensures r.None? <==> |rows| == 0 || (format != "csv" && format != "json" && format != "sql")
    ensures |rows| > 0 && format == "json" ==> r == Some("")
    ensures |rows| > 0 && format == "csv" ==> r == Some(Csv(rows))
    ensures |rows| > 0 && format == "sql" ==> r == Some(SqlScript(rows))
  {
    if |rows| == 0 then None
    else if format == "csv" then Some(Csv(rows))
    else if format == "json" then Some("")
    else if format == "sql" then Some(SqlScript(rows))
    else None
  }
}
