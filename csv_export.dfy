/**
 * The two CSV exports of src/App.tsx and the download wrapper around them.
 *
 * `exportToCSV` (lines 382-389) writes a one-column file of the filtered
 * hits of the active tab; `exportAllToCSV` (lines 391-399) writes every hit
 * of every tab as a `type,value` row. Values are quoted with inner quotes
 * doubled; the pattern name of the second export is quoted but NOT escaped.
 * `downloadFile` (lines 401-412) prefixes the text with a byte order mark.
 *
 * Each export comes with a reader for the format it writes, and the
 * round-trip lemmas show that the reader gets back exactly what was
 * exported.
 */
module CsvExport {
  import opened JsCollections
  import opened JsStrings
  import opened Selection

  /** `m.replace(/"/g, '""')`: every double quote doubled, nothing else changed. */
  function EscapeQuotes(m: string): (e: string)
    ensures |e| >= |m|
    ensures '"' !in m ==> e == m
  {
    if m == [] then []
    else (if m[0] == '"' then "\"\"" else [m[0]]) + EscapeQuotes(m[1..])
  }

  /** `"${m.replace(/"/g, '""')}"` */
  function Quoted(m: string): string {
    "\"" + (EscapeQuotes(m) + "\"")
  }

  /** `lines.join("\n")`: no separator before the first line or after the last. */
  function JoinLines(lines: seq<string>): string {
    if lines == [] then ""
    else if |lines| == 1 then lines[0]
    else lines[0] + ("\n" + JoinLines(lines[1..]))
  }

  /** The text of `exportToCSV` for the filtered hits of the active tab (line 386). */
  function ExportCsv(filtered: seq<string>): string {
    "value\n" + JoinLines(MapSeq(filtered, Quoted))
  }

  /** `BOM + content` (lines 402-403). */
  function WithBom(content: string): string {
    "\U{FEFF}" + content
  }

  /** A row of the combined export: the pattern name and one hit. */
  datatype CsvRow = CsvRow(pattern: string, value: string)

  /** `"${r.pattern}","${escaped}"\n` (line 395): the name goes in as it is. */
  function RowLine(row: CsvRow): string {
    "\"" + (row.pattern + ("\",\"" + (EscapeQuotes(row.value) + "\"\n")))
  }

  /** The lines of `rows`, one after the other. */
  function CsvLines(rows: seq<CsvRow>): string {
    if rows == [] then "" else RowLine(rows[0]) + CsvLines(rows[1..])
  }

  /** The rows one tab contributes: its name with each of its hits, in order. */
  function RowsOf(result: ResultData): (rows: seq<CsvRow>)
    ensures |rows| == |result.matches|
    ensures forall j :: 0 <= j < |rows| ==> rows[j] == CsvRow(result.pattern, result.matches[j])
  {
    MapSeq(result.matches, (m: string) => CsvRow(result.pattern, m))
  }

  /** The rows of all tabs, tab after tab. */
  function AllRows(results: seq<ResultData>): (rows: seq<CsvRow>)
    ensures |rows| == TotalResults(results)
  {
    if results == [] then [] else RowsOf(results[0]) + AllRows(results[1..])
  }

  /** The text of `exportAllToCSV` for `results`. */
  function ExportAllCsv(results: seq<ResultData>): string {
    "type,value\n" + CsvLines(AllRows(results))
  }

  lemma {:induction false} CsvLinesAppend(a: seq<CsvRow>, b: seq<CsvRow>)
    ensures CsvLines(a + b) == CsvLines(a) + CsvLines(b)
  {
    if a == [] {
      assert a + b == b;
    } else {
      assert (a + b)[0] == a[0];
      assert (a + b)[1..] == a[1..] + b;
      CsvLinesAppend(a[1..], b);
      AppendAssoc(RowLine(a[0]), CsvLines(a[1..]), CsvLines(b));
    }
  }

  lemma {:induction false} AllRowsSnoc(results: seq<ResultData>, r: ResultData)
    ensures AllRows(results + [r]) == AllRows(results) + RowsOf(r)
  {
    if results == [] {
      assert [r][1..] == [];
    } else {
      assert (results + [r])[1..] == results[1..] + [r];
      AllRowsSnoc(results[1..], r);
    }
  }

  /** The lines of the first `j + 1` rows of a tab are those of the first `j` and the line of hit `j`. */
  lemma RowsOfSnoc(r: ResultData, j: nat)
    requires j < |r.matches|
    ensures CsvLines(RowsOf(r)[..j + 1]) == CsvLines(RowsOf(r)[..j]) + RowLine(CsvRow(r.pattern, r.matches[j]))
  {
    var row := CsvRow(r.pattern, r.matches[j]);
    assert RowsOf(r)[..j + 1] == RowsOf(r)[..j] + [row];
    CsvLinesAppend(RowsOf(r)[..j], [row]);
    assert CsvLines([row]) == RowLine(row) + CsvLines([]);
  }

  /** The lines of the first `i + 1` tabs are those of the first `i` and the lines of tab `i`. */
  lemma AllRowsStep(results: seq<ResultData>, i: nat)
    requires i < |results|
    ensures CsvLines(AllRows(results[..i + 1])) == CsvLines(AllRows(results[..i])) + CsvLines(RowsOf(results[i]))
  {
    assert results[..i + 1] == results[..i] + [results[i]];
    AllRowsSnoc(results[..i], results[i]);
    CsvLinesAppend(AllRows(results[..i]), RowsOf(results[i]));
  }

  /**
   * `exportAllToCSV` (lines 391-399): the header, then for each tab and
   * each of its hits one `"name","value"` line, appended in place.
   */
  method ExportAllToCsv(results: seq<ResultData>) returns (csv: string)
    ensures csv == ExportAllCsv(results)
  {
    csv := "type,value\n";
    for i := 0 to |results|
      invariant csv == "type,value\n" + CsvLines(AllRows(results[..i]))
    {
      var r := results[i];
      ghost var done := csv;
      for j := 0 to |r.matches|
        invariant csv == done + CsvLines(RowsOf(r)[..j])
      {
        var line := RowLine(CsvRow(r.pattern, r.matches[j]));
        RowsOfSnoc(r, j);
        AppendAssoc(done, CsvLines(RowsOf(r)[..j]), line);
        csv := csv + line;
      }
      assert RowsOf(r)[..|r.matches|] == RowsOf(r);
      AllRowsStep(results, i);
      AppendAssoc("type,value\n", CsvLines(AllRows(results[..i])), CsvLines(RowsOf(r)));
    }
    assert results[..|results|] == results;
  }

  /**
   * Reads a quoted field whose opening quote is already consumed: `""`
   * stands for one quote and a lone `"` closes the field. Gives the field
   * and the text after its closing quote.
   */
  function ReadField(s: string): (r: Option<(string, string)>)
    ensures r.Some? ==> |r.value.1| < |s|
    decreases |s|
  {
    if s == [] then None
    else if s[0] == '"' then
      if |s| >= 2 && s[1] == '"' then
        match ReadField(s[2..])
        case None => None
        case Some((v, rest)) => Some(("\"" + v, rest))
      else Some(("", s[1..]))
    else
      match ReadField(s[1..])
      case None => None
      case Some((v, rest)) => Some(([s[0]] + v, rest))
  }

  /** An escaped field followed by its closing quote reads back as the original field. */
  lemma {:induction false} ReadFieldEscaped(m: string, rest: string)
    requires rest == [] || rest[0] != '"'
    ensures ReadField(EscapeQuotes(m) + ("\"" + rest)) == Some((m, rest))
  {
    if m == [] {
      assert EscapeQuotes(m) + ("\"" + rest) == "\"" + rest;
      assert ("\"" + rest)[1..] == rest;
    } else {
      var head := if m[0] == '"' then "\"\"" else [m[0]];
      var s := EscapeQuotes(m) + ("\"" + rest);
      var after := EscapeQuotes(m[1..]) + ("\"" + rest);
      AppendAssoc(head, EscapeQuotes(m[1..]), "\"" + rest);
      assert s == head + after;
      ReadFieldEscaped(m[1..], rest);
      if m[0] == '"' {
        assert s[0] == '"' && s[1] == '"';
        assert s[2..] == after;
        assert m == "\"" + m[1..];
      } else {
        assert s[1..] == after;
        assert m == [m[0]] + m[1..];
      }
    }
  }

  /** Reads the body of a one-column export: quoted fields separated by line breaks. */
  function ReadValueLines(s: string): Option<seq<string>>
    decreases |s|
  {
    if s == [] then Some([])
    else if s[0] != '"' then None
    else
      match ReadField(s[1..])
      case None => None
      case Some((v, rest)) =>
        if rest == [] then Some([v])
        else if rest[0] != '\n' then None
        else
          match ReadValueLines(rest[1..])
          case None => None
          case Some(vs) => Some([v] + vs)
  }

  /** Reads a downloaded one-column export: the byte order mark, the header, then the values. */
  function ReadExport(file: string): Option<seq<string>> {
    if file == [] || file[0] != '\U{FEFF}' then None
    else
      var text := file[1..];
      if |text| >= 6 && text[..6] == "value\n" then ReadValueLines(text[6..]) else None
  }

  lemma {:induction false} ReadValueLinesJoin(values: seq<string>)
    ensures ReadValueLines(JoinLines(MapSeq(values, Quoted))) == Some(values)
  {
    if values != [] {
      var v := values[0];
      var s := JoinLines(MapSeq(values, Quoted));
      if |values| == 1 {
        assert s == "\"" + (EscapeQuotes(v) + ("\"" + ""));
        assert s[1..] == EscapeQuotes(v) + ("\"" + "");
        ReadFieldEscaped(v, "");
        assert values == [v];
      } else {
        var tail := JoinLines(MapSeq(values[1..], Quoted));
        assert MapSeq(values, Quoted)[1..] == MapSeq(values[1..], Quoted);
        AppendAssoc(EscapeQuotes(v), "\"", "\n" + tail);
        assert s == "\"" + (EscapeQuotes(v) + ("\"" + ("\n" + tail)));
        assert s[1..] == EscapeQuotes(v) + ("\"" + ("\n" + tail));
        ReadFieldEscaped(v, "\n" + tail);
        assert ("\n" + tail)[1..] == tail;
        ReadValueLinesJoin(values[1..]);
        assert values == [v] + values[1..];
      }
    }
  }

  /** The downloaded one-column export reads back as exactly the filtered hits, in order. */
  lemma ExportCsvRoundTrip(filtered: seq<string>)
    ensures ReadExport(WithBom(ExportCsv(filtered))) == Some(filtered)
  {
    ReadValueLinesJoin(filtered);
  }

  /** Reads the body of a combined export: `"name","value"` lines, each ended by a line break. */
  function ReadRows(s: string): Option<seq<CsvRow>>
    decreases |s|
  {
    if s == [] then Some([])
    else if s[0] != '"' then None
    else
      match ReadField(s[1..])
      case None => None
      case Some((name, rest)) =>
        if |rest| < 2 || rest[0] != ',' || rest[1] != '"' then None
        else
          match ReadField(rest[2..])
          case None => None
          case Some((value, rest2)) =>
            if rest2 == [] || rest2[0] != '\n' then None
            else
              match ReadRows(rest2[1..])
              case None => None
              case Some(rows) => Some([CsvRow(name, value)] + rows)
  }

  /** Reads a downloaded combined export: the byte order mark, the header, then the rows. */
  function ReadExportAll(file: string): Option<seq<CsvRow>> {
    if file == [] || file[0] != '\U{FEFF}' then None
    else
      var text := file[1..];
      if |text| >= 11 && text[..11] == "type,value\n" then ReadRows(text[11..]) else None
  }

  /** No row's pattern name holds a double quote. */
  ghost predicate NamesQuoteFree(rows: seq<CsvRow>) {
    forall i :: 0 <= i < |rows| ==> '"' !in rows[i].pattern
  }

  /** One line of the combined export, with a quote-free name, reads back as its row. */
  lemma ReadRowLine(row: CsvRow, tail: string)
    requires '"' !in row.pattern
    ensures ReadRows(RowLine(row) + tail) == match ReadRows(tail) case None => None case Some(rows) => Some([row] + rows)
  {
    var e := EscapeQuotes(row.value);
    var afterValue := "\"" + ("\n" + tail);
    var afterName := ",\"" + (e + afterValue);
    AppendAssoc("\"", row.pattern + ("\",\"" + (e + "\"\n")), tail);
    AppendAssoc(row.pattern, "\",\"" + (e + "\"\n"), tail);
    AppendAssoc("\",\"", e + "\"\n", tail);
    AppendAssoc(e, "\"\n", tail);
    assert "\"\n" + tail == afterValue;
    assert "\",\"" + (e + afterValue) == "\"" + afterName;
    assert RowLine(row) + tail == "\"" + (row.pattern + ("\"" + afterName));
    ReadFieldEscaped(row.pattern, afterName);
    ReadFieldEscaped(row.value, "\n" + tail);
  }

  lemma {:induction false} ReadRowsLines(rows: seq<CsvRow>)
    requires NamesQuoteFree(rows)
    ensures ReadRows(CsvLines(rows)) == Some(rows)
  {
    if rows != [] {
      assert NamesQuoteFree(rows[1..]) by {
        assert forall i :: 0 <= i < |rows| - 1 ==> rows[1..][i] == rows[i + 1];
      }
      ReadRowsLines(rows[1..]);
      ReadRowLine(rows[0], CsvLines(rows[1..]));
      assert rows == [rows[0]] + rows[1..];
    }
  }

  /** Every row of the combined export carries the name of a tab, so quote-free tab names give quote-free rows. */
  lemma {:induction false} AllRowsQuoteFree(results: seq<ResultData>)
    requires forall i :: 0 <= i < |results| ==> '"' !in results[i].pattern
    ensures NamesQuoteFree(AllRows(results))
  {
    if results != [] {
      assert forall i :: 0 <= i < |results| - 1 ==> results[1..][i] == results[i + 1];
      AllRowsQuoteFree(results[1..]);
      var first := RowsOf(results[0]);
      var rows := AllRows(results);
      forall i | 0 <= i < |rows| ensures '"' !in rows[i].pattern {
        if i < |first| {
          assert rows[i] == first[i];
        } else {
          assert rows[i] == AllRows(results[1..])[i - |first|];
        }
      }
    }
  }

  /**
   * The downloaded combined export reads back as one row per hit, tab
   * after tab, provided no pattern name holds a double quote: names are
   * written unescaped, so a quote in a name would end its field early.
   */
  lemma ExportAllCsvRoundTrip(results: seq<ResultData>)
    requires forall i :: 0 <= i < |results| ==> '"' !in results[i].pattern
    ensures ReadExportAll(WithBom(ExportAllCsv(results))) == Some(AllRows(results))
  {
    AllRowsQuoteFree(results);
    ReadRowsLines(AllRows(results));
  }

  /** The byte order mark and the header are skipped, whatever follows them. */
  lemma ReadExportAllBody(body: string)
    ensures ReadExportAll(WithBom("type,value\n" + body)) == ReadRows(body)
  {
    assert WithBom("type,value\n" + body)[1..] == "type,value\n" + body;
    assert ("type,value\n" + body)[11..] == body;
  }

  /** The line written for one hit `x` of a tab named `a"b`. */
  lemma QuotedNameLine()
    ensures ExportAllCsv([ResultData("a\"b", ["x"])]) == "type,value\n" + "\"a\"b\",\"x\"\n"
  {
    var results := [ResultData("a\"b", ["x"])];
    var row := CsvRow("a\"b", "x");
    assert RowsOf(results[0]) == [row];
    assert AllRows(results) == [row] + AllRows([]);
    assert EscapeQuotes("x") == "x";
    assert CsvLines(AllRows(results)) == RowLine(row) + "";
  }

  /** Reading that line stops at the quote inside the name, where no `,"` follows. */
  lemma QuotedNameLineUnreadable()
    ensures ReadRows("\"a\"b\",\"x\"\n") == None
  {
    var body := "\"a\"b\",\"x\"\n";
    var afterA := "\"b\",\"x\"\n";
    var afterQuote := "b\",\"x\"\n";
    assert afterA[1] == 'b' && afterA[1..] == afterQuote;
    assert ReadField(afterA) == Some(("", afterQuote));
    var afterOpen := body[1..];
    assert afterOpen == ['a'] + afterA;
    assert afterOpen[0] == 'a' && afterOpen[0] != '"' && afterOpen[1..] == afterA;
    assert [afterOpen[0]] + "" == "a";
    assert ReadField(afterOpen) == Some(("a", afterQuote));
  }

  /** A quote in a name breaks the combined export: the file for a tab named `a"b` does not read back at all. */
  lemma QuoteInNameBreaksExport()
    ensures ReadExportAll(WithBom(ExportAllCsv([ResultData("a\"b", ["x"])]))) == None
  {
    QuotedNameLine();
    ReadExportAllBody("\"a\"b\",\"x\"\n");
    QuotedNameLineUnreadable();
  }
}
