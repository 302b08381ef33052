/** The three export encoders of `src/utils/exportUtils.ts`. Each takes a list
    of records and a base file name and yields the text of the file, its name
    and its MIME type, or nothing at all for an empty list. The browser step
    that turns the result into a download is not part of this model. */
module ExportUtils {
  import opened Text
  import opened Values
  import opened Wrappers

  /** What an exporter hands to the download step. */
  datatype Download = Download(content: string, filename: string, mimeType: string)

  const CsvMime: string := "text/csv"
  const XlsMime: string := "application/vnd.ms-excel"
  const XlsxMime: string := "application/vnd.openxmlformats-officedocument.spreadsheetml.sheet"

  /** `Object.keys(data[0])`: every format takes its columns from the first
      record alone. */
  function Headers(data: seq<Record>): seq<string>
    requires |data| > 0
  {
    Keys(data[0])
  }

  /** `${row[h] || ''}` for every column, in column order: the text of one
      HTML or spreadsheet row. */
  function CellTexts(row: Record, headers: seq<string>, show: NumFormat): (ts: seq<string>)
    ensures |ts| == |headers|
  {
    seq(|headers|, j requires 0 <= j < |headers| => CellText(Lookup(row, headers[j]), show))
  }

  /** Columns come from the first record only: a key that a later record lacks
      reads as `undefined`, which every format writes as an empty cell (and
      the spreadsheet types as a string). */
  lemma MissingKeyEmptyCell(row: Record, key: string, show: NumFormat)
    requires key !in Keys(row)
    ensures CellText(Lookup(row, key), show) == ""
    ensures CsvCell(Lookup(row, key), show) == ""
    ensures XlsxType(Lookup(row, key)) == "String"
  {
    LookupAbsent(row, key);
  }

  // ---------------------------------------------------------------------
  // CSV

  /** `s.replace(/"/g, '""')`. */
  function EscapeQuotes(s: string): string
  {
    if |s| == 0 then "" else (if s[0] == '"' then "\"\"" else [s[0]]) + EscapeQuotes(s[1..])
  }

  /** Doubling the quotes at most doubles the length, and leaves a string
      without quotes as it is. */
  lemma {:induction false} EscapeQuotesBounds(s: string)
    ensures |s| <= |EscapeQuotes(s)| <= 2 * |s|
    ensures '"' !in s ==> EscapeQuotes(s) == s
  {
    if |s| > 0 {
      EscapeQuotesBounds(s[1..]);
      if '"' !in s {
        assert s[0] != '"';
        assert [s[0]] + s[1..] == s;
      }
    }
  }

  /** The quoting test of the CSV encoder: a comma or a double quote. */
  predicate NeedsQuotes(s: string)
  {
    ',' in s || '"' in s
  }

  /** A string wrapped in double quotes, its own quotes doubled. */
  function Quote(s: string): string
  {
    "\"" + EscapeQuotes(s) + "\""
  }

  /** One CSV cell: a string that needs quoting is quoted; any other value is
      written as `Array.prototype.join` writes it. */
  function CsvCell(v: Value, show: NumFormat): string
  {
    if v.Str? && NeedsQuotes(v.s) then Quote(v.s) else JoinText(v, show)
  }

  /** A string is written verbatim exactly when it needs no quotes; a
      quoted one is longer than the string. */
  lemma CsvCellVerbatim(s: string, show: NumFormat)
    ensures CsvCell(Str(s), show) == s <==> !NeedsQuotes(s)
    ensures NeedsQuotes(s) ==> |CsvCell(Str(s), show)| >= |s| + 2
  {
    EscapeQuotesBounds(s);
  }

  /** A string that needs no quoting is written as it is. */
  lemma CsvCellPlain(s: string, show: NumFormat)
    requires !NeedsQuotes(s)
    ensures CsvCell(Str(s), show) == s
  {
  }

  /** The cells of one record under the given columns. */
  function CsvCells(row: Record, headers: seq<string>, show: NumFormat): (cells: seq<string>)
    ensures |cells| == |headers|
  {
    seq(|headers|, j requires 0 <= j < |headers| => CsvCell(Lookup(row, headers[j]), show))
  }

  /** The header line followed by one line per record, in input order. */
  function CsvLines(data: seq<Record>, show: NumFormat): (lines: seq<string>)
    requires |data| > 0
    ensures |lines| == |data| + 1
  {
    var headers := Headers(data);
    [Join(headers, ",")] + seq(|data|, i requires 0 <= i < |data| => Join(CsvCells(data[i], headers, show), ","))
  }

  /** `exportToCSV` up to the download: nothing for an empty list, otherwise
      the lines joined by newlines, as `<filename>.csv` of type `text/csv`. */
  function ExportToCSV(data: seq<Record>, filename: string, show: NumFormat): (r: Option<Download>)
    ensures r.None? <==> |data| == 0
    ensures r.Some? ==> r.value.filename == filename + ".csv" && r.value.mimeType == CsvMime
  {
    if |data| == 0 then None
    else Some(Download(Join(CsvLines(data, show), "\n"), filename + ".csv", CsvMime))
  }

  // ---------------------------------------------------------------------
  // XLS: a bare HTML table

  /** `<tag>text</tag>`, the text inserted without escaping. */
  function Element(tag: string, text: string): string
  {
    "<" + tag + ">" + text + "</" + tag + ">"
  }

  /** `texts.map(t => `<tag>${t}</tag>`).join('')`. */
  function Elements(tag: string, texts: seq<string>): string
  {
    if |texts| == 0 then "" else Element(tag, texts[0]) + Elements(tag, texts[1..])
  }

  /** The `<tr>` of one record: one `<td>` per column. */
  function XlsRow(row: Record, headers: seq<string>, show: NumFormat): string
  {
    Element("tr", Elements("td", CellTexts(row, headers, show)))
  }

  /** The rows of the records, in input order, as the loop appends them. */
  function XlsBody(data: seq<Record>, headers: seq<string>, show: NumFormat): string
  {
    if |data| == 0 then "" else XlsBody(data[..|data| - 1], headers, show) + XlsRow(data[|data| - 1], headers, show)
  }

  lemma XlsBodyGrows(data: seq<Record>, i: nat, headers: seq<string>, show: NumFormat)
    requires i < |data|
    ensures XlsBody(data[..i + 1], headers, show) == XlsBody(data[..i], headers, show) + XlsRow(data[i], headers, show)
  {
    assert data[..i + 1][..i] == data[..i];
  }

  /** The text before the first row: the table opens with its header row. */
  function XlsHead(headers: seq<string>): string
  {
    "<table><tr>" + Elements("th", headers) + "</tr>"
  }

  /** The whole table the loop of `exportToXLS` builds. */
  function XlsContent(data: seq<Record>, show: NumFormat): (r: string)
    requires |data| > 0
    ensures "<table><tr>" <= r
    ensures |r| >= 8 && r[|r| - 8..] == "</table>"
  {
    var headers := Headers(data);
    DropPrefix("<table><tr>", Elements("th", headers));
    PrefixGrows("<table><tr>", "<table><tr>" + Elements("th", headers), "</tr>");
    PrefixGrows("<table><tr>", XlsHead(headers), XlsBody(data, headers, show));
    PrefixGrows("<table><tr>", XlsHead(headers) + XlsBody(data, headers, show), "</table>");
    DropPrefix(XlsHead(headers) + XlsBody(data, headers, show), "</table>");
    XlsHead(headers) + XlsBody(data, headers, show) + "</table>"
  }

  /** `exportToXLS` up to the download: the table is grown row by row. */
  method ExportToXLS(data: seq<Record>, filename: string, show: NumFormat) returns (r: Option<Download>)
    ensures |data| == 0 ==> r == None
    ensures |data| > 0 ==> r == Some(Download(XlsContent(data, show), filename + ".xls", XlsMime))
  {
    if |data| == 0 {
      return None;
    }
    var headers := Keys(data[0]);
    var xlsContent := XlsHead(headers);
    for i := 0 to |data|
      invariant xlsContent == XlsHead(headers) + XlsBody(data[..i], headers, show)
    {
      XlsBodyGrows(data, i, headers, show);
      AppendAssoc(XlsHead(headers), XlsBody(data[..i], headers, show), XlsRow(data[i], headers, show));
      xlsContent := xlsContent + XlsRow(data[i], headers, show);
    }
    assert data[..|data|] == data;
    xlsContent := xlsContent + "</table>";
    r := Some(Download(xlsContent, filename + ".xls", XlsMime));
  }

  // ---------------------------------------------------------------------
  // XLSX: a one-sheet Excel 2003 XML Spreadsheet

  /** Everything before the first header cell. */
  const XlsxPrologue: string :=
    "<?xml version=\"1.0\"?>\n"
    + "<Workbook xmlns=\"urn:schemas-microsoft-com:office:spreadsheet\"\n"
    + " xmlns:o=\"urn:schemas-microsoft-com:office:office\"\n"
    + " xmlns:x=\"urn:schemas-microsoft-com:office:excel\"\n"
    + " xmlns:ss=\"urn:schemas-microsoft-com:office:spreadsheet\"\n"
    + " xmlns:html=\"http://www.w3.org/TR/REC-html40\">\n"
    + "<Worksheet ss:Name=\"Sheet1\">\n"
    + "<Table>\n"
    + "<Row>\n"

  /** What closes the header row. */
  const XlsxHeaderEnd: string := "\n</Row>\n"

  /** Everything after the last data row. */
  const XlsxEpilogue: string := "\n</Table>\n</Worksheet>\n</Workbook>"

  /** A spreadsheet cell: its type tag and its text. */
  type TypedCell = (string, string)

  /** `<Cell><Data ss:Type="type">text</Data></Cell>`. */
  function XlsxCell(c: TypedCell): string
  {
    "<Cell><Data ss:Type=\"" + c.0 + "\">" + c.1 + "</Data></Cell>"
  }

  /** The cells one after the other, as `.join('')` writes them. */
  function XlsxCells(cells: seq<TypedCell>): string
  {
    if |cells| == 0 then "" else XlsxCell(cells[0]) + XlsxCells(cells[1..])
  }

  /** `typeof value === 'number' ? 'Number' : 'String'`. */
  function XlsxType(v: Value): (t: string)
    ensures t == "Number" <==> v.Num?
    ensures t == "String" <==> !v.Num?
  {
    if v.Num? then "Number" else "String"
  }

  /** The header cells: each column name, typed `String`. */
  function XlsxHeaderCells(headers: seq<string>): (cells: seq<TypedCell>)
    ensures |cells| == |headers|
  {
    seq(|headers|, j requires 0 <= j < |headers| => ("String", headers[j]))
  }

  /** The cells of one record: each typed by the record's own value and
      holding `${value || ''}`. */
  function XlsxDataCells(row: Record, headers: seq<string>, show: NumFormat): (cells: seq<TypedCell>)
    ensures |cells| == |headers|
  {
    seq(|headers|, j requires 0 <= j < |headers| =>
      var v := Lookup(row, headers[j]);
      (XlsxType(v), CellText(v, show)))
  }

  function XlsxRow(row: Record, headers: seq<string>, show: NumFormat): string
  {
    "<Row>\n" + XlsxCells(XlsxDataCells(row, headers, show)) + "\n</Row>"
  }

  /** The data rows, in input order. */
  function XlsxBody(data: seq<Record>, headers: seq<string>, show: NumFormat): string
  {
    if |data| == 0 then "" else XlsxRow(data[0], headers, show) + XlsxBody(data[1..], headers, show)
  }

  function XlsxContent(data: seq<Record>, show: NumFormat): (r: string)
    requires |data| > 0
    ensures XlsxPrologue <= r
    ensures |r| >= |XlsxEpilogue| && r[|r| - |XlsxEpilogue|..] == XlsxEpilogue
  {
    var headers := Headers(data);
    var cells := XlsxCells(XlsxHeaderCells(headers));
    var body := XlsxBody(data, headers, show);
    DropPrefix(XlsxPrologue, cells);
    PrefixGrows(XlsxPrologue, XlsxPrologue + cells, XlsxHeaderEnd);
    PrefixGrows(XlsxPrologue, XlsxPrologue + cells + XlsxHeaderEnd, body);
    PrefixGrows(XlsxPrologue, XlsxPrologue + cells + XlsxHeaderEnd + body, XlsxEpilogue);
    DropPrefix(XlsxPrologue + cells + XlsxHeaderEnd + body, XlsxEpilogue);
    XlsxPrologue + XlsxCells(XlsxHeaderCells(headers)) + XlsxHeaderEnd + XlsxBody(data, headers, show) + XlsxEpilogue
  }

  /** `exportToXLSX` up to the download. */
  function ExportToXLSX(data: seq<Record>, filename: string, show: NumFormat): (r: Option<Download>)
    ensures r.None? <==> |data| == 0
    ensures r.Some? ==> r.value.filename == filename + ".xlsx" && r.value.mimeType == XlsxMime
  {
    if |data| == 0 then None
    else Some(Download(XlsxContent(data, show), filename + ".xlsx", XlsxMime))
  }
}
