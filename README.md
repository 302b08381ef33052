# Elastic data explorer: exporters and mock dataset, in Dafny

This project models the two pieces of logic in the elastic-data-explorer
web app that are not user-interface code.

- **The export encoders** of `src/utils/exportUtils.ts`. Each encoder turns
  a list of records into the text of a file:
  - `exportToCSV` writes comma-separated text;
  - `exportToXLS` writes a bare HTML table;
  - `exportToXLSX` writes a one-sheet Excel 2003 XML Spreadsheet.

  Each also picks the file name and the MIME type. All three take their
  columns from the keys of the first record. All three do nothing for an
  empty list.
- **The mock Elasticsearch catalogue** of `src/data/mockElasticsearchData.ts`:
  - the constant table of four indices;
  - `generateFullIndexData`, which stretches an index's two sample documents
    into `rowCount` documents. It appends `_<row>` to identifiers, moves
    each number `x` into `[x - 50, x + 50)` (at most 50 down, less than 50
    up), and stamps time fields with "now minus `i`
    minutes".

Files and modules:

| file | module | contents |
|---|---|---|
| `wrappers.dfy` | `Wrappers` | `Option` |
| `text.dfy` | `Text` | `join`, `split`, `includes` and decimal rendering of a row number, with their lemmas |
| `values.dfy` | `Values` | the JavaScript values a record holds, `Object.keys`, `row[key]`, falsiness, and the three ways a value becomes text |
| `export_utils.dfy` | `ExportUtils` | the three encoders |
| `csv_reading.dfy` | `CsvReading` | a reference CSV reader and the CSV round trip |
| `markup_reading.dfy` | `MarkupReading` | reference readers for the HTML table and the XML spreadsheet, and their round trips |
| `mock_data.dfy` | `MockData` | the index table and the generator |

The two encoders built from `map`/`join` expressions, `ExportToCSV` and
`ExportToXLSX`, are functions. `exportToXLS` grows its text with `+=` in a
`forEach`, so it is a method with a loop. Its invariant ties the text built
so far to the function `XlsContent`.

`generateFullIndexData` is modelled as two methods:
- `GenerateFullIndexData` holds the `for` loop that pushes rows;
- `VaryRecord` rewrites a copied sample field by field, in place, in key
  order.

Each method is proved equal to a specification function, `FullIndexData`
and `VariedRecord` respectively. The properties are stated as lemmas about
those functions.

Each encoder is paired with a reader that decodes its output, plus a
lemma proving the reader gives back what the encoder was given:
- for the CSV encoder, the header keys and the text of each value;
- for the HTML table, the header keys and each cell's `${v || ''}`;
- for the XML spreadsheet, the header cells typed `String`, and each data
  cell with its type tag and text.

Each record's own value decides its XLSX cell's type tag
(`src/utils/exportUtils.ts:58-59`), not the first record's value. The
model does the same.

## Model

| member | source | states |
|---|---|---|
| ExportUtils.ExportToCSV | src/utils/exportUtils.ts:3-21 | there is no download exactly when the list is empty; otherwise the file is `<filename>.csv` of type `text/csv` |
| ExportUtils.CsvLines | src/utils/exportUtils.ts:7-19 | the CSV text has one header line and then exactly one line per record |
| ExportUtils.EscapeQuotesBounds | src/utils/exportUtils.ts:14 | `EscapeQuotes`, the `replace(/"/g, '""')`, never shortens a string and at most doubles it, and leaves a string with no `"` unchanged |
| ExportUtils.CsvCellVerbatim | src/utils/exportUtils.ts:10-16 | `CsvCell`, one CSV field: a string is written verbatim exactly when it has no comma and no quote; otherwise it is quoted and at least two characters longer |
| ExportUtils.CsvCellPlain | src/utils/exportUtils.ts:13-16 | a string with no comma and no double quote is written unchanged |
| ExportUtils.MissingKeyEmptyCell | src/utils/exportUtils.ts:6-16 | a column key that a record lacks reads `undefined`: an empty CSV field, an empty table cell, and a `String`-typed spreadsheet cell |
| ExportUtils.XlsBodyGrows | src/utils/exportUtils.ts:30-32 | each pass of the loop appends exactly that record's `<tr>` row to the rows built so far |
| ExportUtils.ExportToXLS | src/utils/exportUtils.ts:24-36 | nothing for an empty list; otherwise the loop builds exactly `<table><tr>` + one `<th>` per header + `</tr>`, then the records' `<tr>` rows in input order, then `</table>`, named `<filename>.xls` of type `application/vnd.ms-excel` |
| ExportUtils.XlsContent | src/utils/exportUtils.ts:28-34 | the HTML table text always starts with `<table><tr>` and ends with `</table>` |
| ExportUtils.XlsxType | src/utils/exportUtils.ts:59 | a cell's type tag is `Number` exactly when its value is a number, and `String` exactly when it is not |
| ExportUtils.XlsxContent | src/utils/exportUtils.ts:44-66 | the spreadsheet text always starts with the fixed XML prologue and ends with the closing `</Table>`, `</Worksheet>` and `</Workbook>` lines |
| ExportUtils.ExportToXLSX | src/utils/exportUtils.ts:39-68 | there is no download exactly when the list is empty; otherwise the file is `<filename>.xlsx` of the spreadsheetml MIME type |
| CsvReading.ReadQuotedEscape | src/utils/exportUtils.ts:14 | reading a field whose quotes were doubled, up to its closing quote, gives back the original text and stops right after that quote |
| CsvReading.CsvCellUnquote | src/utils/exportUtils.ts:13-16 | a string with a comma or a quote is written as `"` + the string with each `"` doubled + `"`; unquoting that gives back the string; any other string is written as is |
| CsvReading.CsvCellEncodes | src/utils/exportUtils.ts:13-16 | a value's CSV cell is its text, quoted exactly when the text has a comma or a quote, for strings and for unquotable other values |
| CsvReading.UnquoteQuote | src/utils/exportUtils.ts:14 | removing the surrounding quotes of a quoted field and undoubling its quotes gives back the string |
| CsvReading.ParseFieldsQuoted | src/utils/exportUtils.ts:14-17 | a quoted field is read back as its text, up to the comma that follows it |
| CsvReading.ParseFieldsPlain | src/utils/exportUtils.ts:16-17 | an unquoted field is read up to the next comma |
| CsvReading.ParseFieldsJoin | src/utils/exportUtils.ts:10-17 | splitting a comma-joined line of encoded fields gives back every field's text, in order |
| CsvReading.CsvHeaderLine | src/utils/exportUtils.ts:6-8 | splitting the first line of the CSV text at commas gives exactly the first record's keys, in their order, whatever the other records hold |
| CsvReading.CsvLinesOneLine | src/utils/exportUtils.ts:7-19 | when headers and values hold no newline, no line of the CSV holds one either |
| CsvReading.CellOneLine | src/utils/exportUtils.ts:10-16 | a field whose value has no newline holds no newline |
| CsvReading.RecordOneLine | src/utils/exportUtils.ts:9-17 | a record's comma-joined line holds no newline when none of its values does |
| CsvReading.CsvRecordLine | src/utils/exportUtils.ts:9-17 | one record's line reads back as the text of its value in every column |
| CsvReading.CsvRoundTrip | src/utils/exportUtils.ts:3-19 | reading the CSV text gives `|data| + 1` lines: the first record's keys, then for each record, in input order, exactly one field per column holding the text of that record's value (empty for a missing key) |
| CsvReading.CsvExample | src/utils/exportUtils.ts:3-21 | `[{a: "x,y", b: 1}]` exported as `t` is `a,b` then `"x,y",1` in `t.csv`, of type `text/csv` |
| MarkupReading.ReadElementOf | src/utils/exportUtils.ts:28-31 | a `<tag>text</tag>` element with no `<` in its text reads back as that text, and the reader stops right after it |
| MarkupReading.ReadElementsRoundTrip | src/utils/exportUtils.ts:28-31 | a run of such elements reads back as their texts, in order |
| MarkupReading.XlsBodyCons | src/utils/exportUtils.ts:30-32 | the rows the loop appends one at a time also read as the first row followed by the rest |
| MarkupReading.ReadXlsRowOf | src/utils/exportUtils.ts:31 | one `<tr>` of `<td>` cells reads back as its cell texts |
| MarkupReading.ReadXlsRowsRoundTrip | src/utils/exportUtils.ts:30-32 | the rows of the table read back as the records' cell texts, one row per record, in input order |
| MarkupReading.DecodeXlsAround | src/utils/exportUtils.ts:28-34 | the table's head and tail around any body of rows read back as the header texts and those rows |
| MarkupReading.XlsRoundTrip | src/utils/exportUtils.ts:24-36 | the HTML table reads back as the first record's keys as header cells, then one row per record with `${row[h] or ''}` in each column |
| MarkupReading.XlsFalsyCellsEmpty | src/utils/exportUtils.ts:31 | a falsy value (`undefined`, `""`, `0`), including a key the record lacks, reads back as an empty table cell |
| MarkupReading.ReadXlsxCellOf | src/utils/exportUtils.ts:53-60 | one `<Cell><Data ss:Type="t">text</Data></Cell>` reads back as its type tag and text |
| MarkupReading.ReadXlsxCellsRoundTrip | src/utils/exportUtils.ts:53-61 | a run of cells reads back as their tags and texts, in order |
| MarkupReading.ReadXlsxRowOf | src/utils/exportUtils.ts:56-62 | one `<Row>` reads back as its cells |
| MarkupReading.ReadXlsxRowsRoundTrip | src/utils/exportUtils.ts:55-63 | the data rows read back as one row of typed cells per record, in input order |
| MarkupReading.DecodeXlsxAround | src/utils/exportUtils.ts:44-66 | the workbook's fixed prologue, header row and epilogue, around any body of rows, read back as the header cells and those rows |
| MarkupReading.XlsxRoundTrip | src/utils/exportUtils.ts:39-68 | the spreadsheet reads back as a `String` cell per key of the first record, then per record the cells the encoder chose |
| MarkupReading.DataCellTag | src/utils/exportUtils.ts:57-60 | the data cell for column `j` of a record is typed `Number` exactly when `row[h]` is a number, `String` exactly when it is not, and is empty when `row[h]` is falsy |
| MarkupReading.XlsxTypeTags | src/utils/exportUtils.ts:53-60 | every header cell is typed `String`; a data cell is typed `Number` exactly when that record's own value is a number and `String` exactly when it is not; a falsy value leaves the cell empty |
| Values.LookupAbsent | src/utils/exportUtils.ts:11 | `row[key]` for a key the record lacks is `undefined` |
| Values.LookupStored | src/utils/exportUtils.ts:11 | `Lookup`, the model of `row[key]`: for a key the record has, it is the value stored with the first occurrence of that key |
| Values.CellTextOf | src/utils/exportUtils.ts:31 | `CellText`, the model of `${v || ''}`: empty for a falsy value, the string itself for a string, JavaScript's rendering for a non-zero number, `[object Object]` for an object |
| Values.LookupAt | src/utils/exportUtils.ts:11 | in a record with distinct keys, `row[key]` is the value stored with that key |
| Text.SplitJoin | src/utils/exportUtils.ts:19 | splitting a `\n`-joined list of newline-free lines gives the lines back |
| Text.NatToStringInjective | src/data/mockElasticsearchData.ts:110 | different row numbers are written differently |
| Text.ContainsIffOccurs | src/data/mockElasticsearchData.ts:109 | `key.includes(sub)` holds exactly when `sub` occurs at some position of `key` |
| MockData.CatalogueWellFormed | src/data/mockElasticsearchData.ts:7-94 | the four index names are distinct; every index has samples; every sample's keys are the index's `fields`, in order, without repeats |
| MockData.FindIndex | src/data/mockElasticsearchData.ts:98 | a found index is one of the table's indices and has the name asked for |
| MockData.FindIndexFirst | src/data/mockElasticsearchData.ts:98 | `find` fails exactly when no index has the name, and otherwise returns the first one that has it |
| MockData.FindEachIndex | src/data/mockElasticsearchData.ts:98 | each catalogue index is found by its own name |
| MockData.GenerateFullIndexData | src/data/mockElasticsearchData.ts:97-123 | the method returns exactly `FullIndexData`: `[]` for an unknown name, otherwise one varied copy of sample `i mod n` for each `i` in `[0, rowCount)` |
| MockData.SampleForCopies | src/data/mockElasticsearchData.ts:104-105 | `SampleFor`: row `i` copies one of the index's samples, or is the empty object when the index has none |
| MockData.VariedRule | src/data/mockElasticsearchData.ts:108-117 | `Varied`, the rule for one field: a field whose name contains `id` becomes a string; any other field keeps its kind; a number `x` moves into `[x - 50, x + 50)`; a non-numeric field whose name has no `timestamp` and no `date` is kept |
| MockData.VariedRecord | src/data/mockElasticsearchData.ts:104-118 | a rewritten copy has as many fields as its sample |
| MockData.Rows | src/data/mockElasticsearchData.ts:101-121 | the loop makes exactly `count` rows |
| MockData.VaryRecord | src/data/mockElasticsearchData.ts:104-118 | rewriting the copy in place, key by key, yields the sample with every field varied by the rule |
| MockData.VariedRecordStep | src/data/mockElasticsearchData.ts:108-118 | one rewrite step extends the rewritten prefix by one field and leaves the rest as in the sample |
| MockData.RowsGrow | src/data/mockElasticsearchData.ts:120 | each push appends row `i` after the rows already built |
| MockData.FullIndexDataLength | src/data/mockElasticsearchData.ts:98-103 | the result is empty exactly when no index has the name or `rowCount <= 0`; otherwise it has exactly `rowCount` rows |
| MockData.CatalogueRows | src/data/mockElasticsearchData.ts:98-104 | the data for a catalogue index is its first `max(rowCount, 0)` generated rows |
| MockData.FieldOfRow | src/data/mockElasticsearchData.ts:104-118 | row `i` has the index's fields, in order, each holding its sample value rewritten by the rule |
| MockData.RowKeys | src/data/mockElasticsearchData.ts:104-108 | no field is added or removed: every row's keys are the index's fields, in order |
| MockData.GeneratedHeaders | src/data/mockElasticsearchData.ts:97-123 | any non-empty generated dataset exported by any format has the index's fields as its columns |
| MockData.GeneratedId | src/data/mockElasticsearchData.ts:109-110 | a field whose name contains `id` becomes `<base>_<i+1>`, whatever its value's type |
| MockData.GeneratedIdsDistinct | src/data/mockElasticsearchData.ts:109-110 | two different rows never share a value in an `id` field |
| MockData.IdTag | src/data/mockElasticsearchData.ts:109-110 | row `i`'s identifier ends in `_` followed by `i + 1` written in decimal |
| MockData.TagsDistinct | src/data/mockElasticsearchData.ts:110 | two tags with different row numbers differ, whatever text precedes them |
| MockData.GeneratedNumber | src/data/mockElasticsearchData.ts:111-112 | a numeric field whose name has no `id` stays within `[base - 50, base + 50)` |
| MockData.GeneratedDate | src/data/mockElasticsearchData.ts:113-116 | a non-`id`, non-numeric field named for a timestamp or date becomes the ISO text of the clock reading minus `i` minutes |
| MockData.GeneratedUnchanged | src/data/mockElasticsearchData.ts:105-118 | every other field keeps its sample value |
| MockData.SampleForPeriodic | src/data/mockElasticsearchData.ts:104 | rows `n` apart copy the same sample |
| MockData.GeneratedPeriodic | src/data/mockElasticsearchData.ts:104-118 | rows `n` apart agree on every unchanged field |
| MockData.ProductIdExample | src/data/mockElasticsearchData.ts:28-49 | the third `product_catalog` row has `product_id` `prod_001_3` |
| MockData.CreatedAtExample | src/data/mockElasticsearchData.ts:28-49 | every generated `product_catalog` row keeps its sample's `created_at`: `2024-01-10T08:00:00Z` in even rows and `2024-01-12T14:30:00Z` in odd rows, because the name contains neither `timestamp` nor `date` |

## Left out

- `downloadFile` (`src/utils/exportUtils.ts:71-84`) is not modelled. It uses a Blob, an object URL and a DOM anchor, which are browser I/O. Each exporter instead returns the `Download` it would hand over: content, file name and MIME type.
- JavaScript's number-to-string conversion is a parameter `show`. Floating-point numbers are modelled as `real`, so the jitter bound ignores rounding.
- `Math.random()` is a parameter `rand`: a number in `[0, 1)` for each row and field position.
- `new Date()` is a parameter `clock`: a time in milliseconds for each row and field position.
- `toISOString()` is a parameter `iso`. The `RangeError` it throws for a time out of range is not modelled.
- GeneratedDate: `setMinutes(getMinutes() - i)` works in local time. The model subtracts exactly `i` minutes, so a daylight-saving change inside that span is not modelled.
- `rowCount` is an integer. A fractional, infinite or `NaN` count is not modelled.
- LookupAbsent, MissingKeyEmptyCell: a record is modelled by its own keys only. A key that the record lacks but `Object.prototype` has (`toString`, `constructor`, `valueOf`, `hasOwnProperty`) reads an inherited function in JavaScript, not `undefined`; such keys are not modelled, so these members hold for every other missing key.
- The value kinds are strings, numbers, `undefined` and objects. `null`, booleans and arrays are not modelled.
- `Object.keys` is taken to be the insertion order of a record. JavaScript moves integer-like keys to the front; that reordering is not modelled.
- VaryRecord reads `newRecord[key]` at the key's position. This is the same value for records with distinct keys, which every catalogue sample has.
- CsvRoundTrip covers text with no newline in any value or header. Non-string values also need no comma or quote, and headers need neither. The encoder quotes neither newlines nor non-strings, so other inputs do not read back.
- XlsRoundTrip and XlsxRoundTrip cover cell texts and header names with no `<`, since neither encoder escapes markup.
- The CSV round trip does not cover a first record with no keys. That record's header line is empty, and the reader reads it as one empty field.
- The fixed text around the XLSX rows is copied verbatim as constants. Only the cells and rows between them are read back.
