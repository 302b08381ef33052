/** A reference reader for the comma-separated text `exportToCSV` writes: it
    splits the text into lines at newlines and each line into fields at
    commas, reading a field that opens with a double quote up to its closing
    quote and turning each doubled quote back into one. The lemmas show that
    this reader gives back the columns and the cell texts the encoder was
    given, and say exactly when. */
module CsvReading {
  import opened Text
  import opened Values
  import opened ExportUtils
  import opened Wrappers

  /** Reads a quoted field whose opening quote has been consumed: the field's
      text, and what follows its closing quote. A text with no closing quote
      runs to the end. */
  function ReadQuoted(s: string): (r: (string, string))
    ensures |r.1| <= |s|
    decreases |s|
  {
    if |s| == 0 then ("", "")
    else if s[0] == '"' then
      if |s| >= 2 && s[1] == '"' then
        var (t, rest) := ReadQuoted(s[2..]);
        ("\"" + t, rest)
      else ("", s[1..])
    else
      var (t, rest) := ReadQuoted(s[1..]);
      ([s[0]] + t, rest)
  }

  /** Reading a quoted cell gives back the text that was quoted, and stops
      right after the closing quote. */
  lemma {:induction false} ReadQuotedEscape(t: string, rest: string)
    requires |rest| == 0 || rest[0] != '"'
    ensures ReadQuoted(EscapeQuotes(t) + "\"" + rest) == (t, rest)
    decreases |t|
  {
    var s := EscapeQuotes(t) + "\"" + rest;
    if |t| == 0 {
      assert s == "\"" + rest;
      assert s[1..] == rest;
    } else if t[0] == '"' {
      assert s == "\"\"" + (EscapeQuotes(t[1..]) + "\"" + rest);
      assert s[2..] == EscapeQuotes(t[1..]) + "\"" + rest;
      ReadQuotedEscape(t[1..], rest);
      assert "\"" + t[1..] == t;
    } else {
      assert s == [t[0]] + (EscapeQuotes(t[1..]) + "\"" + rest);
      assert s[1..] == EscapeQuotes(t[1..]) + "\"" + rest;
      ReadQuotedEscape(t[1..], rest);
      HeadTail(t);
    }
  }

  /** One cell back to its text: a quoted cell loses its quotes and its
      doubled quotes; any other cell is its own text. */
  function Unquote(cell: string): string
  {
    if |cell| > 0 && cell[0] == '"' then ReadQuoted(cell[1..]).0 else cell
  }

  /** The quoting rule and its inverse: a string with a comma or a double
      quote is written between quotes with every quote doubled, and
      unquoting that cell gives the string back; any other string is written
      as it is. */
  lemma CsvCellUnquote(s: string, show: NumFormat)
    ensures NeedsQuotes(s) ==> CsvCell(Str(s), show) == "\"" + EscapeQuotes(s) + "\""
    ensures !NeedsQuotes(s) ==> CsvCell(Str(s), show) == s
    ensures Unquote(CsvCell(Str(s), show)) == s
  {
    if NeedsQuotes(s) {
      UnquoteQuote(s);
    } else {
      assert |s| > 0 ==> s[0] != '"';
    }
  }

  /** Unquoting a quoted string gives the string back. */
  lemma UnquoteQuote(s: string)
    ensures Unquote(Quote(s)) == s
  {
    var cell := Quote(s);
    assert cell[1..] == EscapeQuotes(s) + "\"" + "";
    ReadQuotedEscape(s, "");
  }

  /** Splits one line into its fields. */
  function ParseFields(line: string): (fields: seq<string>)
    ensures |fields| > 0
    decreases |line|
  {
    if |line| > 0 && line[0] == '"' then
      var (t, rest) := ReadQuoted(line[1..]);
      if |rest| == 0 then [t] else [t] + ParseFields(rest[1..])
    else
      var k := IndexOf(line, ',');
      if k == |line| then [line] else [line[..k]] + ParseFields(line[k + 1..])
  }

  /** A text as a CSV field: quoted exactly when it needs to be. */
  function EncodeField(t: string): string
  {
    if NeedsQuotes(t) then Quote(t) else t
  }

  /** The cell of a value is the field encoding of its text, for a string
      and for any other value whose text needs no quotes. */
  lemma CsvCellEncodes(v: Value, show: NumFormat)
    requires v.Str? || !NeedsQuotes(JoinText(v, show))
    ensures CsvCell(v, show) == EncodeField(JoinText(v, show))
  {
  }

  /** What the line reader makes of one field followed by nothing, or by a
      comma and more fields. */
  function FieldsAfter(t: string, tail: string): seq<string>
    requires |tail| == 0 || tail[0] == ','
  {
    if |tail| == 0 then [t] else [t] + ParseFields(tail[1..])
  }

  /** A quoted field is read back to its text, up to the comma after it. */
  lemma ParseFieldsQuoted(t: string, tail: string)
    requires NeedsQuotes(t)
    requires |tail| == 0 || tail[0] == ','
    ensures ParseFields(Quote(t) + tail) == FieldsAfter(t, tail)
  {
    var s := Quote(t) + tail;
    assert s == "\"" + (EscapeQuotes(t) + "\"" + tail) by {
      AppendAssoc("\"" + EscapeQuotes(t), "\"", tail);
      AppendAssoc("\"", EscapeQuotes(t), "\"" + tail);
      AppendAssoc(EscapeQuotes(t), "\"", tail);
    }
    DropPrefix("\"", EscapeQuotes(t) + "\"" + tail);
    ReadQuotedEscape(t, tail);
  }

  /** A field that needs no quotes runs up to the first comma. */
  lemma ParseFieldsPlain(t: string, tail: string)
    requires !NeedsQuotes(t)
    requires |tail| == 0 || tail[0] == ','
    ensures ParseFields(t + tail) == FieldsAfter(t, tail)
  {
    var s := t + tail;
    assert |s| > 0 ==> s[0] != '"' by {
      if |t| > 0 { assert s[0] == t[0]; } else if |tail| > 0 { assert s[0] == tail[0]; }
    }
    if |tail| == 0 {
      assert s == t;
      IndexOfAbsent(t, ',');
    } else {
      assert tail == [','] + tail[1..];
      AppendAssoc(t, [','], tail[1..]);
      IndexOfAfter(t, ',', tail[1..]);
      DropPrefix(t, tail);
      DropPrefix(t + [','], tail[1..]);
    }
  }

  /** Splitting a line of encoded fields gives back their texts. */
  lemma {:induction false} ParseFieldsJoin(cells: seq<string>, texts: seq<string>)
    requires |cells| == |texts| > 0
    requires forall j :: 0 <= j < |cells| ==> cells[j] == EncodeField(texts[j])
    ensures ParseFields(Join(cells, ",")) == texts
    decreases |texts|
  {
    var t := texts[0];
    var tail := if |cells| == 1 then "" else "," + Join(cells[1..], ",");
    assert Join(cells, ",") == cells[0] + tail by {
      if |cells| > 1 { AppendAssoc(cells[0], ",", Join(cells[1..], ",")); }
    }
    if NeedsQuotes(t) {
      ParseFieldsQuoted(t, tail);
    } else {
      ParseFieldsPlain(t, tail);
    }
    if |cells| > 1 {
      assert tail[1..] == Join(cells[1..], ",");
      ParseFieldsJoin(cells[1..], texts[1..]);
      HeadTail(texts);
    }
  }

  /** The whole text back as lines of fields. */
  function DecodeCsv(content: string): (rows: seq<seq<string>>)
  {
    var lines := Split(content, '\n');
    seq(|lines|, i requires 0 <= i < |lines| => ParseFields(lines[i]))
  }

  lemma {:induction false} EscapeQuotesAvoids(s: string, c: char)
    requires c != '"' && c !in s
    ensures c !in EscapeQuotes(s)
    decreases |s|
  {
    if |s| > 0 {
      assert s[0] != c;
      EscapeQuotesAvoids(s[1..], c);
    }
  }

  lemma {:induction false} JoinAvoids(xs: seq<string>, sep: string, c: char)
    requires c !in sep
    requires forall i :: 0 <= i < |xs| ==> c !in xs[i]
    ensures c !in Join(xs, sep)
    decreases |xs|
  {
    if |xs| > 1 {
      JoinAvoids(xs[1..], sep, c);
    }
  }

  /** A value the reader can give back: its text has no newline, and when it
      is not a string (so never quoted) no comma or double quote either. */
  predicate Readable(v: Value, show: NumFormat)
  {
    '\n' !in JoinText(v, show) && (v.Str? || !NeedsQuotes(JoinText(v, show)))
  }

  /** A column name the reader can give back: the header line is written
      without any quoting. */
  predicate PlainHeader(h: string)
  {
    !NeedsQuotes(h) && '\n' !in h
  }

  /** The header line alone: splitting the text at its first newline and the
      first line at commas yields the first record's keys, in their order,
      whatever the records hold. */
  lemma CsvHeaderLine(data: seq<Record>, filename: string, show: NumFormat)
    requires |data| > 0 && |Headers(data)| > 0
    requires forall j :: 0 <= j < |Headers(data)| ==> ',' !in Headers(data)[j] && '\n' !in Headers(data)[j]
    ensures ExportToCSV(data, filename, show).Some?
    ensures Split(Split(ExportToCSV(data, filename, show).value.content, '\n')[0], ',') == Headers(data)
  {
    var hs := Headers(data);
    var lines := CsvLines(data, show);
    var first := Join(hs, ",");
    var rest := Join(lines[1..], "\n");
    assert Join(lines, "\n") == first + ['\n'] + rest;
    JoinAvoids(hs, ",", '\n');
    IndexOfAfter(first, '\n', rest);
    assert (first + ['\n'] + rest)[..|first|] == first;
    SplitJoin(hs, ',');
  }

  /** The round trip: reading the exported text gives the first record's
      keys as the header line, then one line per record in input order, each
      holding, for every column, the text of that record's value (empty for
      a key it lacks). */
  lemma CsvRoundTrip(data: seq<Record>, filename: string, show: NumFormat)
    requires |data| > 0 && |Headers(data)| > 0
    requires forall j :: 0 <= j < |Headers(data)| ==> PlainHeader(Headers(data)[j])
    requires forall i, j :: 0 <= i < |data| && 0 <= j < |Headers(data)| ==> Readable(Lookup(data[i], Headers(data)[j]), show)
    ensures ExportToCSV(data, filename, show).Some?
    ensures var rows := DecodeCsv(ExportToCSV(data, filename, show).value.content);
      |rows| == |data| + 1 && rows[0] == Headers(data)
      && forall i :: 0 <= i < |data| ==>
           |rows[i + 1]| == |Headers(data)|
           && forall j :: 0 <= j < |Headers(data)| ==> rows[i + 1][j] == JoinText(Lookup(data[i], Headers(data)[j]), show)
  {
    var hs := Headers(data);
    var lines := CsvLines(data, show);
    CsvLinesOneLine(data, show);
    DecodeJoinedLines(lines);
    var rows := DecodeCsv(Join(lines, "\n"));
    assert rows[0] == ParseFields(Join(hs, ","));
    ParseFieldsJoin(hs, hs);
    forall i | 0 <= i < |data|
      ensures rows[i + 1] == FieldTexts(data[i], hs, show)
    {
      assert lines[i + 1] == Join(CsvCells(data[i], hs, show), ",");
      CsvRecordLine(data[i], hs, show);
    }
  }

  /** Lines free of newlines, joined and read back, are read one by one. */
  lemma DecodeJoinedLines(lines: seq<string>)
    requires |lines| > 0
    requires forall k :: 0 <= k < |lines| ==> '\n' !in lines[k]
    ensures |DecodeCsv(Join(lines, "\n"))| == |lines|
    ensures forall k :: 0 <= k < |lines| ==> DecodeCsv(Join(lines, "\n"))[k] == ParseFields(lines[k])
  {
    SplitJoin(lines, '\n');
  }

  /** The texts of one record's values, column by column, as the reader
      should find them. */
  function FieldTexts(row: Record, hs: seq<string>, show: NumFormat): (ts: seq<string>)
    ensures |ts| == |hs|
  {
    seq(|hs|, j requires 0 <= j < |hs| => JoinText(Lookup(row, hs[j]), show))
  }

  /** No line the encoder writes holds a newline of its own. */
  lemma CsvLinesOneLine(data: seq<Record>, show: NumFormat)
    requires |data| > 0
    requires forall j :: 0 <= j < |Headers(data)| ==> PlainHeader(Headers(data)[j])
    requires forall i, j :: 0 <= i < |data| && 0 <= j < |Headers(data)| ==> Readable(Lookup(data[i], Headers(data)[j]), show)
    ensures forall k :: 0 <= k < |CsvLines(data, show)| ==> '\n' !in CsvLines(data, show)[k]
  {
    var hs := Headers(data);
    var lines := CsvLines(data, show);
    forall k | 0 <= k < |lines|
      ensures '\n' !in lines[k]
    {
      if k == 0 {
        JoinAvoids(hs, ",", '\n');
      } else {
        RecordOneLine(data[k - 1], hs, show);
      }
    }
  }

  /** A record line of readable values holds no newline. */
  lemma RecordOneLine(row: Record, hs: seq<string>, show: NumFormat)
    requires forall j :: 0 <= j < |hs| ==> Readable(Lookup(row, hs[j]), show)
    ensures '\n' !in Join(CsvCells(row, hs, show), ",")
  {
    var cells := CsvCells(row, hs, show);
    forall j | 0 <= j < |cells|
      ensures '\n' !in cells[j]
    {
      CellOneLine(Lookup(row, hs[j]), show);
    }
    JoinAvoids(cells, ",", '\n');
  }

  /** The cell of a readable value holds no newline. */
  lemma CellOneLine(v: Value, show: NumFormat)
    requires Readable(v, show)
    ensures '\n' !in CsvCell(v, show)
  {
    if v.Str? && NeedsQuotes(v.s) {
      EscapeQuotesAvoids(v.s, '\n');
    }
  }

  /** One record's line reads back as the texts of its values, column by
      column. */
  lemma CsvRecordLine(row: Record, hs: seq<string>, show: NumFormat)
    requires |hs| > 0
    requires forall j :: 0 <= j < |hs| ==> Readable(Lookup(row, hs[j]), show)
    ensures ParseFields(Join(CsvCells(row, hs, show), ",")) == FieldTexts(row, hs, show)
  {
    var cells := CsvCells(row, hs, show);
    var texts := FieldTexts(row, hs, show);
    forall j | 0 <= j < |hs|
      ensures cells[j] == EncodeField(texts[j])
    {
      CsvCellEncodes(Lookup(row, hs[j]), show);
    }
    ParseFieldsJoin(cells, texts);
  }

  /** The example of a quoted cell next to a number: `[{a: "x,y", b: 1}]`
      is written `a,b`, then `"x,y",1`. */
  lemma CsvExample(show: NumFormat)
    requires show(1.0) == "1"
    ensures var data := [[("a", Str("x,y")), ("b", Num(1.0))]];
      ExportToCSV(data, "t", show) == Some(Download("a,b\n\"x,y\",1", "t.csv", "text/csv"))
  {
    ExampleLines(show);
    ExampleJoin();
    assert "t" + ".csv" == "t.csv";
  }

  lemma ExampleJoin()
    ensures Join(["a,b", "\"x,y\",1"], "\n") == "a,b\n\"x,y\",1"
  {
    assert ["a,b", "\"x,y\",1"][1..] == ["\"x,y\",1"];
    assert "a,b" + "\n" + "\"x,y\",1" == "a,b\n\"x,y\",1";
  }

  lemma ExampleLines(show: NumFormat)
    requires show(1.0) == "1"
    ensures CsvLines([[("a", Str("x,y")), ("b", Num(1.0))]], show) == ["a,b", "\"x,y\",1"]
  {
    var row := [("a", Str("x,y")), ("b", Num(1.0))];
    assert Headers([row]) == ["a", "b"];
    ExampleRecordLine(show);
    var lines := CsvLines([row], show);
    assert ["a", "b"][1..] == ["b"];
    assert lines[0] == "a" + "," + "b";
    assert "a" + "," + "b" == "a,b";
    assert |lines| == 2;
  }

  lemma ExampleRecordLine(show: NumFormat)
    requires show(1.0) == "1"
    ensures Join(CsvCells([("a", Str("x,y")), ("b", Num(1.0))], ["a", "b"], show), ",") == "\"x,y\",1"
  {
    var row := [("a", Str("x,y")), ("b", Num(1.0))];
    ExampleLookups();
    ExampleQuotedCell(show);
    var cells := CsvCells(row, ["a", "b"], show);
    assert cells == ["\"x,y\"", "1"];
    ExampleCellsJoin();
  }

  lemma ExampleLookups()
    ensures Lookup([("a", Str("x,y")), ("b", Num(1.0))], "a") == Str("x,y")
    ensures Lookup([("a", Str("x,y")), ("b", Num(1.0))], "b") == Num(1.0)
  {
    var row := [("a", Str("x,y")), ("b", Num(1.0))];
    assert DistinctKeys(row);
    LookupAt(row, 0);
    LookupAt(row, 1);
  }

  lemma ExampleQuotedCell(show: NumFormat)
    ensures CsvCell(Str("x,y"), show) == "\"x,y\""
  {
    assert ',' in "x,y" by { assert "x,y"[1] == ','; }
    assert EscapeQuotes("x,y") == "x,y";
    assert "\"" + "x,y" + "\"" == "\"x,y\"";
  }

  lemma ExampleCellsJoin()
    ensures Join(["\"x,y\"", "1"], ",") == "\"x,y\",1"
  {
    assert ["\"x,y\"", "1"][1..] == ["1"];
    assert "\"x,y\"" + "," + "1" == "\"x,y\",1";
  }
}

