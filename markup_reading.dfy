/** Reference readers for the two markup formats: the HTML table of
    `exportToXLS` and the XML spreadsheet of `exportToXLSX`. A cell's text is
    read up to the next `<`, since neither encoder escapes anything; the
    round-trip lemmas hold exactly for texts free of `<` (and, for a type
    tag, of `"`). */
module MarkupReading {
  import opened Text
  import opened Values
  import opened Wrappers
  import opened ExportUtils

  /** The cell texts of these records contain no `<`. */
  predicate PlainCells(data: seq<Record>, headers: seq<string>, show: NumFormat)
  {
    forall i, j :: 0 <= i < |data| && 0 <= j < |headers| ==> '<' !in CellText(Lookup(data[i], headers[j]), show)
  }

  /** These column names contain no `<`. */
  predicate PlainNames(headers: seq<string>)
  {
    forall j :: 0 <= j < |headers| ==> '<' !in headers[j]
  }

  lemma PlainCellsTail(data: seq<Record>, headers: seq<string>, show: NumFormat)
    requires |data| > 0 && PlainCells(data, headers, show)
    ensures PlainCells(data[1..], headers, show)
    ensures PlainNames(CellTexts(data[0], headers, show))
  {
    forall i, j | 0 <= i < |data| - 1 && 0 <= j < |headers|
      ensures '<' !in CellText(Lookup(data[1..][i], headers[j]), show)
    {
      assert data[1..][i] == data[i + 1];
    }
  }

  // ---------------------------------------------------------------------
  // The HTML table

  /** Reads one `<tag>text</tag>` element at the start of `s`: its text and
      what follows it. */
  function ReadElement(tag: string, s: string): (r: Option<(string, string)>)
    ensures r.Some? ==> |r.value.1| < |s|
  {
    var open := "<" + tag + ">";
    var close := "</" + tag + ">";
    if open <= s then
      var body := s[|open|..];
      var k := IndexOf(body, '<');
      if close <= body[k..] then Some((body[..k], body[k + |close|..])) else None
    else None
  }

  /** Reads `<tag>text</tag>` elements one after the other; returns their
      texts and what follows the last one. */
  function ReadElements(tag: string, s: string): (r: (seq<string>, string))
    ensures |r.1| <= |s|
    decreases |s|
  {
    match ReadElement(tag, s)
    case None => ([], s)
    case Some((text, rest)) =>
      var (texts, rest') := ReadElements(tag, rest);
      ([text] + texts, rest')
  }

  /** The reader takes one element's text and stops right after it. */
  lemma ReadElementOf(tag: string, t: string, after: string)
    requires '<' !in t
    ensures ReadElement(tag, Element(tag, t) + after) == Some((t, after))
  {
    var open := "<" + tag + ">";
    var close := "</" + tag + ">";
    var body := t + (close + after);
    assert Element(tag, t) + after == open + body by {
      AppendAssoc(open + t, close, after);
      AppendAssoc(open, t, close + after);
    }
    DropPrefix(open, body);
    assert body == t + ['<'] + (close[1..] + after) by {
      assert close + after == ['<'] + (close[1..] + after);
      AppendAssoc(t, ['<'], close[1..] + after);
    }
    IndexOfAfter(t, '<', close[1..] + after);
    DropPrefix(t, close + after);
    DropPrefix(close, after);
  }

  /** Reading a run of elements gives back their texts, and stops where the
      run ends. */
  lemma {:induction false} ReadElementsRoundTrip(tag: string, texts: seq<string>, tail: string)
    requires PlainNames(texts)
    requires !("<" + tag + ">" <= tail)
    ensures ReadElements(tag, Elements(tag, texts) + tail) == (texts, tail)
    decreases |texts|
  {
    if |texts| == 0 {
      assert Elements(tag, texts) + tail == tail;
    } else {
      var after := Elements(tag, texts[1..]) + tail;
      var x := Elements(tag, texts) + tail;
      assert ReadElement(tag, x) == Some((texts[0], after)) by {
        AppendAssoc(Element(tag, texts[0]), Elements(tag, texts[1..]), tail);
        ReadElementOf(tag, texts[0], after);
      }
      assert ReadElements(tag, after) == (texts[1..], tail) by {
        ReadElementsRoundTrip(tag, texts[1..], tail);
      }
      HeadTail(texts);
    }
  }

  /** Reads one `<tr>` row of `<td>` cells. */
  function ReadXlsRow(s: string): (r: Option<(seq<string>, string)>)
    ensures r.Some? ==> |r.value.1| < |s|
  {
    if "<tr>" <= s then
      var (cells, rest) := ReadElements("td", s[4..]);
      if "</tr>" <= rest then Some((cells, rest[5..])) else None
    else None
  }

  /** Reads `<tr>` rows one after the other. */
  function ReadXlsRows(s: string): (r: (seq<seq<string>>, string))
    decreases |s|
  {
    match ReadXlsRow(s)
    case None => ([], s)
    case Some((cells, rest)) =>
      var (rows, rest') := ReadXlsRows(rest);
      ([cells] + rows, rest')
  }

  /** The table back as its header texts and its rows of cell texts. */
  function DecodeXls(s: string): Option<(seq<string>, seq<seq<string>>)>
  {
    if "<table><tr>" <= s then
      var (headers, rest) := ReadElements("th", s[11..]);
      if "</tr>" <= rest then
        var (rows, rest') := ReadXlsRows(rest[5..]);
        if rest' == "</table>" then Some((headers, rows)) else None
      else None
    else None
  }

  /** The rows a reader should find: the cell texts of each record. */
  function TextRows(data: seq<Record>, headers: seq<string>, show: NumFormat): (rows: seq<seq<string>>)
    ensures |rows| == |data|
  {
    seq(|data|, i requires 0 <= i < |data| => CellTexts(data[i], headers, show))
  }

  lemma TextRowsCons(data: seq<Record>, headers: seq<string>, show: NumFormat)
    requires |data| > 0
    ensures TextRows(data, headers, show) == [CellTexts(data[0], headers, show)] + TextRows(data[1..], headers, show)
  {
  }

  /** The body the loop builds row by row also reads as first row, then the
      rest. */
  lemma {:induction false} XlsBodyCons(data: seq<Record>, headers: seq<string>, show: NumFormat)
    requires |data| > 0
    ensures XlsBody(data, headers, show) == XlsRow(data[0], headers, show) + XlsBody(data[1..], headers, show)
    decreases |data|
  {
    var n := |data|;
    if n > 1 {
      XlsBodyCons(data[..n - 1], headers, show);
      assert data[..n - 1][1..] == data[1..][..n - 2];
      assert data[..n - 1][0] == data[0];
      assert data[1..][n - 2] == data[n - 1];
      AppendAssoc(XlsRow(data[0], headers, show), XlsBody(data[1..][..n - 2], headers, show), XlsRow(data[n - 1], headers, show));
    } else {
      assert data[..0] == [];
      assert data[1..] == [];
    }
  }

  /** The reader takes one row's cell texts and stops right after it. */
  lemma ReadXlsRowOf(texts: seq<string>, after: string)
    requires PlainNames(texts)
    ensures ReadXlsRow(Element("tr", Elements("td", texts)) + after) == Some((texts, after))
  {
    var cells := Elements("td", texts);
    var close := "</tr>" + after;
    var s := Element("tr", cells) + after;
    assert "<tr>" <= s && s[4..] == cells + close by {
      assert Element("tr", cells) == "<tr>" + cells + "</tr>";
      AppendAssoc("<tr>" + cells, "</tr>", after);
      AppendAssoc("<tr>", cells, close);
      DropPrefix("<tr>", cells + close);
    }
    assert ReadElements("td", cells + close) == (texts, close) by {
      assert !("<" + "td" + ">" <= close) by { assert close[1] == '/'; }
      ReadElementsRoundTrip("td", texts, close);
    }
    ReadXlsRowStep(s, texts, after);
  }

  /** The row reader on any text that opens a row, holds cells and closes
      the row. */
  lemma ReadXlsRowStep(s: string, texts: seq<string>, after: string)
    requires "<tr>" <= s
    requires ReadElements("td", s[4..]) == (texts, "</tr>" + after)
    ensures ReadXlsRow(s) == Some((texts, after))
  {
    DropPrefix("</tr>", after);
  }

  lemma {:induction false} ReadXlsRowsRoundTrip(data: seq<Record>, headers: seq<string>, show: NumFormat, tail: string)
    requires PlainCells(data, headers, show)
    requires !("<tr>" <= tail)
    ensures ReadXlsRows(XlsBody(data, headers, show) + tail) == (TextRows(data, headers, show), tail)
    decreases |data|
  {
    if |data| == 0 {
      assert XlsBody(data, headers, show) + tail == tail;
    } else {
      var texts := CellTexts(data[0], headers, show);
      var after := XlsBody(data[1..], headers, show) + tail;
      var x := XlsBody(data, headers, show) + tail;
      assert ReadXlsRow(x) == Some((texts, after)) by {
        assert x == Element("tr", Elements("td", texts)) + after by {
          XlsBodyCons(data, headers, show);
          AppendAssoc(XlsRow(data[0], headers, show), XlsBody(data[1..], headers, show), tail);
        }
        PlainCellsTail(data, headers, show);
        ReadXlsRowOf(texts, after);
      }
      assert ReadXlsRows(after) == (TextRows(data[1..], headers, show), tail) by {
        PlainCellsTail(data, headers, show);
        ReadXlsRowsRoundTrip(data[1..], headers, show, tail);
      }
      TextRowsCons(data, headers, show);
    }
  }

  /** The table around any body the row reader consumes reads back as the
      header texts and those rows. */
  lemma DecodeXlsAround(headers: seq<string>, body: string, rows: seq<seq<string>>)
    requires PlainNames(headers)
    requires ReadXlsRows(body + "</table>") == (rows, "</table>")
    ensures DecodeXls(XlsHead(headers) + body + "</table>") == Some((headers, rows))
  {
    var cells := Elements("th", headers);
    var rest := body + "</table>";
    var after := "</tr>" + rest;
    var s := XlsHead(headers) + body + "</table>";
    assert s == "<table><tr>" + (cells + after) by {
      AppendAssoc("<table><tr>" + cells + "</tr>", body, "</table>");
      AppendAssoc("<table><tr>" + cells, "</tr>", rest);
      AppendAssoc("<table><tr>", cells, after);
    }
    DropPrefix("<table><tr>", cells + after);
    assert !("<" + "th" + ">" <= after) by { assert after[1] == '/'; }
    ReadElementsRoundTrip("th", headers, after);
    DropPrefix("</tr>", rest);
  }

  /** The round trip of the HTML table: reading it back gives the first
      record's keys as the header cells and, for each record in input order,
      one cell per column holding `${value || ''}`. */
  lemma XlsRoundTrip(data: seq<Record>, show: NumFormat)
    requires |data| > 0
    requires PlainNames(Headers(data)) && PlainCells(data, Headers(data), show)
    ensures DecodeXls(XlsContent(data, show)) == Some((Headers(data), TextRows(data, Headers(data), show)))
  {
    var hs := Headers(data);
    assert !("<tr>" <= "</table>") by { assert "</table>"[1] == '/'; }
    ReadXlsRowsRoundTrip(data, hs, show, "</table>");
    DecodeXlsAround(hs, XlsBody(data, hs, show), TextRows(data, hs, show));
  }

  /** A falsy value, and a key the record lacks, read back as an empty cell
      of the HTML table. */
  lemma XlsFalsyCellsEmpty(data: seq<Record>, show: NumFormat)
    requires |data| > 0
    requires PlainNames(Headers(data)) && PlainCells(data, Headers(data), show)
    ensures var d := DecodeXls(XlsContent(data, show));
      d.Some? && |d.value.1| == |data|
      && forall i, j :: 0 <= i < |data| && 0 <= j < |Headers(data)| && Falsy(Lookup(data[i], Headers(data)[j])) ==>
           |d.value.1[i]| == |Headers(data)| && d.value.1[i][j] == ""
  {
    XlsRoundTrip(data, show);
  }

  // ---------------------------------------------------------------------
  // The XML spreadsheet

  const CellOpen: string := "<Cell><Data ss:Type=\""
  const CellClose: string := "</Data></Cell>"

  /** Reads one `<Cell><Data ss:Type="type">text</Data></Cell>` at the start
      of `s`: its tag and text, and what follows it. */
  function ReadXlsxCell(s: string): (r: Option<(TypedCell, string)>)
    ensures r.Some? ==> |r.value.1| < |s|
  {
    if CellOpen <= s then
      var a := s[|CellOpen|..];
      var k := IndexOf(a, '"');
      var b := a[k..];
      if "\">" <= b then
        var c := b[2..];
        var m := IndexOf(c, '<');
        var d := c[m..];
        if CellClose <= d then Some(((a[..k], c[..m]), d[|CellClose|..])) else None
      else None
    else None
  }

  /** Reads cells one after the other. */
  function ReadXlsxCells(s: string): (r: (seq<TypedCell>, string))
    ensures |r.1| <= |s|
    decreases |s|
  {
    match ReadXlsxCell(s)
    case None => ([], s)
    case Some((cell, rest)) =>
      var (cells, rest') := ReadXlsxCells(rest);
      ([cell] + cells, rest')
  }

  /** A cell whose tag has no `"` and whose text has no `<`. */
  predicate PlainCell(c: TypedCell)
  {
    '"' !in c.0 && '<' !in c.1
  }

  /** The reader takes one cell's tag and text and stops right after it. */
  lemma ReadXlsxCellOf(c: TypedCell, after: string)
    requires PlainCell(c)
    ensures ReadXlsxCell(XlsxCell(c) + after) == Some((c, after))
  {
    var (ty, text) := c;
    var d := CellClose + after;
    var c' := text + d;
    var b := "\">" + c';
    var a := ty + b;
    var s := XlsxCell(c) + after;
    assert s == CellOpen + a by {
      assert XlsxCell(c) == CellOpen + ty + "\">" + text + CellClose;
      AppendAssoc(CellOpen + ty + "\">" + text, CellClose, after);
      AppendAssoc(CellOpen + ty + "\">", text, d);
      AppendAssoc(CellOpen + ty, "\">", c');
      AppendAssoc(CellOpen, ty, b);
    }
    DropPrefix(CellOpen, a);
    assert a == ty + ['"'] + (">" + c') by {
      assert b == ['"'] + (">" + c');
      AppendAssoc(ty, ['"'], ">" + c');
    }
    IndexOfAfter(ty, '"', ">" + c');
    DropPrefix(ty, b);
    DropPrefix("\">", c');
    assert c' == text + ['<'] + (CellClose[1..] + after) by {
      assert d == ['<'] + (CellClose[1..] + after);
      AppendAssoc(text, ['<'], CellClose[1..] + after);
    }
    IndexOfAfter(text, '<', CellClose[1..] + after);
    DropPrefix(text, d);
    DropPrefix(CellClose, after);
  }

  lemma {:induction false} ReadXlsxCellsRoundTrip(cells: seq<TypedCell>, tail: string)
    requires forall j :: 0 <= j < |cells| ==> PlainCell(cells[j])
    requires !(CellOpen <= tail)
    ensures ReadXlsxCells(XlsxCells(cells) + tail) == (cells, tail)
    decreases |cells|
  {
    if |cells| == 0 {
      assert XlsxCells(cells) + tail == tail;
    } else {
      var after := XlsxCells(cells[1..]) + tail;
      var x := XlsxCells(cells) + tail;
      assert ReadXlsxCell(x) == Some((cells[0], after)) by {
        AppendAssoc(XlsxCell(cells[0]), XlsxCells(cells[1..]), tail);
        ReadXlsxCellOf(cells[0], after);
      }
      assert ReadXlsxCells(after) == (cells[1..], tail) by {
        ReadXlsxCellsRoundTrip(cells[1..], tail);
      }
      HeadTail(cells);
    }
  }

  /** Reads one `<Row>` of cells. */
  function ReadXlsxRow(s: string): (r: Option<(seq<TypedCell>, string)>)
    ensures r.Some? ==> |r.value.1| < |s|
  {
    if "<Row>\n" <= s then
      var (cells, rest) := ReadXlsxCells(s[6..]);
      if "\n</Row>" <= rest then Some((cells, rest[7..])) else None
    else None
  }

  /** Reads rows one after the other. */
  function ReadXlsxRows(s: string): (r: (seq<seq<TypedCell>>, string))
    decreases |s|
  {
    match ReadXlsxRow(s)
    case None => ([], s)
    case Some((cells, rest)) =>
      var (rows, rest') := ReadXlsxRows(rest);
      ([cells] + rows, rest')
  }

  /** The workbook back as its header cells and its rows of typed cells. */
  function DecodeXlsx(s: string): Option<(seq<TypedCell>, seq<seq<TypedCell>>)>
  {
    if XlsxPrologue <= s then
      var (headers, rest) := ReadXlsxCells(s[|XlsxPrologue|..]);
      if XlsxHeaderEnd <= rest then
        var (rows, rest') := ReadXlsxRows(rest[|XlsxHeaderEnd|..]);
        if rest' == XlsxEpilogue then Some((headers, rows)) else None
      else None
    else None
  }

  /** The rows a reader should find: the typed cells of each record. */
  function TypedRows(data: seq<Record>, headers: seq<string>, show: NumFormat): (rows: seq<seq<TypedCell>>)
    ensures |rows| == |data|
  {
    seq(|data|, i requires 0 <= i < |data| => XlsxDataCells(data[i], headers, show))
  }

  lemma TypedRowsCons(data: seq<Record>, headers: seq<string>, show: NumFormat)
    requires |data| > 0
    ensures TypedRows(data, headers, show) == [XlsxDataCells(data[0], headers, show)] + TypedRows(data[1..], headers, show)
  {
  }

  lemma TypeTagPlain(v: Value)
    ensures '"' !in XlsxType(v)
  {
    if v.Num? {
      assert XlsxType(v) == ['N', 'u', 'm', 'b', 'e', 'r'];
    } else {
      assert XlsxType(v) == ['S', 't', 'r', 'i', 'n', 'g'];
    }
  }

  /** The reader takes one row's cells and stops right after it. */
  lemma ReadXlsxRowOf(cells: seq<TypedCell>, after: string)
    requires forall j :: 0 <= j < |cells| ==> PlainCell(cells[j])
    ensures ReadXlsxRow("<Row>\n" + XlsxCells(cells) + "\n</Row>" + after) == Some((cells, after))
  {
    var close := "\n</Row>" + after;
    var s := "<Row>\n" + XlsxCells(cells) + "\n</Row>" + after;
    assert s == "<Row>\n" + (XlsxCells(cells) + close) by {
      AppendAssoc("<Row>\n" + XlsxCells(cells), "\n</Row>", after);
      AppendAssoc("<Row>\n", XlsxCells(cells), close);
    }
    DropPrefix("<Row>\n", XlsxCells(cells) + close);
    assert !(CellOpen <= close) by { assert close[0] == '\n'; }
    ReadXlsxCellsRoundTrip(cells, close);
    DropPrefix("\n</Row>", after);
  }

  lemma {:induction false} ReadXlsxRowsRoundTrip(data: seq<Record>, headers: seq<string>, show: NumFormat, tail: string)
    requires PlainCells(data, headers, show)
    requires !("<Row>\n" <= tail)
    ensures ReadXlsxRows(XlsxBody(data, headers, show) + tail) == (TypedRows(data, headers, show), tail)
    decreases |data|
  {
    if |data| == 0 {
      assert XlsxBody(data, headers, show) + tail == tail;
    } else {
      var cells := XlsxDataCells(data[0], headers, show);
      var after := XlsxBody(data[1..], headers, show) + tail;
      var x := XlsxBody(data, headers, show) + tail;
      assert ReadXlsxRow(x) == Some((cells, after)) by {
        assert x == "<Row>\n" + XlsxCells(cells) + "\n</Row>" + after by {
          AppendAssoc(XlsxRow(data[0], headers, show), XlsxBody(data[1..], headers, show), tail);
        }
        PlainCellsTail(data, headers, show);
        forall j | 0 <= j < |cells|
          ensures PlainCell(cells[j])
        {
          TypeTagPlain(Lookup(data[0], headers[j]));
        }
        ReadXlsxRowOf(cells, after);
      }
      assert ReadXlsxRows(after) == (TypedRows(data[1..], headers, show), tail) by {
        PlainCellsTail(data, headers, show);
        ReadXlsxRowsRoundTrip(data[1..], headers, show, tail);
      }
      TypedRowsCons(data, headers, show);
    }
  }

  /** The workbook around any header cells and any body the row reader
      consumes reads back as those cells and rows. */
  lemma DecodeXlsxAround(hcells: seq<TypedCell>, body: string, rows: seq<seq<TypedCell>>)
    requires forall j :: 0 <= j < |hcells| ==> PlainCell(hcells[j])
    requires ReadXlsxRows(body + XlsxEpilogue) == (rows, XlsxEpilogue)
    ensures DecodeXlsx(XlsxPrologue + XlsxCells(hcells) + XlsxHeaderEnd + body + XlsxEpilogue) == Some((hcells, rows))
  {
    var rest := body + XlsxEpilogue;
    var after := XlsxHeaderEnd + rest;
    var s := XlsxPrologue + XlsxCells(hcells) + XlsxHeaderEnd + body + XlsxEpilogue;
    assert s == XlsxPrologue + (XlsxCells(hcells) + after) by {
      AppendAssoc(XlsxPrologue + XlsxCells(hcells) + XlsxHeaderEnd, body, XlsxEpilogue);
      AppendAssoc(XlsxPrologue + XlsxCells(hcells), XlsxHeaderEnd, rest);
      AppendAssoc(XlsxPrologue, XlsxCells(hcells), after);
    }
    DropPrefix(XlsxPrologue, XlsxCells(hcells) + after);
    assert !(CellOpen <= after) by { assert after[0] == '\n'; }
    ReadXlsxCellsRoundTrip(hcells, after);
    DropPrefix(XlsxHeaderEnd, rest);
  }

  /** The round trip of the spreadsheet: reading it back gives one
      `String` cell per key of the first record, then for each record in
      input order one cell per column, typed and filled as the encoder
      decided. */
  lemma XlsxRoundTrip(data: seq<Record>, show: NumFormat)
    requires |data| > 0
    requires PlainNames(Headers(data)) && PlainCells(data, Headers(data), show)
    ensures DecodeXlsx(XlsxContent(data, show)) == Some((XlsxHeaderCells(Headers(data)), TypedRows(data, Headers(data), show)))
  {
    var hs := Headers(data);
    var hcells := XlsxHeaderCells(hs);
    forall j | 0 <= j < |hcells|
      ensures PlainCell(hcells[j])
    {
      TypeTagPlain(Obj);
    }
    assert !("<Row>\n" <= XlsxEpilogue) by { assert XlsxEpilogue[0] == '\n'; }
    ReadXlsxRowsRoundTrip(data, hs, show, XlsxEpilogue);
    DecodeXlsxAround(hcells, XlsxBody(data, hs, show), TypedRows(data, hs, show));
  }

  /** The type tags, read back: every header cell is typed `String`; a data
      cell is typed `Number` exactly when that record's own value is a
      number and `String` otherwise; a falsy value, a key the record lacks
      included, leaves the cell empty. */
  lemma XlsxTypeTags(data: seq<Record>, show: NumFormat)
    requires |data| > 0
    requires PlainNames(Headers(data)) && PlainCells(data, Headers(data), show)
    ensures var d := DecodeXlsx(XlsxContent(data, show));
      d.Some? && |d.value.0| == |Headers(data)| && |d.value.1| == |data|
      && (forall j :: 0 <= j < |Headers(data)| ==> d.value.0[j] == ("String", Headers(data)[j]))
      && forall i, j :: 0 <= i < |data| && 0 <= j < |Headers(data)| ==>
           var v := Lookup(data[i], Headers(data)[j]);
           |d.value.1[i]| == |Headers(data)|
           && (d.value.1[i][j].0 == "Number" <==> v.Num?)
           && (d.value.1[i][j].0 == "String" <==> !v.Num?)
           && (Falsy(v) ==> d.value.1[i][j].1 == "")
  {
    XlsxRoundTrip(data, show);
    var hs := Headers(data);
    var rows: seq<seq<TypedCell>> := TypedRows(data, hs, show);
    forall i, j | 0 <= i < |data| && 0 <= j < |hs|
      ensures var v := Lookup(data[i], hs[j]);
        |rows[i]| == |hs|
        && (rows[i][j].0 == "Number" <==> v.Num?)
        && (rows[i][j].0 == "String" <==> !v.Num?)
        && (Falsy(v) ==> rows[i][j].1 == "")
    {
      DataCellTag(data[i], hs, show, j);
    }
  }

  /** One data cell: its tag follows its own value's type, and a falsy value
      leaves it empty. */
  lemma DataCellTag(row: Record, hs: seq<string>, show: NumFormat, j: nat)
    requires j < |hs|
    ensures var v := Lookup(row, hs[j]);
      var c := XlsxDataCells(row, hs, show)[j];
      (c.0 == "Number" <==> v.Num?) && (c.0 == "String" <==> !v.Num?) && (Falsy(v) ==> c.1 == "")
  {
  }
}
