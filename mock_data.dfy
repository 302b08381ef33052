/** The mock Elasticsearch catalogue of `src/data/mockElasticsearchData.ts`:
    four indices with their field names and two sample documents each, and
    the generator that stretches an index's samples into any number of
    documents, varying identifiers, numbers and dates row by row. */
module MockData {
  import opened Text
  import opened Values
  import opened Wrappers
  import opened ExportUtils

  /** An index: its name, its field names and its sample documents. */
  datatype IndexData = IndexData(name: string, fields: seq<string>, sampleData: seq<Record>)

  const UserLogs: IndexData := IndexData(
    "user_logs",
    ["timestamp", "user_id", "action", "ip_address", "user_agent"],
    [ [ ("timestamp", Str("2024-01-15T10:30:45Z")),
        ("user_id", Str("user_12345")),
        ("action", Str("login")),
        ("ip_address", Str("192.168.1.100")),
        ("user_agent", Str("Mozilla/5.0 (Windows NT 10.0; Win64; x64) AppleWebKit/537.36")) ],
      [ ("timestamp", Str("2024-01-15T10:31:22Z")),
        ("user_id", Str("user_67890")),
        ("action", Str("page_view")),
        ("ip_address", Str("192.168.1.101")),
        ("user_agent", Str("Mozilla/5.0 (Macintosh; Intel Mac OS X 10_15_7) AppleWebKit/537.36")) ] ])

  const ProductCatalog: IndexData := IndexData(
    "product_catalog",
    ["product_id", "name", "category", "price", "stock", "created_at"],
    [ [ ("product_id", Str("prod_001")),
        ("name", Str("Smartphone Pro Max")),
        ("category", Str("Electronics")),
        ("price", Num(999.99)),
        ("stock", Num(150.0)),
        ("created_at", Str("2024-01-10T08:00:00Z")) ],
      [ ("product_id", Str("prod_002")),
        ("name", Str("Wireless Headphones")),
        ("category", Str("Electronics")),
        ("price", Num(299.99)),
        ("stock", Num(75.0)),
        ("created_at", Str("2024-01-12T14:30:00Z")) ] ])

  const SalesTransactions: IndexData := IndexData(
    "sales_transactions",
    ["transaction_id", "customer_id", "amount", "payment_method", "status", "date"],
    [ [ ("transaction_id", Str("txn_abc123")),
        ("customer_id", Str("cust_456")),
        ("amount", Num(1299.98)),
        ("payment_method", Str("credit_card")),
        ("status", Str("completed")),
        ("date", Str("2024-01-15T15:45:30Z")) ],
      [ ("transaction_id", Str("txn_def456")),
        ("customer_id", Str("cust_789")),
        ("amount", Num(299.99)),
        ("payment_method", Str("paypal")),
        ("status", Str("pending")),
        ("date", Str("2024-01-15T16:20:15Z")) ] ])

  const SystemMetrics: IndexData := IndexData(
    "system_metrics",
    ["metric_name", "value", "unit", "host", "timestamp", "environment"],
    [ [ ("metric_name", Str("cpu_usage")),
        ("value", Num(75.3)),
        ("unit", Str("percent")),
        ("host", Str("web-server-01")),
        ("timestamp", Str("2024-01-15T16:00:00Z")),
        ("environment", Str("production")) ],
      [ ("metric_name", Str("memory_usage")),
        ("value", Num(8.2)),
        ("unit", Str("GB")),
        ("host", Str("web-server-01")),
        ("timestamp", Str("2024-01-15T16:00:00Z")),
        ("environment", Str("production")) ] ])

  /** `mockElasticsearchIndices`. */
  const MockElasticsearchIndices: seq<IndexData> := [UserLogs, ProductCatalog, SalesTransactions, SystemMetrics]

  /** An index is well formed when it has samples and every sample holds
      exactly its fields, in their order. */
  predicate WellFormed(index: IndexData)
  {
    |index.sampleData| > 0 && SamplesFit(index.sampleData, index.fields)
  }

  /** Each of `samples` has exactly the keys `fields`, in order, once each. */
  predicate SamplesFit(samples: seq<Record>, fields: seq<string>)
  {
    |samples| == 0
    || (Keys(samples[0]) == fields && DistinctKeys(samples[0]) && SamplesFit(samples[1..], fields))
  }

  lemma {:induction false} SampleFits(samples: seq<Record>, fields: seq<string>, k: nat)
    requires SamplesFit(samples, fields) && k < |samples|
    ensures Keys(samples[k]) == fields && DistinctKeys(samples[k])
  {
    if k > 0 {
      SampleFits(samples[1..], fields, k - 1);
    }
  }

  lemma {:induction false} AllSamplesFit(samples: seq<Record>, fields: seq<string>)
    requires forall k :: 0 <= k < |samples| ==> Keys(samples[k]) == fields && DistinctKeys(samples[k])
    ensures SamplesFit(samples, fields)
  {
    if |samples| > 0 {
      AllSamplesFit(samples[1..], fields);
    }
  }

  lemma SampleWellFormed(r: Record, fields: seq<string>)
    requires |r| == |fields|
    requires forall j :: 0 <= j < |r| ==> r[j].0 == fields[j]
    requires forall j, k :: 0 <= j < k < |fields| ==> fields[j] != fields[k]
    ensures Keys(r) == fields && DistinctKeys(r)
  {
  }

  /** The catalogue is consistent: its names differ, and each index is well
      formed. */
  lemma CatalogueWellFormed()
    ensures forall a, b :: 0 <= a < b < |MockElasticsearchIndices| ==>
      MockElasticsearchIndices[a].name != MockElasticsearchIndices[b].name
    ensures forall a :: 0 <= a < |MockElasticsearchIndices| ==> WellFormed(MockElasticsearchIndices[a])
  {
    var t := MockElasticsearchIndices;
    forall a | 0 <= a < |t|
      ensures WellFormed(t[a])
    {
      var ix := t[a];
      forall k | 0 <= k < |ix.sampleData|
        ensures Keys(ix.sampleData[k]) == ix.fields && DistinctKeys(ix.sampleData[k])
      {
        SampleWellFormed(ix.sampleData[k], ix.fields);
      }
      AllSamplesFit(ix.sampleData, ix.fields);
    }
  }

  /** `indices.find(idx => idx.name === name)`: the first index of that
      name, if any. */
  function FindIndex(indices: seq<IndexData>, name: string): (r: Option<IndexData>)
    ensures r.Some? ==> r.value in indices && r.value.name == name
  {
    if |indices| == 0 then None
    else if indices[0].name == name then Some(indices[0])
    else FindIndex(indices[1..], name)
  }

  /** `find` fails exactly when no index has the name, and otherwise returns
      the first index that has it. */
  lemma {:induction false} FindIndexFirst(indices: seq<IndexData>, name: string)
    ensures FindIndex(indices, name).None? <==> forall k :: 0 <= k < |indices| ==> indices[k].name != name
    ensures FindIndex(indices, name).Some? ==>
      exists k :: 0 <= k < |indices| && indices[k] == FindIndex(indices, name).value
        && forall m :: 0 <= m < k ==> indices[m].name != name
  {
    if |indices| > 0 && indices[0].name != name {
      FindIndexFirst(indices[1..], name);
      if FindIndex(indices, name).Some? {
        var k :| 0 <= k < |indices[1..]| && indices[1..][k] == FindIndex(indices, name).value
          && forall m :: 0 <= m < k ==> indices[1..][m].name != name;
        assert indices[k + 1] == FindIndex(indices, name).value;
      }
    } else if |indices| > 0 {
      assert indices[0] == FindIndex(indices, name).value;
    }
  }

  /** Each index of the catalogue is found by its own name. */
  lemma FindEachIndex(a: nat)
    requires a < |MockElasticsearchIndices|
    ensures FindIndex(MockElasticsearchIndices, MockElasticsearchIndices[a].name) == Some(MockElasticsearchIndices[a])
  {
    var t := MockElasticsearchIndices;
    CatalogueWellFormed();
    FindIndexFirst(t, t[a].name);
    var k :| 0 <= k < |t| && t[k] == FindIndex(t, t[a].name).value && forall m :: 0 <= m < k ==> t[m].name != t[a].name;
  }

  // ---------------------------------------------------------------------
  // The generator

  /** `Math.random()`: a number in [0, 1). */
  type Unit = r: real | 0.0 <= r < 1.0

  /** The random number drawn for row `i` and field position `j`. */
  type Random = (nat, nat) -> Unit

  /** The time `new Date()` reads for row `i` and field position `j`, in
      milliseconds since the epoch. */
  type Clock = (nat, nat) -> int

  /** `Date.prototype.toISOString` of a time in milliseconds. */
  type IsoFormat = int -> string

  /** The default `rowCount`. */
  const DefaultRowCount: int := 1000

  /** `{ ...index.sampleData[i % n] }`: the sample row `i` copies, in turn;
      with no samples, `sampleData[NaN]` is `undefined` and the copy an empty
      object. */
  function SampleFor(index: IndexData, i: nat): Record
  {
    if |index.sampleData| == 0 then [] else index.sampleData[i % |index.sampleData|]
  }

  /** Every row copies one of the index's samples, or is empty when the
      index has none. */
  lemma SampleForCopies(index: IndexData, i: nat)
    ensures |index.sampleData| > 0 ==> SampleFor(index, i) in index.sampleData
    ensures |index.sampleData| == 0 ==> SampleFor(index, i) == []
  {
  }

  /** The new value of field `key` (at position `j`, holding `v`) in row `i`:
      an identifier gets the row number appended, a number is moved by a
      random amount in [-50, 50), a time stamp or date becomes `i` minutes
      before now, and anything else stays. */
  function Varied(key: string, v: Value, i: nat, j: nat, show: NumFormat, rand: Random, clock: Clock, iso: IsoFormat): Value
  {
    if Contains(key, "id") then Str(TemplateText(v, show) + "_" + NatToString(i + 1))
    else if v.Num? then Num(v.n + (rand(i, j) * 100.0 - 50.0))
    else if Contains(key, "timestamp") || Contains(key, "date") then Str(iso(clock(i, j) - 60000 * i))
    else v
  }

  /** What the rule does to one value: an identifier becomes a string; any
      other field keeps its kind, a number moving into [x - 50, x + 50)
      (at most 50 down, less than 50 up); a field no rule names is kept. */
  lemma VariedRule(key: string, v: Value, i: nat, j: nat, show: NumFormat, rand: Random, clock: Clock, iso: IsoFormat)
    ensures var r := Varied(key, v, i, j, show, rand, clock, iso);
      (Contains(key, "id") ==> r.Str?)
      && (!Contains(key, "id") ==> (r.Num? <==> v.Num?))
      && (!Contains(key, "id") && v.Num? ==> v.n - 50.0 <= r.n < v.n + 50.0)
      && (!Contains(key, "id") && !v.Num? && !Contains(key, "timestamp") && !Contains(key, "date") ==> r == v)
  {
  }

  /** Row `i` of the generated data: the copied sample with every field
      varied. */
  function VariedRecord(sample: Record, i: nat, show: NumFormat, rand: Random, clock: Clock, iso: IsoFormat): (r: Record)
    ensures |r| == |sample|
  {
    seq(|sample|, j requires 0 <= j < |sample| => (sample[j].0, Varied(sample[j].0, sample[j].1, i, j, show, rand, clock, iso)))
  }

  /** The first `count` generated rows of an index. */
  function Rows(index: IndexData, count: nat, show: NumFormat, rand: Random, clock: Clock, iso: IsoFormat): (rows: seq<Record>)
    ensures |rows| == count
  {
    seq(count, i requires 0 <= i < count => VariedRecord(SampleFor(index, i), i, show, rand, clock, iso))
  }

  /** What `generateFullIndexData` returns: nothing for an unknown index,
      otherwise one row per `i` with `0 <= i < rowCount`. */
  function FullIndexData(indexName: string, rowCount: int, show: NumFormat, rand: Random, clock: Clock, iso: IsoFormat): seq<Record>
  {
    match FindIndex(MockElasticsearchIndices, indexName)
    case None => []
    case Some(index) => Rows(index, if rowCount < 0 then 0 else rowCount, show, rand, clock, iso)
  }

  /** `generateFullIndexData`: one varied copy of a sample per row, the
      samples taken in turn. */
  method GenerateFullIndexData(indexName: string, rowCount: int := DefaultRowCount, show: NumFormat, rand: Random, clock: Clock, iso: IsoFormat)
    returns (fullData: seq<Record>)
    ensures fullData == FullIndexData(indexName, rowCount, show, rand, clock, iso)
  {
    var found := FindIndex(MockElasticsearchIndices, indexName);
    if found.None? {
      return [];
    }
    var index := found.value;
    fullData := [];
    var i: nat := 0;
    while i < rowCount
      invariant i <= if rowCount < 0 then 0 else rowCount
      invariant fullData == Rows(index, i, show, rand, clock, iso)
      decreases rowCount - i
    {
      var newRecord := VaryRecord(SampleFor(index, i), i, show, rand, clock, iso);
      RowsGrow(index, i, show, rand, clock, iso);
      fullData := fullData + [newRecord];
      i := i + 1;
    }
  }

  lemma RowsGrow(index: IndexData, i: nat, show: NumFormat, rand: Random, clock: Clock, iso: IsoFormat)
    ensures Rows(index, i + 1, show, rand, clock, iso)
      == Rows(index, i, show, rand, clock, iso) + [VariedRecord(SampleFor(index, i), i, show, rand, clock, iso)]
  {
  }

  /** Row `i`'s copy of a sample, rewritten in place field by field, in the
      order of its keys. */
  method VaryRecord(sampleRecord: Record, i: nat, show: NumFormat, rand: Random, clock: Clock, iso: IsoFormat)
    returns (newRecord: Record)
    ensures newRecord == VariedRecord(sampleRecord, i, show, rand, clock, iso)
  {
    newRecord := sampleRecord;
    for j := 0 to |newRecord|
      invariant |newRecord| == |sampleRecord|
      invariant newRecord[..j] == VariedRecord(sampleRecord, i, show, rand, clock, iso)[..j]
      invariant newRecord[j..] == sampleRecord[j..]
    {
      var key := newRecord[j].0;
      var value := newRecord[j].1;
      ghost var before := newRecord;
      if Contains(key, "id") {
        newRecord := newRecord[j := (key, Str(TemplateText(value, show) + "_" + NatToString(i + 1)))];
      } else if value.Num? {
        newRecord := newRecord[j := (key, Num(value.n + (rand(i, j) * 100.0 - 50.0)))];
      } else if Contains(key, "timestamp") || Contains(key, "date") {
        newRecord := newRecord[j := (key, Str(iso(clock(i, j) - 60000 * i)))];
      }
      VariedRecordStep(sampleRecord, before, i, j, show, rand, clock, iso);
      assert newRecord == before[j := (key, Varied(key, value, i, j, show, rand, clock, iso))];
    }
    assert newRecord[..|newRecord|] == newRecord;
  }

  /** One more field of the copy rewritten: the rewritten prefix grows by
      one, and the rest is still the sample's. */
  lemma VariedRecordStep(sample: Record, rec: Record, i: nat, j: nat, show: NumFormat, rand: Random, clock: Clock, iso: IsoFormat)
    requires |rec| == |sample| && j < |sample|
    requires rec[..j] == VariedRecord(sample, i, show, rand, clock, iso)[..j]
    requires rec[j..] == sample[j..]
    ensures rec[j] == sample[j]
    ensures var rec' := rec[j := (sample[j].0, Varied(sample[j].0, sample[j].1, i, j, show, rand, clock, iso))];
      rec'[..j + 1] == VariedRecord(sample, i, show, rand, clock, iso)[..j + 1] && rec'[j + 1..] == sample[j + 1..]
  {
    var rec' := rec[j := (sample[j].0, Varied(sample[j].0, sample[j].1, i, j, show, rand, clock, iso))];
    assert rec'[j + 1..] == rec[j..][1..];
    assert sample[j + 1..] == sample[j..][1..];
    assert rec[j..][0] == sample[j..][0];
  }

  // ---------------------------------------------------------------------
  // What the generated data looks like

  /** An index name outside the catalogue yields no rows; a catalogue index
      yields `rowCount` rows, none for a count below one. */
  lemma FullIndexDataLength(indexName: string, rowCount: int, show: NumFormat, rand: Random, clock: Clock, iso: IsoFormat)
    ensures var t := MockElasticsearchIndices;
      |FullIndexData(indexName, rowCount, show, rand, clock, iso)|
        == if exists a :: 0 <= a < |t| && t[a].name == indexName then (if rowCount < 0 then 0 else rowCount) else 0
  {
    FindIndexFirst(MockElasticsearchIndices, indexName);
  }

  /** The data generated for a catalogue index is its first `rowCount`
      rows, and the index is well formed. */
  lemma CatalogueRows(a: nat, rowCount: int, show: NumFormat, rand: Random, clock: Clock, iso: IsoFormat)
    requires a < |MockElasticsearchIndices|
    ensures WellFormed(MockElasticsearchIndices[a])
    ensures FullIndexData(MockElasticsearchIndices[a].name, rowCount, show, rand, clock, iso)
      == Rows(MockElasticsearchIndices[a], if rowCount < 0 then 0 else rowCount, show, rand, clock, iso)
  {
    FindEachIndex(a);
    CatalogueWellFormed();
  }

  /** Row `i` of a well-formed index: it has the index's fields, in order,
      and each field holds the varied value of the sample it copies. */
  lemma FieldOfRow(index: IndexData, count: nat, i: nat, j: nat, show: NumFormat, rand: Random, clock: Clock, iso: IsoFormat)
    requires WellFormed(index) && i < count && j < |index.fields|
    ensures var rows := Rows(index, count, show, rand, clock, iso);
      var key := index.fields[j];
      Keys(rows[i]) == index.fields && DistinctKeys(rows[i])
      && Lookup(rows[i], key) == Varied(key, Lookup(SampleFor(index, i), key), i, j, show, rand, clock, iso)
  {
    var sample := SampleFor(index, i);
    assert sample == index.sampleData[i % |index.sampleData|];
    SampleFits(index.sampleData, index.fields, i % |index.sampleData|);
    var row := VariedRecord(sample, i, show, rand, clock, iso);
    assert Keys(row) == Keys(sample);
    assert Keys(sample)[j] == sample[j].0;
    LookupAt(sample, j);
    LookupAt(row, j);
  }

  /** Every generated row of a catalogue index has exactly the index's
      fields, so an export of the rows has them as its columns. */
  lemma GeneratedHeaders(a: nat, rowCount: int, show: NumFormat, rand: Random, clock: Clock, iso: IsoFormat)
    requires a < |MockElasticsearchIndices| && rowCount > 0
    ensures var index := MockElasticsearchIndices[a];
      var rows := FullIndexData(index.name, rowCount, show, rand, clock, iso);
      |rows| == rowCount && Headers(rows) == index.fields
  {
    var index := MockElasticsearchIndices[a];
    CatalogueRows(a, rowCount, show, rand, clock, iso);
    RowKeys(index, rowCount, 0, show, rand, clock, iso);
  }

  /** Every row of a well-formed index has the index's fields as its keys. */
  lemma RowKeys(index: IndexData, count: nat, i: nat, show: NumFormat, rand: Random, clock: Clock, iso: IsoFormat)
    requires WellFormed(index) && i < count
    ensures Keys(Rows(index, count, show, rand, clock, iso)[i]) == index.fields
  {
    var sample := SampleFor(index, i);
    assert sample == index.sampleData[i % |index.sampleData|];
    SampleFits(index.sampleData, index.fields, i % |index.sampleData|);
    assert Keys(VariedRecord(sample, i, show, rand, clock, iso)) == Keys(sample);
  }

  /** A field whose name contains `id` gets `_<row number>` appended, the
      row number counting from 1. */
  lemma GeneratedId(index: IndexData, count: nat, i: nat, j: nat, show: NumFormat, rand: Random, clock: Clock, iso: IsoFormat)
    requires WellFormed(index) && i < count && j < |index.fields|
    requires Contains(index.fields[j], "id")
    ensures var key := index.fields[j];
      Lookup(Rows(index, count, show, rand, clock, iso)[i], key)
        == Str(TemplateText(Lookup(SampleFor(index, i), key), show) + "_" + NatToString(i + 1))
  {
    FieldOfRow(index, count, i, j, show, rand, clock, iso);
  }

  /** The text after the last `_` is the row number: two tags that agree
      end in the same digits. */
  lemma {:induction false} TagSuffix(b1: string, x1: string, b2: string, x2: string)
    requires forall k :: 0 <= k < |x1| ==> IsDigit(x1[k])
    requires forall k :: 0 <= k < |x2| ==> IsDigit(x2[k])
    requires b1 + "_" + x1 == b2 + "_" + x2
    ensures x1 == x2
  {
    var s := b1 + "_" + x1;
    assert s[|s| - |x1| - 1] == '_';
    assert (b2 + "_" + x2)[|s| - |x2| - 1] == '_';
    if |x1| < |x2| {
      assert false;
    } else if |x2| < |x1| {
      assert false;
    }
    assert x1 == s[|s| - |x1|..];
    assert x2 == (b2 + "_" + x2)[|s| - |x2|..];
  }

  /** Identifiers never repeat: two different rows hold different values in
      a field whose name contains `id`, whichever samples they copy. */
  lemma GeneratedIdsDistinct(index: IndexData, count: nat, i: nat, i': nat, j: nat, show: NumFormat, rand: Random, clock: Clock, iso: IsoFormat)
    requires WellFormed(index) && i < count && i' < count && i != i' && j < |index.fields|
    requires Contains(index.fields[j], "id")
    ensures var rows := Rows(index, count, show, rand, clock, iso);
      Lookup(rows[i], index.fields[j]) != Lookup(rows[i'], index.fields[j])
  {
    var b := IdTag(index, count, i, j, show, rand, clock, iso);
    var b' := IdTag(index, count, i', j, show, rand, clock, iso);
    TagsDistinct(b, i + 1, b', i' + 1);
  }

  /** The identifier of row `i` is some text tagged with `_<i + 1>`. */
  lemma IdTag(index: IndexData, count: nat, i: nat, j: nat, show: NumFormat, rand: Random, clock: Clock, iso: IsoFormat)
    returns (b: string)
    requires WellFormed(index) && i < count && j < |index.fields|
    requires Contains(index.fields[j], "id")
    ensures Lookup(Rows(index, count, show, rand, clock, iso)[i], index.fields[j]) == Str(b + "_" + NatToString(i + 1))
  {
    GeneratedId(index, count, i, j, show, rand, clock, iso);
    b := TemplateText(Lookup(SampleFor(index, i), index.fields[j]), show);
  }

  /** Two tags with different row numbers differ, whatever they tag. */
  lemma TagsDistinct(b1: string, m: nat, b2: string, n: nat)
    requires m != n
    ensures b1 + "_" + NatToString(m) != b2 + "_" + NatToString(n)
  {
    if b1 + "_" + NatToString(m) == b2 + "_" + NatToString(n) {
      TagSuffix(b1, NatToString(m), b2, NatToString(n));
      NatToStringInjective(m, n);
    }
  }

  /** A numeric field (whose name has no `id`) lands in [x - 50, x + 50)
      around the sample's value x: at most 50 down, less than 50 up. */
  lemma GeneratedNumber(index: IndexData, count: nat, i: nat, j: nat, show: NumFormat, rand: Random, clock: Clock, iso: IsoFormat)
    requires WellFormed(index) && i < count && j < |index.fields|
    requires !Contains(index.fields[j], "id")
    requires Lookup(SampleFor(index, i), index.fields[j]).Num?
    ensures var v := Lookup(Rows(index, count, show, rand, clock, iso)[i], index.fields[j]);
      var x := Lookup(SampleFor(index, i), index.fields[j]).n;
      v.Num? && x - 50.0 <= v.n < x + 50.0
  {
    FieldOfRow(index, count, i, j, show, rand, clock, iso);
  }

  /** A field named for a time stamp or a date (no `id`, not a number) is
      set to the clock reading moved back by the row index in minutes. */
  lemma GeneratedDate(index: IndexData, count: nat, i: nat, j: nat, show: NumFormat, rand: Random, clock: Clock, iso: IsoFormat)
    requires WellFormed(index) && i < count && j < |index.fields|
    requires !Contains(index.fields[j], "id")
    requires Contains(index.fields[j], "timestamp") || Contains(index.fields[j], "date")
    requires !Lookup(SampleFor(index, i), index.fields[j]).Num?
    ensures Lookup(Rows(index, count, show, rand, clock, iso)[i], index.fields[j]) == Str(iso(clock(i, j) - 60000 * i))
  {
    FieldOfRow(index, count, i, j, show, rand, clock, iso);
  }

  /** Every other field keeps the sample's value. */
  lemma GeneratedUnchanged(index: IndexData, count: nat, i: nat, j: nat, show: NumFormat, rand: Random, clock: Clock, iso: IsoFormat)
    requires WellFormed(index) && i < count && j < |index.fields|
    requires !Contains(index.fields[j], "id") && !Contains(index.fields[j], "timestamp") && !Contains(index.fields[j], "date")
    requires !Lookup(SampleFor(index, i), index.fields[j]).Num?
    ensures Lookup(Rows(index, count, show, rand, clock, iso)[i], index.fields[j]) == Lookup(SampleFor(index, i), index.fields[j])
  {
    FieldOfRow(index, count, i, j, show, rand, clock, iso);
  }

  /** Rows `n` apart agree on every field left unchanged, `n` being the
      number of samples: the unchanged columns repeat with that period. */
  lemma GeneratedPeriodic(index: IndexData, count: nat, i: nat, j: nat, show: NumFormat, rand: Random, clock: Clock, iso: IsoFormat)
    requires WellFormed(index) && i + |index.sampleData| < count && j < |index.fields|
    requires !Contains(index.fields[j], "id") && !Contains(index.fields[j], "timestamp") && !Contains(index.fields[j], "date")
    requires !Lookup(SampleFor(index, i), index.fields[j]).Num?
    ensures var rows := Rows(index, count, show, rand, clock, iso);
      Lookup(rows[i + |index.sampleData|], index.fields[j]) == Lookup(rows[i], index.fields[j])
  {
    var n := |index.sampleData|;
    var rows := Rows(index, count, show, rand, clock, iso);
    var key := index.fields[j];
    SampleForPeriodic(index, i);
    GeneratedUnchanged(index, count, i, j, show, rand, clock, iso);
    GeneratedUnchanged(index, count, i + n, j, show, rand, clock, iso);
  }

  /** Rows `n` apart copy the same sample, `n` being the number of
      samples. */
  lemma SampleForPeriodic(index: IndexData, i: nat)
    ensures SampleFor(index, i + |index.sampleData|) == SampleFor(index, i)
  {
    if |index.sampleData| > 0 {
      ModShift(i, |index.sampleData|);
    }
  }

  lemma {:induction false} MulAtLeast(n: nat, k: nat)
    requires k >= 1
    ensures n * k >= n
    decreases k
  {
    if k > 1 {
      MulAtLeast(n, k - 1);
      assert n * k == n * (k - 1) + n;
    }
  }

  /** Shifting by the modulus keeps the remainder. */
  lemma ModShift(i: nat, n: nat)
    requires n > 0
    ensures (i + n) % n == i % n
  {
    var a, b := (i + n) / n, i / n;
    var r, r' := (i + n) % n, i % n;
    assert n * a + r == n * b + r' + n;
    var d := a - b - 1;
    assert n * d == r' - r by {
      assert n * a == n * (b + 1 + d);
      assert n * (b + 1 + d) == n * b + n + n * d;
    }
    if d >= 1 {
      MulAtLeast(n, d);
    }
  }

  /** The third of three `product_catalog` rows copies the first sample
      again, its identifier tagged `_3`. */
  lemma ProductIdExample(show: NumFormat, rand: Random, clock: Clock, iso: IsoFormat)
    ensures var rows := FullIndexData("product_catalog", 3, show, rand, clock, iso);
      |rows| == 3 && Lookup(rows[2], "product_id") == Str("prod_001_3")
  {
    ProductCatalogSample(2);
    ProductCatalogRows(3, show, rand, clock, iso);
    ProductIdRule();
    GeneratedId(ProductCatalog, 3, 2, 0, show, rand, clock, iso);
    ThirdTag();
  }

  lemma ThirdTag()
    ensures "prod_001" + "_" + NatToString(3) == "prod_001_3"
  {
    assert NatToString(3) == "3";
  }

  /** `created_at` is left as the sample has it, in every row: its name
      mentions neither `timestamp` nor `date`, so row `i` keeps the time of
      the sample it copies. */
  lemma CreatedAtExample(count: nat, i: nat, show: NumFormat, rand: Random, clock: Clock, iso: IsoFormat)
    requires i < count
    ensures var rows := FullIndexData("product_catalog", count, show, rand, clock, iso);
      |rows| == count
      && Lookup(rows[i], "created_at") == Str(if i % 2 == 0 then "2024-01-10T08:00:00Z" else "2024-01-12T14:30:00Z")
  {
    ProductCatalogSample(i);
    ProductCatalogRows(count, show, rand, clock, iso);
    CreatedAtNoRule();
    GeneratedUnchanged(ProductCatalog, count, i, 5, show, rand, clock, iso);
  }

  /** `product_catalog` is generated from its own entry. */
  lemma ProductCatalogRows(count: nat, show: NumFormat, rand: Random, clock: Clock, iso: IsoFormat)
    ensures WellFormed(ProductCatalog)
    ensures FullIndexData("product_catalog", count, show, rand, clock, iso) == Rows(ProductCatalog, count, show, rand, clock, iso)
  {
    CatalogueRows(1, count, show, rand, clock, iso);
  }

  /** Row `i` of `product_catalog` copies its first sample when `i` is
      even and its second when `i` is odd. */
  lemma ProductCatalogSample(i: nat)
    ensures ProductCatalog.name == "product_catalog"
    ensures ProductCatalog.fields[0] == "product_id"
    ensures ProductCatalog.fields[5] == "created_at"
    ensures i % 2 == 0 ==> Lookup(SampleFor(ProductCatalog, i), "product_id") == Str("prod_001")
    ensures Lookup(SampleFor(ProductCatalog, i), "created_at")
      == Str(if i % 2 == 0 then "2024-01-10T08:00:00Z" else "2024-01-12T14:30:00Z")
  {
    var sample := ProductCatalog.sampleData[i % 2];
    assert SampleFor(ProductCatalog, i) == sample;
    SampleWellFormed(sample, ProductCatalog.fields);
    LookupAt(sample, 0);
    LookupAt(sample, 5);
  }

  /** `product_id` is an identifier field. */
  lemma ProductIdRule()
    ensures Contains("product_id", "id")
  {
    assert OccursAt("product_id", "id", 8);
    OccursContains("product_id", "id", 8);
  }

  /** No rule applies to `created_at`: it has no `i`, no `m`, and its only
      `d` is followed by `_`. */
  lemma CreatedAtNoRule()
    ensures !Contains("created_at", "id") && !Contains("created_at", "timestamp") && !Contains("created_at", "date")
  {
    NotContainsChar("created_at", "id", 0);
    NotContainsChar("created_at", "timestamp", 1);
    CreatedAtNoDateFrom(0);
  }

  lemma {:induction false} CreatedAtNoDateFrom(k: nat)
    requires k <= 10
    ensures !Contains("created_at"[k..], "date")
    decreases 10 - k
  {
    var s := "created_at"[k..];
    if k < 10 {
      CreatedAtNoDateFrom(k + 1);
      assert s[1..] == "created_at"[k + 1..];
      assert !("date" <= s) by {
        if k == 6 {
          assert s[1] == '_';
        } else {
          assert s[0] != 'd';
        }
      }
    }
  }
}
