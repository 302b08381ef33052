/** The JavaScript values the exported records hold, and the three ways the
    exporters turn one into text. */
module Values {
  import opened Text

  /** A field value: a string, a number, no value at all (`undefined`, a key
      the record does not have) or a nested object. */
  datatype Value = Str(s: string) | Num(n: real) | Missing | Obj

  /** A plain object, as its own keys in insertion order with their values. */
  type Record = seq<(string, Value)>

  /** JavaScript's conversion of a number to a string; it is not modelled and
      is passed in wherever a number is rendered. */
  type NumFormat = real -> string

  /** `Object.keys(r)`. */
  function Keys(r: Record): (ks: seq<string>)
  {
    seq(|r|, j requires 0 <= j < |r| => r[j].0)
  }

  /** Every key occurs once, as in any JavaScript object. */
  predicate DistinctKeys(r: Record)
  {
    forall j, k :: 0 <= j < k < |r| ==> r[j].0 != r[k].0
  }

  /** Position of key `k` in `r`, or `|r|` when `r` does not have it. */
  function KeyIndex(r: Record, k: string): (j: nat)
    ensures j <= |r|
  {
    if |r| == 0 then 0 else if r[0].0 == k then 0 else 1 + KeyIndex(r[1..], k)
  }

  /** `KeyIndex` finds the first entry with that key. */
  lemma {:induction false} KeyIndexFirst(r: Record, k: string)
    ensures forall i :: 0 <= i < KeyIndex(r, k) ==> r[i].0 != k
    ensures KeyIndex(r, k) < |r| ==> r[KeyIndex(r, k)].0 == k
  {
    if |r| > 0 && r[0].0 != k {
      KeyIndexFirst(r[1..], k);
    }
  }

  /** `r[k]`: the value stored under `k`, `undefined` for a key `r` lacks. */
  function Lookup(r: Record, k: string): Value
  {
    var j := KeyIndex(r, k);
    if j < |r| then r[j].1 else Missing
  }

  /** A key the record has reads the value stored with its first
      occurrence. */
  lemma LookupStored(r: Record, k: string)
    requires k in Keys(r)
    ensures (k, Lookup(r, k)) in r
    ensures exists j :: 0 <= j < |r| && r[j] == (k, Lookup(r, k)) && forall i :: 0 <= i < j ==> r[i].0 != k
  {
    KeyIndexFirst(r, k);
    var j := KeyIndex(r, k);
    var w :| 0 <= w < |r| && Keys(r)[w] == k;
    assert j < |r|;
  }

  lemma {:induction false} LookupAbsent(r: Record, k: string)
    requires k !in Keys(r)
    ensures KeyIndex(r, k) == |r| && Lookup(r, k) == Missing
  {
    if |r| > 0 {
      assert Keys(r)[0] == r[0].0;
      assert Keys(r[1..]) == Keys(r)[1..];
      LookupAbsent(r[1..], k);
    }
  }

  /** In an object whose keys are distinct, the key at position `j` reads the
      value at position `j`. */
  lemma LookupAt(r: Record, j: nat)
    requires DistinctKeys(r) && j < |r|
    ensures Lookup(r, r[j].0) == r[j].1
  {
    KeyIndexFirst(r, r[j].0);
  }

  /** JavaScript's falsy values among these: `undefined`, `""` and `0`. */
  predicate Falsy(v: Value)
  {
    v == Missing || v == Str("") || v == Num(0.0)
  }

  /** How `Array.prototype.join` writes an element: `undefined` as nothing. */
  function JoinText(v: Value, show: NumFormat): string
  {
    match v
    case Str(s) => s
    case Num(n) => show(n)
    case Missing => ""
    case Obj => "[object Object]"
  }

  /** How a template literal `${v}` writes a value: `undefined` spelled out. */
  function TemplateText(v: Value, show: NumFormat): string
  {
    match v
    case Str(s) => s
    case Num(n) => show(n)
    case Missing => "undefined"
    case Obj => "[object Object]"
  }

  /** `${v || ''}`: a falsy value writes nothing, any other as in a template. */
  function CellText(v: Value, show: NumFormat): string
  {
    if Falsy(v) then "" else TemplateText(v, show)
  }

  /** What `${v || ''}` writes for each kind of value: nothing for a falsy
      one, a string as it is, a non-zero number as JavaScript prints it, and
      an object as `[object Object]`. */
  lemma CellTextOf(v: Value, show: NumFormat)
    ensures Falsy(v) ==> CellText(v, show) == ""
    ensures v.Str? ==> CellText(v, show) == v.s
    ensures v.Num? && v.n != 0.0 ==> CellText(v, show) == show(v.n)
    ensures v.Obj? ==> CellText(v, show) == "[object Object]"
  {
  }
}
