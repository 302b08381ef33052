/** String helpers that stand for the JavaScript built-ins the exporters and the
    dataset expander use: `Array.prototype.join`, `String.prototype.split`,
    `String.prototype.includes` and the decimal rendering of a row number. */
module Text {

  lemma AppendAssoc(a: string, b: string, c: string)
    ensures a + b + c == a + (b + c)
  {
  }

  /** `a` is a prefix of `a + b`, and dropping it leaves `b`. */
  lemma DropPrefix(a: string, b: string)
    ensures a <= a + b && (a + b)[..|a|] == a && (a + b)[|a|..] == b
  {
  }

  /** A prefix of `q` is a prefix of anything `q` starts. */
  lemma PrefixGrows(p: string, q: string, m: string)
    requires p <= q
    ensures p <= q + m
  {
    assert (q + m)[..|q|] == q;
  }

  /** A non-empty sequence is its head followed by its tail. */
  lemma HeadTail<T>(xs: seq<T>)
    requires |xs| > 0
    ensures [xs[0]] + xs[1..] == xs
  {
  }

  /** `xs.join('')`: the strings one after the other. */
  function Concat(xs: seq<string>): string
  {
    if |xs| == 0 then "" else xs[0] + Concat(xs[1..])
  }

  lemma {:induction false} ConcatSnoc(xs: seq<string>, x: string)
    ensures Concat(xs + [x]) == Concat(xs) + x
  {
    if |xs| == 0 {
      assert xs + [x] == [x];
    } else {
      assert (xs + [x])[1..] == xs[1..] + [x];
      ConcatSnoc(xs[1..], x);
    }
  }

  /** `xs.join(sep)` on strings. */
  function Join(xs: seq<string>, sep: string): string
  {
    if |xs| == 0 then "" else if |xs| == 1 then xs[0] else xs[0] + sep + Join(xs[1..], sep)
  }

  /** Position of the first `c` in `s`, or `|s|` when there is none. */
  function IndexOf(s: string, c: char): (k: nat)
    ensures k <= |s|
  {
    if |s| == 0 then 0 else if s[0] == c then 0 else 1 + IndexOf(s[1..], c)
  }

  /** `IndexOf` finds the first occurrence: nothing before it is `c`. */
  lemma {:induction false} IndexOfFirst(s: string, c: char)
    ensures forall j :: 0 <= j < IndexOf(s, c) ==> s[j] != c
    ensures IndexOf(s, c) < |s| ==> s[IndexOf(s, c)] == c
  {
    if |s| > 0 && s[0] != c {
      IndexOfFirst(s[1..], c);
    }
  }

  lemma {:induction false} IndexOfAbsent(s: string, c: char)
    requires c !in s
    ensures IndexOf(s, c) == |s|
  {
    if |s| > 0 {
      assert s[0] != c;
      IndexOfAbsent(s[1..], c);
    }
  }

  /** The first `c` of `x + [c] + y` is the one after `x` when `x` has none. */
  lemma {:induction false} IndexOfAfter(x: string, c: char, y: string)
    requires c !in x
    ensures IndexOf(x + [c] + y, c) == |x|
  {
    if |x| > 0 {
      assert x[0] != c;
      assert (x + [c] + y)[1..] == x[1..] + [c] + y;
      IndexOfAfter(x[1..], c, y);
    }
  }

  /** `s.split(c)`: the pieces between the occurrences of `c`. */
  function Split(s: string, c: char): (parts: seq<string>)
    ensures |parts| > 0
    decreases |s|
  {
    var k := IndexOf(s, c);
    if k == |s| then [s] else [s[..k]] + Split(s[k + 1..], c)
  }

  /** Splitting a join by its one-character separator gives back the pieces,
      as long as no piece contains the separator. */
  lemma {:induction false} SplitJoin(xs: seq<string>, c: char)
    requires |xs| > 0
    requires forall i :: 0 <= i < |xs| ==> c !in xs[i]
    ensures Split(Join(xs, [c]), c) == xs
  {
    if |xs| == 1 {
      IndexOfAbsent(xs[0], c);
    } else {
      var rest := Join(xs[1..], [c]);
      var s := xs[0] + [c] + rest;
      assert Join(xs, [c]) == s;
      IndexOfAfter(xs[0], c, rest);
      assert s[..|xs[0]|] == xs[0];
      assert s[|xs[0]| + 1..] == rest;
      SplitJoin(xs[1..], c);
      assert [xs[0]] + xs[1..] == xs;
    }
  }

  /** `sub` occurs in `s` starting at position `k`. */
  predicate OccursAt(s: string, sub: string, k: nat)
  {
    k + |sub| <= |s| && s[k..k + |sub|] == sub
  }

  /** `s.includes(sub)`. */
  predicate Contains(s: string, sub: string)
    decreases |s|
  {
    sub <= s || (|s| > 0 && Contains(s[1..], sub))
  }

  lemma {:induction false} ContainsWitness(s: string, sub: string) returns (k: nat)
    requires Contains(s, sub)
    ensures OccursAt(s, sub, k)
    decreases |s|
  {
    if sub <= s {
      k := 0;
    } else {
      var k' := ContainsWitness(s[1..], sub);
      assert s[k' + 1..k' + 1 + |sub|] == s[1..][k'..k' + |sub|];
      k := k' + 1;
    }
  }

  lemma {:induction false} OccursContains(s: string, sub: string, k: nat)
    requires OccursAt(s, sub, k)
    ensures Contains(s, sub)
    decreases k
  {
    if k > 0 {
      assert s[1..][k - 1..k - 1 + |sub|] == s[k..k + |sub|];
      OccursContains(s[1..], sub, k - 1);
    }
  }

  /** `Contains` holds exactly when `sub` occurs at some position. */
  lemma ContainsIffOccurs(s: string, sub: string)
    ensures Contains(s, sub) <==> exists k: nat :: OccursAt(s, sub, k)
  {
    if Contains(s, sub) {
      var k := ContainsWitness(s, sub);
    }
    if k: nat :| OccursAt(s, sub, k) {
      OccursContains(s, sub, k);
    }
  }

  /** `sub` does not occur in `s` when one of its characters is missing
      from `s`. */
  lemma NotContainsChar(s: string, sub: string, k: nat)
    requires k < |sub| && sub[k] !in s
    ensures !Contains(s, sub)
  {
    if Contains(s, sub) {
      var w := ContainsWitness(s, sub);
    }
  }

  predicate IsDigit(c: char)
  {
    '0' <= c <= '9'
  }

  function Digit(d: nat): (c: char)
    requires d < 10
    ensures IsDigit(c)
  {
    "0123456789"[d]
  }

  function DigitValue(c: char): nat
    requires IsDigit(c)
  {
    (c as int - '0' as int) as nat
  }

  /** The decimal rendering of a natural number, as `${n}` writes an integer. */
  function NatToString(n: nat): (s: string)
    ensures |s| > 0
    ensures forall i :: 0 <= i < |s| ==> IsDigit(s[i])
    decreases n
  {
    if n < 10 then [Digit(n)] else NatToString(n / 10) + [Digit(n % 10)]
  }

  /** Reads a string of decimal digits back as a number. */
  function ParseDecimal(s: string): nat
    requires forall i :: 0 <= i < |s| ==> IsDigit(s[i])
  {
    if |s| == 0 then 0 else ParseDecimal(s[..|s| - 1]) * 10 + DigitValue(s[|s| - 1])
  }

  lemma {:induction false} ParseNatToString(n: nat)
    ensures ParseDecimal(NatToString(n)) == n
    decreases n
  {
    var s := NatToString(n);
    if n < 10 {
      assert DigitValue(Digit(n)) == n;
    } else {
      ParseNatToString(n / 10);
      assert s[..|s| - 1] == NatToString(n / 10);
      assert DigitValue(Digit(n % 10)) == n % 10;
    }
  }

  /** Different numbers are rendered differently. */
  lemma NatToStringInjective(m: nat, n: nat)
    requires NatToString(m) == NatToString(n)
    ensures m == n
  {
    ParseNatToString(m);
    ParseNatToString(n);
  }
}
