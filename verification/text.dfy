/**
 * Character-level helpers shared by the Rust serialisers and the TypeScript
 * label code: decimal rendering of naturals (Rust `to_string`, JavaScript
 * `String(n)`), joining with a separator (`join`, `push(',')` loops), splitting
 * (the inverse used to state what a joined string contains), reversal and
 * left padding (`padStart`).
 */
module Text {

  predicate IsDigit(c: char)
  {
    '0' <= c <= '9'
  }

  predicate AllDigits(s: string)
  {
    forall i :: 0 <= i < |s| ==> IsDigit(s[i])
  }

  function DigitChar(d: nat): (c: char)
    requires d < 10
    ensures IsDigit(c)
  {
    (48 + d) as char
  }

  function DigitValue(c: char): nat
    requires IsDigit(c)
  {
    (c as int) - 48
  }

  /** Decimal rendering of a natural number, without leading zeros. */
  function Decimal(n: nat): (s: string)
    ensures |s| >= 1 && AllDigits(s)
    ensures |s| > 1 ==> s[0] != '0'
  {
    if n < 10 then [DigitChar(n)] else Decimal(n / 10) + [DigitChar(n % 10)]
  }

  /** The value of a string of decimal digits, most significant first. */
  function DecimalValue(s: string): nat
    requires AllDigits(s)
  {
    if |s| == 0 then 0 else 10 * DecimalValue(s[..|s| - 1]) + DigitValue(s[|s| - 1])
  }

  /** Reading back a rendered number gives the number. */
  lemma {:induction false} DecimalRoundTrip(n: nat)
    ensures DecimalValue(Decimal(n)) == n
  {
    if n >= 10 {
      var s := Decimal(n);
      assert s[..|s| - 1] == Decimal(n / 10);
      DecimalRoundTrip(n / 10);
    }
  }

  /** Rendering is injective. */
  lemma DecimalInjective(a: nat, b: nat)
    requires Decimal(a) == Decimal(b)
    ensures a == b
  {
    DecimalRoundTrip(a);
    DecimalRoundTrip(b);
  }

  /** `items` joined with `sep` between consecutive items. */
  function Join(items: seq<string>, sep: char): (r: string)
    ensures |items| == 1 ==> r == items[0]
  {
    if |items| == 0 then ""
    else if |items| == 1 then items[0]
    else items[0] + [sep] + Join(items[1..], sep)
  }

  predicate Free(s: string, c: char)
  {
    forall i :: 0 <= i < |s| ==> s[i] != c
  }

  predicate AllFree(items: seq<string>, c: char)
  {
    forall i :: 0 <= i < |items| ==> Free(items[i], c)
  }

  /** Index of the first occurrence of `c` in `s`, or `|s|` when there is none. */
  function FirstIndex(s: string, c: char): (i: nat)
    ensures i <= |s|
    ensures forall j :: 0 <= j < i ==> s[j] != c
    ensures i < |s| ==> s[i] == c
  {
    if |s| == 0 then 0
    else if s[0] == c then 0
    else 1 + FirstIndex(s[1..], c)
  }

  /** The pieces of `s` between occurrences of `sep`; never empty. */
  function Split(s: string, sep: char): (r: seq<string>)
    ensures |r| >= 1
    decreases |s|
  {
    var i := FirstIndex(s, sep);
    if i == |s| then [s] else [s[..i]] + Split(s[i + 1..], sep)
  }

  /** Splitting a joined list gives back the list, when no item holds the separator. */
  lemma {:induction false} SplitJoin(items: seq<string>, sep: char)
    requires |items| >= 1 && AllFree(items, sep)
    ensures Split(Join(items, sep), sep) == items
    decreases |items|
  {
    var s := Join(items, sep);
    if |items| == 1 {
      assert FirstIndex(s, sep) == |s|;
    } else {
      var a, rest := items[0], Join(items[1..], sep);
      var b := [sep] + rest;
      assert s == a + b;
      FirstFree(a, b, sep);
      assert s[..|a|] == a;
      assert s[|a| + 1..] == rest;
      SplitJoin(items[1..], sep);
      assert Split(s, sep) == [a] + Split(rest, sep);
      assert items == [a] + items[1..];
    }
  }

  lemma FirstFree(a: string, b: string, c: char)
    requires Free(a, c) && |b| >= 1 && b[0] == c
    ensures FirstIndex(a + b, c) == |a|
  {
    if |a| > 0 {
      assert (a + b)[1..] == a[1..] + b;
      FirstFree(a[1..], b, c);
    }
  }

  /** Join is injective on separator-free lists of at least one item. */
  lemma JoinInjective(xs: seq<string>, ys: seq<string>, sep: char)
    requires |xs| >= 1 && |ys| >= 1 && AllFree(xs, sep) && AllFree(ys, sep)
    requires Join(xs, sep) == Join(ys, sep)
    ensures xs == ys
  {
    SplitJoin(xs, sep);
    SplitJoin(ys, sep);
  }

  /** Appending one item to a non-empty list adds a separator and the item. */
  lemma {:induction false} JoinSnoc(items: seq<string>, x: string, sep: char)
    requires |items| >= 1
    ensures Join(items + [x], sep) == Join(items, sep) + [sep] + x
    decreases |items|
  {
    if |items| == 1 {
      assert (items + [x])[1..] == [x];
    } else {
      assert (items + [x])[1..] == items[1..] + [x];
      JoinSnoc(items[1..], x, sep);
    }
  }

  lemma DecimalFree(n: nat, c: char)
    requires !IsDigit(c)
    ensures Free(Decimal(n), c)
  {
  }

  /** The characters of `s` in the opposite order. */
  function Reverse(s: string): (r: string)
    ensures |r| == |s|
    ensures forall i :: 0 <= i < |s| ==> r[i] == s[|s| - 1 - i]
  {
    if |s| == 0 then "" else Reverse(s[1..]) + [s[0]]
  }

  /** `c` repeated `n` times (`"c".repeat(n)`). */
  function Repeat(c: char, n: nat): (r: string)
    ensures |r| == n
    ensures forall i :: 0 <= i < n ==> r[i] == c
  {
    if n == 0 then "" else Repeat(c, n - 1) + [c]
  }

  /** JavaScript `s.padStart(m, c)`: left-pad with `c` to width `m`, never truncate. */
  function PadStart(s: string, m: nat, c: char): (r: string)
    ensures |r| == if |s| >= m then |s| else m
    ensures |s| >= m ==> r == s
    ensures |s| < m ==> r == Repeat(c, m - |s|) + s
  {
    if |s| >= m then s else Repeat(c, m - |s|) + s
  }
}
