/**
 * JavaScript `Set` and `Map` iterate in insertion order and ignore repeated
 * insertions. A collection built that way is a duplicate-free sequence; this
 * module defines `Insert` (`set.add`) and `Dedup` (`new Set(xs)`) once, with
 * the facts the builder and the graph derivation rely on.
 */
module InsertionOrder {

  predicate Distinct<T(==,!new)>(xs: seq<T>)
  {
    forall i, j :: 0 <= i < j < |xs| ==> xs[i] != xs[j]
  }

  /** `set.add(x)`: append `x` unless it is already present. */
  function Insert<T(==,!new)>(xs: seq<T>, x: T): (r: seq<T>)
    ensures forall y :: y in r <==> y in xs || y == x
    ensures Distinct(xs) ==> Distinct(r)
  {
    if x in xs then xs else xs + [x]
  }

  /** The distinct elements of `xs` in order of first occurrence (`new Set(xs)`). */
  function Dedup<T(==,!new)>(xs: seq<T>): (r: seq<T>)
    ensures Distinct(r)
    ensures forall y :: y in r <==> y in xs
  {
    if |xs| == 0 then [] else Insert(Dedup(xs[..|xs| - 1]), xs[|xs| - 1])
  }

  lemma DedupSnoc<T(!new)>(xs: seq<T>, x: T)
    ensures Dedup(xs + [x]) == Insert(Dedup(xs), x)
  {
    assert (xs + [x])[..|xs|] == xs;
  }

  /** Index of the first occurrence of `x` in `xs`. */
  function IndexOf<T(==,!new)>(xs: seq<T>, x: T): (i: nat)
    requires x in xs
    ensures i < |xs| && xs[i] == x
    ensures forall j :: 0 <= j < i ==> xs[j] != x
  {
    if xs[0] == x then 0 else 1 + IndexOf(xs[1..], x)
  }

  lemma IndexOfPrefix<T(!new)>(xs: seq<T>, x: T, y: T)
    requires y in xs
    ensures IndexOf(xs + [x], y) == IndexOf(xs, y)
  {
    var i := IndexOf(xs, y);
    var k := IndexOf(xs + [x], y);
    assert (xs + [x])[i] == y;
    assert xs[k] == y;
  }

  lemma IndexOfLast<T(!new)>(xs: seq<T>, x: T)
    requires x !in xs
    ensures IndexOf(xs + [x], x) == |xs|
  {
    var k := IndexOf(xs + [x], x);
    assert (xs + [x])[k] == x;
  }

  /** Every element of `d` occurs in `xs`, and `d` lists them in the order of their first occurrence. */
  predicate OrderedBy<T(==,!new)>(d: seq<T>, xs: seq<T>)
  {
    && (forall i :: 0 <= i < |d| ==> d[i] in xs)
    && (forall i, j :: 0 <= i < j < |d| ==> IndexOf(xs, d[i]) < IndexOf(xs, d[j]))
  }

  /** The elements of `Dedup(xs)` appear in the order of their first occurrence in `xs`. */
  predicate FirstOccurrenceOrder<T(==,!new)>(xs: seq<T>)
  {
    OrderedBy(Dedup(xs), xs)
  }

  /** `Dedup` lists elements in the order of their first occurrence in the input. */
  lemma {:induction false} DedupFirstOccurrenceOrder<T(!new)>(xs: seq<T>)
    ensures FirstOccurrenceOrder(xs)
    decreases |xs|
  {
    if |xs| > 0 {
      var init, x := xs[..|xs| - 1], xs[|xs| - 1];
      assert xs == init + [x];
      DedupFirstOccurrenceOrder(init);
      FirstOccurrenceStep(init, x);
    }
  }

  /** Appending an element keeps the earlier first occurrences and puts a new element last. */
  lemma FirstOccurrenceStep<T(!new)>(init: seq<T>, x: T)
    requires FirstOccurrenceOrder(init)
    ensures FirstOccurrenceOrder(init + [x])
  {
    var d := Dedup(init);
    DedupSnoc(init, x);
    OrderedKept(d, init, x);
    if x !in d {
      OrderedSnoc(d, init, x);
    }
  }

  /** Appending to the input leaves an ordered list ordered. */
  lemma OrderedKept<T(!new)>(d: seq<T>, init: seq<T>, x: T)
    requires OrderedBy(d, init)
    ensures OrderedBy(d, init + [x])
  {
    forall y | y in init
      ensures IndexOf(init + [x], y) == IndexOf(init, y)
    {
      IndexOfPrefix(init, x, y);
    }
  }

  /** A new last input element goes after every element already listed. */
  lemma OrderedSnoc<T(!new)>(d: seq<T>, init: seq<T>, x: T)
    requires OrderedBy(d, init + [x]) && OrderedBy(d, init) && x !in init
    ensures OrderedBy(d + [x], init + [x])
  {
    var xs := init + [x];
    IndexOfLast(init, x);
    forall i | 0 <= i < |d|
      ensures IndexOf(xs, d[i]) < IndexOf(xs, x)
    {
      IndexOfPrefix(init, x, d[i]);
    }
  }

  /** A duplicate-free sequence is its own `Dedup`. */
  lemma {:induction false} DedupDistinct<T(!new)>(xs: seq<T>)
    requires Distinct(xs)
    ensures Dedup(xs) == xs
    decreases |xs|
  {
    if |xs| > 0 {
      var init, x := xs[..|xs| - 1], xs[|xs| - 1];
      assert xs == init + [x];
      DistinctSplit(xs);
      DedupDistinct(init);
      DedupSnoc(init, x);
    }
  }

  /** Dropping the last element of a duplicate-free sequence leaves one without it. */
  lemma DistinctSplit<T(!new)>(xs: seq<T>)
    requires Distinct(xs) && |xs| > 0
    ensures Distinct(xs[..|xs| - 1]) && xs[|xs| - 1] !in xs[..|xs| - 1]
  {
    var init := xs[..|xs| - 1];
    forall i | 0 <= i < |init|
      ensures init[i] != xs[|xs| - 1]
    {
      assert init[i] == xs[i];
    }
  }

  /** `set.delete(x)`: drop `x`, keeping the order of the rest. */
  function Remove<T(==,!new)>(xs: seq<T>, x: T): (r: seq<T>)
    ensures forall y :: y in r <==> y in xs && y != x
    ensures x !in xs ==> r == xs
  {
    if |xs| == 0 then []
    else if xs[0] == x then Remove(xs[1..], x)
    else [xs[0]] + Remove(xs[1..], x)
  }

  lemma {:induction false} RemoveLast<T(!new)>(xs: seq<T>, x: T)
    requires x !in xs
    ensures Remove(xs + [x], x) == xs
    decreases |xs|
  {
    if |xs| == 0 {
      assert Remove([x], x) == Remove([], x);
    } else {
      assert (xs + [x])[1..] == xs[1..] + [x];
      RemoveLast(xs[1..], x);
      assert xs == [xs[0]] + xs[1..];
    }
  }

  /** Adding an absent element and then deleting it gives back the original collection. */
  lemma RemoveInsert<T(!new)>(xs: seq<T>, x: T)
    requires x !in xs
    ensures Remove(Insert(xs, x), x) == xs
  {
    RemoveLast(xs, x);
  }
}
