/**
 * The table route of the engine (engine/src/routes/table.rs): the cache key
 * derived from a query, and `compute_table`, a hand-written JSON serialiser
 * over a transition table the juggling-tools library has already computed.
 * The library's table computation is not part of this model; the table is
 * an input.
 */
module TableRoute {
  import opened Results
  import opened Text
  import opened Bitmask
  import opened StateNotation

  datatype StateNotationQuery = StateNotationQuery(numProps: nat, maxHeight: nat, compact: bool, reversed: bool)

  /** The library's table: the states, one row of optional throw heights per state, the ground state. */
  datatype Table = Table(states: seq<State>, cells: seq<seq<Option<nat>>>, groundState: State)

  /** Compact tables carry bare numbers, so the `reversed` flag only matters without `compact`. */
  function EffectiveReversed(q: StateNotationQuery): bool
  {
    !q.compact && q.reversed
  }

  /** Rust's `Display` for `bool`. */
  function BoolText(b: bool): (r: string)
    ensures Free(r, '-') && Free(r, ',')
  {
    if b then "true" else "false"
  }

  /** The fields of a cache key, in order: schema version, props, height, compact, effective reversed. */
  function KeyFields(schemaVersion: nat, q: StateNotationQuery): seq<string>
  {
    [Decimal(schemaVersion), Decimal(q.numProps), Decimal(q.maxHeight), BoolText(q.compact), BoolText(EffectiveReversed(q))]
  }

  /**
   * The key under which every cache tier stores the serialised table: `table-v`
   * and the fields joined by `-`. After the prefix, splitting the key on `-`
   * gives back its fields.
   */
  function CacheKey(schemaVersion: nat, q: StateNotationQuery): (key: string)
    ensures |key| >= 7 && key[..7] == "table-v"
    ensures Split(key[7..], '-') == KeyFields(schemaVersion, q)
  {
    var f := KeyFields(schemaVersion, q);
    DecimalFree(schemaVersion, '-');
    DecimalFree(q.numProps, '-');
    DecimalFree(q.maxHeight, '-');
    assert AllFree(f, '-');
    var key := "table-v" + Join(f, '-');
    assert key[7..] == Join(f, '-');
    SplitJoin(f, '-');
    key
  }

  /** The key of the route's default query, written out. */
  lemma CacheKeyExample()
    ensures CacheKey(1, StateNotationQuery(3, 5, false, true)) == "table-v1-3-5-false-true"
  {
    KeyFieldsJoin(1, StateNotationQuery(3, 5, false, true), "false", "true");
    DefaultKeyText();
  }

  /** With `compact` set, `reversed` is dropped from the key. */
  lemma CacheKeyCompactExample()
    ensures CacheKey(1, StateNotationQuery(3, 5, true, true)) == "table-v1-3-5-true-false"
  {
    KeyFieldsJoin(1, StateNotationQuery(3, 5, true, true), "true", "false");
    CompactKeyText();
  }

  /** The fields of a key for three props at height five, joined by `-`. */
  lemma KeyFieldsJoin(v: nat, q: StateNotationQuery, c: string, r: string)
    requires v == 1 && q.numProps == 3 && q.maxHeight == 5
    requires c == BoolText(q.compact) && r == BoolText(EffectiveReversed(q))
    ensures CacheKey(v, q) == "table-v" + ("1" + "-" + "3" + "-" + "5" + "-" + c + "-" + r)
  {
    SmallDecimals();
    assert KeyFields(v, q) == ["1", "3", "5", c, r];
    JoinFive("1", "3", "5", c, r, '-');
  }

  lemma DefaultKeyText()
    ensures "table-v" + ("1" + "-" + "3" + "-" + "5" + "-" + "false" + "-" + "true") == "table-v1-3-5-false-true"
  {
  }

  lemma CompactKeyText()
    ensures "table-v" + ("1" + "-" + "3" + "-" + "5" + "-" + "true" + "-" + "false") == "table-v1-3-5-true-false"
  {
  }

  lemma SmallDecimals()
    ensures Decimal(1) == "1" && Decimal(3) == "3" && Decimal(5) == "5"
  {
  }

  lemma JoinFive(a: string, b: string, c: string, d: string, e: string, sep: char)
    ensures Join([a, b, c, d, e], sep) == a + [sep] + b + [sep] + c + [sep] + d + [sep] + e
  {
    var xs := [a, b, c, d, e];
    assert xs[1..] == [b, c, d, e] && xs[1..][1..] == [c, d, e] && xs[1..][1..][1..] == [d, e];
    assert [d, e][1..] == [e];
    assert Join([d, e], sep) == d + [sep] + e;
    assert Join([c, d, e], sep) == c + [sep] + Join([d, e], sep);
    assert Join([b, c, d, e], sep) == b + [sep] + Join([c, d, e], sep);
  }

  /**
   * Two queries share a cache key exactly when they agree on the schema
   * version, the prop count, the height, `compact` and the effective
   * `reversed` flag.
   */
  lemma CacheKeyInjective(v1: nat, q1: StateNotationQuery, v2: nat, q2: StateNotationQuery)
    ensures CacheKey(v1, q1) == CacheKey(v2, q2) <==>
      v1 == v2 && q1.numProps == q2.numProps && q1.maxHeight == q2.maxHeight &&
      q1.compact == q2.compact && EffectiveReversed(q1) == EffectiveReversed(q2)
  {
    if CacheKey(v1, q1) == CacheKey(v2, q2) {
      var f1, f2 := KeyFields(v1, q1), KeyFields(v2, q2);
      assert f1 == f2;
      assert f1[0] == f2[0] && f1[1] == f2[1] && f1[2] == f2[2] && f1[3] == f2[3] && f1[4] == f2[4];
      DecimalInjective(v1, v2);
      DecimalInjective(q1.numProps, q2.numProps);
      DecimalInjective(q1.maxHeight, q2.maxHeight);
    }
  }

  /** A compact query has the same key whatever its `reversed` flag. */
  lemma CompactKeyIgnoresReversed(v: nat, q: StateNotationQuery, reversed: bool)
    requires q.compact
    ensures CacheKey(v, q) == CacheKey(v, q.(reversed := reversed))
  {
  }

  /** The `state_value` closure: a bare decimal when compact, else a quoted binary string. */
  function StateValue(q: StateNotationQuery, s: State, w: BitsWidth): (r: string)
    requires q.maxHeight <= w
    ensures q.compact ==> AllDigits(r) && DecimalValue(r) == s.bits
    ensures !q.compact ==>
      |r| == q.maxHeight + 2 && r[0] == '"' && r[|r| - 1] == '"' &&
      forall i :: 1 <= i <= q.maxHeight ==> r[i] == '0' || r[i] == '1'
    ensures Free(r, ',')
  {
    if q.compact then
      DecimalRoundTrip(s.bits);
      DecimalFree(s.bits, ',');
      Decimal(s.bits)
    else
      var binary := ToBinaryString(s, q.maxHeight, w);
      var display := if q.reversed then Reverse(binary) else binary;
      "\"" + display + "\""
  }

  /** The text between the quotes of a non-compact, non-reversed value reads back as the state. */
  lemma StateValueBinary(q: StateNotationQuery, s: State, w: BitsWidth)
    requires q.maxHeight <= w && !q.compact && !q.reversed && ValidFor(s, q.maxHeight)
    ensures var r := StateValue(q, s, w); BinaryValue(r[1..|r| - 1]) == s.bits
  {
    var r := StateValue(q, s, w);
    assert r[1..|r| - 1] == ToBinaryString(s, q.maxHeight, w);
    BinaryStringValue(s, q.maxHeight, w);
  }

  /** A reversed non-compact value is the character reverse of the non-reversed one, inside the quotes. */
  lemma StateValueReversed(q: StateNotationQuery, s: State, w: BitsWidth)
    requires q.maxHeight <= w && !q.compact
    ensures var a, b := StateValue(q.(reversed := false), s, w), StateValue(q.(reversed := true), s, w);
      b[1..|b| - 1] == Reverse(a[1..|a| - 1])
  {
    var a, b := StateValue(q.(reversed := false), s, w), StateValue(q.(reversed := true), s, w);
    var binary := ToBinaryString(s, q.maxHeight, w);
    assert a[1..|a| - 1] == binary;
    assert b[1..|b| - 1] == Reverse(binary);
  }

  /** A table cell: the throw height as a number, or `null`. */
  function CellText(c: Option<nat>): (r: string)
    ensures r == "null" <==> c.None?
    ensures c.Some? ==> AllDigits(r) && DecimalValue(r) == c.value
    ensures Free(r, ',')
  {
    match c
    case None => "null"
    case Some(v) =>
      DecimalRoundTrip(v);
      DecimalFree(v, ',');
      Decimal(v)
  }

  function CellTexts(row: seq<Option<nat>>): (r: seq<string>)
    ensures |r| == |row| && forall j :: 0 <= j < |row| ==> r[j] == CellText(row[j])
  {
    seq(|row|, j requires 0 <= j < |row| => CellText(row[j]))
  }

  /** One bracketed, comma-separated row. */
  function RowText(row: seq<Option<nat>>): string
  {
    "[" + Join(CellTexts(row), ',') + "]"
  }

  function RowTexts(cells: seq<seq<Option<nat>>>): (r: seq<string>)
    ensures |r| == |cells| && forall i :: 0 <= i < |cells| ==> r[i] == RowText(cells[i])
  {
    seq(|cells|, i requires 0 <= i < |cells| => RowText(cells[i]))
  }

  function StateValues(q: StateNotationQuery, states: seq<State>, w: BitsWidth): (r: seq<string>)
    requires q.maxHeight <= w
    ensures |r| == |states| && forall i :: 0 <= i < |states| ==> r[i] == StateValue(q, states[i], w)
  {
    seq(|states|, i requires 0 <= i < |states| => StateValue(q, states[i], w))
  }

  /**
   * The document `compute_table` writes, as a declarative reference: the
   * fields states, cells, ground_state, num_states, max_height and
   * num_props, in that order.
   */
  function TableJson(q: StateNotationQuery, t: Table, w: BitsWidth): string
    requires q.maxHeight <= w
  {
    "{\"states\":[" + Join(StateValues(q, t.states, w), ',')
      + "],\"cells\":[" + Join(RowTexts(t.cells), ',')
      + "],\"ground_state\":" + StateValue(q, t.groundState, w)
      + ",\"num_states\":" + Decimal(|t.states|)
      + ",\"max_height\":" + Decimal(q.maxHeight)
      + ",\"num_props\":" + Decimal(q.numProps)
      + "}"
  }

  /** `compute_table`: the serialiser's loops, building the reference document. */
  method ComputeTable(q: StateNotationQuery, t: Table, w: BitsWidth) returns (buf: string)
    requires q.maxHeight <= w
    ensures buf == TableJson(q, t, w)
  {
    var values := StateValues(q, t.states, w);
    buf := "{\"states\":[";
    var i := 0;
    while i < |t.states|
      invariant 0 <= i <= |t.states|
      invariant buf == "{\"states\":[" + Join(values[..i], ',')
    {
      ghost var before := buf;
      if i > 0 {
        buf := buf + [','];
      }
      buf := buf + StateValue(q, t.states[i], w);
      JoinStep("{\"states\":[", values, i, ',', before, buf);
      i := i + 1;
    }
    assert values[..|t.states|] == values;
    var statesPart := buf;

    buf := buf + "],\"cells\":[";
    var rows := RowTexts(t.cells);
    var r := 0;
    while r < |t.cells|
      invariant 0 <= r <= |t.cells|
      invariant buf == statesPart + "],\"cells\":[" + Join(rows[..r], ',')
    {
      ghost var before := buf;
      if r > 0 {
        buf := buf + [','];
      }
      var row := RowLoop(t.cells[r]);
      buf := buf + row;
      JoinStep(statesPart + "],\"cells\":[", rows, r, ',', before, buf);
      r := r + 1;
    }
    assert rows[..|t.cells|] == rows;

    buf := buf + "],\"ground_state\":";
    buf := buf + StateValue(q, t.groundState, w);
    buf := buf + ",\"num_states\":";
    buf := buf + Decimal(|t.states|);
    buf := buf + ",\"max_height\":";
    buf := buf + Decimal(q.maxHeight);
    buf := buf + ",\"num_props\":";
    buf := buf + Decimal(q.numProps);
    buf := buf + "}";
  }

  /** The inner loop of `compute_table` writing one row of cells. */
  method RowLoop(row: seq<Option<nat>>) returns (text: string)
    ensures text == RowText(row)
  {
    var cells := CellTexts(row);
    text := "[";
    var j := 0;
    while j < |row|
      invariant 0 <= j <= |row|
      invariant text == "[" + Join(cells[..j], ',')
    {
      ghost var before := text;
      if j > 0 {
        text := text + [','];
      }
      match row[j] {
        case Some(v) => text := text + Decimal(v);
        case None => text := text + "null";
      }
      JoinStep("[", cells, j, ',', before, text);
      j := j + 1;
    }
    assert cells[..|row|] == cells;
    text := text + "]";
  }

  /** Appending item `i` (after a separator unless it is the first) extends the join of the prefix. */
  lemma AppendItem(items: seq<string>, i: nat, sep: char)
    requires i < |items|
    ensures Join(items[..i + 1], sep) == Join(items[..i], sep) + (if i > 0 then [sep] else []) + items[i]
  {
    assert items[..i + 1] == items[..i] + [items[i]];
    if i > 0 {
      JoinSnoc(items[..i], items[i], sep);
    } else {
      assert items[..1] == [items[0]];
    }
  }

  /** One loop iteration: the buffer grows from the join of the prefix to the join of one more item. */
  lemma JoinStep(prefix: string, items: seq<string>, i: nat, sep: char, before: string, after: string)
    requires i < |items| && before == prefix + Join(items[..i], sep)
    requires after == (if i > 0 then before + [sep] else before) + items[i]
    ensures after == prefix + Join(items[..i + 1], sep)
  {
    AppendItem(items, i, sep);
  }

  /** The states array splits on commas into one value per state, in order. */
  lemma StatesSectionSplits(q: StateNotationQuery, t: Table, w: BitsWidth)
    requires q.maxHeight <= w && |t.states| >= 1
    ensures Split(Join(StateValues(q, t.states, w), ','), ',') == StateValues(q, t.states, w)
  {
    SplitJoin(StateValues(q, t.states, w), ',');
  }

  /** A row splits on commas into one cell per state, each `null` or its throw height. */
  lemma RowSplits(row: seq<Option<nat>>)
    requires |row| >= 1
    ensures var texts := Split(RowText(row)[1..|RowText(row)| - 1], ',');
      |texts| == |row| &&
      forall j :: 0 <= j < |row| ==>
        (texts[j] == "null" <==> row[j].None?) &&
        (row[j].Some? ==> AllDigits(texts[j]) && DecimalValue(texts[j]) == row[j].value)
  {
    var text := RowText(row);
    assert text[1..|text| - 1] == Join(CellTexts(row), ',');
    SplitJoin(CellTexts(row), ',');
  }
}
