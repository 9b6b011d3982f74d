/**
 * The pattern sequence panel (web/src/components/builder/pattern-sequence.tsx):
 * one row per chosen step with the binary labels of its two states and a loop
 * mark, followed by the siteswap, i.e. the throw heights separated by spaces.
 */
module PatternSequence {
  import opened Text
  import opened InsertionOrder
  import opened BinaryLabel
  import opened BuilderReducer

  /** No mark, the amber "loop" mark, or the green mark of a return to the ground state. */
  datatype LoopMark = NoLoop | Loop | GroundLoop

  datatype Row = Row(fromLabel: string, throwHeight: nat, toLabel: string, mark: LoopMark)

  datatype SequenceView = Placeholder | Pattern(rows: seq<Row>, siteswap: string)

  /**
   * `wasVisited` is a lookup in entry `i` of the snapshots, false when the
   * entry is missing; a ground loop is a loop back to the ground state.
   */
  function Mark(visitedBefore: seq<seq<nat>>, i: nat, destination: nat, groundState: nat): (m: LoopMark)
    ensures m != NoLoop <==> i < |visitedBefore| && destination in visitedBefore[i]
    ensures m == GroundLoop <==> m != NoLoop && destination == groundState
  {
    var wasVisited := i < |visitedBefore| && destination in visitedBefore[i];
    var isGroundLoop := wasVisited && destination == groundState;
    if isGroundLoop then GroundLoop else if wasVisited then Loop else NoLoop
  }

  function HeightTexts(steps: seq<Step>): (r: seq<string>)
    ensures |r| == |steps|
    ensures forall i :: 0 <= i < |steps| ==> r[i] == Decimal(steps[i].throwHeight)
  {
    seq(|steps|, i requires 0 <= i < |steps| => Decimal(steps[i].throwHeight))
  }

  /** `steps.map((s) => s.throwHeight).join(" ")`. */
  function Siteswap(steps: seq<Step>): (r: string)
    ensures |steps| == 0 <==> r == ""
  {
    Join(HeightTexts(steps), ' ')
  }

  /** The siteswap splits at its spaces into the throw heights, in step order. */
  lemma SiteswapHeights(steps: seq<Step>)
    requires |steps| >= 1
    ensures |Split(Siteswap(steps), ' ')| == |steps|
    ensures forall i :: 0 <= i < |steps| ==>
      AllDigits(Split(Siteswap(steps), ' ')[i]) && DecimalValue(Split(Siteswap(steps), ' ')[i]) == steps[i].throwHeight
  {
    var items := HeightTexts(steps);
    forall i | 0 <= i < |items|
      ensures Free(items[i], ' ')
    {
      DecimalFree(steps[i].throwHeight, ' ');
    }
    SplitJoin(items, ' ');
    forall i | 0 <= i < |steps|
      ensures DecimalValue(items[i]) == steps[i].throwHeight
    {
      DecimalRoundTrip(steps[i].throwHeight);
    }
  }

  /** Two step lists with the same siteswap have the same heights; only the empty walk has the empty siteswap. */
  lemma SiteswapInjective(xs: seq<Step>, ys: seq<Step>)
    requires Siteswap(xs) == Siteswap(ys)
    ensures |xs| == |ys|
    ensures forall i :: 0 <= i < |xs| ==> xs[i].throwHeight == ys[i].throwHeight
  {
    if |xs| >= 1 && |ys| >= 1 {
      SiteswapHeights(xs);
      SiteswapHeights(ys);
    }
  }

  /**
   * One row per step: both labels read back as the step's states, the height is
   * the step's, and the mark is the step's loop mark.
   */
  function Rows(steps: seq<Step>, groundState: nat, maxHeight: nat, visitedBefore: seq<seq<nat>>): (r: seq<Row>)
    ensures |r| == |steps|
    ensures forall i :: 0 <= i < |steps| ==>
      && IsBinary(r[i].fromLabel) && StateNotation.BinaryValue(r[i].fromLabel) == steps[i].state
      && IsBinary(r[i].toLabel) && StateNotation.BinaryValue(r[i].toLabel) == steps[i].destination
      && |r[i].fromLabel| >= maxHeight && |r[i].toLabel| >= maxHeight
      && r[i].throwHeight == steps[i].throwHeight
      && r[i].mark == Mark(visitedBefore, i, steps[i].destination, groundState)
  {
    forall i | 0 <= i < |steps|
      ensures StateNotation.BinaryValue(ToBinaryLabel(steps[i].state, maxHeight, false)) == steps[i].state
      ensures StateNotation.BinaryValue(ToBinaryLabel(steps[i].destination, maxHeight, false)) == steps[i].destination
    {
      LabelValue(steps[i].state, maxHeight);
      LabelValue(steps[i].destination, maxHeight);
    }
    seq(|steps|, i requires 0 <= i < |steps| =>
      Row(ToBinaryLabel(steps[i].state, maxHeight, false), steps[i].throwHeight,
          ToBinaryLabel(steps[i].destination, maxHeight, false),
          Mark(visitedBefore, i, steps[i].destination, groundState)))
  }

  /**
   * With the canvas's snapshots, row `i` is marked exactly when its step
   * returns to the ground state or to the destination of an earlier step, and
   * is a ground loop exactly when it returns to the ground state.
   */
  lemma RowsMeaning(steps: seq<Step>, groundState: nat, maxHeight: nat, visitedBefore: seq<seq<nat>>, i: nat)
    requires AreSnapshots(visitedBefore, groundState, steps) && i < |steps|
    ensures var row := Rows(steps, groundState, maxHeight, visitedBefore)[i];
      && (row.mark != NoLoop <==>
          steps[i].destination == groundState || exists j :: 0 <= j < i && steps[j].destination == steps[i].destination)
      && (row.mark == GroundLoop <==> steps[i].destination == groundState)
  {
    MarkMeaning(steps, groundState, visitedBefore, i);
  }

  /** `PatternSequence({steps, groundState, maxHeight, visitedStatesBefore})`. */
  function View(steps: seq<Step>, groundState: nat, maxHeight: nat, visitedBefore: seq<seq<nat>>): (v: SequenceView)
    ensures v.Placeholder? <==> |steps| == 0
    ensures v.Pattern? ==> |v.rows| == |steps|
    ensures v.Pattern? ==> v.rows == Rows(steps, groundState, maxHeight, visitedBefore) && v.siteswap == Siteswap(steps)
  {
    if |steps| == 0 then Placeholder
    else Pattern(Rows(steps, groundState, maxHeight, visitedBefore), Siteswap(steps))
  }

  /** The snapshots the canvas computes: entry `i` is the visited set before step `i`. */
  predicate AreSnapshots(visitedBefore: seq<seq<nat>>, groundState: nat, steps: seq<Step>)
  {
    |visitedBefore| == |steps| &&
    forall i :: 0 <= i < |steps| ==> visitedBefore[i] == Visited(groundState, steps[..i])
  }

  /**
   * With the canvas's snapshots, step `i` is marked exactly when it returns to
   * the ground state or to the destination of an earlier step, and it is a
   * ground loop exactly when it returns to the ground state.
   */
  lemma MarkMeaning(steps: seq<Step>, groundState: nat, visitedBefore: seq<seq<nat>>, i: nat)
    requires AreSnapshots(visitedBefore, groundState, steps) && i < |steps|
    ensures Mark(visitedBefore, i, steps[i].destination, groundState) != NoLoop <==>
      steps[i].destination == groundState || exists j :: 0 <= j < i && steps[j].destination == steps[i].destination
    ensures Mark(visitedBefore, i, steps[i].destination, groundState) == GroundLoop <==>
      steps[i].destination == groundState
  {
    var d := steps[i].destination;
    var p := steps[..i];
    if exists j :: 0 <= j < i && steps[j].destination == d {
      var j :| 0 <= j < i && steps[j].destination == d;
      assert p[j].destination == d;
    }
    if d in Visited(groundState, p) && d != groundState {
      var j :| 0 <= j < |p| && p[j].destination == d;
      assert steps[j].destination == d;
    }
  }

  /** The first step is never marked as an ordinary loop: before it only the ground state was visited. */
  lemma FirstStepMark(steps: seq<Step>, groundState: nat, visitedBefore: seq<seq<nat>>)
    requires AreSnapshots(visitedBefore, groundState, steps) && |steps| >= 1
    ensures Mark(visitedBefore, 0, steps[0].destination, groundState) != Loop
  {
    MarkMeaning(steps, groundState, visitedBefore, 0);
  }

  /** G to A and back: the second step closes a ground loop. */
  lemma GroundLoopExample()
    ensures var steps := [Step(3, 3, 5), Step(5, 2, 3)];
      var before := [[3], [3, 5]];
      && AreSnapshots(before, 3, steps)
      && Mark(before, 0, 5, 3) == NoLoop
      && Mark(before, 1, 3, 3) == GroundLoop
      && Siteswap(steps) == "3 2"
  {
    var steps := [Step(3, 3, 5), Step(5, 2, 3)];
    assert steps[..0] == [] && steps[..1] == [Step(3, 3, 5)];
    assert Decimal(3) == "3" && Decimal(2) == "2";
    assert HeightTexts(steps) == ["3", "2"];
  }

  /** G to A to B and back to A: only the last step is marked, as an ordinary loop. */
  lemma PlainLoopExample()
    ensures var steps := [Step(3, 3, 5), Step(5, 2, 6), Step(6, 1, 5)];
      var before := [[3], [3, 5], [3, 5, 6]];
      && AreSnapshots(before, 3, steps)
      && Mark(before, 0, 5, 3) == NoLoop
      && Mark(before, 1, 6, 3) == NoLoop
      && Mark(before, 2, 5, 3) == Loop
  {
    var steps := [Step(3, 3, 5), Step(5, 2, 6), Step(6, 1, 5)];
    assert steps[..0] == [] && steps[..1] == [Step(3, 3, 5)] && steps[..2] == [Step(3, 3, 5), Step(5, 2, 6)];
    var two := [Step(3, 3, 5), Step(5, 2, 6)];
    assert two[..1] == [Step(3, 3, 5)];
    assert Visited(3, [Step(3, 3, 5)]) == [3, 5];
    assert Visited(3, two) == [3, 5, 6];
  }
}
