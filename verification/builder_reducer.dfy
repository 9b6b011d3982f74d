/**
 * The undoable builder (web/src/hooks/use-builder-reducer.ts): a walk through
 * the state graph one chosen throw at a time, with undo and reset.
 *
 * `visitedStates` is a JavaScript `Set`, whose iteration order is insertion
 * order; it is a duplicate-free sequence here, built with `Insert`.
 */
module BuilderReducer {
  import opened InsertionOrder

  datatype Step = Step(state: nat, throwHeight: nat, destination: nat)

  datatype BuilderState = BuilderState(groundState: nat, currentState: nat, steps: seq<Step>, visitedStates: seq<nat>)

  datatype Action =
    | ChooseThrow(throwHeight: nat, destination: nat)
    | Undo
    | Reset(groundState: nat)

  /** The state the walk stands on after `steps`: the last destination, or the ground state. */
  function Current(groundState: nat, steps: seq<Step>): nat
  {
    if |steps| == 0 then groundState else steps[|steps| - 1].destination
  }

  /** `new Set([ground])` followed by `add(step.destination)` for every step, in order. */
  function Visited(groundState: nat, steps: seq<Step>): (r: seq<nat>)
    ensures Distinct(r)
    ensures |r| >= 1 && r[0] == groundState
    ensures forall x :: x in r <==> x == groundState || exists i :: 0 <= i < |steps| && steps[i].destination == x
  {
    if |steps| == 0 then [groundState]
    else
      var init := steps[..|steps| - 1];
      var r := Insert(Visited(groundState, init), steps[|steps| - 1].destination);
      assert forall i :: 0 <= i < |init| ==> steps[i] == init[i];
      r
  }

  /** Each step starts where the previous one ended; the first starts at the ground state. */
  predicate Chained(groundState: nat, steps: seq<Step>)
  {
    forall i :: 0 <= i < |steps| ==> steps[i].state == Current(groundState, steps[..i])
  }

  /** What every reachable builder state satisfies. */
  predicate Invariant(s: BuilderState)
  {
    && s.currentState == Current(s.groundState, s.steps)
    && s.visitedStates == Visited(s.groundState, s.steps)
    && Chained(s.groundState, s.steps)
  }

  /** `createInitialState(groundState)`. */
  function Initial(groundState: nat): (r: BuilderState)
    ensures r.groundState == groundState && r.currentState == groundState
    ensures r.steps == [] && r.visitedStates == [groundState]
    ensures Invariant(r)
  {
    BuilderState(groundState, groundState, [], [groundState])
  }

  /** `builderReducer(state, action)`. */
  function Reduce(s: BuilderState, a: Action): (r: BuilderState)
    ensures !a.Reset? ==> r.groundState == s.groundState
    ensures a.ChooseThrow? ==>
      && r.steps == s.steps + [Step(s.currentState, a.throwHeight, a.destination)]
      && r.currentState == a.destination
      && (forall x :: x in r.visitedStates <==> x in s.visitedStates || x == a.destination)
    ensures a.Undo? && |s.steps| == 0 ==> r == s
    ensures a.Undo? && |s.steps| > 0 ==>
      && r.steps == s.steps[..|s.steps| - 1]
      && r.currentState == Current(s.groundState, r.steps)
      && r.visitedStates == Visited(s.groundState, r.steps)
    ensures a.Reset? ==> r == Initial(a.groundState)
  {
    match a
    case ChooseThrow(h, d) =>
      var step := Step(s.currentState, h, d);
      s.(currentState := d, steps := s.steps + [step], visitedStates := Insert(s.visitedStates, d))
    case Undo =>
      if |s.steps| == 0 then s
      else
        var newSteps := s.steps[..|s.steps| - 1];
        var newCurrent := if |newSteps| > 0 then newSteps[|newSteps| - 1].destination else s.groundState;
        s.(currentState := newCurrent, steps := newSteps, visitedStates := Visited(s.groundState, newSteps))
    case Reset(g) => Initial(g)
  }

  /** Every action keeps the invariant. */
  lemma ReducePreserves(s: BuilderState, a: Action)
    requires Invariant(s)
    ensures Invariant(Reduce(s, a))
  {
    var r := Reduce(s, a);
    match a
    case ChooseThrow(h, d) =>
      var n := |s.steps|;
      assert r.steps[..n] == s.steps;
      assert r.visitedStates == Visited(s.groundState, r.steps);
      forall i | 0 <= i < |r.steps|
        ensures r.steps[i].state == Current(s.groundState, r.steps[..i])
      {
        if i < n {
          assert r.steps[..i] == s.steps[..i];
        }
      }
    case Undo =>
      if |s.steps| > 0 {
        forall i | 0 <= i < |r.steps|
          ensures r.steps[i].state == Current(s.groundState, r.steps[..i])
        {
          assert r.steps[..i] == s.steps[..i];
        }
      }
    case Reset(g) =>
  }

  /** Undo straight after a choice gives back the state before it. */
  lemma ChooseThenUndo(s: BuilderState, throwHeight: nat, destination: nat)
    requires Invariant(s)
    ensures Reduce(Reduce(s, ChooseThrow(throwHeight, destination)), Undo) == s
  {
    var t := Reduce(s, ChooseThrow(throwHeight, destination));
    assert t.steps[..|t.steps| - 1] == s.steps;
  }

  /** The actions applied left to right, as React's `dispatch` would. */
  function Run(s: BuilderState, actions: seq<Action>): (r: BuilderState)
    decreases |actions|
  {
    if |actions| == 0 then s else Run(Reduce(s, actions[0]), actions[1..])
  }

  /** From the initial state, any sequence of actions ends in a state satisfying the invariant. */
  lemma {:induction false} RunPreserves(s: BuilderState, actions: seq<Action>)
    requires Invariant(s)
    ensures Invariant(Run(s, actions))
    decreases |actions|
  {
    if |actions| > 0 {
      ReducePreserves(s, actions[0]);
      RunPreserves(Reduce(s, actions[0]), actions[1..]);
    }
  }

  /** The ground state moves only on `RESET`. */
  lemma {:induction false} RunKeepsGround(s: BuilderState, actions: seq<Action>)
    requires forall i :: 0 <= i < |actions| ==> !actions[i].Reset?
    ensures Run(s, actions).groundState == s.groundState
    decreases |actions|
  {
    if |actions| > 0 {
      RunKeepsGround(Reduce(s, actions[0]), actions[1..]);
    }
  }

  /** Reachable states satisfy the invariant, so visited states never repeat. */
  lemma ReachableDistinct(groundState: nat, actions: seq<Action>)
    ensures Invariant(Run(Initial(groundState), actions))
    ensures Distinct(Run(Initial(groundState), actions).visitedStates)
  {
    RunPreserves(Initial(groundState), actions);
  }
}
