/**
 * The pure parts of the builder canvas
 * (web/src/components/builder/builder-canvas.tsx): the ground state for a prop
 * count, the per-step snapshots of the visited set that the pattern sequence
 * classifies loops with, and which buttons are enabled.
 */
module BuilderCanvas {
  import opened Bitmask
  import opened InsertionOrder
  import opened BuilderReducer

  /**
   * `(1 << numProps) - 1`. JavaScript shifts a 32-bit signed integer, so the
   * formula is the `numProps` low bits only while `numProps <= 30`.
   */
  function GroundState(numProps: nat): (r: nat)
    requires numProps <= 30
    ensures r < Pow2(numProps) && Popcount(r) == numProps
    ensures forall j :: 0 <= j < numProps ==> IsSet(r, j)
  {
    LowMaskBits(numProps);
    LowMaskSet(numProps);
    Pow2(numProps) - 1
  }

  lemma {:induction false} LowMaskSet(k: nat)
    ensures forall j :: 0 <= j < k ==> IsSet(LowMask(k), j)
    decreases k
  {
    if k > 0 {
      LowMaskSet(k - 1);
      assert LowMask(k) == 2 * LowMask(k - 1) + 1;
      forall j | 0 <= j < k
        ensures IsSet(LowMask(k), j)
      {
        if j > 0 {
          assert LowMask(k) / 2 == LowMask(k - 1);
          BitSucc(LowMask(k), j - 1);
          assert IsSet(LowMask(k - 1), j - 1);
        } else {
          assert Shr(LowMask(k), 0) == LowMask(k);
          assert LowMask(k) % 2 == 1;
        }
      }
    }
  }

  /**
   * The `visitedStatesBefore` memo: before step `i` is recorded, a copy of
   * the visited set so far is pushed.
   */
  method VisitedStatesBefore(groundState: nat, steps: seq<Step>) returns (result: seq<seq<nat>>)
    ensures |result| == |steps|
    ensures forall i :: 0 <= i < |steps| ==> result[i] == Visited(groundState, steps[..i])
  {
    result := [];
    var visited := [groundState];
    for i := 0 to |steps|
      invariant |result| == i
      invariant visited == Visited(groundState, steps[..i])
      invariant forall k :: 0 <= k < i ==> result[k] == Visited(groundState, steps[..k])
    {
      result := result + [visited];
      assert steps[..i + 1][..i] == steps[..i];
      visited := Insert(visited, steps[i].destination);
    }
  }

  /**
   * Entry `i` holds the ground state and the destinations of the steps before
   * `i`, and nothing from step `i` on: each entry is a snapshot.
   */
  lemma SnapshotContents(groundState: nat, steps: seq<Step>, i: nat, x: nat)
    requires i < |steps|
    ensures x in Visited(groundState, steps[..i]) <==>
      x == groundState || exists j :: 0 <= j < i && steps[j].destination == x
  {
    if x != groundState && x in Visited(groundState, steps[..i]) {
      var j :| 0 <= j < i && steps[..i][j].destination == x;
      assert steps[j].destination == x;
    }
    if exists j :: 0 <= j < i && steps[j].destination == x {
      var j :| 0 <= j < i && steps[j].destination == x;
      assert steps[..i][j].destination == x;
    }
  }

  /** Entry `i` is the visited set the reducer held when step `i` was chosen. */
  lemma SnapshotIsReducerState(s: BuilderState, i: nat)
    requires Invariant(s) && i < |s.steps|
    ensures Invariant(BuilderState(s.groundState, Current(s.groundState, s.steps[..i]), s.steps[..i], Visited(s.groundState, s.steps[..i])))
    ensures s.steps[i].state == Current(s.groundState, s.steps[..i])
  {
    var p := s.steps[..i];
    forall k | 0 <= k < |p|
      ensures p[k].state == Current(s.groundState, p[..k])
    {
      assert p[..k] == s.steps[..k];
    }
  }

  /** Undo and Reset are disabled exactly when there is no step. */
  function UndoEnabled(s: BuilderState): (r: bool)
    ensures r <==> Reduce(s, Undo) != s
  {
    |s.steps| != 0
  }

  function ResetEnabled(s: BuilderState): (r: bool)
    ensures Invariant(s) ==> (r <==> Reduce(s, Reset(s.groundState)) != s)
  {
    |s.steps| != 0
  }

  /** The action `handleReset` dispatches. */
  function ResetAction(numProps: nat): (a: Action)
    requires numProps <= 30
    ensures a.Reset? && a.groundState == GroundState(numProps)
  {
    Reset(GroundState(numProps))
  }

  /** A disabled Reset would not change anything: with no steps, resetting to the same ground is the identity. */
  lemma DisabledResetIsIdentity(s: BuilderState)
    requires Invariant(s) && !ResetEnabled(s)
    ensures Reduce(s, Reset(s.groundState)) == s
  {
  }

  /** The builder's walk starts from the ground state whose popcount is the prop count. */
  lemma CanvasStart(numProps: nat)
    requires numProps <= 30
    ensures Initial(GroundState(numProps)).currentState == LowMask(numProps)
    ensures Reduce(Initial(GroundState(numProps)), ResetAction(numProps)) == Initial(GroundState(numProps))
  {
  }

  /** `(1 << 3) - 1` is `0b111`. */
  lemma GroundStateExample()
    ensures GroundState(3) == 7
    ensures GroundState(0) == 0
  {
  }
}
