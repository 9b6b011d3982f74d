/**
 * Facts that tie the web client to the engine: the builder's ground state is
 * the first state the engine enumerates, its label is the graph's base node
 * id, and a walk built from the engine's throw options never changes the
 * number of props.
 */
module Linking {
  import opened Bitmask
  import opened Results
  import StateNotation
  import Throws
  import BinaryLabel
  import BuilderReducer
  import BuilderCanvas
  import GraphLayout

  /** The canvas's `(1 << numProps) - 1` is `generate(numProps, maxHeight)[0]`. */
  lemma GroundIsFirstGenerated(numProps: nat, maxHeight: nat, w: StateNotation.BitsWidth)
    requires numProps <= 30 && numProps <= maxHeight <= w
    ensures |StateNotation.Generate(numProps, maxHeight, w)| > 0
    ensures StateNotation.Generate(numProps, maxHeight, w)[0] == StateNotation.State(BuilderCanvas.GroundState(numProps))
  {
  }

  /**
   * The graph's base node id is the padded label of the builder's ground
   * state, which is also the engine's binary string of the first generated state.
   */
  lemma BaseIdIsGroundState(g: GraphLayout.ExpandedGraph, w: StateNotation.BitsWidth)
    requires g.numProps <= 30 && 1 <= g.maxHeight <= w && g.numProps <= g.maxHeight
    ensures GraphLayout.BaseNodeId(g) == Ok(BinaryLabel.ToBinaryLabel(BuilderCanvas.GroundState(g.numProps), g.maxHeight, false))
    ensures GraphLayout.BaseNodeId(g) ==
      Ok(StateNotation.ToBinaryString(StateNotation.Generate(g.numProps, g.maxHeight, w)[0], g.maxHeight, w))
  {
    GraphLayout.BaseIdIsGroundLabel(g);
    LowMaskBits(g.numProps);
    Pow2Monotonic(g.numProps, g.maxHeight);
    BinaryLabel.LabelMatchesBinaryString(LowMask(g.numProps), g.maxHeight, w);
  }

  /** The web label and the crate's binary string agree on every state the engine generates. */
  lemma GeneratedLabels(numProps: nat, maxHeight: nat, w: StateNotation.BitsWidth, i: nat)
    requires 1 <= maxHeight <= w && i < |StateNotation.Generate(numProps, maxHeight, w)|
    ensures var s := StateNotation.Generate(numProps, maxHeight, w)[i];
      BinaryLabel.ToBinaryLabel(s.bits, maxHeight, false) == StateNotation.ToBinaryString(s, maxHeight, w)
  {
    var s := StateNotation.Generate(numProps, maxHeight, w)[i];
    BinaryLabel.LabelMatchesBinaryString(s.bits, maxHeight, w);
  }

  /**
   * Choosing any throw that `compute_throws` offers for the current state
   * keeps the walk on states with the same number of props, all below
   * `maxHeight`.
   */
  lemma ChosenThrowKeepsProps(b: BuilderReducer.BuilderState, maxHeight: nat, w: StateNotation.BitsWidth, t: Throws.Throw)
    requires b.currentState < Pow2(w) && maxHeight < 256
    requires Throws.ComputeThrows(StateNotation.State(b.currentState), maxHeight, w).Ok?
    requires t in Throws.ComputeThrows(StateNotation.State(b.currentState), maxHeight, w).value
    ensures var next := BuilderReducer.Reduce(b, BuilderReducer.ChooseThrow(t.height, t.destination.bits));
      && Popcount(next.currentState) == Popcount(b.currentState)
      && next.currentState < Pow2(maxHeight)
  {
    Throws.ThrowsKeepInvariants(StateNotation.State(b.currentState), maxHeight, w, t);
  }
}
