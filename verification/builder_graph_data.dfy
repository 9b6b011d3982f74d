/**
 * `builderStateToGraphData` (web/src/lib/builder-graph-data.ts): the builder's
 * walk as a graph payload. The nodes are the visited states; the edges are
 * the steps with repeats removed through a `Map` keyed by
 * `${state}-${destination}-${throwHeight}`.
 */
module BuilderGraphData {
  import opened Text
  import opened InsertionOrder
  import opened BuilderReducer

  datatype Edge = Edge(from: nat, to: nat, throwHeight: nat)

  /** The compact graph payload the graph view consumes. */
  datatype GraphApiResponse = GraphApiResponse(
    nodes: seq<nat>, edges: seq<Edge>, groundState: nat,
    numNodes: nat, numEdges: nat, maxHeight: nat, numProps: nat)

  function StepEdge(step: Step): Edge
  {
    Edge(step.state, step.destination, step.throwHeight)
  }

  /** The edge of every step, repeats included. */
  function StepEdges(steps: seq<Step>): (r: seq<Edge>)
    ensures |r| == |steps|
    ensures forall i :: 0 <= i < |steps| ==> r[i] == StepEdge(steps[i])
  {
    seq(|steps|, i requires 0 <= i < |steps| => StepEdge(steps[i]))
  }

  /** The template string `${from}-${to}-${throwHeight}`. */
  function EdgeKey(e: Edge): string
  {
    Join([Decimal(e.from), Decimal(e.to), Decimal(e.throwHeight)], '-')
  }

  /** Different edges have different keys: decimals contain no `-`. */
  lemma EdgeKeyInjective(a: Edge, b: Edge)
    ensures EdgeKey(a) == EdgeKey(b) <==> a == b
  {
    if EdgeKey(a) == EdgeKey(b) {
      var xs := [Decimal(a.from), Decimal(a.to), Decimal(a.throwHeight)];
      var ys := [Decimal(b.from), Decimal(b.to), Decimal(b.throwHeight)];
      DecimalFree(a.from, '-');
      DecimalFree(a.to, '-');
      DecimalFree(a.throwHeight, '-');
      DecimalFree(b.from, '-');
      DecimalFree(b.to, '-');
      DecimalFree(b.throwHeight, '-');
      JoinInjective(xs, ys, '-');
      assert xs[0] == ys[0] && xs[1] == ys[1] && xs[2] == ys[2];
      DecimalInjective(a.from, b.from);
      DecimalInjective(a.to, b.to);
      DecimalInjective(a.throwHeight, b.throwHeight);
    }
  }

  function Keys(edges: seq<Edge>): (r: seq<string>)
    ensures |r| == |edges|
    ensures forall i :: 0 <= i < |edges| ==> r[i] == EdgeKey(edges[i])
  {
    seq(|edges|, i requires 0 <= i < |edges| => EdgeKey(edges[i]))
  }

  lemma KeyPresent(edges: seq<Edge>, e: Edge)
    ensures EdgeKey(e) in Keys(edges) <==> e in edges
  {
    if EdgeKey(e) in Keys(edges) {
      var i :| 0 <= i < |edges| && Keys(edges)[i] == EdgeKey(e);
      EdgeKeyInjective(edges[i], e);
    }
    if e in edges {
      var i :| 0 <= i < |edges| && edges[i] == e;
      assert Keys(edges)[i] == EdgeKey(e);
    }
  }

  /**
   * `builderStateToGraphData(state, maxHeight, numProps)`. The `Map` is the
   * pair of its key list and its value list, both in insertion order.
   */
  method ToGraphData(s: BuilderState, maxHeight: nat, numProps: nat) returns (r: GraphApiResponse)
    ensures r.nodes == s.visitedStates
    ensures r.edges == Dedup(StepEdges(s.steps))
    ensures r.numNodes == |r.nodes| && r.numEdges == |r.edges|
    ensures r.groundState == s.groundState && r.maxHeight == maxHeight && r.numProps == numProps
  {
    var nodes := s.visitedStates;
    var keys: seq<string> := [];
    var edges: seq<Edge> := [];
    for i := 0 to |s.steps|
      invariant edges == Dedup(StepEdges(s.steps[..i]))
      invariant keys == Keys(edges)
    {
      var e := StepEdge(s.steps[i]);
      var key := EdgeKey(e);
      AdvanceOne(s.steps, i, edges);
      if key !in keys {
        KeysSnoc(edges, e);
        keys := keys + [key];
        edges := edges + [e];
      }
    }
    assert s.steps[..|s.steps|] == s.steps;
    r := GraphApiResponse(nodes, edges, s.groundState, |nodes|, |edges|, maxHeight, numProps);
  }

  /** One iteration of the loop: the map grows exactly when the step's key is new. */
  lemma AdvanceOne(steps: seq<Step>, i: nat, edges: seq<Edge>)
    requires i < |steps| && edges == Dedup(StepEdges(steps[..i]))
    ensures EdgeKey(StepEdge(steps[i])) in Keys(edges) ==> Dedup(StepEdges(steps[..i + 1])) == edges
    ensures EdgeKey(StepEdge(steps[i])) !in Keys(edges) ==> Dedup(StepEdges(steps[..i + 1])) == edges + [StepEdge(steps[i])]
  {
    assert StepEdges(steps[..i + 1]) == StepEdges(steps[..i]) + [StepEdge(steps[i])];
    DedupSnoc(StepEdges(steps[..i]), StepEdge(steps[i]));
    KeyPresent(edges, StepEdge(steps[i]));
  }

  lemma KeysSnoc(edges: seq<Edge>, e: Edge)
    ensures Keys(edges + [e]) == Keys(edges) + [EdgeKey(e)]
  {
  }

  /**
   * The edges are the distinct step triples, each exactly once, in order of
   * first occurrence among the steps.
   */
  lemma EdgesAreDistinctSteps(steps: seq<Step>)
    ensures Distinct(Dedup(StepEdges(steps)))
    ensures forall e :: e in Dedup(StepEdges(steps)) <==> exists i :: 0 <= i < |steps| && StepEdge(steps[i]) == e
    ensures forall i, j :: 0 <= i < j < |Dedup(StepEdges(steps))| ==>
      IndexOf(StepEdges(steps), Dedup(StepEdges(steps))[i]) < IndexOf(StepEdges(steps), Dedup(StepEdges(steps))[j])
  {
    DedupFirstOccurrenceOrder(StepEdges(steps));
    forall e | e in Dedup(StepEdges(steps))
      ensures exists i :: 0 <= i < |steps| && StepEdge(steps[i]) == e
    {
      var i :| 0 <= i < |steps| && StepEdges(steps)[i] == e;
    }
  }

  /** For a reachable builder state the nodes are the ground state and the destinations, each once. */
  lemma NodesAreVisited(s: BuilderState, x: nat)
    requires Invariant(s)
    ensures Distinct(s.visitedStates)
    ensures x in s.visitedStates <==> x == s.groundState || exists i :: 0 <= i < |s.steps| && s.steps[i].destination == x
  {
  }

  /** A walk around the loop 3, 5, 3 twice gives two edges, not four. */
  lemma RepeatedLoopExample()
    ensures Dedup(StepEdges([Step(3, 3, 5), Step(5, 2, 3), Step(3, 3, 5), Step(5, 2, 3)])) == [Edge(3, 5, 3), Edge(5, 3, 2)]
  {
    var steps := [Step(3, 3, 5), Step(5, 2, 3), Step(3, 3, 5), Step(5, 2, 3)];
    var es := StepEdges(steps);
    assert es == [Edge(3, 5, 3), Edge(5, 3, 2), Edge(3, 5, 3), Edge(5, 3, 2)];
    assert es[..1] == [Edge(3, 5, 3)];
    assert es[..2] == [Edge(3, 5, 3), Edge(5, 3, 2)];
    assert es[..3] == es[..2] + [Edge(3, 5, 3)];
    assert Dedup(es[..1]) == [Edge(3, 5, 3)];
    assert Dedup(es[..2]) == [Edge(3, 5, 3), Edge(5, 3, 2)];
    assert Dedup(es[..3]) == [Edge(3, 5, 3), Edge(5, 3, 2)];
  }
}
