/**
 * The discrete part of `computeGraphLayout` (web/src/lib/graph-layout.ts):
 * expanding the compact payload's integer states into padded binary labels,
 * the id of the base (ground) node, and the ids and labels of the nodes and
 * edges handed to the renderer. Node positions come from the dagre library
 * and are not part of this model.
 */
module GraphLayout {
  import opened Bitmask
  import opened Results
  import opened Text
  import opened InsertionOrder
  import opened BinaryLabel
  import StateNotation
  import BuilderGraphData

  type GraphApiResponse = BuilderGraphData.GraphApiResponse
  type Edge = BuilderGraphData.Edge

  datatype ExpandedEdge = ExpandedEdge(from: string, to: string, throwHeight: nat)

  datatype ExpandedGraph = ExpandedGraph(
    nodes: seq<string>, edges: seq<ExpandedEdge>, groundState: nat,
    numNodes: nat, numEdges: nat, maxHeight: nat, numProps: nat)

  /** `"0".repeat(count)` with a negative count throws a `RangeError`. */
  datatype LayoutError = RangeError

  datatype NodeData = NodeData(caption: string, isBase: bool)

  datatype LayoutNode = LayoutNode(id: string, data: NodeData)

  datatype LayoutEdge = LayoutEdge(id: string, source: string, target: string, caption: string)

  datatype Layout = Layout(nodes: seq<LayoutNode>, edges: seq<LayoutEdge>)

  /**
   * `n.toString(2).padStart(max_height, "0")`: a binary label reading back as
   * `n`, exactly `max_height` digits long when `n` fits.
   */
  function Expand(n: nat, maxHeight: nat): (r: string)
    ensures IsBinary(r) && |r| >= maxHeight && StateNotation.BinaryValue(r) == n
    ensures 1 <= maxHeight && n < Pow2(maxHeight) ==> |r| == maxHeight
  {
    LabelValue(n, maxHeight);
    LabelFits(n, maxHeight);
    ToBinaryLabel(n, maxHeight, false)
  }

  lemma LabelFits(n: nat, maxHeight: nat)
    ensures 1 <= maxHeight && n < Pow2(maxHeight) ==> |ToBinaryLabel(n, maxHeight, false)| == maxHeight
  {
    if 1 <= maxHeight && n < Pow2(maxHeight) {
      LabelShape(n, maxHeight);
    }
  }

  function ExpandEdge(e: Edge, maxHeight: nat): ExpandedEdge
  {
    ExpandedEdge(Expand(e.from, maxHeight), Expand(e.to, maxHeight), e.throwHeight)
  }

  /** `expandCompactResponse(data)`: every other field is copied by the spread. */
  function ExpandCompact(data: GraphApiResponse): (r: ExpandedGraph)
    ensures |r.nodes| == |data.nodes| && |r.edges| == |data.edges|
    ensures r.groundState == data.groundState && r.maxHeight == data.maxHeight && r.numProps == data.numProps
    ensures r.numNodes == data.numNodes && r.numEdges == data.numEdges
    ensures forall i :: 0 <= i < |data.nodes| ==> StateNotation.BinaryValue(r.nodes[i]) == data.nodes[i]
    ensures forall i :: 0 <= i < |data.edges| ==>
      && StateNotation.BinaryValue(r.edges[i].from) == data.edges[i].from
      && StateNotation.BinaryValue(r.edges[i].to) == data.edges[i].to
      && r.edges[i].throwHeight == data.edges[i].throwHeight
  {
    var mh := data.maxHeight;
    var nodes := seq(|data.nodes|, i requires 0 <= i < |data.nodes| => Expand(data.nodes[i], mh));
    var edges := seq(|data.edges|, i requires 0 <= i < |data.edges| => ExpandEdge(data.edges[i], mh));
    forall i | 0 <= i < |data.nodes|
      ensures StateNotation.BinaryValue(nodes[i]) == data.nodes[i]
    {
      LabelValue(data.nodes[i], mh);
    }
    forall i | 0 <= i < |data.edges|
      ensures StateNotation.BinaryValue(edges[i].from) == data.edges[i].from
      ensures StateNotation.BinaryValue(edges[i].to) == data.edges[i].to
    {
      LabelValue(data.edges[i].from, mh);
      LabelValue(data.edges[i].to, mh);
    }
    ExpandedGraph(nodes, edges, data.groundState, data.numNodes, data.numEdges, mh, data.numProps)
  }

  /** Expansion keeps distinct states distinct, so node ids stay unique. */
  lemma ExpandKeepsDistinct(data: GraphApiResponse)
    requires Distinct(data.nodes)
    ensures Distinct(ExpandCompact(data).nodes)
  {
    var r := ExpandCompact(data);
    forall i, j | 0 <= i < j < |r.nodes|
      ensures StateNotation.BinaryValue(r.nodes[i]) != StateNotation.BinaryValue(r.nodes[j])
    {
    }
  }

  /** `getBaseNodeId(data)`: `max_height - num_props` zeros, then `num_props` ones. */
  function BaseNodeId(data: ExpandedGraph): (r: Result<string, LayoutError>)
    ensures r.Err? <==> data.maxHeight < data.numProps
    ensures r.Ok? ==> |r.value| == data.maxHeight
  {
    if data.maxHeight < data.numProps then Err(RangeError)
    else Ok(Repeat('0', data.maxHeight - data.numProps) + Repeat('1', data.numProps))
  }

  lemma {:induction false} OnesValue(k: nat)
    ensures StateNotation.BinaryValue(Repeat('1', k)) == LowMask(k)
    decreases k
  {
    if k > 0 {
      var s := Repeat('1', k);
      assert s[..k - 1] == Repeat('1', k - 1);
      OnesValue(k - 1);
    }
  }

  /**
   * The base id is the padded label of the ground state `(1 << num_props) - 1`,
   * i.e. the first state the engine generates.
   */
  lemma BaseIdIsGroundLabel(data: ExpandedGraph)
    requires 1 <= data.maxHeight && data.numProps <= data.maxHeight
    ensures BaseNodeId(data) == Ok(Expand(LowMask(data.numProps), data.maxHeight))
  {
    var np, mh := data.numProps, data.maxHeight;
    var id := BaseNodeId(data).value;
    OnesValue(np);
    BinaryValueLeadingZeros(mh - np, Repeat('1', np));
    LowMaskBits(np);
    Pow2Monotonic(np, mh);
    LabelShape(LowMask(np), mh);
    BinaryValueInjective(id, Expand(LowMask(np), mh));
  }

  /**
   * The edge id `e-${from}-${to}-${throw_height}`. When neither label holds a
   * `-`, the id splits after its `e-` prefix back into the three fields.
   */
  function EdgeId(e: ExpandedEdge): (id: string)
    ensures |id| >= 2 && id[..2] == "e-"
    ensures Free(e.from, '-') && Free(e.to, '-') ==> Split(id[2..], '-') == [e.from, e.to, Decimal(e.throwHeight)]
  {
    var id := "e-" + e.from + "-" + e.to + "-" + Decimal(e.throwHeight);
    DecimalFree(e.throwHeight, '-');
    IdFieldsSplit(e.from, e.to, Decimal(e.throwHeight));
    assert id[2..] == e.from + "-" + e.to + "-" + Decimal(e.throwHeight);
    id
  }

  /** Three `-`-free fields joined by `-` split back into themselves. */
  lemma IdFieldsSplit(a: string, b: string, c: string)
    requires Free(c, '-')
    ensures Free(a, '-') && Free(b, '-') ==> Split(a + "-" + b + "-" + c, '-') == [a, b, c]
  {
    if Free(a, '-') && Free(b, '-') {
      var xs := [a, b, c];
      assert xs[1..] == [b, c];
      assert xs[1..][1..] == [c];
      assert Join(xs, '-') == a + "-" + b + "-" + c;
      SplitJoin(xs, '-');
    }
  }

  function LayoutEdgeOf(e: ExpandedEdge): LayoutEdge
  {
    LayoutEdge(EdgeId(e), e.from, e.to, Decimal(e.throwHeight))
  }

  /** `computeGraphLayout(data)` without the dagre positions. */
  function ComputeGraphLayout(data: GraphApiResponse): (r: Result<Layout, LayoutError>)
    ensures r.Err? <==> data.maxHeight < data.numProps
    ensures r.Ok? ==> |r.value.nodes| == |data.nodes| && |r.value.edges| == |data.edges|
    ensures r.Ok? ==> forall i :: 0 <= i < |data.nodes| ==>
      r.value.nodes[i].id == r.value.nodes[i].data.caption &&
      StateNotation.BinaryValue(r.value.nodes[i].id) == data.nodes[i]
    ensures r.Ok? ==> forall i :: 0 <= i < |data.edges| ==>
      var e := r.value.edges[i];
      && StateNotation.BinaryValue(e.source) == data.edges[i].from
      && StateNotation.BinaryValue(e.target) == data.edges[i].to
      && e.caption == Decimal(data.edges[i].throwHeight)
  {
    var expanded := ExpandCompact(data);
    match BaseNodeId(expanded)
    case Err(e) => Err(e)
    case Ok(baseId) =>
      var nodes := seq(|expanded.nodes|, i requires 0 <= i < |expanded.nodes| =>
        LayoutNode(expanded.nodes[i], NodeData(expanded.nodes[i], expanded.nodes[i] == baseId)));
      var edges := seq(|expanded.edges|, i requires 0 <= i < |expanded.edges| => LayoutEdgeOf(expanded.edges[i]));
      Ok(Layout(nodes, edges))
  }

  /**
   * A node is marked as the base exactly when its state is the ground state
   * `(1 << num_props) - 1`.
   */
  lemma IsBaseIsGround(data: GraphApiResponse, i: nat)
    requires 1 <= data.maxHeight && data.numProps <= data.maxHeight && i < |data.nodes|
    ensures ComputeGraphLayout(data).Ok?
    ensures ComputeGraphLayout(data).value.nodes[i].data.isBase <==> data.nodes[i] == LowMask(data.numProps)
  {
    var expanded := ExpandCompact(data);
    BaseIdIsGroundLabel(expanded);
    var node := ComputeGraphLayout(data).value.nodes[i];
    assert node.data.isBase <==> Expand(data.nodes[i], data.maxHeight) == Expand(LowMask(data.numProps), data.maxHeight);
    if node.data.isBase {
      LabelInjective(data.nodes[i], LowMask(data.numProps), data.maxHeight, false);
    }
  }

  /**
   * At height zero with no props the base id is empty, but the ground state 0 is
   * labelled `"0"`, so no node is marked as the base.
   */
  lemma ZeroHeightBaseUnmarked()
    ensures var data := BuilderGraphData.GraphApiResponse([0], [], 0, 1, 0, 0, 0);
      && data.nodes[0] == LowMask(data.numProps)
      && ComputeGraphLayout(data).Ok?
      && !ComputeGraphLayout(data).value.nodes[0].data.isBase
  {
    var data := BuilderGraphData.GraphApiResponse([0], [], 0, 1, 0, 0, 0);
    assert BaseNodeId(ExpandCompact(data)) == Ok("");
    LabelValue(0, 0);
    assert Expand(0, 0) != "";
  }

  lemma BinaryHasNoDash(s: string)
    requires IsBinary(s)
    ensures Free(s, '-')
  {
  }

  /** The id is `e-` followed by the three fields joined with `-`. */
  lemma EdgeIdAsJoin(e: ExpandedEdge)
    ensures EdgeId(e) == "e-" + Join([e.from, e.to, Decimal(e.throwHeight)], '-')
  {
    var xs := [e.from, e.to, Decimal(e.throwHeight)];
    assert xs[1..] == [e.to, Decimal(e.throwHeight)];
    assert xs[1..][1..] == [Decimal(e.throwHeight)];
    assert Join(xs[1..], '-') == e.to + "-" + Decimal(e.throwHeight);
  }

  /** The three fields of an expanded edge, none of which contains `-`. */
  lemma EdgeFieldsFree(e: Edge, maxHeight: nat)
    ensures AllFree([Expand(e.from, maxHeight), Expand(e.to, maxHeight), Decimal(e.throwHeight)], '-')
  {
    BinaryHasNoDash(Expand(e.from, maxHeight));
    BinaryHasNoDash(Expand(e.to, maxHeight));
    DecimalFree(e.throwHeight, '-');
  }

  /** Edge ids identify the compact edge: distinct edges never share an id. */
  lemma EdgeIdInjective(a: Edge, b: Edge, maxHeight: nat)
    requires EdgeId(ExpandEdge(a, maxHeight)) == EdgeId(ExpandEdge(b, maxHeight))
    ensures a == b
  {
    var x, y := ExpandEdge(a, maxHeight), ExpandEdge(b, maxHeight);
    var xs := [x.from, x.to, Decimal(x.throwHeight)];
    var ys := [y.from, y.to, Decimal(y.throwHeight)];
    EdgeIdAsJoin(x);
    EdgeIdAsJoin(y);
    assert Join(xs, '-') == EdgeId(x)[2..];
    assert Join(ys, '-') == EdgeId(y)[2..];
    EdgeFieldsFree(a, maxHeight);
    EdgeFieldsFree(b, maxHeight);
    JoinInjective(xs, ys, '-');
    assert xs[0] == ys[0] && xs[1] == ys[1] && xs[2] == ys[2];
    LabelInjective(a.from, b.from, maxHeight, false);
    LabelInjective(a.to, b.to, maxHeight, false);
    DecimalInjective(a.throwHeight, b.throwHeight);
  }

  /** Three props at height five: the base id is `00111`; four props at height three fail. */
  lemma BaseIdExamples()
    ensures BaseNodeId(ExpandedGraph([], [], 7, 0, 0, 5, 3)) == Ok("00111")
    ensures BaseNodeId(ExpandedGraph([], [], 15, 0, 0, 3, 4)) == Err(RangeError)
  {
    assert Repeat('0', 1) == "0";
    assert Repeat('0', 2) == "00";
    assert Repeat('1', 1) == "1";
    assert Repeat('1', 2) == "11";
    assert Repeat('1', 3) == "111";
    assert "00" + "111" == "00111";
  }
}
