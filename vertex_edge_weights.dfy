// The graphs of WeightsOnVerticesEdges.py, whose vertices and edges both
// carry a weight. An edge e = (i, j) of weight E[i][j] becomes the edge of
// weight 2 E[i][j] + vw[i] + vw[j]; after the Floyd-Warshall passes the
// halving of VertexWeights turns each cell into the cheapest total of edge
// weights plus the weights of the vertices visited, the start included.

module VertexEdgeWeights {
  import opened ExtInt
  import opened Walks
  import opened FloydWarshall
  import opened ShortestPaths
  import opened VertexWeights

  /**
   * `toEdgesWeights`: every finite cell e, the diagonal included, becomes
   * 2 e + vw[i] + vw[j]; INF stays INF.
   */
  function ToEdgesWeights(vw: seq<int>, e: seq<seq<Dist>>): (t: seq<seq<Dist>>)
    requires IsSquare(e) && |vw| >= |e|
    ensures IsSquare(t) && |t| == |e|
    ensures forall i, j :: 0 <= i < |e| && 0 <= j < |e| ==> (t[i][j] == Inf <==> e[i][j] == Inf)
  {
    seq(|e|, i requires 0 <= i < |e| =>
      seq(|e|, j requires 0 <= j < |e| =>
        if e[i][j] != Inf then Fin(2 * e[i][j].v + vw[i] + vw[j]) else Inf))
  }

  /** The doubled matrix has even cells, so steps 3 and 4 of `checkFW` lose nothing. */
  lemma ToEdgesWeightsEven(vw: seq<int>, e: seq<seq<Dist>>)
    requires IsSquare(e) && |vw| >= |e|
    ensures EvenCells(vw, ToEdgesWeights(vw, e))
  {
    var t := ToEdgesWeights(vw, e);
    forall i, j | 0 <= i < |e| && 0 <= j < |e| && t[i][j] != Inf
      ensures (t[i][j].v + vw[i] + vw[j]) % 2 == 0
    {
      var x := e[i][j].v + vw[i] + vw[j];
      assert t[i][j] == Fin(2 * e[i][j].v + vw[i] + vw[j]);
      assert t[i][j].v + vw[i] + vw[j] == 2 * x;
      assert (2 * x) % 2 == 0;
    }
  }

  /**
   * Halving the doubled matrix straight away (step 3 without the passes)
   * gives each finite edge weight plus the weights of both its ends.
   */
  lemma HalvedEdge(vw: seq<int>, e: seq<seq<Dist>>)
    requires IsSquare(e) && |vw| >= |e|
    ensures var h := ToVertexWeights(vw, ToEdgesWeights(vw, e));
      forall i, j :: 0 <= i < |e| && 0 <= j < |e| ==>
        h[i][j] == if e[i][j] == Inf then Inf else Fin(e[i][j].v + vw[i] + vw[j])
  {
    var t := ToEdgesWeights(vw, e);
    var h: seq<seq<Dist>> := ToVertexWeights(vw, t);
    forall i, j | 0 <= i < |e| && 0 <= j < |e| && e[i][j] != Inf
      ensures h[i][j] == Fin(e[i][j].v + vw[i] + vw[j])
    {
      assert t[i][j].v + vw[i] + vw[j] == 2 * (e[i][j].v + vw[i] + vw[j]);
    }
  }

  /** The weights of the vertices a walk enters, one per step, repeats and loops included. */
  function Visits(vw: seq<int>, w: seq<Edge>): int
    requires EdgesIn(w, |vw|)
  {
    if w == [] then 0 else vw[w[0].dst] + Visits(vw, w[1..])
  }

  /** The weight of a walk in the graph with weighted vertices and edges: its edges, its first vertex and every vertex it enters. */
  function WalkCost(vw: seq<int>, e: seq<seq<Dist>>, w: seq<Edge>): Dist
    requires IsSquare(e) && |vw| >= |e| && EdgesIn(w, |e|) && w != []
  {
    var s := Weight(e, w);
    if s == Inf then Inf else Fin(s.v + vw[w[0].src] + Visits(vw, w))
  }

  /**
   * A walk weighs, in the doubled matrix, twice its edge weights and twice
   * the weights of the vertices it enters, plus the weight of its first
   * vertex, less the weight of its last; INF exactly when one of its edges is INF.
   */
  lemma {:induction false} DoubledWalkWeight(vw: seq<int>, e: seq<seq<Dist>>, w: seq<Edge>, i: nat, j: nat)
    requires IsSquare(e) && |vw| >= |e| && IsWalk(w, |e|, i, j)
    ensures EdgesIn(w, |vw|)
    ensures Weight(ToEdgesWeights(vw, e), w) ==
      if Weight(e, w) == Inf then Inf else Fin(2 * Weight(e, w).v + 2 * Visits(vw, w) + vw[i] - vw[j])
    decreases |w|
  {
    EdgesInWiden(w, |e|, |vw|);
    var k := w[0].dst;
    if |w| == 1 {
      assert w[1..] == [];
    } else {
      var rest := w[1..];
      assert rest[0] == w[1];
      DoubledWalkWeight(vw, e, rest, k, j);
    }
  }

  /**
   * `checkFW` step 3 on a graph with no closed walk of negative weight: every
   * finite cell of the halved matrix is the cost of some walk from its row
   * to its column, INF cells have no finite walk, and no walk costs less.
   */
  lemma CheapestVertexEdgePath(vw: seq<int>, e: seq<seq<Dist>>)
    requires IsSquare(e) && |vw| >= |e| && NoNegativeCycle(ToEdgesWeights(vw, e))
    ensures var s := ToVertexWeights(vw, Run(ToEdgesWeights(vw, e)));
      forall i, j, w :: 0 <= i < |e| && 0 <= j < |e| && IsWalk(w, |e|, i, j) && WalkCost(vw, e, w) != Inf ==>
        s[i][j] != Inf && s[i][j].v <= WalkCost(vw, e, w).v
    ensures var s := ToVertexWeights(vw, Run(ToEdgesWeights(vw, e)));
      forall i, j :: 0 <= i < |e| && 0 <= j < |e| && s[i][j] != Inf ==>
        exists w :: IsWalk(w, |e|, i, j) && WalkCost(vw, e, w) == s[i][j]
  {
    var t := ToEdgesWeights(vw, e);
    var r := Run(t);
    var s := ToVertexWeights(vw, r);
    forall i, j, w | 0 <= i < |e| && 0 <= j < |e| && IsWalk(w, |e|, i, j) && WalkCost(vw, e, w) != Inf
      ensures s[i][j] != Inf && s[i][j].v <= WalkCost(vw, e, w).v
    {
      DoubledWalkWeight(vw, e, w, i, j);
      RunBelowWalks(t, i, j, w);
      HalfMono(r[i][j].v + vw[i] + vw[j], 2 * WalkCost(vw, e, w).v);
    }
    forall i, j | 0 <= i < |e| && 0 <= j < |e| && s[i][j] != Inf
      ensures exists w :: IsWalk(w, |e|, i, j) && WalkCost(vw, e, w) == s[i][j]
    {
      var w := RunRealized(t, i, j);
      DoubledWalkWeight(vw, e, w, i, j);
      assert WalkCost(vw, e, w) == s[i][j];
    }
  }

  /** `checkFW` step 4 gives back the matrix of step 2 exactly. */
  lemma VertexEdgeStepFourIsStepTwo(vw: seq<int>, e: seq<seq<Dist>>)
    requires IsSquare(e) && |vw| >= |e|
    ensures var r := Run(ToEdgesWeights(vw, e)); ToEdgeWeights(vw, ToVertexWeights(vw, r)) == r
  {
    ToEdgesWeightsEven(vw, e);
    RunKeepsEven(vw, ToEdgesWeights(vw, e));
    EdgeRoundTripExact(vw, Run(ToEdgesWeights(vw, e)));
  }

  /**
   * A potential pi of the edge weights, doubled, is a potential of the
   * doubled matrix once the vertex weights are non-negative; so a graph with
   * no negative closed walk keeps none.
   */
  lemma DoubledPotential(vw: seq<int>, e: seq<seq<Dist>>, pi: seq<int>)
    requires IsSquare(e) && |vw| >= |e| && IsPotential(e, pi)
    requires forall v :: 0 <= v < |vw| ==> vw[v] >= 0
    ensures IsPotential(ToEdgesWeights(vw, e), seq(|pi|, v requires 0 <= v < |pi| => 2 * pi[v]))
    ensures NoNegativeCycle(ToEdgesWeights(vw, e))
  {
    var t := ToEdgesWeights(vw, e);
    var pi2 := seq(|pi|, v requires 0 <= v < |pi| => 2 * pi[v]);
    forall a, b | 0 <= a < |e| && 0 <= b < |e| && t[a][b] != Inf
      ensures t[a][b].v + pi2[a] - pi2[b] >= 0
    {
      assert t[a][b].v + pi2[a] - pi2[b] == 2 * (e[a][b].v + pi[a] - pi[b]) + vw[a] + vw[b];
    }
    PotentialNoNegativeCycle(t, pi2);
  }
}
