// The vertex-weighted graphs of VertexWeight2EdgeWeight.py. A graph is a
// boolean adjacency matrix b plus a weight vw[v] per vertex; it is turned into
// an edge-weighted matrix whose edge (i, j) weighs vw[i] + vw[j], the weighted
// Floyd-Warshall passes run on that, and the result is halved back into
// vertex weights: (e + vw[i] + vw[j]) // 2, which is the sum of the vertex
// weights along a cheapest path. Python's `//` floors; so does Dafny's `/`
// for the positive divisor 2.

module VertexWeights {
  import opened ExtInt
  import opened Walks
  import opened FloydWarshall
  import opened ShortestPaths
  import opened WeightedFloydWarshall

  // ---------------------------------------------------------------------
  // The two conversions between edge weights and vertex weights, which
  // WeightsOnVerticesEdges.py repeats line for line.

  /** `edgeWeightMatrix2VertexWeightMatix`: INF stays INF, a finite e becomes (e + vw[i] + vw[j]) // 2. */
  function ToVertexWeights(vw: seq<int>, m: seq<seq<Dist>>): (r: seq<seq<Dist>>)
    requires IsSquare(m) && |vw| >= |m|
    ensures IsSquare(r) && |r| == |m|
    ensures forall i, j :: 0 <= i < |m| && 0 <= j < |m| ==> (r[i][j] == Inf <==> m[i][j] == Inf)
  {
    seq(|m|, i requires 0 <= i < |m| =>
      seq(|m|, j requires 0 <= j < |m| =>
        if m[i][j] != Inf then Fin((m[i][j].v + vw[i] + vw[j]) / 2) else Inf))
  }

  /** `vertexWeightMatrix2edgeWeightMatrix`: INF stays INF, a finite v becomes 2 v - vw[i] - vw[j]. */
  function ToEdgeWeights(vw: seq<int>, m: seq<seq<Dist>>): (r: seq<seq<Dist>>)
    requires IsSquare(m) && |vw| >= |m|
    ensures IsSquare(r) && |r| == |m|
    ensures forall i, j :: 0 <= i < |m| && 0 <= j < |m| ==> (r[i][j] == Inf <==> m[i][j] == Inf)
  {
    seq(|m|, i requires 0 <= i < |m| =>
      seq(|m|, j requires 0 <= j < |m| =>
        if m[i][j] != Inf then Fin(2 * m[i][j].v - vw[i] - vw[j]) else Inf))
  }

  /** Every finite cell e in row i, column j has e + vw[i] + vw[j] even. */
  predicate EvenCells(vw: seq<int>, m: seq<seq<Dist>>)
    requires IsSquare(m) && |vw| >= |m|
  {
    forall i, j :: 0 <= i < |m| && 0 <= j < |m| && m[i][j] != Inf ==> (m[i][j].v + vw[i] + vw[j]) % 2 == 0
  }

  /** Converting to edge weights always gives even cells, so halving them back loses nothing. */
  lemma EdgeWeightsAreEven(vw: seq<int>, m: seq<seq<Dist>>)
    requires IsSquare(m) && |vw| >= |m|
    ensures EvenCells(vw, ToEdgeWeights(vw, m))
  {
    var r := ToEdgeWeights(vw, m);
    forall i, j | 0 <= i < |m| && 0 <= j < |m| && r[i][j] != Inf
      ensures (r[i][j].v + vw[i] + vw[j]) % 2 == 0
    {
      var x := m[i][j].v;
      assert r[i][j] == Fin(2 * x - vw[i] - vw[j]);
      assert r[i][j].v + vw[i] + vw[j] == 2 * x;
      assert (2 * x) % 2 == 0;
    }
  }

  /**
   * Halving and doubling back gives every finite cell e again when
   * e + vw[i] + vw[j] is even, and e - 1 when it is odd; INF stays INF.
   */
  lemma EdgeRoundTrip(vw: seq<int>, m: seq<seq<Dist>>)
    requires IsSquare(m) && |vw| >= |m|
    ensures var r := ToEdgeWeights(vw, ToVertexWeights(vw, m));
      forall i, j :: 0 <= i < |m| && 0 <= j < |m| ==>
        r[i][j] == if m[i][j] == Inf then Inf
                   else if (m[i][j].v + vw[i] + vw[j]) % 2 == 0 then m[i][j]
                   else Fin(m[i][j].v - 1)
  {
    var r: seq<seq<Dist>> := ToEdgeWeights(vw, ToVertexWeights(vw, m));
    forall i, j | 0 <= i < |m| && 0 <= j < |m| && m[i][j] != Inf
      ensures r[i][j].v == m[i][j].v - (m[i][j].v + vw[i] + vw[j]) % 2
    {
      var x := m[i][j].v + vw[i] + vw[j];
      assert x == 2 * (x / 2) + x % 2;
    }
  }

  /** On a matrix with even cells the round trip is exact (step 4 gives back the matrix of step 2). */
  lemma EdgeRoundTripExact(vw: seq<int>, m: seq<seq<Dist>>)
    requires IsSquare(m) && |vw| >= |m| && EvenCells(vw, m)
    ensures ToEdgeWeights(vw, ToVertexWeights(vw, m)) == m
  {
    var r := ToEdgeWeights(vw, ToVertexWeights(vw, m));
    EdgeRoundTrip(vw, m);
    forall i | 0 <= i < |m| ensures r[i] == m[i] {
      assert forall j :: 0 <= j < |m| ==> r[i][j] == m[i][j];
    }
  }

  /** Doubling a vertex-weight matrix and halving it back is always exact. */
  lemma VertexRoundTrip(vw: seq<int>, m: seq<seq<Dist>>)
    requires IsSquare(m) && |vw| >= |m|
    ensures ToVertexWeights(vw, ToEdgeWeights(vw, m)) == m
  {
    var r := ToVertexWeights(vw, ToEdgeWeights(vw, m));
    forall i | 0 <= i < |m| ensures r[i] == m[i] {
      assert forall j :: 0 <= j < |m| ==> r[i][j] == m[i][j];
    }
  }

  /** A finite walk over even cells weighs, with the weights of its two ends added, an even amount. */
  lemma {:induction false} WalkParity(vw: seq<int>, m: seq<seq<Dist>>, w: seq<Edge>, i: nat, j: nat)
    requires IsSquare(m) && |vw| >= |m| && EvenCells(vw, m)
    requires IsWalk(w, |m|, i, j) && Weight(m, w) != Inf
    ensures (Weight(m, w).v + vw[i] + vw[j]) % 2 == 0
    decreases |w|
  {
    var k := w[0].dst;
    if |w| == 1 {
      assert w[1..] == [];
    } else {
      assert w[1..][0] == w[1];
      WalkParity(vw, m, w[1..], k, j);
      assert Weight(m, w).v == m[i][k].v + Weight(m, w[1..]).v;
      assert (m[i][k].v + vw[i] + vw[k]) % 2 == 0;
    }
  }

  /** The Floyd-Warshall passes keep every finite cell even (the result of a walk's weight). */
  lemma RunKeepsEven(vw: seq<int>, m: seq<seq<Dist>>)
    requires IsSquare(m) && |vw| >= |m| && EvenCells(vw, m)
    ensures EvenCells(vw, Run(m))
  {
    forall i, j | 0 <= i < |m| && 0 <= j < |m| && Run(m)[i][j] != Inf
      ensures (Run(m)[i][j].v + vw[i] + vw[j]) % 2 == 0
    {
      var w := RunRealized(m, i, j);
      WalkParity(vw, m, w, i, j);
    }
  }

  // ---------------------------------------------------------------------
  // Building the edge-weighted matrix.

  /** The matrix `vertexWeightArray2edgeWeightMatrix` returns. */
  function EdgeWeightsOf(vw: seq<int>, b: seq<seq<bool>>): (m: seq<seq<Dist>>)
    requires IsSquare(b) && |vw| >= |b|
    ensures IsSquare(m) && |m| == |b|
  {
    seq(|b|, i requires 0 <= i < |b| =>
      seq(|b|, j requires 0 <= j < |b| =>
        if i == j then Fin(0) else if b[i][j] then Fin(vw[i] + vw[j]) else Inf))
  }

  /**
   * `vertexWeightArray2edgeWeightMatrix`: a fresh matrix with vw[i] + vw[j]
   * on every edge between distinct vertices and INF elsewhere, whose
   * diagonal a second loop then sets to 0.
   */
  method VertexWeightArray2EdgeWeightMatrix(vw: seq<int>, b: seq<seq<bool>>) returns (mat: array2<Dist>)
    requires IsSquare(b) && |vw| >= |b|
    ensures fresh(mat) && mat.Length0 == |b| && mat.Length1 == |b|
    ensures Snapshot(mat) == EdgeWeightsOf(vw, b)
  {
    var n := |b|;
    mat := new Dist[n, n]((i, j) requires 0 <= i < n && 0 <= j < n =>
      if b[i][j] && i != j then Fin(vw[i] + vw[j]) else Inf);
    for i := 0 to n
      invariant forall x, y :: 0 <= x < n && 0 <= y < n ==>
        mat[x, y] == if x == y && x < i then Fin(0) else if b[x][y] && x != y then Fin(vw[x] + vw[y]) else Inf
    {
      mat[i, i] := Fin(0);
    }
    SnapshotIs(mat, EdgeWeightsOf(vw, b));
  }

  /** Every finite cell of the built matrix is even, so steps 3 and 4 give it back exactly. */
  lemma EdgeWeightsEven(vw: seq<int>, b: seq<seq<bool>>)
    requires IsSquare(b) && |vw| >= |b|
    ensures EvenCells(vw, EdgeWeightsOf(vw, b))
  {
    var m := EdgeWeightsOf(vw, b);
    forall i, j | 0 <= i < |b| && 0 <= j < |b| && m[i][j] != Inf
      ensures (m[i][j].v + vw[i] + vw[j]) % 2 == 0
    {
      if i == j {
        assert m[i][j].v + vw[i] + vw[j] == 2 * vw[i];
      } else {
        assert m[i][j].v + vw[i] + vw[j] == 2 * (vw[i] + vw[j]);
      }
    }
  }

  /** A symmetric adjacency matrix gives a symmetric weight matrix. */
  lemma EdgeWeightsSymmetric(vw: seq<int>, b: seq<seq<bool>>)
    requires IsSquare(b) && |vw| >= |b|
    requires forall i, j :: 0 <= i < |b| && 0 <= j < |b| ==> b[i][j] == b[j][i]
    ensures var m := EdgeWeightsOf(vw, b);
      forall i, j :: 0 <= i < |b| && 0 <= j < |b| ==> m[i][j] == m[j][i]
  {
  }

  /**
   * The whole of `checkFW`: after the passes, halving and doubling back give
   * the matrix of shortest distances again.
   */
  lemma StepFourIsStepTwo(vw: seq<int>, b: seq<seq<bool>>)
    requires IsSquare(b) && |vw| >= |b|
    ensures var r := Run(EdgeWeightsOf(vw, b)); ToEdgeWeights(vw, ToVertexWeights(vw, r)) == r
  {
    EdgeWeightsEven(vw, b);
    RunKeepsEven(vw, EdgeWeightsOf(vw, b));
    EdgeRoundTripExact(vw, Run(EdgeWeightsOf(vw, b)));
  }

  // ---------------------------------------------------------------------
  // What step 3 means: the cheapest path by the sum of its vertex weights.

  /** Every step of the walk is an edge of b or stays on its vertex. */
  ghost predicate UsesEdges(b: seq<seq<bool>>, w: seq<Edge>)
    requires IsSquare(b) && EdgesIn(w, |b|)
  {
    forall t :: 0 <= t < |w| ==> w[t].src == w[t].dst || b[w[t].src][w[t].dst]
  }

  /** The weights of the vertices a walk enters, a step that stays on its vertex entering none. */
  function Entered(vw: seq<int>, w: seq<Edge>): int
    requires EdgesIn(w, |vw|)
  {
    if w == [] then 0
    else (if w[0].src != w[0].dst then vw[w[0].dst] else 0) + Entered(vw, w[1..])
  }

  /** The sum of the vertex weights along the walk, its first vertex included. */
  function PathVertexWeight(vw: seq<int>, w: seq<Edge>): int
    requires EdgesIn(w, |vw|) && w != []
  {
    vw[w[0].src] + Entered(vw, w[1..]) + (if w[0].src != w[0].dst then vw[w[0].dst] else 0)
  }

  lemma EdgesInWiden(w: seq<Edge>, n: nat, n': nat)
    requires EdgesIn(w, n) && n <= n'
    ensures EdgesIn(w, n')
  {
  }

  /**
   * In the built matrix a walk along edges weighs twice the vertex weights
   * along it, less the weights of its two ends; any other walk weighs INF.
   */
  lemma WalkWeightIsVertexSum(vw: seq<int>, b: seq<seq<bool>>, w: seq<Edge>, i: nat, j: nat)
    requires IsSquare(b) && |vw| >= |b| && IsWalk(w, |b|, i, j)
    ensures EdgesIn(w, |vw|)
    ensures Weight(EdgeWeightsOf(vw, b), w) ==
      if UsesEdges(b, w) then Fin(2 * PathVertexWeight(vw, w) - vw[i] - vw[j]) else Inf
  {
    EdgesInWiden(w, |b|, |vw|);
    if UsesEdges(b, w) {
      EdgeWalkWeight(vw, b, w, i, j);
    } else {
      NonEdgeWalkWeight(vw, b, w, i, j);
    }
  }

  /** A walk along edges weighs twice its vertex weights less those of its two ends. */
  lemma {:induction false} EdgeWalkWeight(vw: seq<int>, b: seq<seq<bool>>, w: seq<Edge>, i: nat, j: nat)
    requires IsSquare(b) && |vw| >= |b| && IsWalk(w, |b|, i, j) && EdgesIn(w, |vw|) && UsesEdges(b, w)
    ensures Weight(EdgeWeightsOf(vw, b), w) == Fin(2 * PathVertexWeight(vw, w) - vw[i] - vw[j])
    decreases |w|
  {
    var m := EdgeWeightsOf(vw, b);
    var k := w[0].dst;
    assert m[i][k] == if i == k then Fin(0) else Fin(vw[i] + vw[k]);
    if |w| == 1 {
      assert w[1..] == [];
    } else {
      assert w[1..][0] == w[1];
      UsesEdgesCons(b, w);
      PathVertexWeightCons(vw, w);
      EdgeWalkWeight(vw, b, w[1..], k, j);
    }
  }

  /** A walk that takes a step off the edges of b weighs INF. */
  lemma {:induction false} NonEdgeWalkWeight(vw: seq<int>, b: seq<seq<bool>>, w: seq<Edge>, i: nat, j: nat)
    requires IsSquare(b) && |vw| >= |b| && IsWalk(w, |b|, i, j) && !UsesEdges(b, w)
    ensures Weight(EdgeWeightsOf(vw, b), w) == Inf
    decreases |w|
  {
    var m := EdgeWeightsOf(vw, b);
    var k := w[0].dst;
    if i != k && !b[i][k] {
      assert m[i][k] == Inf;
    } else if |w| == 1 {
      assert false;
    } else {
      assert w[1..][0] == w[1];
      UsesEdgesCons(b, w);
      NonEdgeWalkWeight(vw, b, w[1..], k, j);
    }
  }

  /** A walk of two or more steps uses edges when its first step does and the rest of it does. */
  lemma UsesEdgesCons(b: seq<seq<bool>>, w: seq<Edge>)
    requires IsSquare(b) && EdgesIn(w, |b|) && |w| >= 2
    ensures UsesEdges(b, w) <==> (w[0].src == w[0].dst || b[w[0].src][w[0].dst]) && UsesEdges(b, w[1..])
  {
    assert forall t :: 1 <= t < |w| ==> w[t] == w[1..][t - 1];
  }

  /** Dropping the first step of a walk drops the weight of its first vertex and adds that of the second. */
  lemma PathVertexWeightCons(vw: seq<int>, w: seq<Edge>)
    requires EdgesIn(w, |vw|) && |w| >= 2 && w[1].src == w[0].dst
    ensures PathVertexWeight(vw, w) ==
      vw[w[0].src] + (if w[0].src != w[0].dst then vw[w[0].dst] else 0) + PathVertexWeight(vw, w[1..]) - vw[w[0].dst]
  {
    var rest := w[1..];
    assert rest[0] == w[1];
    assert Entered(vw, rest) == (if rest[0].src != rest[0].dst then vw[rest[0].dst] else 0) + Entered(vw, rest[1..]);
  }

  /**
   * `checkFW` step 3: on a graph with no closed walk of negative weight, each
   * finite cell of the halved matrix is the least sum of vertex weights along
   * a walk from its row to its column, a cell is INF exactly when no walk
   * along edges leads there, and every walk along edges bounds it from above.
   */
  lemma CheapestVertexPath(vw: seq<int>, b: seq<seq<bool>>)
    requires IsSquare(b) && |vw| >= |b| && NoNegativeCycle(EdgeWeightsOf(vw, b))
    ensures var s := ToVertexWeights(vw, Run(EdgeWeightsOf(vw, b)));
      forall i, j, w :: 0 <= i < |b| && 0 <= j < |b| && IsWalk(w, |b|, i, j) && UsesEdges(b, w) ==>
        EdgesIn(w, |vw|) && s[i][j] != Inf && s[i][j].v <= PathVertexWeight(vw, w)
    ensures var s := ToVertexWeights(vw, Run(EdgeWeightsOf(vw, b)));
      forall i, j :: 0 <= i < |b| && 0 <= j < |b| && s[i][j] != Inf ==>
        exists w :: IsWalk(w, |b|, i, j) && UsesEdges(b, w) && EdgesIn(w, |vw|) && s[i][j].v == PathVertexWeight(vw, w)
  {
    var m := EdgeWeightsOf(vw, b);
    var r := Run(m);
    var s := ToVertexWeights(vw, r);
    forall i, j, w | 0 <= i < |b| && 0 <= j < |b| && IsWalk(w, |b|, i, j) && UsesEdges(b, w)
      ensures EdgesIn(w, |vw|) && s[i][j] != Inf && s[i][j].v <= PathVertexWeight(vw, w)
    {
      WalkWeightIsVertexSum(vw, b, w, i, j);
      RunBelowWalks(m, i, j, w);
      HalfMono(r[i][j].v + vw[i] + vw[j], 2 * PathVertexWeight(vw, w));
    }
    forall i, j | 0 <= i < |b| && 0 <= j < |b| && s[i][j] != Inf
      ensures exists w :: IsWalk(w, |b|, i, j) && UsesEdges(b, w) && EdgesIn(w, |vw|) && s[i][j].v == PathVertexWeight(vw, w)
    {
      var w := RunRealized(m, i, j);
      WalkWeightIsVertexSum(vw, b, w, i, j);
    }
  }

  lemma HalfMono(x: int, y: int)
    requires x <= y
    ensures x / 2 <= y / 2
  {
  }

  /** Non-negative vertex weights leave no closed walk of negative weight. */
  lemma NonNegativeWeightsNoNegativeCycle(vw: seq<int>, b: seq<seq<bool>>)
    requires IsSquare(b) && |vw| >= |b|
    requires forall v :: 0 <= v < |vw| ==> vw[v] >= 0
    ensures NoNegativeCycle(EdgeWeightsOf(vw, b))
  {
    PotentialNoNegativeCycle(EdgeWeightsOf(vw, b), seq(|b|, _ => 0));
  }
}
