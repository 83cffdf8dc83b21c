// The weighted Floyd-Warshall routines of Floyd_Warshall_Weights.py, which
// Floyd_Warshall_Negative_Cycle.py, VertexWeight2EdgeWeight.py and
// WeightsOnVerticesEdges.py repeat line for line: the matrix is an `array2`
// updated in place, and each method is proved to leave behind the matrix
// the pure passes of FloydWarshall compute.

module WeightedFloydWarshall {
  import opened ExtInt
  import opened Walks
  import opened FloydWarshall
  import opened ShortestPaths
  import opened Components

  /** The current contents of a square matrix, row by row. */
  function Snapshot(mat: array2<Dist>): (g: seq<seq<Dist>>)
    reads mat
    requires mat.Length0 == mat.Length1
    ensures IsSquare(g) && |g| == mat.Length0
    ensures forall a, b :: 0 <= a < |g| && 0 <= b < |g| ==> g[a][b] == mat[a, b]
  {
    seq(mat.Length0, a requires 0 <= a < mat.Length0 reads mat =>
      seq(mat.Length1, b requires 0 <= b < mat.Length1 reads mat => mat[a, b]))
  }

  /** The matrix with every diagonal cell set to 0 (the first loop of `buildPathMatrix`). */
  function ZeroDiag(m: seq<seq<Dist>>): (z: seq<seq<Dist>>)
    requires IsSquare(m)
    ensures IsSquare(z) && |z| == |m|
  {
    seq(|m|, a requires 0 <= a < |m| =>
      seq(|m|, b requires 0 <= b < |m| => if a == b then Fin(0) else m[a][b]))
  }

  lemma SnapshotIs(mat: array2<Dist>, g: seq<seq<Dist>>)
    requires mat.Length0 == mat.Length1 && IsSquare(g) && |g| == mat.Length0
    requires forall a, b :: 0 <= a < |g| && 0 <= b < |g| ==> g[a][b] == mat[a, b]
    ensures Snapshot(mat) == g
  {
    var s := Snapshot(mat);
    forall a | 0 <= a < |g| ensures s[a] == g[a] {
    }
  }

  /** The matrix holds exactly the cells of g. */
  ghost predicate Holds(mat: array2<Dist>, g: seq<seq<Dist>>)
    reads mat
  {
    && mat.Length0 == mat.Length1 && IsSquare(g) && |g| == mat.Length0
    && forall a, b :: 0 <= a < |g| && 0 <= b < |g| ==> mat[a, b] == g[a][b]
  }

  /** The statement of the innermost loop: cell (i, j) takes the detour through k when it is shorter. */
  method RelaxCell(mat: array2<Dist>, k: nat, i: nat, j: nat, ghost g: seq<seq<Dist>>) returns (ghost h: seq<seq<Dist>>)
    requires Holds(mat, g) && k < |g| && i < |g| && j < |g|
    modifies mat
    ensures h == Relax(g, k, i, j) && Holds(mat, h)
  {
    mat[i, j] := Min(mat[i, j], Add(mat[i, k], mat[k, j]));
    h := Relax(g, k, i, j);
  }

  /** The innermost loop: pass k over row i, in place. */
  method RelaxRow(mat: array2<Dist>, k: nat, i: nat, ghost g: seq<seq<Dist>>)
    requires Holds(mat, g) && k < |g| && i < |g|
    modifies mat
    ensures Holds(mat, RowPass(g, k, i, |g|))
  {
    ghost var h := g;
    for j := 0 to mat.Length0
      invariant h == RowPass(g, k, i, j) && Holds(mat, h)
    {
      h := RelaxCell(mat, k, i, j, h);
    }
  }

  /**
   * `buildFWWeightMatrix`: n passes of `mat[i][j] = min(mat[i][j],
   * mat[i][k] + mat[k][j])` over the cells in row order, in place.
   */
  method BuildFWWeightMatrix(mat: array2<Dist>)
    requires mat.Length0 == mat.Length1
    modifies mat
    ensures Snapshot(mat) == Run(old(Snapshot(mat)))
  {
    var n := mat.Length0;
    ghost var m := Snapshot(mat);
    ghost var g := m;
    for k := 0 to n
      invariant g == Upto(m, k) && Holds(mat, g)
    {
      ghost var gk := g;
      for i := 0 to n
        invariant g == Pass(gk, k, i) && Holds(mat, g)
      {
        RelaxRow(mat, k, i, g);
        g := RowPass(g, k, i, n);
      }
    }
    SnapshotIs(mat, g);
  }

  /** The first loop of `buildPathMatrix`: every diagonal cell becomes 0, in place. */
  method ZeroDiagonal(mat: array2<Dist>)
    requires mat.Length0 == mat.Length1
    modifies mat
    ensures Snapshot(mat) == ZeroDiag(old(Snapshot(mat)))
  {
    var n := mat.Length0;
    ghost var m := Snapshot(mat);
    for i := 0 to n
      invariant forall a, b :: 0 <= a < n && 0 <= b < n ==>
        mat[a, b] == if a == b && a < i then Fin(0) else m[a][b]
    {
      for j := 0 to n
        invariant forall a, b :: 0 <= a < n && 0 <= b < n ==>
          mat[a, b] == if a == b && (a < i || (a == i && b < j)) then Fin(0) else m[a][b]
      {
        if i == j {
          mat[i, j] := Fin(0);
        }
      }
    }
    SnapshotIs(mat, ZeroDiag(m));
  }

  /**
   * Pass k over row i of `buildPathMatrix`: path (i, j) becomes
   * path (i, k) + "," + path (k, j) whenever the detour through k is finite
   * and strictly shorter, and the cell takes the minimum.
   */
  method RelaxRowWithPaths(mat: array2<Dist>, paths: PathMatrix, k: nat, i: nat, ghost g: seq<seq<Dist>>)
    returns (paths': PathMatrix)
    requires Holds(mat, g) && k < |g| && i < |g| && IsPathMatrix(paths, |g|)
    modifies mat
    ensures Holds(mat, RowPass(g, k, i, |g|))
    ensures paths' == PathRowPass(g, paths, k, i, |g|, true)
  {
    ghost var h := g;
    paths' := paths;
    for j := 0 to mat.Length0
      invariant h == RowPass(g, k, i, j) && paths' == PathRowPass(g, paths, k, i, j, true)
      invariant Holds(mat, h)
    {
      if mat[i, k] != Inf && mat[k, j] != Inf && Less(Add(mat[i, k], mat[k, j]), mat[i, j]) {
        paths' := paths'[i := paths'[i][j := paths'[i][k] + [Comma] + paths'[k][j]]];
      }
      h := RelaxCell(mat, k, i, j, h);
    }
  }

  /**
   * `buildPathMatrix`: zero the diagonal, start each path at the edge i -> j
   * where the cell is finite, then run the n passes with path updates.
   */
  method BuildPathMatrix(mat: array2<Dist>) returns (paths: PathMatrix)
    requires mat.Length0 == mat.Length1
    modifies mat
    ensures Snapshot(mat) == Run(ZeroDiag(old(Snapshot(mat))))
    ensures paths == Paths(ZeroDiag(old(Snapshot(mat))), true)
  {
    var n := mat.Length0;
    ZeroDiagonal(mat);
    ghost var m := Snapshot(mat);
    paths := InitialPaths(Snapshot(mat));
    ghost var p0 := paths;
    ghost var g := m;
    for k := 0 to n
      invariant g == Upto(m, k) && paths == PathUpto(m, p0, k, true) && Holds(mat, g)
    {
      ghost var gk, pk := g, paths;
      for i := 0 to n
        invariant g == Pass(gk, k, i) && paths == PathPass(gk, pk, k, i, true) && Holds(mat, g)
      {
        paths := RelaxRowWithPaths(mat, paths, k, i, g);
        g := RowPass(g, k, i, n);
      }
    }
    SnapshotIs(mat, g);
  }

  /** `isNegativeCycle`: whether some diagonal cell is negative; the matrix is only read. */
  method IsNegativeCycle(mat: array2<Dist>) returns (r: bool)
    requires mat.Length0 == mat.Length1
    ensures r <==> exists v :: 0 <= v < mat.Length0 && IsNegative(mat[v, v])
  {
    for i := 0 to mat.Length0
      invariant forall v :: 0 <= v < i ==> !IsNegative(mat[v, v])
    {
      if IsNegative(mat[i, i]) {
        return true;
      }
    }
    return false;
  }

  /** A weighted cell links its row to its column when it is not INF. */
  function Finite(d: Dist): bool
  {
    d != Inf
  }

  /**
   * `connectComponentsOfGraph`: the components of the relation of the
   * finite cells, each as its ascending list of vertices, the first holding
   * vertex 0; on a symmetric, transitive matrix two distinct vertices share a
   * group exactly when their cell is finite.
   */
  method ConnectComponentsOfGraph(mat: array2<Dist>) returns (count: nat, groups: seq<seq<nat>>)
    requires mat.Length0 == mat.Length1
    ensures |groups| == count && IsPartition(groups, mat.Length0)
    ensures mat.Length0 > 0 ==> count > 0 && groups[0][0] == 0
    ensures Closed(mat, Finite) ==>
      forall c, c', v, w ::
        0 <= c < count && 0 <= c' < count && v in groups[c] && w in groups[c'] &&
        v < mat.Length0 && w < mat.Length0 && v != w ==>
          (c == c' <==> mat[v, w] != Inf)
  {
    count, groups := ConnectComponents(mat, Finite);
    if Closed(mat, Finite) {
      forall c, c', v, w |
        0 <= c < count && 0 <= c' < count && v in groups[c] && w in groups[c'] &&
        v < mat.Length0 && w < mat.Length0 && v != w
        ensures c == c' <==> mat[v, w] != Inf
      {
        assert Linked(mat, Finite, v, w) == (mat[v, w] != Inf);
      }
    }
  }

  /** `isConnected`: no cell is INF. */
  method IsConnectedWeighted(mat: array2<Dist>) returns (ans: bool)
    requires mat.Length0 == mat.Length1
    ensures ans <==> forall i, j :: 0 <= i < mat.Length0 && 0 <= j < mat.Length1 ==> mat[i, j] != Inf
  {
    ans := IsConnected(mat, Finite);
  }

  /** `isConnectedComplexN`: no cell of row 0 is INF. */
  method IsConnectedComplexNWeighted(mat: array2<Dist>) returns (ans: bool)
    requires mat.Length0 == mat.Length1
    ensures ans <==> forall j :: 0 <= j < mat.Length1 && 0 < mat.Length0 ==> mat[0, j] != Inf
  {
    ans := IsConnectedComplexN(mat, Finite);
  }

  // ---------------------------------------------------------------------
  // What `buildPathMatrix` leaves behind.

  /**
   * After `buildPathMatrix`: every diagonal cell is at most 0; a path entry
   * is empty exactly when its cell is INF; otherwise it lists a walk from its
   * row to its column, edges separated by ",", whose weight with the diagonal
   * at 0 is the cell.
   */
  lemma PathMatrixCorrect(m: seq<seq<Dist>>)
    requires IsSquare(m)
    ensures var z := ZeroDiag(m);
      forall v :: 0 <= v < |m| ==> Le(Run(z)[v][v], Fin(0))
    ensures var z := ZeroDiag(m);
      forall a, b :: 0 <= a < |m| && 0 <= b < |m| ==>
        && (Run(z)[a][b] == Inf <==> Paths(z, true)[a][b] == [])
        && (Run(z)[a][b] != Inf ==>
              && IsWalk(Arcs(Paths(z, true)[a][b]), |m|, a, b)
              && Weight(z, Arcs(Paths(z, true)[a][b])) == Run(z)[a][b]
              && Paths(z, true)[a][b] == Render(Arcs(Paths(z, true)[a][b]), true))
  {
    var z := ZeroDiag(m);
    UptoDecreases(z, |m|);
    PathsCorrect(z, true);
    forall a, b | 0 <= a < |m| && 0 <= b < |m|
      ensures CellOk(z, Run(z)[a][b], Paths(z, true)[a][b], a, b, true)
    {
    }
  }

  /** No edge of the walk is a self-loop. */
  predicate NoLoops(w: seq<Edge>)
  {
    forall t :: 0 <= t < |w| ==> w[t].src != w[t].dst
  }

  /** The walk with its self-loops taken out. */
  function DropLoops(w: seq<Edge>): (w': seq<Edge>)
    ensures NoLoops(w') && |w'| <= |w|
    ensures forall t :: 0 <= t < |w'| ==> w'[t] in w
  {
    if w == [] then []
    else if w[0].src == w[0].dst then DropLoops(w[1..])
    else [w[0]] + DropLoops(w[1..])
  }

  /** A walk made only of self-loops stays where it starts. */
  lemma {:induction false} LoopsOnly(w: seq<Edge>, n: nat, i: nat, j: nat)
    requires IsWalk(w, n, i, j) && DropLoops(w) == []
    ensures i == j
    decreases |w|
  {
    if |w| > 1 {
      assert w[1..][0] == w[1];
      LoopsOnly(w[1..], n, w[1].src, j);
    }
  }

  /** Taking the self-loops out of a walk that has another edge leaves a walk between the same ends. */
  lemma {:induction false} DropLoopsWalk(w: seq<Edge>, n: nat, i: nat, j: nat)
    requires IsWalk(w, n, i, j) && DropLoops(w) != []
    ensures IsWalk(DropLoops(w), n, i, j)
    decreases |w|
  {
    var rest := w[1..];
    if |w| > 1 {
      assert rest[0] == w[1];
      assert IsWalk(rest, n, w[0].dst, j);
    }
    if w[0].src == w[0].dst {
      DropLoopsWalk(rest, n, i, j);
    } else if |w| > 1 {
      assert IsWalk([w[0]], n, i, w[0].dst);
      if DropLoops(rest) == [] {
        LoopsOnly(rest, n, w[0].dst, j);
      } else {
        DropLoopsWalk(rest, n, w[0].dst, j);
        WalkConcat([w[0]], DropLoops(rest), n, i, w[0].dst, j, n);
      }
    }
  }

  /** Self-loops weigh 0 once the diagonal is zeroed, and no other edge changes weight. */
  lemma {:induction false} DropLoopsWeight(m: seq<seq<Dist>>, w: seq<Edge>)
    requires IsSquare(m) && EdgesIn(w, |m|)
    ensures EdgesIn(DropLoops(w), |m|)
    ensures Weight(ZeroDiag(m), w) == Weight(m, DropLoops(w))
    decreases |w|
  {
    if w != [] {
      DropLoopsWeight(m, w[1..]);
    }
  }

  /** The graph of m has a closed walk of negative weight that takes no self-loop. */
  ghost predicate HasNegativeCycle(m: seq<seq<Dist>>)
    requires IsSquare(m)
  {
    exists v, w :: 0 <= v < |m| && IsWalk(w, |m|, v, v) && NoLoops(w) && IsNegative(Weight(m, w))
  }

  /**
   * `isNegativeCycle` after `buildPathMatrix`: some diagonal cell is
   * negative exactly when the graph, with its self-loops ignored, has a
   * closed walk of negative weight.
   */
  lemma NegativeCycleAfterPathMatrix(m: seq<seq<Dist>>)
    requires IsSquare(m)
    ensures (exists v :: 0 <= v < |m| && IsNegative(Run(ZeroDiag(m))[v][v])) <==> HasNegativeCycle(m)
  {
    var z, n := ZeroDiag(m), |m|;
    NegativeCycleDetected(z);
    if !NoNegativeCycle(z) {
      var v, w :| 0 <= v < n && IsWalk(w, n, v, v) && IsNegative(Weight(z, w));
      DropLoopsWeight(m, w);
      // the walk cannot consist of self-loops only, which weigh 0 here
      if DropLoops(w) != [] {
        DropLoopsWalk(w, n, v, v);
        assert IsWalk(DropLoops(w), n, v, v) && NoLoops(DropLoops(w));
      }
    }
    if HasNegativeCycle(m) {
      var v, w :| 0 <= v < n && IsWalk(w, n, v, v) && NoLoops(w) && IsNegative(Weight(m, w));
      DropLoopsWeight(m, w);
      assert DropLoops(w) == w by {
        NoLoopsKept(w);
      }
      assert IsWalk(w, n, v, v) && IsNegative(Weight(z, w));
    }
  }

  lemma {:induction false} NoLoopsKept(w: seq<Edge>)
    requires NoLoops(w)
    ensures DropLoops(w) == w
    decreases |w|
  {
    if w != [] {
      NoLoopsKept(w[1..]);
      assert w == [w[0]] + w[1..];
    }
  }

  // ---------------------------------------------------------------------
  // The fixtures of Floyd_Warshall_Negative_Cycle.py.

  const InitInt: seq<seq<Dist>> := [[Fin(0), Fin(1), Inf], [Inf, Fin(0), Fin(-5)], [Fin(2), Inf, Fin(0)]]
  const Init4: seq<seq<Dist>> := [[Fin(0), Inf], [Fin(-5), Fin(0)]]
  const Init7: seq<seq<Dist>> := [[Fin(0), Fin(5), Fin(2)], [Fin(5), Fin(0), Fin(1)], [Fin(2), Fin(1), Fin(0)]]
  const Init8: seq<seq<Dist>> := [[Fin(0), Fin(5), Inf], [Inf, Fin(0), Fin(-10)], [Fin(2), Inf, Fin(0)]]

  /** A matrix with a negative cycle is reported by its diagonal after the passes. */
  lemma CycleReported(m: seq<seq<Dist>>, cycle: seq<Edge>, v: nat)
    requires IsSquare(m) && IsWalk(cycle, |m|, v, v) && NoLoops(cycle) && IsNegative(Weight(m, cycle))
    ensures exists u :: 0 <= u < |m| && IsNegative(Run(ZeroDiag(m))[u][u])
  {
    NegativeCycleAfterPathMatrix(m);
  }

  /** The cycle 0 -> 1 -> 2 -> 0 weighs -2 in `initInt`: it is reported. */
  lemma NegativeCycleFixtures()
    ensures IsSquare(InitInt) && exists v :: 0 <= v < 3 && IsNegative(Run(ZeroDiag(InitInt))[v][v])
  {
    var cycle := [Edge(0, 1), Edge(1, 2), Edge(2, 0)];
    assert Weight(InitInt, cycle) == Fin(-2) by {
      assert cycle[1..] == [Edge(1, 2), Edge(2, 0)] && cycle[1..][1..] == [Edge(2, 0)];
    }
    CycleReported(InitInt, cycle, 0);
  }

  /** The same cycle weighs -3 in `init8`: it is reported. */
  lemma NegativeCycleInit8()
    ensures IsSquare(Init8) && exists v :: 0 <= v < 3 && IsNegative(Run(ZeroDiag(Init8))[v][v])
  {
    var cycle := [Edge(0, 1), Edge(1, 2), Edge(2, 0)];
    assert Weight(Init8, cycle) == Fin(-3) by {
      assert cycle[1..] == [Edge(1, 2), Edge(2, 0)] && cycle[1..][1..] == [Edge(2, 0)];
    }
    CycleReported(Init8, cycle, 0);
  }

  /** `init4` (potentials 0, 5) and `init7` (all weights non-negative) are reported cycle-free. */
  lemma NoNegativeCycleFixtures()
    ensures IsSquare(Init4) && forall v :: 0 <= v < 2 ==> !IsNegative(Run(ZeroDiag(Init4))[v][v])
    ensures IsSquare(Init7) && forall v :: 0 <= v < 3 ==> !IsNegative(Run(ZeroDiag(Init7))[v][v])
  {
    PotentialNoNegativeCycle(Init4, [0, 5]);
    PotentialNoNegativeCycle(Init7, [0, 0, 0]);
    NegativeCycleAfterPathMatrix(Init4);
    NegativeCycleAfterPathMatrix(Init7);
  }
}
