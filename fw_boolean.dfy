// The boolean Floyd-Warshall routines of Floyd_Warshall_Boolean.py. A boolean
// matrix is read as a weighted one whose true cells are edges of weight 0 and
// whose false cells are missing (INF): `bm[i][j] or (bm[i][k] and bm[k][j])`
// is then exactly the weighted relaxation, and the closure facts follow from
// the shortest-path ones.

module BooleanFloydWarshall {
  import opened ExtInt
  import opened Walks
  import opened FloydWarshall
  import opened ShortestPaths
  import opened Components

  /** A true cell as an edge of weight 0, a false cell as INF. */
  function Encode(b: seq<seq<bool>>): (m: seq<seq<Dist>>)
    requires IsSquare(b)
    ensures IsSquare(m) && |m| == |b|
  {
    seq(|b|, i requires 0 <= i < |b| =>
      seq(|b|, j requires 0 <= j < |b| => if b[i][j] then Fin(0) else Inf))
  }

  /** The current contents of a square boolean matrix, row by row. */
  function BoolSnapshot(bm: array2<bool>): (b: seq<seq<bool>>)
    reads bm
    requires bm.Length0 == bm.Length1
    ensures IsSquare(b) && |b| == bm.Length0
    ensures forall x, y :: 0 <= x < |b| && 0 <= y < |b| ==> b[x][y] == bm[x, y]
  {
    seq(bm.Length0, x requires 0 <= x < bm.Length0 reads bm =>
      seq(bm.Length1, y requires 0 <= y < bm.Length1 reads bm => bm[x, y]))
  }

  /** The matrix the boolean passes leave behind: true where the weighted passes end finite. */
  function Closure(b: seq<seq<bool>>): (c: seq<seq<bool>>)
    requires IsSquare(b)
    ensures IsSquare(c) && |c| == |b|
  {
    var r := Run(Encode(b));
    seq(|b|, i requires 0 <= i < |b| => seq(|b|, j requires 0 <= j < |b| => r[i][j] != Inf))
  }

  /** The matrix with every diagonal cell set to true (the first loop of `buildPathMatrix`). */
  function WithLoops(b: seq<seq<bool>>): (c: seq<seq<bool>>)
    requires IsSquare(b)
    ensures IsSquare(c) && |c| == |b|
  {
    seq(|b|, i requires 0 <= i < |b| => seq(|b|, j requires 0 <= j < |b| => i == j || b[i][j]))
  }

  /** The weighted matrix g is the encoding of the current contents of bm. */
  ghost predicate Mirrors(g: seq<seq<Dist>>, bm: array2<bool>)
    reads bm
  {
    && bm.Length0 == bm.Length1 && IsSquare(g) && |g| == bm.Length0
    && forall x, y :: 0 <= x < |g| && 0 <= y < |g| ==> g[x][y] == if bm[x, y] then Fin(0) else Inf
  }

  /**
   * One relaxation on an encoded matrix: the cell (i, j) becomes the
   * encoding of `bm[i][j] or (bm[i][k] and bm[k][j])`, every other cell stays.
   */
  lemma RelaxEncoded(g: seq<seq<Dist>>, k: nat, i: nat, j: nat, a: bool, b: bool, c: bool)
    returns (h: seq<seq<Dist>>)
    requires IsSquare(g) && k < |g| && i < |g| && j < |g|
    requires g[i][j] == (if a then Fin(0) else Inf)
    requires g[i][k] == (if b then Fin(0) else Inf) && g[k][j] == (if c then Fin(0) else Inf)
    ensures h == Relax(g, k, i, j)
    ensures h == g[i := g[i][j := if a || (b && c) then Fin(0) else Inf]]
  {
    h := Relax(g, k, i, j);
  }

  /**
   * On an encoded matrix the path entry (i, j) is rewritten exactly when the
   * `or` flips the cell from false to true.
   */
  lemma RelaxPathEncoded(g: seq<seq<Dist>>, p: PathMatrix, k: nat, i: nat, j: nat, sep: bool, a: bool, b: bool, c: bool)
    returns (q: PathMatrix)
    requires IsSquare(g) && IsPathMatrix(p, |g|) && k < |g| && i < |g| && j < |g|
    requires g[i][j] == (if a then Fin(0) else Inf)
    requires g[i][k] == (if b then Fin(0) else Inf) && g[k][j] == (if c then Fin(0) else Inf)
    ensures q == RelaxPath(g, p, k, i, j, sep) && IsPathMatrix(q, |g|)
    ensures q == if !a && b && c then p[i := p[i][j := p[i][k] + Sep(sep) + p[k][j]]] else p
  {
    assert Improves(g, k, i, j) <==> !a && b && c;
    q := RelaxPath(g, p, k, i, j, sep);
  }

  /** Writing one cell of bm keeps it mirrored by the matrix with that cell re-encoded. */
  lemma MirrorsWritten(bm: array2<bool>, h: seq<seq<Dist>>, before: seq<seq<bool>>, i: nat, j: nat)
    requires IsSquare(before) && h == Encode(before) && i < |h| && j < |h|
    requires bm.Length0 == bm.Length1 == |h|
    requires forall x, y :: 0 <= x < |h| && 0 <= y < |h| && (x != i || y != j) ==> bm[x, y] == before[x][y]
    ensures Mirrors(h[i := h[i][j := if bm[i, j] then Fin(0) else Inf]], bm)
  {
  }

  /** A mirrored matrix is the encoding of the current contents. */
  lemma MirrorsSnapshot(g: seq<seq<Dist>>, bm: array2<bool>)
    requires Mirrors(g, bm)
    ensures g == Encode(BoolSnapshot(bm))
  {
    var e := Encode(BoolSnapshot(bm));
    forall x | 0 <= x < |g| ensures g[x] == e[x] {
    }
  }

  lemma BoolSnapshotIs(bm: array2<bool>, g: seq<seq<Dist>>, b: seq<seq<bool>>)
    requires Mirrors(g, bm)
    requires IsSquare(b) && |b| == |g| && g == Run(Encode(b))
    ensures BoolSnapshot(bm) == Closure(b)
  {
    var s, c := BoolSnapshot(bm), Closure(b);
    forall x | 0 <= x < |g| ensures s[x] == c[x] {
    }
  }

  /** `buildFWBooleanMatrix`: n passes of `bm[i][j] = bm[i][j] or (bm[i][k] and bm[k][j])`, in place. */
  method BuildFWBooleanMatrix(bm: array2<bool>)
    requires bm.Length0 == bm.Length1
    modifies bm
    ensures BoolSnapshot(bm) == Closure(old(BoolSnapshot(bm)))
  {
    var n := bm.Length0;
    ghost var b := BoolSnapshot(bm);
    ghost var m := Encode(b);
    ghost var g := m;
    for k := 0 to n
      invariant g == Upto(m, k) && Mirrors(g, bm)
    {
      for i := 0 to n
        invariant g == Pass(Upto(m, k), k, i) && Mirrors(g, bm)
      {
        BoolRelaxRow(bm, k, i, g);
        g := RowPass(g, k, i, n);
      }
    }
    BoolSnapshotIs(bm, g, b);
  }

  /** The innermost loop of `buildFWBooleanMatrix`: pass k over row i, in place. */
  method BoolRelaxRow(bm: array2<bool>, k: nat, i: nat, ghost g: seq<seq<Dist>>)
    requires Mirrors(g, bm) && k < |g| && i < |g|
    modifies bm
    ensures Mirrors(RowPass(g, k, i, |g|), bm)
  {
    var n := bm.Length0;
    ghost var h := g;
    for j := 0 to n
      invariant h == RowPass(g, k, i, j) && Mirrors(h, bm)
    {
      ghost var q := RelaxEncoded(h, k, i, j, bm[i, j], bm[i, k], bm[k, j]);
      h := BoolRelaxCell(bm, k, i, j, h);
    }
  }

  /** The cell update `bm[i][j] = bm[i][j] or (bm[i][k] and bm[k][j])`, in place. */
  method BoolRelaxCell(bm: array2<bool>, k: nat, i: nat, j: nat, ghost h: seq<seq<Dist>>) returns (ghost h': seq<seq<Dist>>)
    requires Mirrors(h, bm) && k < |h| && i < |h| && j < |h|
    modifies bm
    ensures h' == Relax(h, k, i, j) && Mirrors(h', bm)
  {
    ghost var before := BoolSnapshot(bm);
    MirrorsSnapshot(h, bm);
    bm[i, j] := bm[i, j] || (bm[i, k] && bm[k, j]);
    MirrorsWritten(bm, h, before, i, j);
    h' := RelaxEncoded(h, k, i, j, before[i][j], before[i][k], before[k][j]);
  }

  /** The first loop of `buildPathMatrix`: every diagonal cell becomes true, in place. */
  method SetDiagonal(bm: array2<bool>)
    requires bm.Length0 == bm.Length1
    modifies bm
    ensures BoolSnapshot(bm) == WithLoops(old(BoolSnapshot(bm)))
  {
    var n := bm.Length0;
    ghost var b := BoolSnapshot(bm);
    for i := 0 to n
      invariant forall x, y :: 0 <= x < n && 0 <= y < n ==> bm[x, y] == ((x == y && x < i) || b[x][y])
    {
      for j := 0 to n
        invariant forall x, y :: 0 <= x < n && 0 <= y < n ==>
          bm[x, y] == ((x == y && (x < i || (x == i && y < j))) || b[x][y])
      {
        if i == j {
          bm[i, j] := true;
        }
      }
    }
    var s, c := BoolSnapshot(bm), WithLoops(b);
    forall x | 0 <= x < n ensures s[x] == c[x] {
    }
  }

  /**
   * Pass k over row i with path updates: when bm[i][j] is false and both
   * bm[i][k] and bm[k][j] are true, path (i, j) becomes path (i, k), then the
   * separator when `sep` holds, then path (k, j); the cell takes the `or`.
   */
  method BoolRelaxRowWithPaths(bm: array2<bool>, paths: PathMatrix, k: nat, i: nat, sep: bool, ghost g: seq<seq<Dist>>)
    returns (paths': PathMatrix)
    requires Mirrors(g, bm) && k < |g| && i < |g| && IsPathMatrix(paths, |g|)
    modifies bm
    ensures Mirrors(RowPass(g, k, i, |g|), bm)
    ensures paths' == PathRowPass(g, paths, k, i, |g|, sep)
  {
    var n := bm.Length0;
    ghost var h := g;
    paths' := paths;
    for j := 0 to n
      invariant h == RowPass(g, k, i, j) && paths' == PathRowPass(g, paths, k, i, j, sep)
      invariant Mirrors(h, bm) && IsPathMatrix(paths', n)
    {
      ghost var q := RelaxPathEncoded(h, paths', k, i, j, sep, bm[i, j], bm[i, k], bm[k, j]);
      if !bm[i, j] && bm[i, k] && bm[k, j] {
        paths' := paths'[i := paths'[i][j := paths'[i][k] + Sep(sep) + paths'[k][j]]];
      }
      assert paths' == q;
      h := BoolRelaxCell(bm, k, i, j, h);
    }
  }

  /**
   * The path-building part shared by `buildPathMatrix` and the bottles
   * file's `FWAlgorithmBool`: each path starts as the edge i -> j where the
   * cell is true, then the passes run with path updates.
   */
  method BoolPathPasses(bm: array2<bool>, sep: bool) returns (paths: PathMatrix)
    requires bm.Length0 == bm.Length1
    modifies bm
    ensures BoolSnapshot(bm) == Closure(old(BoolSnapshot(bm)))
    ensures paths == Paths(Encode(old(BoolSnapshot(bm))), sep)
  {
    var n := bm.Length0;
    ghost var b := BoolSnapshot(bm);
    ghost var m := Encode(b);
    paths := InitialPaths(Encode(BoolSnapshot(bm)));
    ghost var p0 := paths;
    ghost var g := m;
    for k := 0 to n
      invariant g == Upto(m, k) && paths == PathUpto(m, p0, k, sep) && Mirrors(g, bm)
    {
      ghost var gk, pk := g, paths;
      for i := 0 to n
        invariant g == Pass(gk, k, i) && paths == PathPass(gk, pk, k, i, sep) && Mirrors(g, bm)
      {
        paths := BoolRelaxRowWithPaths(bm, paths, k, i, sep, g);
        g := RowPass(g, k, i, n);
      }
    }
    BoolSnapshotIs(bm, g, b);
  }

  /**
   * `buildPathMatrix`: set the diagonal to true, then build the paths with
   * "," between the joined halves.
   */
  method BuildPathMatrix(bm: array2<bool>) returns (paths: PathMatrix)
    requires bm.Length0 == bm.Length1
    modifies bm
    ensures BoolSnapshot(bm) == Closure(WithLoops(old(BoolSnapshot(bm))))
    ensures paths == Paths(Encode(WithLoops(old(BoolSnapshot(bm)))), true)
  {
    SetDiagonal(bm);
    paths := BoolPathPasses(bm, true);
  }

  /** A boolean cell links its row to its column when it is true. */
  function IsTrue(b: bool): bool
  {
    b
  }

  /**
   * `connectComponentsOfGraphBoolean`: the components of the relation of the
   * true cells, each as its ascending list of vertices, the first holding
   * vertex 0; on a symmetric, transitive matrix two distinct vertices share a
   * group exactly when their cell is true.
   */
  method ConnectComponentsBoolean(bm: array2<bool>) returns (count: nat, groups: seq<seq<nat>>)
    requires bm.Length0 == bm.Length1
    ensures |groups| == count && IsPartition(groups, bm.Length0)
    ensures bm.Length0 > 0 ==> count > 0 && groups[0][0] == 0
    ensures Closed(bm, IsTrue) ==>
      forall c, c', v, w ::
        0 <= c < count && 0 <= c' < count && v in groups[c] && w in groups[c'] &&
        v < bm.Length0 && w < bm.Length0 && v != w ==>
          (c == c' <==> bm[v, w])
  {
    count, groups := ConnectComponents(bm, IsTrue);
    if Closed(bm, IsTrue) {
      forall c, c', v, w |
        0 <= c < count && 0 <= c' < count && v in groups[c] && w in groups[c'] &&
        v < bm.Length0 && w < bm.Length0 && v != w
        ensures c == c' <==> bm[v, w]
      {
        assert Linked(bm, IsTrue, v, w) == bm[v, w];
      }
    }
  }

  /** `isConnected` of the boolean file: every cell is true. */
  method IsConnectedBoolean(bm: array2<bool>) returns (ans: bool)
    requires bm.Length0 == bm.Length1
    ensures ans <==> forall i, j :: 0 <= i < bm.Length0 && 0 <= j < bm.Length1 ==> bm[i, j]
  {
    ans := IsConnected(bm, IsTrue);
  }

  /** `isConnectedComplexN` of the boolean file: every cell of row 0 is true. */
  method IsConnectedComplexNBoolean(bm: array2<bool>) returns (ans: bool)
    requires bm.Length0 == bm.Length1
    ensures ans <==> forall j :: 0 <= j < bm.Length1 && 0 < bm.Length0 ==> bm[0, j]
  {
    ans := IsConnectedComplexN(bm, IsTrue);
  }

  // ---------------------------------------------------------------------
  // What the boolean passes compute.

  /** Every edge of the walk is a true cell of b. */
  ghost predicate AllEdges(b: seq<seq<bool>>, w: seq<Edge>)
    requires IsSquare(b) && EdgesIn(w, |b|)
  {
    forall t :: 0 <= t < |w| ==> b[w[t].src][w[t].dst]
  }

  lemma AllEdgesCons(b: seq<seq<bool>>, w: seq<Edge>)
    requires IsSquare(b) && EdgesIn(w, |b|) && w != []
    ensures AllEdges(b, w) <==> b[w[0].src][w[0].dst] && AllEdges(b, w[1..])
  {
    if b[w[0].src][w[0].dst] && AllEdges(b, w[1..]) {
      forall t | 1 <= t < |w| ensures b[w[t].src][w[t].dst] {
        assert w[t] == w[1..][t - 1];
      }
    }
  }

  /** Under the encoding a walk weighs 0 when it uses only true cells, and INF otherwise. */
  lemma {:induction false} EncodedWeight(b: seq<seq<bool>>, w: seq<Edge>)
    requires IsSquare(b) && EdgesIn(w, |b|)
    ensures Weight(Encode(b), w) == if AllEdges(b, w) then Fin(0) else Inf
    decreases |w|
  {
    if w != [] {
      EncodedWeight(b, w[1..]);
      AllEdgesCons(b, w);
    }
  }

  lemma EncodedNoNegativeCycle(b: seq<seq<bool>>)
    requires IsSquare(b)
    ensures NoNegativeCycle(Encode(b))
  {
    forall v, w | 0 <= v < |b| && IsWalk(w, |b|, v, v) ensures !IsNegative(Weight(Encode(b), w)) {
      EncodedWeight(b, w);
    }
  }

  /**
   * `buildFWBooleanMatrix` computes the transitive closure: a cell ends true
   * exactly when some non-empty walk of true cells leads from its row to its
   * column.
   */
  lemma ClosureIsReachability(b: seq<seq<bool>>)
    requires IsSquare(b)
    ensures forall i, j :: 0 <= i < |b| && 0 <= j < |b| ==>
      (Closure(b)[i][j] <==> exists w :: IsWalk(w, |b|, i, j) && AllEdges(b, w))
  {
    var m := Encode(b);
    EncodedNoNegativeCycle(b);
    RunIsShortest(m);
    forall i, j | 0 <= i < |b| && 0 <= j < |b|
      ensures Closure(b)[i][j] <==> exists w :: IsWalk(w, |b|, i, j) && AllEdges(b, w)
    {
      if Closure(b)[i][j] {
        var w :| IsWalk(w, |b|, i, j) && Weight(m, w) == Run(m)[i][j];
        EncodedWeight(b, w);
      }
      if exists w :: IsWalk(w, |b|, i, j) && AllEdges(b, w) {
        var w :| IsWalk(w, |b|, i, j) && AllEdges(b, w);
        EncodedWeight(b, w);
        assert Le(Run(m)[i][j], Weight(m, w));
      }
    }
  }

  /** A true cell never becomes false. */
  lemma ClosureKeepsTrue(b: seq<seq<bool>>)
    requires IsSquare(b)
    ensures forall i, j :: 0 <= i < |b| && 0 <= j < |b| && b[i][j] ==> Closure(b)[i][j]
  {
    UptoDecreases(Encode(b), |b|);
    assert forall i, j :: 0 <= i < |b| && 0 <= j < |b| ==> Le(Run(Encode(b))[i][j], Encode(b)[i][j]);
  }

  /** The weighted passes over an encoded matrix give back an encoded matrix. */
  lemma RunStaysEncoded(b: seq<seq<bool>>)
    requires IsSquare(b)
    ensures Run(Encode(b)) == Encode(Closure(b))
  {
    var r, e := Run(Encode(b)), Encode(Closure(b));
    forall i, j | 0 <= i < |b| && 0 <= j < |b| ensures r[i][j] == e[i][j] {
      if r[i][j] != Inf {
        var w := RunRealized(Encode(b), i, j);
        EncodedWeight(b, w);
      }
    }
    forall i | 0 <= i < |b| ensures r[i] == e[i] {
    }
  }

  /** Applying `buildFWBooleanMatrix` twice gives the same matrix as applying it once. */
  lemma ClosureIdempotent(b: seq<seq<bool>>)
    requires IsSquare(b)
    ensures Closure(Closure(b)) == Closure(b)
  {
    RunStaysEncoded(b);
    EncodedNoNegativeCycle(b);
    RunIdempotent(Encode(b));
    RunStaysEncoded(Closure(b));
    var c2, c1 := Closure(Closure(b)), Closure(b);
    forall i, j | 0 <= i < |b| && 0 <= j < |b| ensures c2[i][j] == c1[i][j] {
      assert Encode(c2)[i][j] == Encode(c1)[i][j];
    }
    forall i | 0 <= i < |b| ensures c2[i] == c1[i] {
    }
  }

  /**
   * After the path passes over b: an entry is empty exactly when the
   * closure's cell is false; otherwise it lists a walk of true cells of b
   * from its row to its column, written with the separator convention.
   */
  lemma BoolPathsCorrect(b: seq<seq<bool>>, sep: bool)
    requires IsSquare(b)
    ensures forall i, j :: 0 <= i < |b| && 0 <= j < |b| ==>
      && (Paths(Encode(b), sep)[i][j] == [] <==> !Closure(b)[i][j])
      && (Closure(b)[i][j] ==>
            && IsWalk(Arcs(Paths(Encode(b), sep)[i][j]), |b|, i, j)
            && AllEdges(b, Arcs(Paths(Encode(b), sep)[i][j]))
            && Paths(Encode(b), sep)[i][j] == Render(Arcs(Paths(Encode(b), sep)[i][j]), sep))
  {
    var m := Encode(b);
    PathsCorrect(m, sep);
    forall i, j | 0 <= i < |b| && 0 <= j < |b|
      ensures Paths(m, sep)[i][j] == [] <==> !Closure(b)[i][j]
      ensures Closure(b)[i][j] ==>
        (&& IsWalk(Arcs(Paths(m, sep)[i][j]), |b|, i, j)
         && AllEdges(b, Arcs(Paths(m, sep)[i][j]))
         && Paths(m, sep)[i][j] == Render(Arcs(Paths(m, sep)[i][j]), sep))
    {
      assert CellOk(m, Run(m)[i][j], Paths(m, sep)[i][j], i, j, sep);
      if Closure(b)[i][j] {
        EncodedWeight(b, Arcs(Paths(m, sep)[i][j]));
      }
    }
  }
}
