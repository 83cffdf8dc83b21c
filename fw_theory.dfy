// What the in-place Floyd-Warshall passes compute: every finite cell is the
// weight of a walk, no walk is lighter when the graph has no negative closed
// walk, a negative diagonal cell appears exactly when there is one, and a
// second run changes nothing.

module ShortestPaths {
  import opened ExtInt
  import opened Walks
  import opened FloydWarshall

  /** Level values never grow as more intermediate vertices are allowed. */
  lemma {:induction false} LevelDecreases(m: seq<seq<Dist>>, k: nat, k': nat, i: nat, j: nat)
    requires IsSquare(m) && k <= k' <= |m| && i < |m| && j < |m|
    ensures Le(Level(m, k', i, j), Level(m, k, i, j))
    decreases k' - k
  {
    if k < k' {
      LevelDecreases(m, k, k' - 1, i, j);
      MinIsGlb(Level(m, k' - 1, i, j), Add(Level(m, k' - 1, i, k' - 1), Level(m, k' - 1, k' - 1, j)));
      LeTrans(Level(m, k', i, j), Level(m, k' - 1, i, j), Level(m, k, i, j));
    }
  }

  lemma InteriorWiden(w: seq<Edge>, k: nat, k': nat)
    requires InteriorBelow(w, k) && k <= k'
    ensures InteriorBelow(w, k')
  {
  }

  /** Every finite level-k value is the weight of a walk whose interior stays below k. */
  lemma {:induction false} LevelWitness(m: seq<seq<Dist>>, k: nat, i: nat, j: nat) returns (w: seq<Edge>)
    requires IsSquare(m) && k <= |m| && i < |m| && j < |m|
    requires Level(m, k, i, j) != Inf
    ensures IsWalk(w, |m|, i, j) && InteriorBelow(w, k)
    ensures Weight(m, w) == Level(m, k, i, j)
    decreases k
  {
    if k == 0 {
      w := [Edge(i, j)];
      SingleEdge(m, i, j);
    } else {
      var v := k - 1;
      var through := Add(Level(m, v, i, v), Level(m, v, v, j));
      if Less(through, Level(m, v, i, j)) {
        var w1 := LevelWitness(m, v, i, v);
        var w2 := LevelWitness(m, v, v, j);
        JoinAt(m, w1, w2, i, v, j);
        w := w1 + w2;
      } else {
        w := LevelWitness(m, v, i, j);
        InteriorWiden(w, v, k);
      }
    }
  }

  /** Two walks below v that meet at v join into one walk below v + 1, of the summed weight. */
  lemma JoinAt(m: seq<seq<Dist>>, w1: seq<Edge>, w2: seq<Edge>, i: nat, v: nat, j: nat)
    requires IsSquare(m) && v < |m|
    requires IsWalk(w1, |m|, i, v) && InteriorBelow(w1, v)
    requires IsWalk(w2, |m|, v, j) && InteriorBelow(w2, v)
    ensures IsWalk(w1 + w2, |m|, i, j) && InteriorBelow(w1 + w2, v + 1)
    ensures Weight(m, w1 + w2) == Add(Weight(m, w1), Weight(m, w2))
  {
    InteriorWiden(w1, v, v + 1);
    InteriorWiden(w2, v, v + 1);
    WalkConcat(w1, w2, |m|, i, v, j, v + 1);
    WeightConcat(m, w1, w2);
  }

  /** No level below k has a negative diagonal value at its own new vertex. */
  ghost predicate DiagOk(m: seq<seq<Dist>>, k: nat)
    requires IsSquare(m) && k <= |m|
  {
    forall v :: 0 <= v < k ==> !IsNegative(Level(m, v, v, v))
  }

  /** The first edge of `w` that ends at `v`, or |w| when there is none. */
  function FirstVisit(w: seq<Edge>, v: nat): (t: nat)
    ensures t <= |w|
    ensures forall s :: 0 <= s < t ==> w[s].dst != v
    ensures t < |w| ==> w[t].dst == v
  {
    if w == [] then 0
    else if w[0].dst == v then 0
    else 1 + FirstVisit(w[1..], v)
  }

  /** Splitting a walk after its edge t gives two walks that meet at that edge's end. */
  lemma SplitWalk(w: seq<Edge>, n: nat, i: nat, j: nat, t: nat)
    requires IsWalk(w, n, i, j) && t < |w| - 1
    ensures IsWalk(w[..t + 1], n, i, w[t].dst) && IsWalk(w[t + 1..], n, w[t].dst, j)
    ensures w == w[..t + 1] + w[t + 1..]
  {
    assert w[t + 1..][0] == w[t + 1];
  }

  /** A walk with no interior vertex at all is a single edge. */
  lemma SingleEdgeWalk(w: seq<Edge>, n: nat, i: nat, j: nat)
    requires IsWalk(w, n, i, j) && InteriorBelow(w, 0)
    ensures w == [Edge(i, j)]
  {
    assert w[0].dst < 0 || |w| < 2;
  }

  /**
   * A walk whose interior stays below k either avoids k - 1 inside, or splits
   * at its first inner visit to k - 1 into a walk below k - 1 and a walk
   * below k that starts at k - 1.
   */
  lemma SplitAtFirstVisit(w: seq<Edge>, n: nat, i: nat, j: nat, k: nat) returns (t: nat)
    requires IsWalk(w, n, i, j) && InteriorBelow(w, k) && k > 0
    ensures t <= |w| - 1
    ensures t == |w| - 1 ==> InteriorBelow(w, k - 1)
    ensures t < |w| - 1 ==>
      && IsWalk(w[..t + 1], n, i, k - 1) && InteriorBelow(w[..t + 1], k - 1)
      && IsWalk(w[t + 1..], n, k - 1, j) && InteriorBelow(w[t + 1..], k)
      && w == w[..t + 1] + w[t + 1..] && |w[t + 1..]| < |w|
  {
    var v := k - 1;
    t := FirstVisit(w[..|w| - 1], v);
    if t == |w| - 1 {
      forall s | 0 <= s < |w| - 1 ensures w[s].dst < v {
        assert w[..|w| - 1][s] == w[s];
      }
    } else {
      assert w[t].dst == v by {
        assert w[..|w| - 1][t] == w[t];
      }
      SplitWalk(w, n, i, j, t);
      var w1, w2 := w[..t + 1], w[t + 1..];
      forall s | 0 <= s < |w1| - 1 ensures w1[s].dst < v {
        assert w[..|w| - 1][s] == w[s];
      }
      forall s | 0 <= s < |w2| - 1 ensures w2[s].dst < k {
        assert w2[s] == w[t + 1 + s];
      }
    }
  }

  /**
   * With no negative diagonal below k, level k bounds every walk whose
   * interior stays below k: a walk that passes k - 1 splits at its first
   * visit into a part below k - 1 and a remainder that starts at k - 1.
   */
  lemma {:induction false} LevelLowerBound(m: seq<seq<Dist>>, k: nat, i: nat, j: nat, w: seq<Edge>)
    requires IsSquare(m) && k <= |m| && i < |m| && j < |m|
    requires IsWalk(w, |m|, i, j) && InteriorBelow(w, k) && DiagOk(m, k)
    ensures Le(Level(m, k, i, j), Weight(m, w))
    decreases k, |w|
  {
    var n := |m|;
    if k == 0 {
      SingleEdgeWalk(w, n, i, j);
      SingleEdge(m, i, j);
    } else {
      var v := k - 1;
      var t := SplitAtFirstVisit(w, n, i, j, k);
      var direct := Level(m, v, i, j);
      var through := Add(Level(m, v, i, v), Level(m, v, v, j));
      MinIsGlb(direct, through);
      if t == |w| - 1 {
        LevelLowerBound(m, v, i, j, w);
        LeTrans(Level(m, k, i, j), direct, Weight(m, w));
      } else {
        var w1, w2 := w[..t + 1], w[t + 1..];
        LevelLowerBound(m, v, i, v, w1);
        LevelLowerBound(m, k, v, j, w2);
        // level k from v equals level k - 1 from v, since the loop at v is not negative
        assert Level(m, k, v, j) == Level(m, v, v, j);
        WeightConcat(m, w1, w2);
        AddMono(Level(m, v, i, v), Level(m, v, v, j), Weight(m, w1), Weight(m, w2));
        LeTrans(Level(m, k, i, j), through, Weight(m, w));
      }
    }
  }

  /** The graph of m has no closed walk of negative weight. */
  ghost predicate NoNegativeCycle(m: seq<seq<Dist>>)
    requires IsSquare(m)
  {
    forall v, w :: 0 <= v < |m| && IsWalk(w, |m|, v, v) ==> !IsNegative(Weight(m, w))
  }

  lemma NoNegativeCycleDiag(m: seq<seq<Dist>>, k: nat)
    requires IsSquare(m) && k <= |m| && NoNegativeCycle(m)
    ensures DiagOk(m, k)
  {
    forall v | 0 <= v < k ensures !IsNegative(Level(m, v, v, v)) {
      if IsNegative(Level(m, v, v, v)) {
        var w := LevelWitness(m, v, v, v);
      }
    }
  }

  /** Every finite cell of the result is the weight of a walk (the one its path entry lists). */
  lemma RunRealized(m: seq<seq<Dist>>, i: nat, j: nat) returns (w: seq<Edge>)
    requires IsSquare(m) && i < |m| && j < |m| && Run(m)[i][j] != Inf
    ensures IsWalk(w, |m|, i, j) && Weight(m, w) == Run(m)[i][j]
  {
    PathsCorrect(m, false);
    assert CellOk(m, Run(m)[i][j], Paths(m, false)[i][j], i, j, false);
    w := Arcs(Paths(m, false)[i][j]);
  }

  /** With no negative closed walk, no walk from i to j is lighter than the result's cell. */
  lemma RunBelowWalks(m: seq<seq<Dist>>, i: nat, j: nat, w: seq<Edge>)
    requires IsSquare(m) && i < |m| && j < |m| && NoNegativeCycle(m)
    requires IsWalk(w, |m|, i, j)
    ensures Le(Run(m)[i][j], Weight(m, w))
  {
    UptoBelowLevel(m, |m|);
    NoNegativeCycleDiag(m, |m|);
    LevelLowerBound(m, |m|, i, j, w);
    LeTrans(Run(m)[i][j], Level(m, |m|, i, j), Weight(m, w));
  }

  /**
   * `buildFWWeightMatrix` on a graph with no negative closed walk: each cell
   * is the least weight of a walk from its row to its column, and INF exactly
   * when every such walk uses a missing edge.
   */
  lemma RunIsShortest(m: seq<seq<Dist>>)
    requires IsSquare(m) && NoNegativeCycle(m)
    ensures forall i, j, w :: 0 <= i < |m| && 0 <= j < |m| && IsWalk(w, |m|, i, j) ==>
      Le(Run(m)[i][j], Weight(m, w))
    ensures forall i, j :: 0 <= i < |m| && 0 <= j < |m| && Run(m)[i][j] != Inf ==>
      exists w :: IsWalk(w, |m|, i, j) && Weight(m, w) == Run(m)[i][j]
    ensures forall i, j :: 0 <= i < |m| && 0 <= j < |m| ==>
      (Run(m)[i][j] == Inf <==> forall w :: IsWalk(w, |m|, i, j) ==> Weight(m, w) == Inf)
  {
    forall i, j, w | 0 <= i < |m| && 0 <= j < |m| && IsWalk(w, |m|, i, j)
      ensures Le(Run(m)[i][j], Weight(m, w))
    {
      RunBelowWalks(m, i, j, w);
    }
    forall i, j | 0 <= i < |m| && 0 <= j < |m| && Run(m)[i][j] != Inf
      ensures exists w :: IsWalk(w, |m|, i, j) && Weight(m, w) == Run(m)[i][j]
    {
      var w := RunRealized(m, i, j);
    }
  }

  /**
   * `isNegativeCycle` after the passes: some diagonal cell is negative
   * exactly when the graph has a closed walk of negative weight.
   */
  lemma NegativeCycleDetected(m: seq<seq<Dist>>)
    requires IsSquare(m)
    ensures (exists v :: 0 <= v < |m| && IsNegative(Run(m)[v][v])) <==> !NoNegativeCycle(m)
  {
    var n := |m|;
    if v :| 0 <= v < n && IsNegative(Run(m)[v][v]) {
      var w := RunRealized(m, v, v);
    }
    if !NoNegativeCycle(m) {
      var v, w :| 0 <= v < n && IsWalk(w, n, v, v) && IsNegative(Weight(m, w));
      UptoBelowLevel(m, n);
      if DiagOk(m, n) {
        LevelLowerBound(m, n, v, v, w);
        assert IsNegative(Run(m)[v][v]);
      } else {
        var u :| 0 <= u < n && IsNegative(Level(m, u, u, u));
        LevelDecreases(m, u, n, u, u);
        assert IsNegative(Run(m)[u][u]);
      }
    }
  }

  // ---------------------------------------------------------------------
  // Running the passes a second time.

  /** Every cell is at most any detour through a third vertex. */
  ghost predicate Triangle(f: seq<seq<Dist>>)
    requires IsSquare(f)
  {
    forall i, j, k :: 0 <= i < |f| && 0 <= j < |f| && 0 <= k < |f| ==> Le(f[i][j], Add(f[i][k], f[k][j]))
  }

  lemma RunTriangle(m: seq<seq<Dist>>)
    requires IsSquare(m) && NoNegativeCycle(m)
    ensures Triangle(Run(m))
  {
    var f, n := Run(m), |m|;
    forall i, j, k | 0 <= i < n && 0 <= j < n && 0 <= k < n
      ensures Le(f[i][j], Add(f[i][k], f[k][j]))
    {
      if f[i][k] != Inf && f[k][j] != Inf {
        var w1 := RunRealized(m, i, k);
        var w2 := RunRealized(m, k, j);
        WalkConcat(w1, w2, n, i, k, j, n);
        WeightConcat(m, w1, w2);
        RunBelowWalks(m, i, j, w1 + w2);
      }
    }
  }

  lemma {:induction false} RowPassFixed(f: seq<seq<Dist>>, k: nat, i: nat, j: nat)
    requires IsSquare(f) && k < |f| && i < |f| && j <= |f| && Triangle(f)
    ensures RowPass(f, k, i, j) == f
    decreases j
  {
    if j > 0 {
      RowPassFixed(f, k, i, j - 1);
      assert Le(f[i][j - 1], Add(f[i][k], f[k][j - 1]));
      assert f[i][j - 1 := f[i][j - 1]] == f[i];
    }
  }

  lemma {:induction false} PassFixed(f: seq<seq<Dist>>, k: nat, i: nat)
    requires IsSquare(f) && k < |f| && i <= |f| && Triangle(f)
    ensures Pass(f, k, i) == f
    decreases i
  {
    if i > 0 {
      PassFixed(f, k, i - 1);
      RowPassFixed(f, k, i - 1, |f|);
    }
  }

  /** A matrix that satisfies the triangle inequality is left unchanged by the passes. */
  lemma {:induction false} UptoFixed(f: seq<seq<Dist>>, k: nat)
    requires IsSquare(f) && k <= |f| && Triangle(f)
    ensures Upto(f, k) == f
    decreases k
  {
    if k > 0 {
      UptoFixed(f, k - 1);
      PassFixed(f, k - 1, |f|);
    }
  }

  /** With no negative closed walk, running `buildFWWeightMatrix` twice equals running it once. */
  lemma RunIdempotent(m: seq<seq<Dist>>)
    requires IsSquare(m) && NoNegativeCycle(m)
    ensures Run(Run(m)) == Run(m)
  {
    RunTriangle(m);
    UptoFixed(Run(m), |m|);
  }

  // ---------------------------------------------------------------------
  // A certificate that there is no negative closed walk.

  /** Vertex potentials under which every finite edge has non-negative reduced weight. */
  predicate IsPotential(m: seq<seq<Dist>>, pi: seq<int>)
    requires IsSquare(m)
  {
    |pi| == |m| &&
    forall a, b :: 0 <= a < |m| && 0 <= b < |m| && m[a][b] != Inf ==> m[a][b].v + pi[a] - pi[b] >= 0
  }

  lemma {:induction false} PotentialBound(m: seq<seq<Dist>>, pi: seq<int>, w: seq<Edge>, i: nat, j: nat)
    requires IsSquare(m) && IsPotential(m, pi) && IsWalk(w, |m|, i, j)
    ensures Weight(m, w) == Inf || Weight(m, w).v >= pi[j] - pi[i]
    decreases |w|
  {
    if |w| > 1 {
      assert w[1..][0] == w[1];
      PotentialBound(m, pi, w[1..], w[0].dst, j);
    }
  }

  /** A graph with a potential has no closed walk of negative weight. */
  lemma PotentialNoNegativeCycle(m: seq<seq<Dist>>, pi: seq<int>)
    requires IsSquare(m) && IsPotential(m, pi)
    ensures NoNegativeCycle(m)
  {
    forall v, w | 0 <= v < |m| && IsWalk(w, |m|, v, v) ensures !IsNegative(Weight(m, w)) {
      PotentialBound(m, pi, w, v, v);
    }
  }
}
