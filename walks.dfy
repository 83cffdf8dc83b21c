// Square matrices and walks through them. A walk is the sequence of the
// edges it takes; its weight adds up the matrix cells of those edges.

module Walks {
  import opened ExtInt

  datatype Edge = Edge(src: nat, dst: nat)

  predicate IsSquare<T>(m: seq<seq<T>>)
  {
    forall i :: 0 <= i < |m| ==> |m[i]| == |m|
  }

  /** Every edge of `w` joins two of the vertices 0 .. n-1. */
  predicate EdgesIn(w: seq<Edge>, n: nat)
  {
    forall t :: 0 <= t < |w| ==> w[t].src < n && w[t].dst < n
  }

  /** `w` is a walk of at least one edge from `i` to `j` over vertices 0 .. n-1. */
  predicate IsWalk(w: seq<Edge>, n: nat, i: nat, j: nat)
  {
    && |w| >= 1
    && EdgesIn(w, n)
    && w[0].src == i
    && w[|w| - 1].dst == j
    && forall t :: 0 <= t < |w| - 1 ==> w[t].dst == w[t + 1].src
  }

  /** Every vertex the walk passes through (its ends excepted) is below k. */
  predicate InteriorBelow(w: seq<Edge>, k: nat)
  {
    forall t :: 0 <= t < |w| - 1 ==> w[t].dst < k
  }

  function Weight(m: seq<seq<Dist>>, w: seq<Edge>): Dist
    requires IsSquare(m) && EdgesIn(w, |m|)
  {
    if w == [] then Fin(0) else Add(m[w[0].src][w[0].dst], Weight(m, w[1..]))
  }

  lemma {:induction false} WeightConcat(m: seq<seq<Dist>>, w1: seq<Edge>, w2: seq<Edge>)
    requires IsSquare(m) && EdgesIn(w1, |m|) && EdgesIn(w2, |m|)
    ensures EdgesIn(w1 + w2, |m|)
    ensures Weight(m, w1 + w2) == Add(Weight(m, w1), Weight(m, w2))
    decreases |w1|
  {
    if w1 != [] {
      assert (w1 + w2)[1..] == w1[1..] + w2;
      WeightConcat(m, w1[1..], w2);
    } else {
      assert w1 + w2 == w2;
    }
  }

  /** Two walks that meet make one walk. */
  lemma WalkConcat(w1: seq<Edge>, w2: seq<Edge>, n: nat, i: nat, k: nat, j: nat, bound: nat)
    requires IsWalk(w1, n, i, k) && IsWalk(w2, n, k, j)
    requires InteriorBelow(w1, bound) && InteriorBelow(w2, bound) && k < bound
    ensures IsWalk(w1 + w2, n, i, j) && InteriorBelow(w1 + w2, bound)
  {
    var w := w1 + w2;
    forall t | 0 <= t < |w| - 1
      ensures w[t].dst == w[t + 1].src && w[t].dst < bound
    {
      if t < |w1| - 1 {
      } else if t == |w1| - 1 {
      } else {
        assert w[t] == w2[t - |w1|] && w[t + 1] == w2[t + 1 - |w1|];
      }
    }
  }

  /** The one-edge walk. */
  lemma SingleEdge(m: seq<seq<Dist>>, i: nat, j: nat)
    requires IsSquare(m) && i < |m| && j < |m|
    ensures IsWalk([Edge(i, j)], |m|, i, j) && InteriorBelow([Edge(i, j)], 0)
    ensures Weight(m, [Edge(i, j)]) == m[i][j]
  {
    assert [Edge(i, j)][1..] == [];
  }
}
