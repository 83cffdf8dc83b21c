// The Floyd-Warshall relaxation shared by the weighted and the boolean files,
// as pure functions that follow the source's in-place cell order exactly:
// pass k visits the cells row by row, and a cell relaxed earlier in the pass is
// already seen with its new value by the cells after it.

module FloydWarshall {
  import opened ExtInt
  import opened Walks

  /** One cell update: `mat[i][j] = min(mat[i][j], mat[i][k] + mat[k][j])`. */
  function Relax(g: seq<seq<Dist>>, k: nat, i: nat, j: nat): (h: seq<seq<Dist>>)
    requires IsSquare(g) && k < |g| && i < |g| && j < |g|
    ensures IsSquare(h) && |h| == |g|
  {
    g[i := g[i][j := Min(g[i][j], Add(g[i][k], g[k][j]))]]
  }

  /** Pass k over the first j cells of row i. */
  function RowPass(g: seq<seq<Dist>>, k: nat, i: nat, j: nat): (h: seq<seq<Dist>>)
    requires IsSquare(g) && k < |g| && i < |g| && j <= |g|
    ensures IsSquare(h) && |h| == |g|
    decreases j
  {
    if j == 0 then g else Relax(RowPass(g, k, i, j - 1), k, i, j - 1)
  }

  /** Pass k over the first i rows. */
  function Pass(g: seq<seq<Dist>>, k: nat, i: nat): (h: seq<seq<Dist>>)
    requires IsSquare(g) && k < |g| && i <= |g|
    ensures IsSquare(h) && |h| == |g|
    decreases i
  {
    if i == 0 then g else RowPass(Pass(g, k, i - 1), k, i - 1, |g|)
  }

  /** The first k passes. */
  function Upto(g: seq<seq<Dist>>, k: nat): (h: seq<seq<Dist>>)
    requires IsSquare(g) && k <= |g|
    ensures IsSquare(h) && |h| == |g|
    decreases k
  {
    if k == 0 then g else Pass(Upto(g, k - 1), k - 1, |g|)
  }

  /** All n passes: the matrix `buildFWWeightMatrix` leaves behind. */
  function Run(g: seq<seq<Dist>>): (h: seq<seq<Dist>>)
    requires IsSquare(g)
    ensures IsSquare(h) && |h| == |g|
  {
    Upto(g, |g|)
  }

  // ---------------------------------------------------------------------
  // Cells only ever decrease.

  /** Cell by cell, h is at most g. */
  ghost predicate Below(h: seq<seq<Dist>>, g: seq<seq<Dist>>)
    requires IsSquare(h) && IsSquare(g) && |h| == |g|
  {
    forall a, b :: 0 <= a < |g| && 0 <= b < |g| ==> Le(h[a][b], g[a][b])
  }

  lemma {:induction false} RowPassDecreases(g: seq<seq<Dist>>, k: nat, i: nat, j: nat)
    requires IsSquare(g) && k < |g| && i < |g| && j <= |g|
    ensures Below(RowPass(g, k, i, j), g)
    decreases j
  {
    if j > 0 {
      RowPassDecreases(g, k, i, j - 1);
      var h := RowPass(g, k, i, j - 1);
      MinIsGlb(h[i][j - 1], Add(h[i][k], h[k][j - 1]));
    }
  }

  lemma {:induction false} PassDecreases(g: seq<seq<Dist>>, k: nat, i: nat)
    requires IsSquare(g) && k < |g| && i <= |g|
    ensures Below(Pass(g, k, i), g)
    decreases i
  {
    if i > 0 {
      PassDecreases(g, k, i - 1);
      RowPassDecreases(Pass(g, k, i - 1), k, i - 1, |g|);
    }
  }

  /** No pass ever increases a cell. */
  lemma {:induction false} UptoDecreases(g: seq<seq<Dist>>, k: nat)
    requires IsSquare(g) && k <= |g|
    ensures Below(Upto(g, k), g)
    decreases k
  {
    if k > 0 {
      UptoDecreases(g, k - 1);
      PassDecreases(Upto(g, k - 1), k - 1, |g|);
    }
  }

  // ---------------------------------------------------------------------
  // The textbook recurrence, with all cells of a level computed from the
  // previous level, and the in-place passes never lag behind it.

  /**
   * Level(m, k, i, j): the best weight found for i -> j using only vertices
   * below k in between, by the recurrence
   * D(k+1, i, j) = min(D(k, i, j), D(k, i, k) + D(k, k, j)).
   */
  ghost function Level(m: seq<seq<Dist>>, k: nat, i: nat, j: nat): Dist
    requires IsSquare(m) && k <= |m| && i < |m| && j < |m|
    decreases k
  {
    if k == 0 then m[i][j]
    else Min(Level(m, k - 1, i, j), Add(Level(m, k - 1, i, k - 1), Level(m, k - 1, k - 1, j)))
  }

  ghost predicate BelowLevel(h: seq<seq<Dist>>, m: seq<seq<Dist>>, k: nat)
    requires IsSquare(h) && IsSquare(m) && |h| == |m| && k <= |m|
  {
    forall a, b :: 0 <= a < |m| && 0 <= b < |m| ==> Le(h[a][b], Level(m, k, a, b))
  }

  /** During pass k: every cell is at most level k, and the cells before (i, j) at most level k + 1. */
  ghost predicate PassDone(h: seq<seq<Dist>>, m: seq<seq<Dist>>, k: nat, i: nat, j: nat)
    requires IsSquare(h) && IsSquare(m) && |h| == |m| && k < |m|
  {
    && BelowLevel(h, m, k)
    && forall a, b :: 0 <= a < |m| && 0 <= b < |m| && (a < i || (a == i && b < j)) ==>
         Le(h[a][b], Level(m, k + 1, a, b))
  }

  lemma {:induction false} RowPassDone(g: seq<seq<Dist>>, m: seq<seq<Dist>>, k: nat, i: nat, j: nat)
    requires IsSquare(g) && IsSquare(m) && |g| == |m| && k < |m| && i < |m| && j <= |m|
    requires PassDone(g, m, k, i, 0)
    ensures PassDone(RowPass(g, k, i, j), m, k, i, j)
    decreases j
  {
    if j > 0 {
      RowPassDone(g, m, k, i, j - 1);
      var h := RowPass(g, k, i, j - 1);
      var b := j - 1;
      MinIsGlb(h[i][b], Add(h[i][k], h[k][b]));
      AddMono(h[i][k], h[k][b], Level(m, k, i, k), Level(m, k, k, b));
      MinMono(h[i][b], Add(h[i][k], h[k][b]), Level(m, k, i, b), Add(Level(m, k, i, k), Level(m, k, k, b)));
    }
  }

  lemma {:induction false} PassIsDone(g: seq<seq<Dist>>, m: seq<seq<Dist>>, k: nat, i: nat)
    requires IsSquare(g) && IsSquare(m) && |g| == |m| && k < |m| && i <= |m|
    requires BelowLevel(g, m, k)
    ensures PassDone(Pass(g, k, i), m, k, i, 0)
    decreases i
  {
    if i > 0 {
      PassIsDone(g, m, k, i - 1);
      RowPassDone(Pass(g, k, i - 1), m, k, i - 1, |m|);
    }
  }

  /** After k in-place passes every cell is at most level k of the recurrence. */
  lemma {:induction false} UptoBelowLevel(m: seq<seq<Dist>>, k: nat)
    requires IsSquare(m) && k <= |m|
    ensures BelowLevel(Upto(m, k), m, k)
    decreases k
  {
    if k > 0 {
      UptoBelowLevel(m, k - 1);
      PassIsDone(Upto(m, k - 1), m, k - 1, |m|);
    }
  }

  // ---------------------------------------------------------------------
  // Path reconstruction (`buildPathMatrix`). A path entry is the list of the
  // edges it takes, with a separator token between consecutive edges where
  // the source joins the two halves with ","; the text of each edge ("i->j")
  // is not modelled.

  datatype Token = Arc(e: Edge) | Comma

  type PathMatrix = seq<seq<seq<Token>>>

  predicate IsPathMatrix(p: PathMatrix, n: nat)
  {
    |p| == n && forall i :: 0 <= i < n ==> |p[i]| == n
  }

  /** The edges of a path entry, separators dropped. */
  function Arcs(p: seq<Token>): seq<Edge>
  {
    if p == [] then []
    else if p[0].Arc? then [p[0].e] + Arcs(p[1..])
    else Arcs(p[1..])
  }

  /** What goes between the two halves of a joined path. */
  function Sep(sep: bool): seq<Token>
  {
    if sep then [Comma] else []
  }

  /** The entry a walk is written as: its edges, separated when `sep` holds. */
  function Render(w: seq<Edge>, sep: bool): seq<Token>
  {
    if |w| <= 1 then seq(|w|, t requires 0 <= t < |w| => Arc(w[t]))
    else [Arc(w[0])] + Sep(sep) + Render(w[1..], sep)
  }

  lemma {:induction false} ArcsConcat(p: seq<Token>, q: seq<Token>)
    ensures Arcs(p + q) == Arcs(p) + Arcs(q)
    decreases |p|
  {
    if p == [] {
      assert p + q == q;
    } else {
      assert (p + q)[1..] == p[1..] + q;
      ArcsConcat(p[1..], q);
    }
  }

  lemma {:induction false} ArcsRender(w: seq<Edge>, sep: bool)
    ensures Arcs(Render(w, sep)) == w
    decreases |w|
  {
    if |w| == 1 {
      assert Render(w, sep) == [Arc(w[0])];
      assert Arcs([Arc(w[0])][1..]) == [];
    } else if |w| > 1 {
      var head := [Arc(w[0])] + Sep(sep);
      assert Render(w, sep) == head + Render(w[1..], sep);
      ArcsConcat(head, Render(w[1..], sep));
      ArcsRender(w[1..], sep);
      assert Arcs(head) == [w[0]] by {
        assert head[1..] == Sep(sep);
        if sep {
          assert Sep(sep)[1..] == [];
        }
      }
      assert w == [w[0]] + w[1..];
    }
  }

  /** Joining the entries of two walks gives the entry of the joined walk. */
  lemma {:induction false} RenderConcat(w1: seq<Edge>, w2: seq<Edge>, sep: bool)
    requires w1 != [] && w2 != []
    ensures Render(w1 + w2, sep) == Render(w1, sep) + Sep(sep) + Render(w2, sep)
    decreases |w1|
  {
    var w := w1 + w2;
    if |w1| == 1 {
      assert w[0] == w1[0] && w[1..] == w2;
      assert Render(w1, sep) == [Arc(w1[0])];
    } else {
      assert w[0] == w1[0] && w[1..] == w1[1..] + w2;
      RenderConcat(w1[1..], w2, sep);
    }
  }

  /** The relaxation at (i, j) strictly improves the cell through two finite legs. */
  predicate Improves(g: seq<seq<Dist>>, k: nat, i: nat, j: nat)
    requires IsSquare(g) && k < |g| && i < |g| && j < |g|
  {
    g[i][k] != Inf && g[k][j] != Inf && Less(Add(g[i][k], g[k][j]), g[i][j])
  }

  /** The path half of a cell update: the entry becomes path(i, k) + separator + path(k, j) on improvement. */
  function RelaxPath(g: seq<seq<Dist>>, p: PathMatrix, k: nat, i: nat, j: nat, sep: bool): (q: PathMatrix)
    requires IsSquare(g) && IsPathMatrix(p, |g|) && k < |g| && i < |g| && j < |g|
    ensures IsPathMatrix(q, |g|)
  {
    if Improves(g, k, i, j) then p[i := p[i][j := p[i][k] + Sep(sep) + p[k][j]]] else p
  }

  function PathRowPass(g: seq<seq<Dist>>, p: PathMatrix, k: nat, i: nat, j: nat, sep: bool): (q: PathMatrix)
    requires IsSquare(g) && IsPathMatrix(p, |g|) && k < |g| && i < |g| && j <= |g|
    ensures IsPathMatrix(q, |g|)
    decreases j
  {
    if j == 0 then p
    else RelaxPath(RowPass(g, k, i, j - 1), PathRowPass(g, p, k, i, j - 1, sep), k, i, j - 1, sep)
  }

  function PathPass(g: seq<seq<Dist>>, p: PathMatrix, k: nat, i: nat, sep: bool): (q: PathMatrix)
    requires IsSquare(g) && IsPathMatrix(p, |g|) && k < |g| && i <= |g|
    ensures IsPathMatrix(q, |g|)
    decreases i
  {
    if i == 0 then p
    else PathRowPass(Pass(g, k, i - 1), PathPass(g, p, k, i - 1, sep), k, i - 1, |g|, sep)
  }

  function PathUpto(g: seq<seq<Dist>>, p: PathMatrix, k: nat, sep: bool): (q: PathMatrix)
    requires IsSquare(g) && IsPathMatrix(p, |g|) && k <= |g|
    ensures IsPathMatrix(q, |g|)
    decreases k
  {
    if k == 0 then p
    else PathPass(Upto(g, k - 1), PathUpto(g, p, k - 1, sep), k - 1, |g|, sep)
  }

  /** The path matrix before the passes: the edge i -> j where the cell is finite, else empty. */
  function InitialPaths(g: seq<seq<Dist>>): (p: PathMatrix)
    requires IsSquare(g)
    ensures IsPathMatrix(p, |g|)
  {
    seq(|g|, i requires 0 <= i < |g| =>
      seq(|g|, j requires 0 <= j < |g| => if g[i][j] != Inf then [Arc(Edge(i, j))] else []))
  }

  /** The path matrix after all n passes. */
  function Paths(g: seq<seq<Dist>>, sep: bool): (p: PathMatrix)
    requires IsSquare(g)
    ensures IsPathMatrix(p, |g|)
  {
    PathUpto(g, InitialPaths(g), |g|, sep)
  }

  /**
   * Every finite cell of g carries, in p, a walk of the original matrix m
   * from its row to its column whose weight is the cell, written with the
   * separator convention; every INF cell has an empty entry.
   */
  ghost predicate PathsOk(m: seq<seq<Dist>>, g: seq<seq<Dist>>, p: PathMatrix, sep: bool)
    requires IsSquare(m) && IsSquare(g) && |g| == |m| && IsPathMatrix(p, |m|)
  {
    forall a, b {:trigger CellOk(m, g[a][b], p[a][b], a, b, sep)} :: 0 <= a < |m| && 0 <= b < |m| ==> CellOk(m, g[a][b], p[a][b], a, b, sep)
  }

  /** One cell of `PathsOk`: value `d` at (a, b) with entry `e`. */
  ghost predicate CellOk(m: seq<seq<Dist>>, d: Dist, e: seq<Token>, a: nat, b: nat, sep: bool)
    requires IsSquare(m)
  {
    && (d == Inf <==> e == [])
    && (d != Inf ==>
          && IsWalk(Arcs(e), |m|, a, b)
          && Weight(m, Arcs(e)) == d
          && e == Render(Arcs(e), sep))
  }

  /** The joined entry of an improving relaxation is a walk i -> j of the joined weight. */
  lemma JoinedPathOk(m: seq<seq<Dist>>, g: seq<seq<Dist>>, p: PathMatrix, k: nat, i: nat, j: nat, sep: bool)
    requires IsSquare(m) && IsSquare(g) && |g| == |m| && IsPathMatrix(p, |m|)
    requires k < |m| && i < |m| && j < |m|
    requires CellOk(m, g[i][k], p[i][k], i, k, sep) && CellOk(m, g[k][j], p[k][j], k, j, sep)
    requires g[i][k] != Inf && g[k][j] != Inf
    ensures CellOk(m, Add(g[i][k], g[k][j]), p[i][k] + Sep(sep) + p[k][j], i, j, sep)
  {
    var n := |m|;
    var w1, w2 := Arcs(p[i][k]), Arcs(p[k][j]);
    var q := p[i][k] + Sep(sep) + p[k][j];
    ArcsConcat(p[i][k], Sep(sep));
    ArcsConcat(p[i][k] + Sep(sep), p[k][j]);
    assert Arcs(Sep(sep)) == [] by {
      if sep {
        assert Sep(sep)[1..] == [];
      }
    }
    assert Arcs(q) == w1 + w2;
    assert InteriorBelow(w1, n) && InteriorBelow(w2, n);
    WalkConcat(w1, w2, n, i, k, j, n);
    WeightConcat(m, w1, w2);
    RenderConcat(w1, w2, sep);
  }

  lemma RelaxPathOk(m: seq<seq<Dist>>, g: seq<seq<Dist>>, p: PathMatrix, k: nat, i: nat, j: nat, sep: bool)
    requires IsSquare(m) && IsSquare(g) && |g| == |m| && IsPathMatrix(p, |m|)
    requires k < |m| && i < |m| && j < |m|
    requires PathsOk(m, g, p, sep)
    ensures PathsOk(m, Relax(g, k, i, j), RelaxPath(g, p, k, i, j, sep), sep)
  {
    var g', p' := Relax(g, k, i, j), RelaxPath(g, p, k, i, j, sep);
    if Improves(g, k, i, j) {
      assert CellOk(m, g[i][k], p[i][k], i, k, sep) && CellOk(m, g[k][j], p[k][j], k, j, sep);
      JoinedPathOk(m, g, p, k, i, j, sep);
      assert g'[i][j] == Add(g[i][k], g[k][j]);
      assert p'[i][j] == p[i][k] + Sep(sep) + p[k][j];
      forall a, b | 0 <= a < |m| && 0 <= b < |m|
        ensures CellOk(m, g'[a][b], p'[a][b], a, b, sep)
      {
        if a != i || b != j {
          assert g'[a][b] == g[a][b] && p'[a][b] == p[a][b];
          assert CellOk(m, g[a][b], p[a][b], a, b, sep);
        }
      }
    } else {
      assert g'[i][j] == g[i][j] by {
        if g[i][k] == Inf || g[k][j] == Inf {
          assert Add(g[i][k], g[k][j]) == Inf;
        }
      }
      assert g[i][j := g[i][j]] == g[i];
      assert g' == g;
    }
  }

  lemma {:induction false} PathRowPassOk(m: seq<seq<Dist>>, g: seq<seq<Dist>>, p: PathMatrix, k: nat, i: nat, j: nat, sep: bool)
    requires IsSquare(m) && IsSquare(g) && |g| == |m| && IsPathMatrix(p, |m|)
    requires k < |m| && i < |m| && j <= |m|
    requires PathsOk(m, g, p, sep)
    ensures PathsOk(m, RowPass(g, k, i, j), PathRowPass(g, p, k, i, j, sep), sep)
    decreases j
  {
    if j > 0 {
      PathRowPassOk(m, g, p, k, i, j - 1, sep);
      var g', p' := RowPass(g, k, i, j - 1), PathRowPass(g, p, k, i, j - 1, sep);
      RelaxPathOk(m, g', p', k, i, j - 1, sep);
      var g2, p2 := Relax(g', k, i, j - 1), RelaxPath(g', p', k, i, j - 1, sep);
      assert PathsOk(m, g2, p2, sep);
      assert RowPass(g, k, i, j) == g2;
      assert PathRowPass(g, p, k, i, j, sep) == p2;
    }
  }

  lemma {:induction false} PathPassOk(m: seq<seq<Dist>>, g: seq<seq<Dist>>, p: PathMatrix, k: nat, i: nat, sep: bool)
    requires IsSquare(m) && IsSquare(g) && |g| == |m| && IsPathMatrix(p, |m|)
    requires k < |m| && i <= |m|
    requires PathsOk(m, g, p, sep)
    ensures PathsOk(m, Pass(g, k, i), PathPass(g, p, k, i, sep), sep)
    decreases i
  {
    if i > 0 {
      PathPassOk(m, g, p, k, i - 1, sep);
      PathRowPassOk(m, Pass(g, k, i - 1), PathPass(g, p, k, i - 1, sep), k, i - 1, |m|, sep);
    }
  }

  lemma {:induction false} PathUptoOk(m: seq<seq<Dist>>, g: seq<seq<Dist>>, p: PathMatrix, k: nat, sep: bool)
    requires IsSquare(m) && IsSquare(g) && |g| == |m| && IsPathMatrix(p, |m|)
    requires k <= |m|
    requires PathsOk(m, g, p, sep)
    ensures PathsOk(m, Upto(g, k), PathUpto(g, p, k, sep), sep)
    decreases k
  {
    if k > 0 {
      PathUptoOk(m, g, p, k - 1, sep);
      PathPassOk(m, Upto(g, k - 1), PathUpto(g, p, k - 1, sep), k - 1, |m|, sep);
    }
  }

  lemma InitialPathsOk(m: seq<seq<Dist>>, sep: bool)
    requires IsSquare(m)
    ensures PathsOk(m, m, InitialPaths(m), sep)
  {
    forall a, b | 0 <= a < |m| && 0 <= b < |m|
      ensures CellOk(m, m[a][b], InitialPaths(m)[a][b], a, b, sep)
    {
      if m[a][b] != Inf {
        var t := [Arc(Edge(a, b))];
        assert InitialPaths(m)[a][b] == t;
        assert Arcs(t) == [Edge(a, b)] by {
          assert t[1..] == [];
        }
        SingleEdge(m, a, b);
      }
    }
  }

  /**
   * At the end of the path-building loop, every entry is empty exactly when
   * its cell is INF, and otherwise lists a walk from its row to its column
   * whose weight is the cell.
   */
  lemma PathsCorrect(m: seq<seq<Dist>>, sep: bool)
    requires IsSquare(m)
    ensures PathsOk(m, Run(m), Paths(m, sep), sep)
  {
    InitialPathsOk(m, sep);
    PathUptoOk(m, m, InitialPaths(m), |m|, sep);
  }
}
