// Connected components and the two connectivity checks, shared by every
// Floyd-Warshall file: the boolean file reads a cell as "linked" when it is
// true, the weighted files when it is not INF. The matrix is only read.

module Components {

  /** Vertices u and v are linked by the matrix. */
  ghost predicate Linked<T>(mat: array2<T>, linked: T -> bool, u: nat, v: nat)
    reads mat
    requires u < mat.Length0 && v < mat.Length1
  {
    linked(mat[u, v])
  }

  /** The linked relation is symmetric and transitive, as after Floyd-Warshall on an undirected graph. */
  ghost predicate Closed<T>(mat: array2<T>, linked: T -> bool)
    reads mat
    requires mat.Length0 == mat.Length1
  {
    var n := mat.Length0;
    && (forall u, v :: 0 <= u < n && 0 <= v < n && Linked(mat, linked, u, v) ==> Linked(mat, linked, v, u))
    && (forall u, v, w ::
          (0 <= u < n && 0 <= v < n && 0 <= w < n && Linked(mat, linked, u, v) && Linked(mat, linked, v, w)) ==>
            Linked(mat, linked, u, w))
  }

  /** Some vertex below i is linked to v. */
  ghost predicate Reached<T>(mat: array2<T>, linked: T -> bool, i: nat, v: nat)
    reads mat
    requires mat.Length0 == mat.Length1 && i <= mat.Length0 && v < mat.Length0
  {
    exists u :: 0 <= u < i && Linked(mat, linked, u, v)
  }

  /**
   * The groups split the vertices 0 .. n-1: every group is non-empty and
   * ascending, and every vertex lies in exactly one group.
   */
  predicate IsPartition(groups: seq<seq<nat>>, n: nat)
  {
    && (forall c :: 0 <= c < |groups| ==> groups[c] != [])
    && (forall c, t :: 0 <= c < |groups| && 0 <= t < |groups[c]| ==> groups[c][t] < n)
    && (forall c, s, t :: 0 <= c < |groups| && 0 <= s < t < |groups[c]| ==> groups[c][s] < groups[c][t])
    && (forall v :: 0 <= v < n ==> InSomeGroup(groups, v))
    && (forall c, c', v :: 0 <= c < |groups| && 0 <= c' < |groups| && v in groups[c] && v in groups[c'] ==> c == c')
  }

  /** Vertex v lies in one of the groups. */
  predicate InSomeGroup(groups: seq<seq<nat>>, v: nat)
  {
    exists c :: 0 <= c < |groups| && v in groups[c]
  }

  /** Two distinct vertices share a group exactly when they are linked. */
  ghost predicate GroupsAreLinks<T>(mat: array2<T>, linked: T -> bool, groups: seq<seq<nat>>)
    reads mat
    requires mat.Length0 == mat.Length1
  {
    forall c, c', v, w ::
      0 <= c < |groups| && 0 <= c' < |groups| && v in groups[c] && w in groups[c'] &&
      v < mat.Length0 && w < mat.Length0 && v != w ==>
        (c == c' <==> Linked(mat, linked, v, w))
  }

  /** The vertices below v that carry label c, in ascending order. */
  function Members(comp: seq<nat>, c: nat, v: nat): (s: seq<nat>)
    requires v <= |comp|
    ensures forall u: nat :: u in s <==> u < v && comp[u] == c
    ensures forall s1, s2 :: 0 <= s1 < s2 < |s| ==> s[s1] < s[s2]
    ensures forall t :: 0 <= t < |s| ==> s[t] < v
  {
    if v == 0 then [] else Members(comp, c, v - 1) + (if comp[v - 1] == c then [v - 1] else [])
  }

  /** Two distinct labelled vertices share a label exactly when they are linked. */
  ghost predicate Sound<T>(mat: array2<T>, linked: T -> bool, cc: seq<nat>)
    reads mat
    requires mat.Length0 == mat.Length1 && |cc| == mat.Length0
  {
    forall v, w :: 0 <= v < |cc| && 0 <= w < |cc| && v != w && cc[v] != 0 && cc[w] != 0 ==>
      (cc[v] == cc[w] <==> Linked(mat, linked, v, w))
  }

  /** From vertex i on, a vertex is labelled exactly when a vertex below i is linked to it. */
  ghost predicate Frontier<T>(mat: array2<T>, linked: T -> bool, cc: seq<nat>, i: nat)
    reads mat
    requires mat.Length0 == mat.Length1 && |cc| == mat.Length0 && i <= |cc|
  {
    forall v :: i <= v < |cc| ==> (cc[v] != 0 <==> Reached(mat, linked, i, v))
  }

  /**
   * The inner loop of `connectComponentsOfGraph` for row i: every later
   * vertex that is still unlabelled and linked to i gets the label `count`.
   */
  method Spread<T>(mat: array2<T>, linked: T -> bool, cc: seq<nat>, i: nat, count: nat) returns (cc': seq<nat>)
    requires mat.Length0 == mat.Length1 && |cc| == mat.Length0 && i < |cc|
    ensures |cc'| == |cc|
    ensures forall v :: 0 <= v < |cc| ==>
      cc'[v] == (if i < v && cc[v] == 0 && Linked(mat, linked, i, v) then count else cc[v])
  {
    cc' := cc;
    for j := i + 1 to |cc|
      invariant |cc'| == |cc|
      invariant forall v :: 0 <= v < |cc| ==>
        cc'[v] == (if i < v < j && cc[v] == 0 && Linked(mat, linked, i, v) then count else cc[v])
    {
      if cc'[j] == 0 && linked(mat[i, j]) {
        cc' := cc'[j := count];
      }
    }
  }

  /**
   * The labelling loop of `connectComponentsOfGraph`: a vertex still without
   * a label opens the next component, and every later unlabelled vertex it is
   * linked to joins the component most recently opened.
   */
  method Label<T>(mat: array2<T>, linked: T -> bool) returns (count: nat, comp: seq<nat>)
    requires mat.Length0 == mat.Length1
    ensures |comp| == mat.Length0
    ensures forall v :: 0 <= v < |comp| ==> 1 <= comp[v] <= count
    ensures forall c :: 1 <= c <= count ==> c in comp
    ensures |comp| > 0 ==> comp[0] == 1
    ensures Closed(mat, linked) ==> Sound(mat, linked, comp)
  {
    var n := mat.Length0;
    var connectComp: seq<nat> := seq(n, _ => 0);
    count := 0;
    ghost var opener: seq<nat> := [];
    for i := 0 to n
      invariant |connectComp| == n
      invariant forall v :: 0 <= v < n ==> connectComp[v] <= count
      invariant forall v :: 0 <= v < i ==> connectComp[v] >= 1
      invariant |opener| == count
      invariant forall c :: 0 <= c < count ==> opener[c] < n && connectComp[opener[c]] == c + 1
      invariant count <= i
      invariant i > 0 ==> connectComp[0] == 1
      invariant Closed(mat, linked) ==> Sound(mat, linked, connectComp) && Frontier(mat, linked, connectComp, i)
    {
      ghost var before := connectComp;
      if connectComp[i] == 0 {
        count := count + 1;
        connectComp := connectComp[i := count];
        opener := opener + [i];
      }
      ghost var mid := connectComp;
      connectComp := Spread(mat, linked, connectComp, i, count);
      if Closed(mat, linked) {
        if before[i] == 0 {
          OpenStep(mat, linked, before, mid, connectComp, i, count);
        } else {
          JoinStep(mat, linked, before, connectComp, i, count);
        }
      }
    }
    comp := connectComp;
    forall c | 1 <= c <= count ensures c in comp {
      assert comp[opener[c - 1]] == c;
    }
  }

  /**
   * In a closed relation, a vertex that no earlier vertex is linked to is
   * linked to no labelled vertex either.
   */
  lemma OpenerIsolated<T>(mat: array2<T>, linked: T -> bool, cc: seq<nat>, i: nat)
    requires mat.Length0 == mat.Length1 && |cc| == mat.Length0 && i < mat.Length0
    requires Closed(mat, linked)
    requires forall v :: 0 <= v < i ==> cc[v] >= 1
    requires Frontier(mat, linked, cc, i)
    requires cc[i] == 0
    ensures forall w :: 0 <= w < mat.Length0 && w != i && cc[w] != 0 ==> !Linked(mat, linked, w, i)
  {
    forall w | 0 <= w < mat.Length0 && w != i && cc[w] != 0
      ensures !Linked(mat, linked, w, i)
    {
      if w < i {
        assert Linked(mat, linked, w, i) ==> Reached(mat, linked, i, i);
      } else {
        assert Reached(mat, linked, i, w);
        var u :| 0 <= u < i && Linked(mat, linked, u, w);
        assert Linked(mat, linked, u, i) || !Linked(mat, linked, w, i);
      }
    }
  }

  /** Row i of an unlabelled vertex opens label count: both invariants carry over to i + 1. */
  lemma OpenStep<T>(mat: array2<T>, linked: T -> bool, before: seq<nat>, mid: seq<nat>, after: seq<nat>, i: nat, count: nat)
    requires mat.Length0 == mat.Length1 && |before| == mat.Length0 && i < mat.Length0
    requires Closed(mat, linked)
    requires forall v :: 0 <= v < i ==> before[v] >= 1
    requires forall v :: 0 <= v < |before| ==> before[v] < count
    requires Sound(mat, linked, before) && Frontier(mat, linked, before, i)
    requires before[i] == 0 && mid == before[i := count]
    requires |after| == |mid| && forall v :: 0 <= v < |mid| ==>
      after[v] == (if i < v && mid[v] == 0 && Linked(mat, linked, i, v) then count else mid[v])
    ensures Sound(mat, linked, after) && Frontier(mat, linked, after, i + 1)
  {
    var n := mat.Length0;
    OpenerIsolated(mat, linked, before, i);
    forall v, w | 0 <= v < n && 0 <= w < n && v != w && after[v] != 0 && after[w] != 0
      ensures after[v] == after[w] <==> Linked(mat, linked, v, w)
    {
      var nv := after[v] == count;
      var nw := after[w] == count;
      if nv && nw {
        assert v == i || Linked(mat, linked, i, v);
        assert w == i || Linked(mat, linked, i, w);
      } else if nv {
        assert before[w] != 0;
        assert w != i && !Linked(mat, linked, w, i);
        if v != i {
          assert Linked(mat, linked, i, v);
          assert Linked(mat, linked, i, w) || !Linked(mat, linked, v, w);
        }
      } else if nw {
        assert before[v] != 0;
        assert v != i && !Linked(mat, linked, v, i);
        if w != i {
          assert Linked(mat, linked, i, w);
          assert Linked(mat, linked, v, i) || !Linked(mat, linked, v, w);
        }
      } else {
        assert after[v] == before[v] && after[w] == before[w];
      }
    }
    ReachedStep(mat, linked, i);
  }

  /** Row i of an already labelled vertex changes nothing: both invariants carry over to i + 1. */
  lemma JoinStep<T>(mat: array2<T>, linked: T -> bool, before: seq<nat>, after: seq<nat>, i: nat, count: nat)
    requires mat.Length0 == mat.Length1 && |before| == mat.Length0 && i < mat.Length0
    requires Closed(mat, linked)
    requires Sound(mat, linked, before) && Frontier(mat, linked, before, i)
    requires before[i] != 0
    requires |after| == |before| && forall v :: 0 <= v < |before| ==>
      after[v] == (if i < v && before[v] == 0 && Linked(mat, linked, i, v) then count else before[v])
    ensures after == before
    ensures Sound(mat, linked, after) && Frontier(mat, linked, after, i + 1)
  {
    var n := mat.Length0;
    assert Reached(mat, linked, i, i);
    var u :| 0 <= u < i && Linked(mat, linked, u, i);
    forall v | i < v < n && Linked(mat, linked, i, v) ensures before[v] != 0 {
      assert Linked(mat, linked, u, v);
      assert Reached(mat, linked, i, v);
    }
    assert after == before;
    ReachedStep(mat, linked, i);
  }

  /** Reaching v from below i + 1 is reaching it from below i or from i itself. */
  lemma ReachedStep<T>(mat: array2<T>, linked: T -> bool, i: nat)
    requires mat.Length0 == mat.Length1 && i < mat.Length0
    ensures forall v :: i < v < mat.Length0 ==>
      (Reached(mat, linked, i + 1, v) <==> Reached(mat, linked, i, v) || Linked(mat, linked, i, v))
  {
    forall v | i < v < mat.Length0
      ensures Reached(mat, linked, i + 1, v) <==> Reached(mat, linked, i, v) || Linked(mat, linked, i, v)
    {
      if Reached(mat, linked, i + 1, v) {
        var u :| 0 <= u < i + 1 && Linked(mat, linked, u, v);
        if u < i {
          assert Reached(mat, linked, i, v);
        }
      }
    }
  }

  /**
   * The second loop of `connectComponentsOfGraph`: vertex v is appended to
   * the group of its label, so group c lists the vertices labelled c + 1 in
   * ascending order.
   */
  method Group(comp: seq<nat>, count: nat) returns (groups: seq<seq<nat>>)
    requires forall v :: 0 <= v < |comp| ==> 1 <= comp[v] <= count
    ensures |groups| == count
    ensures forall c :: 0 <= c < count ==> groups[c] == Members(comp, c + 1, |comp|)
  {
    groups := seq(count, _ => []);
    for v := 0 to |comp|
      invariant |groups| == count
      invariant forall c :: 0 <= c < count ==> groups[c] == Members(comp, c + 1, v)
    {
      var index := comp[v] - 1;
      groups := groups[index := groups[index] + [v]];
    }
  }

  /**
   * Grouping a labelling whose labels 1 .. count all occur gives a partition,
   * and the group of label 1 starts with vertex 0 when vertex 0 has label 1.
   */
  lemma GroupsPartition(comp: seq<nat>, count: nat, groups: seq<seq<nat>>)
    requires forall v :: 0 <= v < |comp| ==> 1 <= comp[v] <= count
    requires forall c :: 1 <= c <= count ==> c in comp
    requires |groups| == count && forall c :: 0 <= c < count ==> groups[c] == Members(comp, c + 1, |comp|)
    ensures IsPartition(groups, |comp|)
    ensures |comp| > 0 && comp[0] == 1 ==> count > 0 && groups[0][0] == 0
  {
    GroupsOrdered(comp, groups);
    GroupsDisjoint(comp, groups);
    GroupsCover(comp, count, groups);
    if |comp| > 0 && comp[0] == 1 {
      assert 0 in groups[0];
      var t :| 0 <= t < |groups[0]| && groups[0][t] == 0;
      assert groups[0][0] <= groups[0][t];
    }
  }

  /** Each group lists vertices below the vertex count, in ascending order. */
  lemma GroupsOrdered(comp: seq<nat>, groups: seq<seq<nat>>)
    requires forall c :: 0 <= c < |groups| ==> groups[c] == Members(comp, c + 1, |comp|)
    ensures forall c, t :: 0 <= c < |groups| && 0 <= t < |groups[c]| ==> groups[c][t] < |comp|
    ensures forall c, s, t :: 0 <= c < |groups| && 0 <= s < t < |groups[c]| ==> groups[c][s] < groups[c][t]
  {
    forall c, t | 0 <= c < |groups| && 0 <= t < |groups[c]| ensures groups[c][t] < |comp| {
      assert groups[c] == Members(comp, c + 1, |comp|);
    }
    forall c, s, t | 0 <= c < |groups| && 0 <= s < t < |groups[c]| ensures groups[c][s] < groups[c][t] {
      assert groups[c] == Members(comp, c + 1, |comp|);
    }
  }

  /** No vertex lies in two groups. */
  lemma GroupsDisjoint(comp: seq<nat>, groups: seq<seq<nat>>)
    requires forall c :: 0 <= c < |groups| ==> groups[c] == Members(comp, c + 1, |comp|)
    ensures forall c, c', v :: 0 <= c < |groups| && 0 <= c' < |groups| && v in groups[c] && v in groups[c'] ==> c == c'
  {
    forall c, c', v | 0 <= c < |groups| && 0 <= c' < |groups| && v in groups[c] && v in groups[c'] ensures c == c' {
      assert groups[c] == Members(comp, c + 1, |comp|) && groups[c'] == Members(comp, c' + 1, |comp|);
    }
  }

  /** Every group is non-empty and every vertex lies in some group. */
  lemma GroupsCover(comp: seq<nat>, count: nat, groups: seq<seq<nat>>)
    requires forall v :: 0 <= v < |comp| ==> 1 <= comp[v] <= count
    requires forall c :: 1 <= c <= count ==> c in comp
    requires |groups| == count && forall c :: 0 <= c < count ==> groups[c] == Members(comp, c + 1, |comp|)
    ensures forall c :: 0 <= c < count ==> groups[c] != []
    ensures forall v :: 0 <= v < |comp| ==> InSomeGroup(groups, v)
  {
    forall c | 0 <= c < count ensures groups[c] != [] {
      assert c + 1 in comp;
      var v :| 0 <= v < |comp| && comp[v] == c + 1;
      assert v in groups[c];
    }
    forall v | 0 <= v < |comp| ensures InSomeGroup(groups, v) {
      assert v in groups[comp[v] - 1];
    }
  }

  /** Grouping a sound labelling puts two distinct vertices together exactly when they are linked. */
  lemma GroupsLinks<T>(mat: array2<T>, linked: T -> bool, comp: seq<nat>, groups: seq<seq<nat>>)
    requires mat.Length0 == mat.Length1 && |comp| == mat.Length0
    requires forall v :: 0 <= v < |comp| ==> 1 <= comp[v]
    requires Sound(mat, linked, comp)
    requires forall c :: 0 <= c < |groups| ==> groups[c] == Members(comp, c + 1, |comp|)
    ensures GroupsAreLinks(mat, linked, groups)
  {
    forall c, c', v, w |
      0 <= c < |groups| && 0 <= c' < |groups| && v in groups[c] && w in groups[c'] &&
      v < mat.Length0 && w < mat.Length0 && v != w
      ensures c == c' <==> Linked(mat, linked, v, w)
    {
      assert comp[v] == c + 1 && comp[w] == c' + 1;
    }
  }

  /**
   * `connectComponentsOfGraph`: the number of components and, for each, its
   * vertices in ascending order; the first group holds vertex 0. On a closed
   * relation two distinct vertices share a group exactly when they are linked.
   */
  method ConnectComponents<T>(mat: array2<T>, linked: T -> bool) returns (count: nat, groups: seq<seq<nat>>)
    requires mat.Length0 == mat.Length1
    ensures |groups| == count && IsPartition(groups, mat.Length0)
    ensures mat.Length0 > 0 ==> count > 0 && groups[0][0] == 0
    ensures Closed(mat, linked) ==> GroupsAreLinks(mat, linked, groups)
  {
    var comp: seq<nat>;
    count, comp := Label(mat, linked);
    groups := Group(comp, count);
    GroupsPartition(comp, count, groups);
    if Closed(mat, linked) {
      GroupsLinks(mat, linked, comp, groups);
    }
  }

  /** Every cell is linked. */
  ghost predicate AllLinked<T>(mat: array2<T>, linked: T -> bool)
    reads mat
  {
    forall i, j :: 0 <= i < mat.Length0 && 0 <= j < mat.Length1 ==> linked(mat[i, j])
  }

  /** Every cell of row 0 is linked (vacuously so for the empty matrix). */
  ghost predicate RowZeroLinked<T>(mat: array2<T>, linked: T -> bool)
    reads mat
  {
    forall j :: 0 <= j < mat.Length1 && 0 < mat.Length0 ==> linked(mat[0, j])
  }

  /** `isConnected`: the flag drops at the first unlinked cell and stays down. */
  method IsConnected<T>(mat: array2<T>, linked: T -> bool) returns (ans: bool)
    requires mat.Length0 == mat.Length1
    ensures ans <==> AllLinked(mat, linked)
  {
    ans := true;
    for i := 0 to mat.Length0
      invariant ans <==> forall a, b :: 0 <= a < i && 0 <= b < mat.Length1 ==> linked(mat[a, b])
    {
      if ans {
        for j := 0 to mat.Length1
          invariant ans <==>
            (forall a, b :: 0 <= a < i && 0 <= b < mat.Length1 ==> linked(mat[a, b])) &&
            (forall b :: 0 <= b < j ==> linked(mat[i, b]))
        {
          if ans {
            if !linked(mat[i, j]) {
              ans := false;
            }
          }
        }
      }
    }
  }

  /** `isConnectedComplexN`: only row 0 is inspected. */
  method IsConnectedComplexN<T>(mat: array2<T>, linked: T -> bool) returns (ans: bool)
    requires mat.Length0 == mat.Length1
    ensures ans <==> RowZeroLinked(mat, linked)
  {
    ans := true;
    for i := 0 to mat.Length0
      invariant ans <==> forall j :: 0 <= j < i ==> linked(mat[0, j])
    {
      if !linked(mat[0, i]) {
        ans := false;
      }
    }
  }

  /**
   * The O(n) check agrees with the O(n^2) one on a closed relation: a vertex
   * linked to everything links everything through itself. In general only
   * `isConnected` implies `isConnectedComplexN`.
   */
  lemma ComplexNAgrees<T>(mat: array2<T>, linked: T -> bool)
    requires mat.Length0 == mat.Length1
    ensures AllLinked(mat, linked) ==> RowZeroLinked(mat, linked)
    ensures Closed(mat, linked) ==> (RowZeroLinked(mat, linked) <==> AllLinked(mat, linked))
  {
    var n := mat.Length0;
    if Closed(mat, linked) && RowZeroLinked(mat, linked) {
      forall i, j | 0 <= i < n && 0 <= j < n ensures linked(mat[i, j]) {
        assert Linked(mat, linked, 0, i) && Linked(mat, linked, 0, j);
        assert Linked(mat, linked, i, 0);
        assert Linked(mat, linked, i, j);
      }
    }
  }
}
