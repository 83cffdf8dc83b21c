// The two-bottles puzzle of Bottles_Problem_Boolean_FW.py. A state (i, j)
// says that the first bottle, of capacity m, holds i litres and the second,
// of capacity n, holds j litres; it is numbered (n + 1) * i + j, so the
// (m + 1) * (n + 1) states index a square boolean matrix whose true cells are
// the single moves. The boolean Floyd-Warshall passes then answer which state
// can be reached from which, and the path matrix lists the moves.

module Bottles {
  import opened Walks
  import opened FloydWarshall
  import opened BooleanFloydWarshall
  import Arith

  /** The number of states: the size of the matrix. */
  function Size(m: nat, n: nat): nat
  {
    (m + 1) * (n + 1)
  }

  lemma MulMono(a: nat, b: nat, c: nat)
    requires b <= c
    ensures a * b <= a * c
  {
  }

  /** `get_index`: the number of state (i, j). */
  function GetIndex(i: nat, j: nat, n: nat): (k: nat)
    // the states with i litres in the first bottle take the i-th block of n + 1 numbers
    ensures j <= n ==> i * (n + 1) <= k < (i + 1) * (n + 1)
  {
    (n + 1) * i + j
  }

  /** `get_i` and `get_j` give back the contents of both bottles from the number of a state. */
  lemma IndexRoundTrip(i: nat, j: nat, n: nat)
    requires j <= n
    ensures GetI(GetIndex(i, j, n), n) == i && GetJ(GetIndex(i, j, n), n) == j
  {
    Arith.DivModUnique(GetIndex(i, j, n), n + 1, i, j);
  }

  /** `get_i`: the contents of the first bottle in state k, the largest i with (n + 1) * i <= k. */
  function GetI(k: nat, n: nat): (i: nat)
    ensures (n + 1) * i <= k < (n + 1) * i + (n + 1)
  {
    k / (n + 1)
  }

  /** `get_j`: the contents of the second bottle in state k; with `get_i` it numbers k again. */
  function GetJ(k: nat, n: nat): (j: nat)
    ensures j <= n && (n + 1) * GetI(k, n) + j == k
  {
    k % (n + 1)
  }

  /** A state inside the capacities has a number below the size. */
  lemma IndexInRange(i: nat, j: nat, m: nat, n: nat)
    requires i <= m && j <= n
    ensures GetIndex(i, j, n) < Size(m, n)
  {
    assert (n + 1) * i <= (n + 1) * m;
  }

  /** Every state number below the size is a state inside the capacities. */
  lemma StateInRange(k: nat, m: nat, n: nat)
    requires k < Size(m, n)
    ensures GetI(k, n) <= m && GetJ(k, n) <= n
  {
    var i := GetI(k, n);
    if i > m {
      MulMono(n + 1, m + 1, i);
    }
  }

  /**
   * The states the six moves of `init_boolean_bottles_matrix` lead to from
   * (i, j), in its order: empty the first, fill the first, empty the second,
   * fill the second, pour the first into the second, pour the second into
   * the first.
   */
  function Targets(m: nat, n: nat, i: nat, j: nat): (ts: seq<(nat, nat)>)
    ensures |ts| == 6
  {
    [(0, j), (m, j), (i, 0), (i, n),
     (if i + j > n then i + j - n else 0, if i + j < n then i + j else n),
     (if i + j < m then i + j else m, if i + j > m then i + j - m else 0)]
  }

  /** The numbers of the states one move leads to from state k. */
  function MoveTargets(m: nat, n: nat, k: nat): (ks: seq<nat>)
    ensures |ks| == 6
  {
    var ts := Targets(m, n, GetI(k, n), GetJ(k, n));
    seq(6, x requires 0 <= x < 6 => GetIndex(ts[x].0, ts[x].1, n))
  }

  /** The moves from state (i, j), by the state numbers they lead to. */
  lemma MoveTargetsOf(m: nat, n: nat, i: nat, j: nat)
    requires j <= n
    ensures MoveTargets(m, n, GetIndex(i, j, n)) ==
      [GetIndex(0, j, n), GetIndex(m, j, n), GetIndex(i, 0, n), GetIndex(i, n, n),
       GetIndex(if i + j > n then i + j - n else 0, if i + j < n then i + j else n, n),
       GetIndex(if i + j < m then i + j else m, if i + j > m then i + j - m else 0, n)]
  {
    IndexRoundTrip(i, j, n);
  }

  /** The matrix `init_boolean_bottles_matrix` builds: cell [a][b] holds when one move leads from a to b. */
  function BottlesMatrix(m: nat, n: nat): (b: seq<seq<bool>>)
    ensures IsSquare(b) && |b| == Size(m, n)
  {
    seq(Size(m, n), a requires 0 <= a < Size(m, n) =>
      seq(Size(m, n), c requires 0 <= c < Size(m, n) => c in MoveTargets(m, n, a)))
  }

  /** Every move keeps both bottles within their capacities. */
  lemma MovesStayInside(m: nat, n: nat, i: nat, j: nat)
    requires i <= m && j <= n
    ensures forall x :: 0 <= x < 6 ==> Targets(m, n, i, j)[x].0 <= m && Targets(m, n, i, j)[x].1 <= n
  {
  }

  /**
   * Pouring keeps the total amount of water, and stops only when the bottle
   * poured from is empty or the bottle poured into is full.
   */
  lemma PoursConserve(m: nat, n: nat, i: nat, j: nat)
    ensures var t := Targets(m, n, i, j)[4]; t.0 + t.1 == i + j && (t.0 == 0 || t.1 == n)
    ensures var t := Targets(m, n, i, j)[5]; t.0 + t.1 == i + j && (t.1 == 0 || t.0 == m)
  {
  }

  /** A state in which some bottle is empty or full. */
  predicate OnBoundary(m: nat, n: nat, k: nat)
  {
    GetI(k, n) == 0 || GetI(k, n) == m || GetJ(k, n) == 0 || GetJ(k, n) == n
  }

  /** Every move ends with some bottle empty or full. */
  lemma TargetsOnBoundary(m: nat, n: nat, i: nat, j: nat)
    ensures forall x :: 0 <= x < 6 ==>
      var t := Targets(m, n, i, j)[x]; t.0 == 0 || t.0 == m || t.1 == 0 || t.1 == n
  {
  }

  /** The same for the state numbers: every cell set in a row leads to a state with some bottle empty or full. */
  lemma MovesEndOnBoundary(m: nat, n: nat, k: nat)
    requires k < Size(m, n)
    ensures forall x :: 0 <= x < 6 ==> OnBoundary(m, n, MoveTargets(m, n, k)[x])
  {
    var i, j := GetI(k, n), GetJ(k, n);
    StateInRange(k, m, n);
    MovesStayInside(m, n, i, j);
    TargetsOnBoundary(m, n, i, j);
    var ts := Targets(m, n, i, j);
    forall x | 0 <= x < 6 ensures OnBoundary(m, n, MoveTargets(m, n, k)[x]) {
      assert MoveTargets(m, n, k)[x] == GetIndex(ts[x].0, ts[x].1, n);
      IndexRoundTrip(ts[x].0, ts[x].1, n);
    }
  }

  /** The rows of the states numbered below k hold their moves; the other rows are all false. */
  ghost predicate RowsSet(mat: array2<bool>, m: nat, n: nat, k: nat)
    reads mat
  {
    && mat.Length0 == Size(m, n) && mat.Length1 == Size(m, n)
    && forall a, c :: 0 <= a < Size(m, n) && 0 <= c < Size(m, n) ==>
         mat[a, c] == (a < k && c in MoveTargets(m, n, a))
  }

  /** The state after the last one with i litres in the first bottle is the first with i + 1. */
  lemma NextRow(i: nat, n: nat)
    ensures GetIndex(i, n + 1, n) == GetIndex(i + 1, 0, n)
  {
  }

  /** The state after the last one is numbered by the size. */
  lemma PastLastRow(m: nat, n: nat)
    ensures GetIndex(m + 1, 0, n) == Size(m, n)
  {
  }

  /**
   * `init_boolean_bottles_matrix`: state by state in numbering order, the
   * cells of the six moves are set.
   */
  method InitBottlesMatrix(m: nat, n: nat) returns (mat: array2<bool>)
    ensures fresh(mat) && mat.Length0 == Size(m, n) && mat.Length1 == Size(m, n)
    ensures BoolSnapshot(mat) == BottlesMatrix(m, n)
  {
    var sizeMat := (m + 1) * (n + 1);
    mat := new bool[sizeMat, sizeMat]((_, _) => false);
    for i := 0 to m + 1
      invariant RowsSet(mat, m, n, GetIndex(i, 0, n))
    {
      WriteStates(mat, m, n, i);
    }
    PastLastRow(m, n);
    BoolSnapshotIsMoves(mat, m, n);
  }

  /** The inner loop of `init_boolean_bottles_matrix`: the states with i litres in the first bottle. */
  method WriteStates(mat: array2<bool>, m: nat, n: nat, i: nat)
    requires i <= m && RowsSet(mat, m, n, GetIndex(i, 0, n))
    modifies mat
    ensures RowsSet(mat, m, n, GetIndex(i + 1, 0, n))
  {
    ghost var k: nat := GetIndex(i, 0, n);
    for j := 0 to n + 1
      invariant k == GetIndex(i, j, n) && RowsSet(mat, m, n, k)
    {
      IndexInRange(i, j, m, n);
      WriteState(mat, m, n, GetIndex(i, j, n));
      k := k + 1;
    }
    NextRow(i, n);
  }

  /** Every move from a state inside the capacities leads to a state inside them. */
  lemma TargetsInRange(m: nat, n: nat, k: nat)
    requires k < Size(m, n)
    ensures forall x :: 0 <= x < 6 ==> MoveTargets(m, n, k)[x] < Size(m, n)
  {
    StateInRange(k, m, n);
    var ts := Targets(m, n, GetI(k, n), GetJ(k, n));
    MovesStayInside(m, n, GetI(k, n), GetJ(k, n));
    forall x | 0 <= x < 6 ensures MoveTargets(m, n, k)[x] < Size(m, n) {
      IndexInRange(ts[x].0, ts[x].1, m, n);
    }
  }

  /** The cells of the six moves from state k, set in a row that held none. */
  method WriteState(mat: array2<bool>, m: nat, n: nat, k: nat)
    requires mat.Length0 == Size(m, n) && mat.Length1 == Size(m, n) && k < Size(m, n)
    requires forall c :: 0 <= c < Size(m, n) ==> !mat[k, c]
    modifies mat
    ensures forall a, c :: 0 <= a < Size(m, n) && 0 <= c < Size(m, n) ==>
      mat[a, c] == if a == k then c in MoveTargets(m, n, a) else old(mat[a, c])
  {
    TargetsInRange(m, n, k);
    WriteMoves(mat, k, MoveTargets(m, n, k));
  }

  /** The six assignments of one state's row, in the order of `init_boolean_bottles_matrix`. */
  method WriteMoves(mat: array2<bool>, index: nat, ks: seq<nat>)
    requires mat.Length0 == mat.Length1 && index < mat.Length0 && |ks| == 6
    requires forall x :: 0 <= x < 6 ==> ks[x] < mat.Length1
    requires forall c :: 0 <= c < mat.Length1 ==> !mat[index, c]
    modifies mat
    ensures forall a, c :: 0 <= a < mat.Length0 && 0 <= c < mat.Length1 ==>
      mat[a, c] == if a == index then c in ks else old(mat[a, c])
  {
    mat[index, ks[0]] := true;
    mat[index, ks[1]] := true;
    mat[index, ks[2]] := true;
    mat[index, ks[3]] := true;
    mat[index, ks[4]] := true;
    mat[index, ks[5]] := true;
  }

  lemma BoolSnapshotIsMoves(mat: array2<bool>, m: nat, n: nat)
    requires RowsSet(mat, m, n, Size(m, n))
    ensures BoolSnapshot(mat) == BottlesMatrix(m, n)
  {
    var s, b := BoolSnapshot(mat), BottlesMatrix(m, n);
    forall x | 0 <= x < Size(m, n) ensures s[x] == b[x] {
    }
  }

  /** State b can be reached from state a by one or more moves. */
  ghost predicate Reachable(m: nat, n: nat, a: nat, b: nat)
    requires a < Size(m, n) && b < Size(m, n)
  {
    exists w :: IsWalk(w, Size(m, n), a, b) && AllEdges(BottlesMatrix(m, n), w)
  }

  /** Move x from state (i, j) inside the capacities to state (i2, j2) is a true cell of the matrix. */
  lemma MoveIsArc(m: nat, n: nat, i: nat, j: nat, x: nat, i2: nat, j2: nat)
    requires i <= m && j <= n && x < 6 && Targets(m, n, i, j)[x] == (i2, j2)
    ensures GetIndex(i, j, n) < Size(m, n) && GetIndex(i2, j2, n) < Size(m, n)
    ensures BottlesMatrix(m, n)[GetIndex(i, j, n)][GetIndex(i2, j2, n)]
  {
    IndexInRange(i, j, m, n);
    MovesStayInside(m, n, i, j);
    IndexInRange(i2, j2, m, n);
    MoveTargetsOf(m, n, i, j);
    assert GetIndex(i2, j2, n) in MoveTargets(m, n, GetIndex(i, j, n));
  }

  /**
   * A sequence of moves, each made from the state the previous one left,
   * makes its last state reachable from its first.
   */
  lemma MovesReach(m: nat, n: nat, states: seq<(nat, nat)>, moves: seq<nat>)
    requires |states| == |moves| + 1 && |moves| >= 1
    requires forall t :: 0 <= t < |states| ==> states[t].0 <= m && states[t].1 <= n
    requires forall t :: 0 <= t < |moves| ==> moves[t] < 6 && Targets(m, n, states[t].0, states[t].1)[moves[t]] == states[t + 1]
    ensures GetIndex(states[0].0, states[0].1, n) < Size(m, n)
    ensures GetIndex(states[|moves|].0, states[|moves|].1, n) < Size(m, n)
    ensures Reachable(m, n, GetIndex(states[0].0, states[0].1, n), GetIndex(states[|moves|].0, states[|moves|].1, n))
  {
    var ks := seq(|states|, t requires 0 <= t < |states| => GetIndex(states[t].0, states[t].1, n));
    forall t | 0 <= t < |states| ensures ks[t] < Size(m, n) {
      IndexInRange(states[t].0, states[t].1, m, n);
    }
    var w := seq(|moves|, t requires 0 <= t < |moves| => Edge(ks[t], ks[t + 1]));
    var bm := BottlesMatrix(m, n);
    forall t | 0 <= t < |moves| ensures bm[w[t].src][w[t].dst] {
      MoveIsArc(m, n, states[t].0, states[t].1, moves[t], states[t + 1].0, states[t + 1].1);
    }
    assert IsWalk(w, Size(m, n), ks[0], ks[|moves|]);
    assert AllEdges(bm, w);
  }

  /** A state reached by some move sequence has a bottle empty or full. */
  lemma ReachableOnBoundary(m: nat, n: nat, a: nat, b: nat)
    requires a < Size(m, n) && b < Size(m, n)
    ensures Reachable(m, n, a, b) ==> OnBoundary(m, n, b)
  {
    var bm := BottlesMatrix(m, n);
    if Reachable(m, n, a, b) {
      var w :| IsWalk(w, Size(m, n), a, b) && AllEdges(bm, w);
      var last: Edge := w[|w| - 1];
      assert last.src < Size(m, n) && last.dst == b;
      assert bm[last.src][b];
      MoveOnBoundary(m, n, last.src, b);
    }
  }

  /** After the Floyd-Warshall passes a true cell's column is a state with a bottle empty or full. */
  lemma ReachedOnBoundary(m: nat, n: nat, a: nat, b: nat)
    requires a < Size(m, n) && b < Size(m, n)
    ensures Closure(BottlesMatrix(m, n))[a][b] ==> OnBoundary(m, n, b)
  {
    ClosureIsReachability(BottlesMatrix(m, n));
    ReachableOnBoundary(m, n, a, b);
  }

  /** One move ends with some bottle empty or full. */
  lemma MoveOnBoundary(m: nat, n: nat, a: nat, c: nat)
    requires a < Size(m, n) && c < Size(m, n) && BottlesMatrix(m, n)[a][c]
    ensures OnBoundary(m, n, c)
  {
    var x :| 0 <= x < 6 && MoveTargets(m, n, a)[x] == c;
    MovesEndOnBoundary(m, n, a);
  }

  /** The answer `isExistPath` prints: no path, or the path matrix entry. */
  datatype Answer = No | Yes(path: seq<Token>)

  /**
   * `isExistPath` on the states exactly as given: a state outside the
   * capacities gets no; otherwise the closure cell decides, and the path
   * matrix entry is the path.
   */
  function ExistPath(i1: nat, j1: nat, i2: nat, j2: nat, mat: seq<seq<bool>>, paths: PathMatrix, n: nat, m: nat): (r: Answer)
    requires IsSquare(mat) && |mat| == Size(m, n) && IsPathMatrix(paths, |mat|)
    ensures r.Yes? ==> i1 <= m && j1 <= n && i2 <= m && j2 <= n
  {
    if i1 > m || i2 > m || j1 > n || j2 > n then No
    else
      IndexInRange(i1, j1, m, n);
      IndexInRange(i2, j2, m, n);
      var i, j := GetIndex(i1, j1, n), GetIndex(i2, j2, n);
      if mat[i][j] then Yes(paths[i][j]) else No
  }

  /**
   * `isExistPath` as written: each pair is first reordered so that the larger
   * amount is put in the first (larger) bottle, then the query is answered.
   */
  function ExistPathAsWritten(i1: nat, j1: nat, i2: nat, j2: nat, mat: seq<seq<bool>>, paths: PathMatrix, n: nat, m: nat): (r: Answer)
    requires IsSquare(mat) && |mat| == Size(m, n) && IsPathMatrix(paths, |mat|)
    ensures r == ExistPath(if i1 < j1 then j1 else i1, if i1 < j1 then i1 else j1,
                           if i2 < j2 then j2 else i2, if i2 < j2 then i2 else j2, mat, paths, n, m)
  {
    var minimum1, maximum1 := if i1 < j1 then i1 else j1, if i1 < j1 then j1 else i1;
    var minimum2, maximum2 := if i2 < j2 then i2 else j2, if i2 < j2 then j2 else i2;
    ExistPath(maximum1, minimum1, maximum2, minimum2, mat, paths, n, m)
  }

  /**
   * The query as written cannot tell a state from the one with the contents
   * of the two bottles swapped: it gives the same answer for both.
   */
  lemma AsWrittenIgnoresOrder(i1: nat, j1: nat, i2: nat, j2: nat, mat: seq<seq<bool>>, paths: PathMatrix, n: nat, m: nat)
    requires IsSquare(mat) && |mat| == Size(m, n) && IsPathMatrix(paths, |mat|)
    ensures ExistPathAsWritten(i1, j1, i2, j2, mat, paths, n, m) == ExistPathAsWritten(j1, i1, j2, i2, mat, paths, n, m)
  {
  }

  /** Both states lie inside the capacities and the second can be reached from the first. */
  ghost predicate StateReachable(m: nat, n: nat, i1: nat, j1: nat, i2: nat, j2: nat)
  {
    if i1 <= m && j1 <= n && i2 <= m && j2 <= n then
      IndexInRange(i1, j1, m, n);
      IndexInRange(i2, j2, m, n);
      Reachable(m, n, GetIndex(i1, j1, n), GetIndex(i2, j2, n))
    else false
  }

  /**
   * The query with each pair read, as its documentation says, as the
   * contents of "one of" the bottles and the other: both ways of placing the
   * two amounts are tried, the larger amount in the larger bottle first.
   */
  function ExistPathUnordered(i1: nat, j1: nat, i2: nat, j2: nat, mat: seq<seq<bool>>, paths: PathMatrix, n: nat, m: nat): (r: Answer)
    requires IsSquare(mat) && |mat| == Size(m, n) && IsPathMatrix(paths, |mat|)
    ensures ExistPathAsWritten(i1, j1, i2, j2, mat, paths, n, m).Yes? ==> r == ExistPathAsWritten(i1, j1, i2, j2, mat, paths, n, m)
    ensures r.Yes? ==>
      || r == ExistPath(i1, j1, i2, j2, mat, paths, n, m) || r == ExistPath(j1, i1, i2, j2, mat, paths, n, m)
      || r == ExistPath(i1, j1, j2, i2, mat, paths, n, m) || r == ExistPath(j1, i1, j2, i2, mat, paths, n, m)
  {
    var lo1, hi1 := if i1 < j1 then i1 else j1, if i1 < j1 then j1 else i1;
    var lo2, hi2 := if i2 < j2 then i2 else j2, if i2 < j2 then j2 else i2;
    var a := ExistPath(hi1, lo1, hi2, lo2, mat, paths, n, m);
    if a.Yes? then a else
    var b := ExistPath(lo1, hi1, hi2, lo2, mat, paths, n, m);
    if b.Yes? then b else
    var c := ExistPath(hi1, lo1, lo2, hi2, mat, paths, n, m);
    if c.Yes? then c else
    ExistPath(lo1, hi1, lo2, hi2, mat, paths, n, m)
  }

  /** The unordered query says yes exactly when one of the four placements does. */
  lemma UnorderedYes(i1: nat, j1: nat, i2: nat, j2: nat, mat: seq<seq<bool>>, paths: PathMatrix, n: nat, m: nat)
    requires IsSquare(mat) && |mat| == Size(m, n) && IsPathMatrix(paths, |mat|)
    ensures ExistPathUnordered(i1, j1, i2, j2, mat, paths, n, m).Yes? <==>
      (|| ExistPath(i1, j1, i2, j2, mat, paths, n, m).Yes? || ExistPath(j1, i1, i2, j2, mat, paths, n, m).Yes?
       || ExistPath(i1, j1, j2, i2, mat, paths, n, m).Yes? || ExistPath(j1, i1, j2, i2, mat, paths, n, m).Yes?)
  {
  }

  /** `ExistPathCorrect` for one placement, in terms of `StateReachable`. */
  lemma PlacementCorrect(i1: nat, j1: nat, i2: nat, j2: nat, m: nat, n: nat)
    ensures var bm := BottlesMatrix(m, n);
      var r := ExistPath(i1, j1, i2, j2, Closure(bm), Paths(Encode(bm), false), n, m);
      && (r.Yes? <==> StateReachable(m, n, i1, j1, i2, j2))
      && (r.Yes? ==> EdgesIn(Arcs(r.path), Size(m, n)) && AllEdges(bm, Arcs(r.path)) && r.path == Render(Arcs(r.path), false))
  {
    ExistPathCorrect(i1, j1, i2, j2, m, n);
  }

  /**
   * After the Floyd-Warshall passes the unordered query answers yes exactly
   * when some placement of the two amounts of each pair gives states inside
   * the capacities, the second reachable from the first; its path is then a
   * sequence of moves written without separators.
   */
  lemma ExistPathUnorderedCorrect(i1: nat, j1: nat, i2: nat, j2: nat, m: nat, n: nat)
    ensures var bm := BottlesMatrix(m, n);
      var r := ExistPathUnordered(i1, j1, i2, j2, Closure(bm), Paths(Encode(bm), false), n, m);
      && (r.Yes? <==> (|| StateReachable(m, n, i1, j1, i2, j2) || StateReachable(m, n, j1, i1, i2, j2)
                       || StateReachable(m, n, i1, j1, j2, i2) || StateReachable(m, n, j1, i1, j2, i2)))
      && (r.Yes? ==> EdgesIn(Arcs(r.path), Size(m, n)) && AllEdges(bm, Arcs(r.path)) && r.path == Render(Arcs(r.path), false))
  {
    var bm := BottlesMatrix(m, n);
    UnorderedYes(i1, j1, i2, j2, Closure(bm), Paths(Encode(bm), false), n, m);
    PlacementCorrect(i1, j1, i2, j2, m, n);
    PlacementCorrect(j1, i1, i2, j2, m, n);
    PlacementCorrect(i1, j1, j2, i2, m, n);
    PlacementCorrect(j1, i1, j2, i2, m, n);
  }

  /**
   * On the matrices the Floyd-Warshall passes of FWAlgorithmBool leave, the
   * query answers yes exactly when both states lie inside the capacities and
   * the second is reachable from the first; the path then lists a sequence of
   * moves between them, written without separators.
   */
  lemma ExistPathCorrect(i1: nat, j1: nat, i2: nat, j2: nat, m: nat, n: nat)
    ensures var bm := BottlesMatrix(m, n);
      var r := ExistPath(i1, j1, i2, j2, Closure(bm), Paths(Encode(bm), false), n, m);
      && (r.Yes? <==> StateReachable(m, n, i1, j1, i2, j2))
      && (r.Yes? ==>
            && IsWalk(Arcs(r.path), Size(m, n), GetIndex(i1, j1, n), GetIndex(i2, j2, n))
            && AllEdges(bm, Arcs(r.path))
            && r.path == Render(Arcs(r.path), false))
  {
    var bm := BottlesMatrix(m, n);
    if i1 <= m && j1 <= n && i2 <= m && j2 <= n {
      IndexInRange(i1, j1, m, n);
      IndexInRange(i2, j2, m, n);
      ClosureIsReachability(bm);
      BoolPathsCorrect(bm, false);
    }
  }

  /**
   * The query as written answers yes exactly when the state with the larger
   * amount of each pair in the first bottle can reach the other such state.
   */
  lemma AsWrittenCorrect(i1: nat, j1: nat, i2: nat, j2: nat, m: nat, n: nat)
    ensures var bm := BottlesMatrix(m, n);
      var r := ExistPathAsWritten(i1, j1, i2, j2, Closure(bm), Paths(Encode(bm), false), n, m);
      r.Yes? <==> StateReachable(m, n, if i1 < j1 then j1 else i1, if i1 < j1 then i1 else j1,
                                       if i2 < j2 then j2 else i2, if i2 < j2 then i2 else j2)
  {
    ExistPathCorrect(if i1 < j1 then j1 else i1, if i1 < j1 then i1 else j1,
                     if i2 < j2 then j2 else i2, if i2 < j2 then i2 else j2, m, n);
  }

  /**
   * When the states as given are reachable but the reordered ones are not,
   * the query as written answers no, while the query on the states as given
   * and the unordered query answer yes.
   */
  lemma AsWrittenMisses(i1: nat, j1: nat, i2: nat, j2: nat, m: nat, n: nat)
    requires StateReachable(m, n, i1, j1, i2, j2)
    requires !StateReachable(m, n, if i1 < j1 then j1 else i1, if i1 < j1 then i1 else j1,
                                    if i2 < j2 then j2 else i2, if i2 < j2 then i2 else j2)
    ensures var bm := BottlesMatrix(m, n);
      var mat, paths := Closure(bm), Paths(Encode(bm), false);
      && ExistPathAsWritten(i1, j1, i2, j2, mat, paths, n, m) == No
      && ExistPath(i1, j1, i2, j2, mat, paths, n, m).Yes?
      && ExistPathUnordered(i1, j1, i2, j2, mat, paths, n, m).Yes?
  {
    AsWrittenCorrect(i1, j1, i2, j2, m, n);
    ExistPathUnorderedCorrect(i1, j1, i2, j2, m, n);
    ExistPathCorrect(i1, j1, i2, j2, m, n);
  }

  /**
   * The query of the driver `check_bottle_wf(5, 3)`, "0 and 4 litres" from
   * two empty bottles, is looked up as written as four litres in the
   * five-litre bottle; that state can be measured.
   */
  lemma FourLitres()
    ensures StateReachable(5, 3, 0, 0, 4, 0)
  {
    // fill the first, pour it into the second, empty the second, pour again,
    // fill the first, pour it into the second, empty the second
    MovesReach(5, 3, [(0, 0), (5, 0), (2, 3), (2, 0), (0, 2), (5, 2), (4, 3), (4, 0)], [1, 4, 2, 4, 1, 4, 2]);
  }

  /**
   * With bottles of 4 and 3 litres, one litre in the first bottle and three
   * in the second is reachable from two empty bottles (fill the first, pour
   * it into the second), but three litres in the first and one in the
   * second, the states the query as written looks up, is not: neither
   * bottle is empty or full there.
   */
  lemma ReorderedQueryCounterexample()
    ensures StateReachable(4, 3, 0, 0, 1, 3)
    ensures !StateReachable(4, 3, 0, 0, 3, 1)
  {
    MovesReach(4, 3, [(0, 0), (4, 0), (1, 3)], [1, 4]);
    assert !OnBoundary(4, 3, GetIndex(3, 1, 3));
    IndexInRange(3, 1, 4, 3);
    ReachableOnBoundary(4, 3, GetIndex(0, 0, 3), GetIndex(3, 1, 3));
  }

  /**
   * The query (0, 0) -> (1, 3) with m = 4, n = 3, after the passes: as
   * written it answers no, while the query on the states as given and the
   * unordered query answer yes.
   */
  lemma ReorderedQueryAnswers(i1: nat, j1: nat, i2: nat, j2: nat, m: nat, n: nat)
    requires i1 == 0 && j1 == 0 && i2 == 1 && j2 == 3 && m == 4 && n == 3
    ensures var bm := BottlesMatrix(m, n);
      var mat, paths := Closure(bm), Paths(Encode(bm), false);
      && ExistPathAsWritten(i1, j1, i2, j2, mat, paths, n, m) == No
      && ExistPath(i1, j1, i2, j2, mat, paths, n, m).Yes?
      && ExistPathUnordered(i1, j1, i2, j2, mat, paths, n, m).Yes?
  {
    ReorderedQueryCounterexample();
    AsWrittenMisses(i1, j1, i2, j2, m, n);
  }
}
