// The gas-station puzzle (PetrolStationBest.py, `petrol_station`): station i
// holds a[i] units of fuel and the road to the next station takes b[i]. A
// round trip is possible exactly when the fuel covers the whole road, and then
// the first station of the best circular window of a - b is a start from which
// the tank never runs dry.

module PetrolStation {
  import opened MaxSubarray
  import opened CircularMaxSubarray

  /** The fuel gained between arriving at station i and arriving at the next (`c` in the source). */
  function Balance(a: seq<int>, b: seq<int>): (c: seq<int>)
    requires |a| == |b|
    ensures |c| == |a|
    ensures forall i :: 0 <= i < |a| ==> c[i] == a[i] - b[i]
  {
    seq(|a|, i requires 0 <= i < |a| => a[i] - b[i])
  }

  lemma {:induction false} SumBalance(a: seq<int>, b: seq<int>, hi: int)
    requires |a| == |b| && 0 <= hi <= |a|
    ensures Sum(Balance(a, b), 0, hi) == Sum(a, 0, hi) - Sum(b, 0, hi)
    decreases hi
  {
    if hi > 0 {
      SumBalance(a, b, hi - 1);
    }
  }

  /**
   * Starting at station s with an empty tank, the tank holds a non-negative
   * amount after each of the |c| legs of the circuit.
   */
  ghost predicate CanComplete(c: seq<int>, s: nat)
    requires |c| > 0
  {
    forall k: nat :: k <= |c| ==> CircSum(c, s, k) >= 0
  }

  /** Going once round from any station collects the total balance. */
  lemma FullCircle(c: seq<int>, s: nat)
    requires s < |c|
    ensures CircSum(c, s, |c|) == Sum(c, 0, |c|)
  {
    CircSumAsSums(c, s, |c|);
    if s > 0 {
      SumSplit(c, 0, s, |c|);
    }
  }

  /** No circular window, wherever it starts, beats the best one. */
  lemma BelowBest(c: seq<int>, r: Interval, s: nat, len: nat)
    requires IsCircularBest(c, r)
    requires s < 2 * |c| && 1 <= len <= |c|
    ensures CircSum(c, s, len) <= r.sum
  {
    if s >= |c| {
      CircSumPeriodic(c, s - |c|, len);
    }
  }

  /**
   * When the balance is non-negative in total, the first station of the best
   * circular window is a start from which the circuit can be completed.
   */
  lemma BestStartCompletes(c: seq<int>, r: Interval)
    requires IsCircularBest(c, r) && Sum(c, 0, |c|) >= 0
    ensures CanComplete(c, r.begin)
  {
    var n, b, len := |c|, r.begin, r.length;
    FullCircle(c, 0);
    assert CircSum(c, 0, n) <= r.sum;
    forall k: nat | k <= n
      ensures CircSum(c, b, k) >= 0
    {
      if 1 <= k < len {
        InsideBestWindow(c, r, k);
      } else if len < k < n {
        PastBestWindow(c, r, k);
      } else if k == n {
        FullCircle(c, b);
      }
    }
  }

  /** Inside the best circular window the tank never runs dry: the rest of the window cannot sum to more than all of it. */
  lemma InsideBestWindow(c: seq<int>, r: Interval, k: nat)
    requires IsCircularBest(c, r) && 1 <= k < r.length
    ensures CircSum(c, r.begin, k) >= 0
  {
    CircSumConcat(c, r.begin, k, r.length - k);
    BelowBest(c, r, r.begin + k, r.length - k);
  }

  /**
   * Past the best circular window the tank never runs dry either: the part
   * after step k, followed by the best window, is a window too.
   */
  lemma PastBestWindow(c: seq<int>, r: Interval, k: nat)
    requires IsCircularBest(c, r) && Sum(c, 0, |c|) >= 0 && r.length < k < |c|
    ensures CircSum(c, r.begin, k) >= 0
  {
    var n, b, len := |c|, r.begin, r.length;
    CircSumConcat(c, b, k, n - k);
    FullCircle(c, b);
    CircSumConcat(c, b + k, n - k, len);
    CircSumPeriodic(c, b, len);
    BelowBest(c, r, b + k, n - k + len);
  }

  /** When the balance is negative in total, no start completes the circuit. */
  lemma NoStartCompletes(c: seq<int>, s: nat)
    requires s < |c| && Sum(c, 0, |c|) < 0
    ensures !CanComplete(c, s)
  {
    FullCircle(c, s);
  }

  /**
   * `petrol_station`: false for lists of different lengths or too little
   * fuel; otherwise true, with the first station of the best circular window
   * of a - b as the start (the source prints it, numbered from 1). The source
   * needs non-empty lists when their lengths agree (`best` reads a[0]).
   */
  method PetrolStation(a: seq<int>, b: seq<int>) returns (ok: bool, start: int, ghost straight: Interval, ghost negated: Interval)
    requires |a| == |b| ==> |a| > 0
    ensures ok <==> |a| == |b| && Sum(b, 0, |b|) <= Sum(a, 0, |a|)
    ensures ok ==> && IsBest(Balance(a, b), straight) && IsBest(Negated(Balance(a, b)), negated)
                   && start == Combine(Balance(a, b), straight, negated).begin
    ensures ok ==> 0 <= start < |a| && CanComplete(Balance(a, b), start)
    ensures |a| == |b| && !ok ==> forall s: nat :: s < |a| ==> !CanComplete(Balance(a, b), s)
  {
    straight, negated := Interval(0, 0, 0, 1), Interval(0, 0, 0, 1);
    if |a| != |b| {
      return false, 0, straight, negated;
    }
    var sumA, sumB := 0, 0;
    for i := 0 to |a|
      invariant sumA == Sum(a, 0, i) && sumB == Sum(b, 0, i)
    {
      sumA := sumA + a[i];
      sumB := sumB + b[i];
    }
    SumBalance(a, b, |a|);
    if sumB > sumA {
      forall s: nat | s < |a| ensures !CanComplete(Balance(a, b), s) {
        NoStartCompletes(Balance(a, b), s);
      }
      return false, 0, straight, negated;
    }
    var c := Balance(a, b);
    var sumC := 0;
    for i := 0 to |c|
      invariant sumC == Sum(c, 0, i)
    {
      sumC := sumC + c[i];
    }
    if sumC < 0 {
      // unreachable: sumC == sumA - sumB >= 0
      assert false;
      return false, 0, straight, negated;
    }
    var result: Interval;
    result, straight, negated := BestCycle(c);
    FullCircle(c, 0);
    if result.sum < 0 {
      // unreachable: the whole circle is a window, so result.sum >= sumC >= 0
      assert false;
      return false, 0, straight, negated;
    }
    // the whole list is a window, so best(c) is not negative and best(-c) was computed
    assert Sum(c, 0, |c|) <= straight.sum;
    BestStartCompletes(c, result);
    return true, result.begin, straight, negated;
  }

  /**
   * With fuel [5, 0, 0, 5] and legs [0, 3, 3, 0] the circuit can be driven,
   * but the start that BestCycle.py line 93 as written yields is station 2
   * (printed as 3), where the first leg already leaves the tank at -3; the
   * corrected decision yields station 3, from which the circuit completes.
   */
  lemma AsWrittenStartStalls(straight: Interval, negated: Interval)
    requires IsBest(Balance([5, 0, 0, 5], [0, 3, 3, 0]), straight)
    requires IsBest(Negated(Balance([5, 0, 0, 5], [0, 3, 3, 0])), negated)
    ensures CombineAsWritten(Balance([5, 0, 0, 5], [0, 3, 3, 0]), straight, negated).begin == 2
    ensures !CanComplete(Balance([5, 0, 0, 5], [0, 3, 3, 0]), 2)
    ensures Combine(Balance([5, 0, 0, 5], [0, 3, 3, 0]), straight, negated).begin == 3
    ensures CanComplete(Balance([5, 0, 0, 5], [0, 3, 3, 0]), 3)
  {
    assert Balance([5, 0, 0, 5], [0, 3, 3, 0]) == [5, -3, -3, 5];
    CombineAsWrittenCounterexample(straight, negated);
    CombineOnCounterexample(straight, negated);
    CombineIsCircularBest([5, -3, -3, 5], straight, negated);
    BestStartCompletes([5, -3, -3, 5], Combine([5, -3, -3, 5], straight, negated));
    assert CircSum([5, -3, -3, 5], 2, 1) == -3;
  }

  // The first and last test cases of PetrolStationBest.py.

  /**
   * Fuel [3, 6, 2, 8] and legs [5, 4, 3, 4]: the circuit can be driven, and
   * the start chosen is station 1 (printed as station 2).
   */
  lemma PetrolExampleFeasible(straight: Interval, negated: Interval)
    requires IsBest(Balance([3, 6, 2, 8], [5, 4, 3, 4]), straight)
    requires IsBest(Negated(Balance([3, 6, 2, 8], [5, 4, 3, 4])), negated)
    ensures Sum([5, 4, 3, 4], 0, 4) <= Sum([3, 6, 2, 8], 0, 4)
    ensures Combine(Balance([3, 6, 2, 8], [5, 4, 3, 4]), straight, negated).begin == 1
    ensures CanComplete(Balance([3, 6, 2, 8], [5, 4, 3, 4]), 1)
  {
    var c := Balance([3, 6, 2, 8], [5, 4, 3, 4]);
    assert c == [-2, 2, -1, 4];
    FeasibleFacts();
    SumBalance([3, 6, 2, 8], [5, 4, 3, 4], 4);
    PickedStartCompletes(c, Interval(5, 1, 3, 3), Interval(2, 0, 0, 1), straight, negated);
  }

  /** Once both best windows are pinned down, the start the combination picks completes the circuit. */
  lemma PickedStartCompletes(c: seq<int>, s: Interval, ng: Interval, straight: Interval, negated: Interval)
    requires |c| > 0 && CheckBest(c, s) && CheckBest(Negated(c), ng)
    requires IsBest(c, straight) && IsBest(Negated(c), negated) && Sum(c, 0, |c|) >= 0
    ensures Combine(c, straight, negated) == Combine(c, s, ng)
    ensures CanComplete(c, Combine(c, s, ng).begin)
  {
    PinBoth(c, Negated(c), s, ng, straight, negated);
    CombineIsCircularBest(c, straight, negated);
    BestStartCompletes(c, Combine(c, straight, negated));
  }

  lemma FeasibleFacts()
    ensures Negated([-2, 2, -1, 4]) == [2, -2, 1, -4]
    ensures CheckBest([-2, 2, -1, 4], Interval(5, 1, 3, 3))
    ensures CheckBest([2, -2, 1, -4], Interval(2, 0, 0, 1))
    ensures Sum([-2, 2, -1, 4], 0, 4) == 3
  {
    assert WindowsAtMost([-2, 2, -1, 4], 5, 4, 0, 0);
    assert WindowsAtMost([-2, 2, -1, 4], 4, 3, 0, 0);
    assert StartsAtMost([-2, 2, -1, 4], 4, 1, 1, 4);
    assert WindowsAtMost([2, -2, 1, -4], 2, 4, 0, 0);
    assert WindowsAtMost([2, -2, 1, -4], 1, 0, 0, 0);
    assert StartsAtMost([2, -2, 1, -4], 1, 0, 0, 1);
  }

  /** Fuel [6, 11, 13, 50] and legs [8, 10, 12, 100]: too little fuel, so no start completes the circuit. */
  lemma PetrolExampleInfeasible()
    ensures Sum([8, 10, 12, 100], 0, 4) > Sum([6, 11, 13, 50], 0, 4)
    ensures forall s: nat :: s < 4 ==> !CanComplete(Balance([6, 11, 13, 50], [8, 10, 12, 100]), s)
  {
    var c := Balance([6, 11, 13, 50], [8, 10, 12, 100]);
    SumBalance([6, 11, 13, 50], [8, 10, 12, 100], 4);
    forall s: nat | s < 4 ensures !CanComplete(c, s) {
      NoStartCompletes(c, s);
    }
  }

  /**
   * `checkPetrolStation` on the first test case: `petrol_station` answers
   * true and reports station 1 (printed as 2), from which the circuit
   * completes.
   */
  method FeasibleExample() returns (ok: bool, start: int)
    ensures ok && start == 1 && CanComplete(Balance([3, 6, 2, 8], [5, 4, 3, 4]), start)
  {
    ghost var straight: Interval, negated: Interval;
    ok, start, straight, negated := PetrolStation([3, 6, 2, 8], [5, 4, 3, 4]);
    PetrolExampleFeasible(straight, negated);
  }

  /** `checkPetrolStation` on the last test case: `petrol_station` answers false. */
  method InfeasibleExample() returns (ok: bool)
    ensures !ok
  {
    ghost var straight: Interval, negated: Interval;
    var start: int;
    ok, start, straight, negated := PetrolStation([6, 11, 13, 50], [8, 10, 12, 100]);
    PetrolExampleInfeasible();
  }
}
