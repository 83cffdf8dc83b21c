// The maximum-sum window of a circular array (BestCycle.py, `bestCycle`):
// the answer is either the best straight window of `a`, or the whole circle
// minus the best straight window of `-a`.

module CircularMaxSubarray {
  import opened MaxSubarray
  import Arith

  /** The array with every element negated (`T_arr` in the source). */
  function Negated(a: seq<int>): (t: seq<int>)
    ensures |t| == |a|
    ensures forall i :: 0 <= i < |a| ==> t[i] == -a[i]
  {
    seq(|a|, i requires 0 <= i < |a| => -a[i])
  }

  lemma {:induction false} SumNegated(a: seq<int>, lo: int, hi: int)
    requires 0 <= lo <= hi <= |a|
    ensures Sum(Negated(a), lo, hi) == -Sum(a, lo, hi)
    decreases hi - lo
  {
    if lo < hi {
      SumNegated(a, lo, hi - 1);
    }
  }

  /** The sum of the `len` elements of the circle read from position `s` on. */
  function CircSum(a: seq<int>, s: nat, len: nat): int
    requires |a| > 0
  {
    if len == 0 then 0 else CircSum(a, s, len - 1) + a[(s + len - 1) % |a|]
  }

  /** Two consecutive circular windows make one. */
  lemma {:induction false} CircSumConcat(a: seq<int>, s: nat, l1: nat, l2: nat)
    requires |a| > 0
    ensures CircSum(a, s, l1 + l2) == CircSum(a, s, l1) + CircSum(a, s + l1, l2)
    decreases l2
  {
    if l2 > 0 {
      CircSumConcat(a, s, l1, l2 - 1);
    }
  }

  /** A circular window depends on its start only modulo the length of the circle. */
  lemma {:induction false} CircSumPeriodic(a: seq<int>, s: nat, len: nat)
    requires |a| > 0
    ensures CircSum(a, s + |a|, len) == CircSum(a, s, len)
    decreases len
  {
    if len > 0 {
      CircSumPeriodic(a, s, len - 1);
      Arith.ModFacts(s + len - 1, |a|);
    }
  }

  /** A circular window is a straight window, or a suffix followed by a prefix. */
  lemma {:induction false} CircSumAsSums(a: seq<int>, s: nat, len: nat)
    requires 0 <= s < |a| && len <= |a|
    ensures s + len <= |a| ==> CircSum(a, s, len) == Sum(a, s, s + len)
    ensures |a| < s + len ==> CircSum(a, s, len) == Sum(a, s, |a|) + Sum(a, 0, s + len - |a|)
    decreases len
  {
    if len > 0 {
      CircSumAsSums(a, s, len - 1);
      Arith.ModFacts(s + len - 1, |a|);
    }
  }

  /**
   * `r` is the best window of the circle: its fields are consistent, its
   * sum is that of the window, and no circular window of 1 to |a| elements
   * sums to more.
   */
  ghost predicate IsCircularBest(a: seq<int>, r: Interval)
  {
    && |a| > 0
    && 0 <= r.begin < |a|
    && 1 <= r.length <= |a|
    && r.end == (r.begin + r.length - 1) % |a|
    && r.sum == CircSum(a, r.begin, r.length)
    && forall s: nat, len: nat :: s < |a| && 1 <= len <= |a| ==> CircSum(a, s, len) <= r.sum
  }

  /**
   * The decision `bestCycle` takes once it knows the best straight window of
   * `a` and of `-a`, with the wrapped window read the right way round: it
   * starts just after the best window of `-a` and ends just before it.
   */
  function Combine(a: seq<int>, straight: Interval, negated: Interval): (r: Interval)
    requires |a| > 0
    // a non-negative straight sum is never given up, and the wrapped sum is never beaten
    ensures straight.sum <= r.sum
    ensures straight.sum >= 0 ==> Sum(a, 0, |a|) + negated.sum <= r.sum
    ensures r == straight || r.length == |a| - negated.length
  {
    if straight.sum < 0 then straight
    else
      var cyclic := Sum(a, 0, |a|) + negated.sum;
      if straight.sum >= cyclic then straight
      else Interval(cyclic, (negated.end + 1) % |a|, (negated.begin - 1) % |a|, |a| - negated.length)
  }

  /** The same decision with the wrapped window's ends as BestCycle.py writes them. */
  function CombineAsWritten(a: seq<int>, straight: Interval, negated: Interval): (r: Interval)
    requires |a| > 0
    // only the ends of the wrapped window differ from the corrected decision
    ensures r.sum == Combine(a, straight, negated).sum && r.length == Combine(a, straight, negated).length
    ensures negated.begin == negated.end ==> r == Combine(a, straight, negated)
  {
    if straight.sum < 0 then straight
    else
      var cyclic := Sum(a, 0, |a|) + negated.sum;
      if straight.sum >= cyclic then straight
      else Interval(cyclic, (negated.begin + 1) % |a|, (negated.end - 1) % |a|, |a| - negated.length)
  }

  /** A straight best window is a consistent circular window. */
  lemma StraightAsCircular(a: seq<int>, r: Interval)
    requires IsBest(a, r)
    ensures 0 <= r.begin < |a| && 1 <= r.length <= |a|
    ensures r.end == (r.begin + r.length - 1) % |a|
    ensures r.sum == CircSum(a, r.begin, r.length)
  {
    CircSumAsSums(a, r.begin, r.length);
    Arith.ModFacts(r.end, |a|);
  }

  /** When every element is at most `bound` < 0, so is every non-empty circular window. */
  lemma {:induction false} CircSumAllBelow(a: seq<int>, bound: int, s: nat, len: nat)
    requires |a| > 0 && bound < 0 && 1 <= len
    requires forall t :: 0 <= t < |a| ==> a[t] <= bound
    ensures CircSum(a, s, len) <= bound
    decreases len
  {
    if len > 1 {
      CircSumAllBelow(a, bound, s, len - 1);
    }
  }

  /** With a non-negative best straight window, every circular window is below one of the two candidates. */
  lemma CircularWindowBound(a: seq<int>, straight: Interval, negated: Interval, s: nat, len: nat)
    requires IsBest(a, straight) && IsBest(Negated(a), negated)
    requires s < |a| && 1 <= len <= |a|
    ensures CircSum(a, s, len) <= straight.sum || CircSum(a, s, len) <= Sum(a, 0, |a|) + negated.sum
  {
    var n := |a|;
    CircSumAsSums(a, s, len);
    if n < s + len {
      var m := s + len - n;
      SumSplit(a, 0, m, s);
      SumSplit(a, 0, s, n);
      if m < s {
        SumNegated(a, m, s);
      }
    }
  }

  /** Index arithmetic of the wrapped window: it starts after e and ends before b. */
  lemma WrappedEnds(n: int, b: int, e: int)
    requires 0 <= b <= e < n && e - b + 1 < n
    ensures 0 <= (e + 1) % n < n
    ensures ((e + 1) % n + (n - (e - b + 1)) - 1) % n == (b - 1) % n
  {
    Arith.ModFacts(e + 1, n);
    Arith.ModFacts(b - 1, n);
    if e + 1 < n {
      Arith.ModFacts(n + b - 1, n);
    } else {
      Arith.ModFacts(b - 1, n);
    }
  }

  /** The window that wraps around a[b..e] sums to the total minus that slice. */
  lemma WrappedSum(a: seq<int>, b: int, e: int)
    requires 0 <= b <= e < |a| && e - b + 1 < |a|
    ensures 0 <= (e + 1) % |a|
    ensures CircSum(a, (e + 1) % |a|, |a| - (e - b + 1)) == Sum(a, 0, |a|) - Sum(a, b, e + 1)
  {
    var n := |a|;
    Arith.ModFacts(e + 1, n);
    SumSplit(a, 0, b, n);
    SumSplit(a, b, e + 1, n);
    if e + 1 < n {
      CircSumAsSums(a, e + 1, n - (e - b + 1));
    } else {
      CircSumAsSums(a, 0, n - (e - b + 1));
    }
  }

  /** The wrapped candidate, when it wins, is the circular window it claims to be. */
  lemma WrappedWindow(a: seq<int>, straight: Interval, negated: Interval)
    requires 0 <= negated.begin <= negated.end < |a|
    requires negated.length == negated.end - negated.begin + 1 < |a|
    requires negated.sum == -Sum(a, negated.begin, negated.end + 1)
    requires 0 <= straight.sum < Sum(a, 0, |a|) + negated.sum
    ensures var r := Combine(a, straight, negated);
      && 0 <= r.begin < |a| && 1 <= r.length <= |a| - 1
      && r.end == (r.begin + r.length - 1) % |a|
      && r.sum == CircSum(a, r.begin, r.length)
  {
    var n, b, e := |a|, negated.begin, negated.end;
    var r := Combine(a, straight, negated);
    assert r == Interval(Sum(a, 0, n) + negated.sum, (e + 1) % n, (b - 1) % n, n - (e - b + 1));
    WrappedEnds(n, b, e);
    WrappedSum(a, b, e);
  }

  /** The corrected decision always yields the best circular window, never worse than the straight one. */
  lemma CombineIsCircularBest(a: seq<int>, straight: Interval, negated: Interval)
    requires IsBest(a, straight)
    requires straight.sum >= 0 ==> IsBest(Negated(a), negated)
    ensures IsCircularBest(a, Combine(a, straight, negated))
    ensures straight.sum <= Combine(a, straight, negated).sum
  {
    if straight.sum < 0 {
      NegativeStraightIsCircularBest(a, straight);
    } else {
      CandidateIsCircularBest(a, straight, negated);
    }
  }

  /** When the best straight window is negative, every element is, and no circular window beats it. */
  lemma NegativeStraightIsCircularBest(a: seq<int>, straight: Interval)
    requires IsBest(a, straight) && straight.sum < 0
    ensures IsCircularBest(a, straight)
  {
    StraightAsCircular(a, straight);
    forall t | 0 <= t < |a| ensures a[t] <= straight.sum {
      assert Sum(a, t, t + 1) == a[t];
    }
    forall s: nat, len: nat | s < |a| && 1 <= len <= |a| ensures CircSum(a, s, len) <= straight.sum {
      CircSumAllBelow(a, straight.sum, s, len);
    }
  }

  /** With a non-negative best straight window, the better of the two candidates is the best circular window. */
  lemma CandidateIsCircularBest(a: seq<int>, straight: Interval, negated: Interval)
    requires IsBest(a, straight) && IsBest(Negated(a), negated) && straight.sum >= 0
    ensures IsCircularBest(a, Combine(a, straight, negated))
  {
    var r := Combine(a, straight, negated);
    if r == straight {
      StraightAsCircular(a, straight);
    } else {
      assert negated.length < |a| by {
        SumNegated(a, 0, |a|);
      }
      SumNegated(a, negated.begin, negated.end + 1);
      WrappedWindow(a, straight, negated);
    }
    forall s: nat, len: nat | s < |a| && 1 <= len <= |a| ensures CircSum(a, s, len) <= r.sum {
      CircularWindowBound(a, straight, negated, s, len);
    }
  }

  /**
   * `bestCycle`: the best straight window; if its sum is negative it is the
   * answer, otherwise the circle's total and the negated array are built in
   * one loop, and the better of the two candidates is returned (the straight
   * one on a tie). The best windows of `a` and `-a` are returned as ghosts.
   */
  method BestCycle(a: seq<int>) returns (r: Interval, ghost straight: Interval, ghost negated: Interval)
    requires |a| > 0
    ensures IsBest(a, straight)
    ensures straight.sum >= 0 ==> IsBest(Negated(a), negated)
    ensures r == Combine(a, straight, negated)
    ensures IsCircularBest(a, r) && straight.sum <= r.sum
  {
    var ansBest := Best(a);
    straight, negated := ansBest, ansBest;
    if ansBest.sum < 0 {
      r := ansBest;
      CombineIsCircularBest(a, straight, negated);
      return;
    }
    var t: seq<int> := [];
    var sumArr := 0;
    var n := |a|;
    for i := 0 to n
      invariant |t| == i
      invariant forall k :: 0 <= k < i ==> t[k] == -a[k]
      invariant sumArr == Sum(a, 0, i)
    {
      sumArr := sumArr + a[i];
      t := t + [-a[i]];
    }
    assert t == Negated(a);
    var ansT := Best(t);
    negated := ansT;
    var sumCyclicBest := sumArr + ansT.sum;
    if ansBest.sum >= sumCyclicBest {
      r := ansBest;
    } else {
      r := Interval(sumCyclicBest, (ansT.end + 1) % n, (ansT.begin - 1) % n, n - ansT.length);
    }
    CombineIsCircularBest(a, straight, negated);
  }

  // ---------------------------------------------------------------------
  // The discrepancy at BestCycle.py line 93.

  /** Pins down both straight windows `bestCycle` computes on a concrete array. */
  lemma PinBoth(a: seq<int>, na: seq<int>, s: Interval, ng: Interval, straight: Interval, negated: Interval)
    requires Negated(a) == na && CheckBest(a, s) && CheckBest(na, ng)
    requires IsBest(a, straight) && IsBest(Negated(a), negated)
    ensures straight == s && negated == ng
  {
    CheckBestSound(a, s);
    BestIsUnique(a, s, straight);
    CheckBestSound(na, ng);
    BestIsUnique(na, ng, negated);
  }

  /**
   * On [5, -3, -3, 5] the line as written reports the window of length 2
   * starting at 2 with sum 10, but that window sums to 2.
   */
  lemma CombineAsWrittenCounterexample(straight: Interval, negated: Interval)
    requires IsBest([5, -3, -3, 5], straight) && IsBest(Negated([5, -3, -3, 5]), negated)
    ensures CombineAsWritten([5, -3, -3, 5], straight, negated) == Interval(10, 2, 1, 2)
    ensures CircSum([5, -3, -3, 5], 2, 2) == 2
  {
    Facts1Windows();
    Facts1Pinned(straight, negated);
  }

  /** On the same array the corrected decision reports the window 3 .. 0, which does sum to 10. */
  lemma CombineOnCounterexample(straight: Interval, negated: Interval)
    requires IsBest([5, -3, -3, 5], straight) && IsBest(Negated([5, -3, -3, 5]), negated)
    ensures Combine([5, -3, -3, 5], straight, negated) == Interval(10, 3, 0, 2)
    ensures CircSum([5, -3, -3, 5], 3, 2) == 10
  {
    Facts1Windows();
    Facts1Pinned(straight, negated);
  }

  /**
   * The line as written reproduces the result recorded beside the test array
   * [10, 2, -5, 8, -100, 3, 50, -80, 1, 2, 3, 88] in BestCycle.py (sum 109,
   * interval [5, 6], length 8), although the 8 elements from 5 on sum to 77;
   * the corrected decision gives 8 .. 3, which does sum to 109.
   */
  lemma CombineAsWrittenRecorded(straight: Interval, negated: Interval)
    requires IsBest([10, 2, -5, 8, -100, 3, 50, -80, 1, 2, 3, 88], straight)
    requires IsBest(Negated([10, 2, -5, 8, -100, 3, 50, -80, 1, 2, 3, 88]), negated)
    ensures CombineAsWritten([10, 2, -5, 8, -100, 3, 50, -80, 1, 2, 3, 88], straight, negated)
      == Interval(109, 5, 6, 8)
    ensures CircSum([10, 2, -5, 8, -100, 3, 50, -80, 1, 2, 3, 88], 5, 8) == 77
    ensures Combine([10, 2, -5, 8, -100, 3, 50, -80, 1, 2, 3, 88], straight, negated)
      == Interval(109, 8, 3, 8)
    ensures CircSum([10, 2, -5, 8, -100, 3, 50, -80, 1, 2, 3, 88], 8, 8) == 109
  {
    Facts2Windows();
    Facts2Pinned(straight, negated);
  }

  /**
   * The same holds for the result recorded beside [90, 2, -5, 8, -100, 3, 50,
   * -80, 1, 2, 3] (sum 101, interval [5, 6], length 7): the 7 elements from 5
   * on sum to 69, and the corrected decision gives 8 .. 3, which sums to 101.
   */
  lemma CombineAsWrittenRecorded2(a: seq<int>, straight: Interval, negated: Interval)
    requires a == [90, 2, -5, 8, -100, 3, 50, -80, 1, 2, 3]
    requires IsBest(a, straight) && IsBest(Negated(a), negated)
    ensures CombineAsWritten(a, straight, negated) == Interval(101, 5, 6, 7)
    ensures CircSum(a, 5, 7) == 69
    ensures Combine(a, straight, negated) == Interval(101, 8, 3, 7)
    ensures CircSum(a, 8, 7) == 101
  {
    Facts8Pinned(straight, negated);
    Facts8Windows();
  }

  // Recorded results of BestCycle.py on which the corrected decision agrees
  // with the source: either the straight window wins, or the best window of
  // -a has length 1, so that swapping its two ends changes nothing.

  lemma BestCycleExample1(straight: Interval, negated: Interval)
    requires IsBest([2, 0, -5, 2], straight) && IsBest(Negated([2, 0, -5, 2]), negated)
    ensures Combine([2, 0, -5, 2], straight, negated) == Interval(4, 3, 1, 3)
  {
    Facts3Pinned(straight, negated);
  }

  lemma BestCycleExample2(straight: Interval, negated: Interval)
    requires IsBest([95, 100, -150, 5, 20, 100], straight)
    requires IsBest(Negated([95, 100, -150, 5, 20, 100]), negated)
    ensures Combine([95, 100, -150, 5, 20, 100], straight, negated) == Interval(320, 3, 1, 5)
  {
    Facts4Pinned(straight, negated);
  }

  lemma BestCycleExample3(straight: Interval, negated: Interval)
    requires IsBest([10, 2, -5, 8, -100, 3, 150, -180, 1, 2, 3, 88], straight)
    requires IsBest(Negated([10, 2, -5, 8, -100, 3, 150, -180, 1, 2, 3, 88]), negated)
    ensures Combine([10, 2, -5, 8, -100, 3, 150, -180, 1, 2, 3, 88], straight, negated)
      == Interval(162, 8, 6, 11)
  {
    Facts5Pinned(straight, negated);
  }

  /**
   * The straight window wins here (5 against the wrapped 1 + 2): the recorded
   * (5, 2, 2, 1) is what `best` returns, although the circular window of
   * length 2 from index 1 also sums to 5.
   */
  lemma BestCycleExample4(straight: Interval, negated: Interval)
    requires IsBest([-2, 0, 5, -2], straight) && IsBest(Negated([-2, 0, 5, -2]), negated)
    ensures Combine([-2, 0, 5, -2], straight, negated) == Interval(5, 2, 2, 1)
    ensures CircSum([-2, 0, 5, -2], 1, 2) == 5
  {
    Facts6Pinned(straight, negated);
  }

  /** A tie between the straight window and the wrapped one keeps the straight window. */
  lemma BestCycleExample5(straight: Interval, negated: Interval)
    requires IsBest([1, 10, -15, 3, -10], straight) && IsBest(Negated([1, 10, -15, 3, -10]), negated)
    ensures Combine([1, 10, -15, 3, -10], straight, negated) == Interval(11, 0, 1, 2)
  {
    Facts7Pinned(straight, negated);
  }

  // The evaluated facts the examples above rest on.

  /** Both straight windows `bestCycle` computes on [5, -3, -3, 5], and its total. */
  lemma Facts1Pinned(straight: Interval, negated: Interval)
    requires IsBest([5, -3, -3, 5], straight) && IsBest(Negated([5, -3, -3, 5]), negated)
    ensures straight == Interval(5, 0, 0, 1) && negated == Interval(6, 1, 2, 2)
    ensures Sum([5, -3, -3, 5], 0, 4) == 4
  {
    Facts1Negated();
    Facts1Straight();
    Facts1Opposite();
    PinBoth([5, -3, -3, 5], [-5, 3, 3, -5],
            Interval(5, 0, 0, 1), Interval(6, 1, 2, 2), straight, negated);
  }

  /** Both straight windows `bestCycle` computes on [10, 2, -5, 8, -100, 3, 50, -80, 1, 2, 3, 88], and its total. */
  lemma Facts2Pinned(straight: Interval, negated: Interval)
    requires IsBest([10, 2, -5, 8, -100, 3, 50, -80, 1, 2, 3, 88], straight) && IsBest(Negated([10, 2, -5, 8, -100, 3, 50, -80, 1, 2, 3, 88]), negated)
    ensures straight == Interval(94, 8, 11, 4) && negated == Interval(127, 4, 7, 4)
    ensures Sum([10, 2, -5, 8, -100, 3, 50, -80, 1, 2, 3, 88], 0, 12) == -18
  {
    Facts2Negated();
    Facts2Straight();
    Facts2Opposite();
    PinBoth([10, 2, -5, 8, -100, 3, 50, -80, 1, 2, 3, 88], [-10, -2, 5, -8, 100, -3, -50, 80, -1, -2, -3, -88],
            Interval(94, 8, 11, 4), Interval(127, 4, 7, 4), straight, negated);
  }

  /** Both straight windows `bestCycle` computes on [2, 0, -5, 2], and its total. */
  lemma Facts3Pinned(straight: Interval, negated: Interval)
    requires IsBest([2, 0, -5, 2], straight) && IsBest(Negated([2, 0, -5, 2]), negated)
    ensures straight == Interval(2, 0, 0, 1) && negated == Interval(5, 2, 2, 1)
    ensures Sum([2, 0, -5, 2], 0, 4) == -1
  {
    Facts3Negated();
    Facts3Straight();
    Facts3Opposite();
    PinBoth([2, 0, -5, 2], [-2, 0, 5, -2],
            Interval(2, 0, 0, 1), Interval(5, 2, 2, 1), straight, negated);
  }

  /** Both straight windows `bestCycle` computes on [95, 100, -150, 5, 20, 100], and its total. */
  lemma Facts4Pinned(straight: Interval, negated: Interval)
    requires IsBest([95, 100, -150, 5, 20, 100], straight) && IsBest(Negated([95, 100, -150, 5, 20, 100]), negated)
    ensures straight == Interval(195, 0, 1, 2) && negated == Interval(150, 2, 2, 1)
    ensures Sum([95, 100, -150, 5, 20, 100], 0, 6) == 170
  {
    Facts4Negated();
    Facts4Straight();
    Facts4Opposite();
    PinBoth([95, 100, -150, 5, 20, 100], [-95, -100, 150, -5, -20, -100],
            Interval(195, 0, 1, 2), Interval(150, 2, 2, 1), straight, negated);
  }

  /** Both straight windows `bestCycle` computes on [10, 2, -5, 8, -100, 3, 150, -180, 1, 2, 3, 88], and its total. */
  lemma Facts5Pinned(straight: Interval, negated: Interval)
    requires IsBest([10, 2, -5, 8, -100, 3, 150, -180, 1, 2, 3, 88], straight) && IsBest(Negated([10, 2, -5, 8, -100, 3, 150, -180, 1, 2, 3, 88]), negated)
    ensures straight == Interval(153, 5, 6, 2) && negated == Interval(180, 7, 7, 1)
    ensures Sum([10, 2, -5, 8, -100, 3, 150, -180, 1, 2, 3, 88], 0, 12) == -18
  {
    Facts5Negated();
    Facts5Straight();
    Facts5Opposite();
    PinBoth([10, 2, -5, 8, -100, 3, 150, -180, 1, 2, 3, 88], [-10, -2, 5, -8, 100, -3, -150, 180, -1, -2, -3, -88],
            Interval(153, 5, 6, 2), Interval(180, 7, 7, 1), straight, negated);
  }

  /** Both straight windows `bestCycle` computes on [-2, 0, 5, -2], and its total. */
  lemma Facts6Pinned(straight: Interval, negated: Interval)
    requires IsBest([-2, 0, 5, -2], straight) && IsBest(Negated([-2, 0, 5, -2]), negated)
    ensures straight == Interval(5, 2, 2, 1) && negated == Interval(2, 0, 0, 1)
    ensures Sum([-2, 0, 5, -2], 0, 4) == 1
  {
    Facts6Negated();
    Facts3Straight();
    Facts3Opposite();
    PinBoth([-2, 0, 5, -2], [2, 0, -5, 2],
            Interval(5, 2, 2, 1), Interval(2, 0, 0, 1), straight, negated);
  }

  /** Both straight windows `bestCycle` computes on [1, 10, -15, 3, -10], and its total. */
  lemma Facts7Pinned(straight: Interval, negated: Interval)
    requires IsBest([1, 10, -15, 3, -10], straight) && IsBest(Negated([1, 10, -15, 3, -10]), negated)
    ensures straight == Interval(11, 0, 1, 2) && negated == Interval(22, 2, 4, 3)
    ensures Sum([1, 10, -15, 3, -10], 0, 5) == -11
  {
    Facts7Negated();
    Facts7Straight();
    Facts7Opposite();
    PinBoth([1, 10, -15, 3, -10], [-1, -10, 15, -3, 10],
            Interval(11, 0, 1, 2), Interval(22, 2, 4, 3), straight, negated);
  }

  /** Both straight windows `bestCycle` computes on [90, 2, -5, 8, -100, 3, 50, -80, 1, 2, 3], and its total. */
  lemma Facts8Pinned(straight: Interval, negated: Interval)
    requires IsBest([90, 2, -5, 8, -100, 3, 50, -80, 1, 2, 3], straight) && IsBest(Negated([90, 2, -5, 8, -100, 3, 50, -80, 1, 2, 3]), negated)
    ensures straight == Interval(95, 0, 3, 4) && negated == Interval(127, 4, 7, 4)
    ensures Sum([90, 2, -5, 8, -100, 3, 50, -80, 1, 2, 3], 0, 11) == -26
  {
    Facts8Negated();
    Facts8Straight();
    Facts8Opposite();
    PinBoth([90, 2, -5, 8, -100, 3, 50, -80, 1, 2, 3], [-90, -2, 5, -8, 100, -3, -50, 80, -1, -2, -3],
            Interval(95, 0, 3, 4), Interval(127, 4, 7, 4), straight, negated);
  }

  lemma Facts1Negated()
    ensures Negated([5, -3, -3, 5]) == [-5, 3, 3, -5]
  {
  }

  lemma Facts1Straight()
    ensures CheckBest([5, -3, -3, 5], Interval(5, 0, 0, 1))
    ensures Sum([5, -3, -3, 5], 0, 4) == 4
  {
    assert WindowsAtMost([5, -3, -3, 5], 5, 4, 0, 0);
    assert WindowsAtMost([5, -3, -3, 5], 4, 0, 0, 0);
    assert StartsAtMost([5, -3, -3, 5], 4, 0, 0, 1);
  }

  lemma Facts1Opposite()
    ensures CheckBest([-5, 3, 3, -5], Interval(6, 1, 2, 2))
  {
    assert WindowsAtMost([-5, 3, 3, -5], 6, 4, 0, 0);
    assert WindowsAtMost([-5, 3, 3, -5], 5, 2, 0, 0);
    assert StartsAtMost([-5, 3, 3, -5], 5, 1, 1, 3);
  }

  lemma Facts2Negated()
    ensures Negated([10, 2, -5, 8, -100, 3, 50, -80, 1, 2, 3, 88]) == [-10, -2, 5, -8, 100, -3, -50, 80, -1, -2, -3, -88]
  {
  }

  lemma Facts2Straight()
    ensures CheckBest([10, 2, -5, 8, -100, 3, 50, -80, 1, 2, 3, 88], Interval(94, 8, 11, 4))
    ensures Sum([10, 2, -5, 8, -100, 3, 50, -80, 1, 2, 3, 88], 0, 12) == -18
  {
    Facts2StraightShape();
    Facts2StraightAll();
    Facts2StraightEarlier();
    Facts2StraightStarts();
  }

  lemma Facts2StraightShape()
    ensures FirstPositive([10, 2, -5, 8, -100, 3, 50, -80, 1, 2, 3, 88]) == 0
    ensures Sum([10, 2, -5, 8, -100, 3, 50, -80, 1, 2, 3, 88], 8, 12) == 94
    ensures Sum([10, 2, -5, 8, -100, 3, 50, -80, 1, 2, 3, 88], 0, 12) == -18
  {
  }

  lemma Facts2StraightAll()
    ensures WindowsAtMost([10, 2, -5, 8, -100, 3, 50, -80, 1, 2, 3, 88], 94, 12, 0, 0)
  {
  }

  lemma Facts2StraightEarlier()
    ensures WindowsAtMost([10, 2, -5, 8, -100, 3, 50, -80, 1, 2, 3, 88], 93, 11, 0, 0)
  {
  }

  lemma Facts2StraightStarts()
    ensures StartsAtMost([10, 2, -5, 8, -100, 3, 50, -80, 1, 2, 3, 88], 93, 0, 8, 12)
  {
    // the longest windows, split in two so that each half evaluates quickly
    SumSplit([10, 2, -5, 8, -100, 3, 50, -80, 1, 2, 3, 88], 0, 6, 12);
    SumSplit([10, 2, -5, 8, -100, 3, 50, -80, 1, 2, 3, 88], 1, 6, 12);
    SumSplit([10, 2, -5, 8, -100, 3, 50, -80, 1, 2, 3, 88], 2, 6, 12);
  }

  lemma Facts2Opposite()
    ensures CheckBest([-10, -2, 5, -8, 100, -3, -50, 80, -1, -2, -3, -88], Interval(127, 4, 7, 4))
  {
    Facts2OppositeShape();
    Facts2OppositeAll();
    Facts2OppositeEarlier();
    Facts2OppositeStarts();
  }

  lemma Facts2OppositeShape()
    ensures FirstPositive([-10, -2, 5, -8, 100, -3, -50, 80, -1, -2, -3, -88]) == 2
    ensures Sum([-10, -2, 5, -8, 100, -3, -50, 80, -1, -2, -3, -88], 4, 8) == 127
  {
  }

  lemma Facts2OppositeAll()
    ensures WindowsAtMost([-10, -2, 5, -8, 100, -3, -50, 80, -1, -2, -3, -88], 127, 12, 0, 0)
  {
  }

  lemma Facts2OppositeEarlier()
    ensures WindowsAtMost([-10, -2, 5, -8, 100, -3, -50, 80, -1, -2, -3, -88], 126, 7, 0, 0)
  {
  }

  lemma Facts2OppositeStarts()
    ensures StartsAtMost([-10, -2, 5, -8, 100, -3, -50, 80, -1, -2, -3, -88], 126, 2, 4, 8)
  {
  }

  lemma Facts3Negated()
    ensures Negated([2, 0, -5, 2]) == [-2, 0, 5, -2]
  {
  }

  lemma Facts3Straight()
    ensures CheckBest([2, 0, -5, 2], Interval(2, 0, 0, 1))
    ensures Sum([2, 0, -5, 2], 0, 4) == -1
  {
    assert WindowsAtMost([2, 0, -5, 2], 2, 4, 0, 0);
    assert WindowsAtMost([2, 0, -5, 2], 1, 0, 0, 0);
    assert StartsAtMost([2, 0, -5, 2], 1, 0, 0, 1);
  }

  lemma Facts3Opposite()
    ensures CheckBest([-2, 0, 5, -2], Interval(5, 2, 2, 1))
  {
    assert WindowsAtMost([-2, 0, 5, -2], 5, 4, 0, 0);
    assert WindowsAtMost([-2, 0, 5, -2], 4, 2, 0, 0);
    assert StartsAtMost([-2, 0, 5, -2], 4, 2, 2, 3);
  }

  lemma Facts4Negated()
    ensures Negated([95, 100, -150, 5, 20, 100]) == [-95, -100, 150, -5, -20, -100]
  {
  }

  lemma Facts4Straight()
    ensures CheckBest([95, 100, -150, 5, 20, 100], Interval(195, 0, 1, 2))
    ensures Sum([95, 100, -150, 5, 20, 100], 0, 6) == 170
  {
    assert WindowsAtMost([95, 100, -150, 5, 20, 100], 195, 6, 0, 0);
    assert WindowsAtMost([95, 100, -150, 5, 20, 100], 194, 1, 0, 0);
    assert StartsAtMost([95, 100, -150, 5, 20, 100], 194, 0, 0, 2);
  }

  lemma Facts4Opposite()
    ensures CheckBest([-95, -100, 150, -5, -20, -100], Interval(150, 2, 2, 1))
  {
    assert WindowsAtMost([-95, -100, 150, -5, -20, -100], 150, 6, 0, 0);
    assert WindowsAtMost([-95, -100, 150, -5, -20, -100], 149, 2, 0, 0);
    assert StartsAtMost([-95, -100, 150, -5, -20, -100], 149, 2, 2, 3);
  }

  lemma Facts5Negated()
    ensures Negated([10, 2, -5, 8, -100, 3, 150, -180, 1, 2, 3, 88]) == [-10, -2, 5, -8, 100, -3, -150, 180, -1, -2, -3, -88]
  {
  }

  lemma Facts5Straight()
    ensures CheckBest([10, 2, -5, 8, -100, 3, 150, -180, 1, 2, 3, 88], Interval(153, 5, 6, 2))
    ensures Sum([10, 2, -5, 8, -100, 3, 150, -180, 1, 2, 3, 88], 0, 12) == -18
  {
    Facts5StraightShape();
    Facts5StraightAll();
    Facts5StraightEarlier();
    Facts5StraightStarts();
  }

  lemma Facts5StraightShape()
    ensures FirstPositive([10, 2, -5, 8, -100, 3, 150, -180, 1, 2, 3, 88]) == 0
    ensures Sum([10, 2, -5, 8, -100, 3, 150, -180, 1, 2, 3, 88], 5, 7) == 153
    ensures Sum([10, 2, -5, 8, -100, 3, 150, -180, 1, 2, 3, 88], 0, 12) == -18
  {
  }

  lemma Facts5StraightAll()
    ensures WindowsAtMost([10, 2, -5, 8, -100, 3, 150, -180, 1, 2, 3, 88], 153, 12, 0, 0)
  {
  }

  lemma Facts5StraightEarlier()
    ensures WindowsAtMost([10, 2, -5, 8, -100, 3, 150, -180, 1, 2, 3, 88], 152, 6, 0, 0)
  {
  }

  lemma Facts5StraightStarts()
    ensures StartsAtMost([10, 2, -5, 8, -100, 3, 150, -180, 1, 2, 3, 88], 152, 0, 5, 7)
  {
  }

  lemma Facts5Opposite()
    ensures CheckBest([-10, -2, 5, -8, 100, -3, -150, 180, -1, -2, -3, -88], Interval(180, 7, 7, 1))
  {
    Facts5OppositeShape();
    Facts5OppositeAll();
    Facts5OppositeEarlier();
    Facts5OppositeStarts();
  }

  lemma Facts5OppositeShape()
    ensures FirstPositive([-10, -2, 5, -8, 100, -3, -150, 180, -1, -2, -3, -88]) == 2
    ensures Sum([-10, -2, 5, -8, 100, -3, -150, 180, -1, -2, -3, -88], 7, 8) == 180
  {
  }

  lemma Facts5OppositeAll()
    ensures WindowsAtMost([-10, -2, 5, -8, 100, -3, -150, 180, -1, -2, -3, -88], 180, 12, 0, 0)
  {
  }

  lemma Facts5OppositeEarlier()
    ensures WindowsAtMost([-10, -2, 5, -8, 100, -3, -150, 180, -1, -2, -3, -88], 179, 7, 0, 0)
  {
  }

  lemma Facts5OppositeStarts()
    ensures StartsAtMost([-10, -2, 5, -8, 100, -3, -150, 180, -1, -2, -3, -88], 179, 2, 7, 8)
  {
  }

  lemma Facts1Windows()
    ensures CircSum([5, -3, -3, 5], 2, 2) == 2
    ensures CircSum([5, -3, -3, 5], 3, 2) == 10
  {
    CircSumAsSums([5, -3, -3, 5], 2, 2);
    CircSumAsSums([5, -3, -3, 5], 3, 2);
  }

  lemma Facts2Windows()
    ensures CircSum([10, 2, -5, 8, -100, 3, 50, -80, 1, 2, 3, 88], 5, 8) == 77
    ensures CircSum([10, 2, -5, 8, -100, 3, 50, -80, 1, 2, 3, 88], 8, 8) == 109
  {
    CircSumAsSums([10, 2, -5, 8, -100, 3, 50, -80, 1, 2, 3, 88], 5, 8);
    CircSumAsSums([10, 2, -5, 8, -100, 3, 50, -80, 1, 2, 3, 88], 8, 8);
  }

  lemma Facts6Negated()
    ensures Negated([-2, 0, 5, -2]) == [2, 0, -5, 2]
  {
  }

  lemma Facts7Negated()
    ensures Negated([1, 10, -15, 3, -10]) == [-1, -10, 15, -3, 10]
  {
  }

  lemma Facts7Straight()
    ensures CheckBest([1, 10, -15, 3, -10], Interval(11, 0, 1, 2))
    ensures Sum([1, 10, -15, 3, -10], 0, 5) == -11
  {
    assert WindowsAtMost([1, 10, -15, 3, -10], 11, 5, 0, 0);
    assert WindowsAtMost([1, 10, -15, 3, -10], 10, 1, 0, 0);
    assert StartsAtMost([1, 10, -15, 3, -10], 10, 0, 0, 2);
  }

  lemma Facts7Opposite()
    ensures CheckBest([-1, -10, 15, -3, 10], Interval(22, 2, 4, 3))
  {
    assert WindowsAtMost([-1, -10, 15, -3, 10], 22, 5, 0, 0);
    assert WindowsAtMost([-1, -10, 15, -3, 10], 21, 4, 0, 0);
    assert StartsAtMost([-1, -10, 15, -3, 10], 21, 2, 2, 5);
  }

  lemma Facts8Negated()
    ensures Negated([90, 2, -5, 8, -100, 3, 50, -80, 1, 2, 3]) == [-90, -2, 5, -8, 100, -3, -50, 80, -1, -2, -3]
  {
  }

  lemma Facts8Straight()
    ensures CheckBest([90, 2, -5, 8, -100, 3, 50, -80, 1, 2, 3], Interval(95, 0, 3, 4))
    ensures Sum([90, 2, -5, 8, -100, 3, 50, -80, 1, 2, 3], 0, 11) == -26
  {
    Facts8StraightShape();
    Facts8StraightAll();
    assert WindowsAtMost([90, 2, -5, 8, -100, 3, 50, -80, 1, 2, 3], 94, 3, 0, 0);
    assert StartsAtMost([90, 2, -5, 8, -100, 3, 50, -80, 1, 2, 3], 94, 0, 0, 4);
  }

  lemma Facts8StraightShape()
    ensures FirstPositive([90, 2, -5, 8, -100, 3, 50, -80, 1, 2, 3]) == 0
    ensures Sum([90, 2, -5, 8, -100, 3, 50, -80, 1, 2, 3], 0, 4) == 95
    ensures Sum([90, 2, -5, 8, -100, 3, 50, -80, 1, 2, 3], 0, 11) == -26
  {
  }

  lemma Facts8StraightAll()
    ensures WindowsAtMost([90, 2, -5, 8, -100, 3, 50, -80, 1, 2, 3], 95, 11, 0, 0)
  {
  }

  lemma Facts8Opposite()
    ensures CheckBest([-90, -2, 5, -8, 100, -3, -50, 80, -1, -2, -3], Interval(127, 4, 7, 4))
  {
    Facts8OppositeShape();
    Facts8OppositeAll();
    Facts8OppositeEarlier();
    Facts8OppositeStarts();
  }

  lemma Facts8OppositeShape()
    ensures FirstPositive([-90, -2, 5, -8, 100, -3, -50, 80, -1, -2, -3]) == 2
    ensures Sum([-90, -2, 5, -8, 100, -3, -50, 80, -1, -2, -3], 4, 8) == 127
  {
  }

  lemma Facts8OppositeAll()
    ensures WindowsAtMost([-90, -2, 5, -8, 100, -3, -50, 80, -1, -2, -3], 127, 11, 0, 0)
  {
  }

  lemma Facts8OppositeEarlier()
    ensures WindowsAtMost([-90, -2, 5, -8, 100, -3, -50, 80, -1, -2, -3], 126, 7, 0, 0)
  {
  }

  lemma Facts8OppositeStarts()
    ensures StartsAtMost([-90, -2, 5, -8, 100, -3, -50, 80, -1, -2, -3], 126, 2, 4, 8)
  {
  }

  lemma Facts8Windows()
    ensures CircSum([90, 2, -5, 8, -100, 3, 50, -80, 1, 2, 3], 5, 7) == 69
    ensures CircSum([90, 2, -5, 8, -100, 3, 50, -80, 1, 2, 3], 8, 7) == 101
  {
    CircSumAsSums([90, 2, -5, 8, -100, 3, 50, -80, 1, 2, 3], 5, 7);
    CircSumAsSums([90, 2, -5, 8, -100, 3, 50, -80, 1, 2, 3], 8, 7);
  }
}
