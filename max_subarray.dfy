/** Maximum-sum contiguous sub-array of a linear array (`best`) and of a
    circular array (`bestCycle`). */
module MaxSubarray {

  /** The 4-tuple returned by `best` and `bestCycle`: the maximal sum, the
      first and last index of the window (inclusive) and its length. */
  datatype Interval = Interval(sum: int, begin: int, end: int, length: int)

  /** Sum of a[lo..hi). */
  function Sum(a: seq<int>, lo: int, hi: int): int
    requires 0 <= lo <= hi <= |a|
    decreases hi - lo
  {
    if lo == hi then 0 else Sum(a, lo, hi - 1) + a[hi - 1]
  }

  lemma {:induction false} SumSplit(a: seq<int>, lo: int, mid: int, hi: int)
    requires 0 <= lo <= mid <= hi <= |a|
    ensures Sum(a, lo, hi) == Sum(a, lo, mid) + Sum(a, mid, hi)
    decreases hi - mid
  {
    if mid < hi {
      SumSplit(a, lo, mid, hi - 1);
    }
  }

  /** A window whose elements are all non-positive sums to at most its last element. */
  lemma {:induction false} SumNonPositive(a: seq<int>, lo: int, hi: int)
    requires 0 <= lo < hi <= |a|
    requires forall t :: lo <= t < hi ==> a[t] <= 0
    ensures Sum(a, lo, hi) <= a[hi - 1]
    ensures Sum(a, lo, hi) <= 0
    decreases hi - lo
  {
    if lo < hi - 1 {
      SumNonPositive(a, lo, hi - 1);
    }
  }

  /** Index of the first strictly positive element, or |a| when there is none. */
  function FirstPositive(a: seq<int>): (p: nat)
    ensures p <= |a|
    ensures forall t :: 0 <= t < p ==> a[t] <= 0
    ensures p < |a| ==> a[p] > 0
  {
    if a == [] then 0
    else if a[0] > 0 then 0
    else 1 + FirstPositive(a[1..])
  }

  function Min(x: int, y: int): int { if x <= y then x else y }

  /** What `best` promises about its result r for the non-empty array a:
      r is a window of a with the largest sum; among the windows with that
      sum it ends first (the scan only replaces its record on a strictly
      larger sum); and it starts at the earliest index, not before the first
      positive element, from which the sum up to its end is still maximal. */
  ghost predicate IsBest(a: seq<int>, r: Interval)
  {
    && |a| > 0
    && 0 <= r.begin <= r.end < |a|
    && r.length == r.end - r.begin + 1
    && r.sum == Sum(a, r.begin, r.end + 1)
    && (forall lo, hi :: 0 <= lo < hi <= |a| ==> Sum(a, lo, hi) <= r.sum)
    && (forall lo, hi :: 0 <= lo < hi <= r.end ==> Sum(a, lo, hi) < r.sum)
    && Min(FirstPositive(a), r.end) <= r.begin
    && (forall lo, hi :: Min(FirstPositive(a), r.end) <= lo < r.begin && hi == r.end + 1 ==> Sum(a, lo, hi) < r.sum)
  }

  /** `IsBest` leaves no freedom: it fixes the sum, both ends and the length. */
  lemma BestIsUnique(a: seq<int>, r1: Interval, r2: Interval)
    requires IsBest(a, r1) && IsBest(a, r2)
    ensures r1 == r2
  {
    assert Sum(a, r1.begin, r1.end + 1) <= r2.sum;
    assert Sum(a, r2.begin, r2.end + 1) <= r1.sum;
    assert r1.end == r2.end;
    assert Sum(a, r1.begin, r2.end + 1) == r1.sum;
    assert r1.begin == r2.begin;
  }

  /** When no element is positive, the leftmost maximal element, as a window
      of length one, satisfies `IsBest`. */
  lemma {:induction false} NonPositiveBest(a: seq<int>, m: int)
    requires |a| > 0 && 0 <= m < |a|
    requires forall t :: 0 <= t < |a| ==> a[t] <= 0
    requires forall t :: 0 <= t < |a| ==> a[t] <= a[m]
    requires forall t :: 0 <= t < m ==> a[t] < a[m]
    ensures IsBest(a, Interval(a[m], m, m, 1))
  {
    assert FirstPositive(a) == |a|;
    forall lo, hi | 0 <= lo < hi <= |a|
      ensures Sum(a, lo, hi) <= a[m]
      ensures hi <= m ==> Sum(a, lo, hi) < a[m]
    {
      SumNonPositive(a, lo, hi);
    }
  }

  /** Windows that start before the first positive element are no better
      than the same windows cut to start there. */
  lemma {:induction false} PrefixDoesNotHelp(a: seq<int>, p: int, lo: int, hi: int)
    requires 0 <= lo < hi <= |a| && p == FirstPositive(a) && lo < p
    ensures p < hi ==> Sum(a, lo, hi) <= Sum(a, p, hi)
    ensures hi <= p ==> Sum(a, lo, hi) <= 0
  {
    if p < hi {
      SumSplit(a, lo, p, hi);
      SumNonPositive(a, lo, p);
    } else {
      SumNonPositive(a, lo, hi);
    }
  }

  /** The invariant of the main scan of `Best`, which starts at the first
      positive element p: a[i-count..i) is the current window, whose sum
      tempSum is at least that of every suffix of a[p..i); the record
      (sumMax, endMax, length) is the best window of a[p..i), the first to
      end among the best, started as early as possible. */
  ghost predicate ScanInv(a: seq<int>, p: int, i: int, count: int, tempSum: int,
                          sumMax: int, endMax: int, length: int)
  {
    && 0 <= p <= i <= |a|
    && 0 <= count <= i - p
    && tempSum == Sum(a, i - count, i) && tempSum >= 0
    && (forall lo :: i - count <= lo <= i ==> Sum(a, lo, i) <= tempSum)
    && (forall lo :: p <= lo < i - count ==> Sum(a, lo, i) < tempSum)
    && p <= endMax < |a| && 1 <= length <= endMax + 1 - p
    && sumMax == Sum(a, endMax + 1 - length, endMax + 1) && sumMax > 0
    && (endMax < i || (i == p && endMax == p))
    && (forall lo, hi :: p <= lo < hi <= i ==> Sum(a, lo, hi) <= sumMax)
    && (forall lo, hi :: p <= lo < hi <= endMax ==> Sum(a, lo, hi) < sumMax)
    && (forall lo, hi :: p <= lo < endMax + 1 - length && hi == endMax + 1 ==> Sum(a, lo, hi) < sumMax)
  }

  /** One iteration of the scan keeps `ScanInv`, in each of its three
      branches: the window is dropped, kept, or kept and recorded. */
  lemma ScanStep(a: seq<int>, p: int, i: int, count: int, tempSum: int,
                 sumMax: int, endMax: int, length: int)
    requires ScanInv(a, p, i, count, tempSum, sumMax, endMax, length) && i < |a|
    ensures tempSum + a[i] < 0 ==>
      ScanInv(a, p, i + 1, 0, 0, sumMax, endMax, length)
    ensures 0 <= tempSum + a[i] <= sumMax ==>
      ScanInv(a, p, i + 1, count + 1, tempSum + a[i], sumMax, endMax, length)
    ensures tempSum + a[i] > sumMax ==>
      ScanInv(a, p, i + 1, count + 1, tempSum + a[i], tempSum + a[i], i, count + 1)
  {
    var t, next := tempSum + a[i], i + 1;
    forall lo | p <= lo <= i
      ensures Sum(a, lo, next) <= t
      ensures lo < i - count ==> Sum(a, lo, next) < t
    {
      assert Sum(a, lo, next) == Sum(a, lo, i) + a[i];
    }
    assert Sum(a, i + 1, i + 1) == 0;
    assert Sum(a, i - count, i + 1) == t;
    if t < 0 {
      assert ScanInv(a, p, i + 1, 0, 0, sumMax, endMax, length);
    } else if t <= sumMax {
      assert ScanInv(a, p, i + 1, count + 1, t, sumMax, endMax, length);
    } else {
      assert ScanInv(a, p, i + 1, count + 1, t, t, i, count + 1);
    }
  }

  /** BestOnN.py `best` (BestCycle.py `best` is the same code): a single
      left-to-right scan. The input is only read. */
  method Best(a: seq<int>) returns (r: Interval)
    requires |a| > 0
    ensures IsBest(a, r)
  {
    var n := |a|;
    var i := 0;
    while i < n && a[i] <= 0
      invariant 0 <= i <= n
      invariant forall t :: 0 <= t < i ==> a[t] <= 0
    {
      i := i + 1;
    }
    if i == n {
      // every element is non-positive: take the leftmost maximal element
      var m := LeftmostMax(a);
      r := Interval(a[m], m, m, 1);
      NonPositiveBest(a, m);
    } else {
      FirstPositiveIs(a, i);
      var sumMax, endMax, length := Scan(a, i);
      r := Interval(sumMax, endMax + 1 - length, endMax, length);
    }
  }

  /** The first loop of the all-non-positive branch of `best`: the leftmost
      index holding the largest element. */
  method LeftmostMax(a: seq<int>) returns (m: int)
    requires |a| > 0
    ensures 0 <= m < |a|
    ensures forall t :: 0 <= t < |a| ==> a[t] <= a[m]
    ensures forall t :: 0 <= t < m ==> a[t] < a[m]
  {
    m := 0;
    for j := 1 to |a|
      invariant 0 <= m < j
      invariant forall t :: 0 <= t < j ==> a[t] <= a[m]
      invariant forall t :: 0 <= t < m ==> a[t] < a[m]
    {
      if a[j] > a[m] {
        m := j;
      }
    }
  }

  /** The main scan of `best`, from the first positive element p to the end:
      it returns the best window's sum, last index and length. */
  method Scan(a: seq<int>, p: int) returns (sumMax: int, endMax: int, length: int)
    requires 0 <= p < |a| && p == FirstPositive(a)
    ensures IsBest(a, Interval(sumMax, endMax + 1 - length, endMax, length))
  {
    var n := |a|;
    var i := p;
    sumMax, endMax, length := a[i], i, 1;
    var tempSum, count := 0, 0;
    while i < n
      invariant ScanInv(a, p, i, count, tempSum, sumMax, endMax, length)
    {
      ScanStep(a, p, i, count, tempSum, sumMax, endMax, length);
      tempSum := tempSum + a[i];
      count := count + 1;
      if tempSum < 0 {
        tempSum := 0;
        count := 0;
      } else if tempSum > sumMax {
        sumMax := tempSum;
        endMax := i;
        length := count;
      }
      i := i + 1;
    }
    ScanDone(a, p, count, tempSum, sumMax, endMax, length);
  }

  /** When the scan from the first positive element p reaches the end, its
      record is the best window of the whole array. */
  lemma ScanDone(a: seq<int>, p: int, count: int, tempSum: int, sumMax: int, endMax: int, length: int)
    requires ScanInv(a, p, |a|, count, tempSum, sumMax, endMax, length)
    requires p == FirstPositive(a) && p < |a|
    ensures IsBest(a, Interval(sumMax, endMax + 1 - length, endMax, length))
  {
    forall lo, hi | 0 <= lo < hi <= |a| && lo < p
      ensures Sum(a, lo, hi) <= sumMax
      ensures hi <= endMax ==> Sum(a, lo, hi) < sumMax
    {
      PrefixDoesNotHelp(a, p, lo, hi);
    }
  }

  lemma {:induction false} FirstPositiveIs(a: seq<int>, p: nat)
    requires p < |a| && a[p] > 0
    requires forall t :: 0 <= t < p ==> a[t] <= 0
    ensures FirstPositive(a) == p
  {
    if p > 0 {
      FirstPositiveIs(a[1..], p - 1);
    }
  }

  // ---------------------------------------------------------------------
  // A brute-force check of `IsBest` that Dafny can evaluate on a concrete
  // array; it is used to pin down the recorded examples.

  /**
   * Every window a[l..h) with h <= top, lo <= l, and h > hi when l == lo,
   * sums to at most bound.
   */
  function WindowsAtMost(a: seq<int>, bound: int, top: nat, lo: nat, hi: nat): bool
    requires lo <= hi <= top <= |a|
    decreases top - lo, top - hi
  {
    if lo == top then true
    else if hi == top then WindowsAtMost(a, bound, top, lo + 1, lo + 1)
    else Sum(a, lo, hi + 1) <= bound && WindowsAtMost(a, bound, top, lo, hi + 1)
  }

  lemma {:induction false} WindowsAtMostSound(a: seq<int>, bound: int, top: nat, lo: nat, hi: nat)
    requires lo <= hi <= top <= |a| && WindowsAtMost(a, bound, top, lo, hi)
    ensures forall l, h :: lo <= l < h <= top && (lo < l || hi < h) ==> Sum(a, l, h) <= bound
    decreases top - lo, top - hi
  {
    if lo == top {
    } else if hi == top {
      WindowsAtMostSound(a, bound, top, lo + 1, lo + 1);
    } else {
      WindowsAtMostSound(a, bound, top, lo, hi + 1);
    }
  }

  /** Every start l in [lo, stop) gives Sum(a, l, hi) <= bound. */
  function StartsAtMost(a: seq<int>, bound: int, lo: nat, stop: nat, hi: nat): bool
    requires lo <= stop <= hi <= |a|
    decreases stop - lo
  {
    lo == stop || (Sum(a, lo, hi) <= bound && StartsAtMost(a, bound, lo + 1, stop, hi))
  }

  lemma {:induction false} StartsAtMostSound(a: seq<int>, bound: int, lo: nat, stop: nat, hi: nat)
    requires lo <= stop <= hi <= |a| && StartsAtMost(a, bound, lo, stop, hi)
    ensures forall l :: lo <= l < stop ==> Sum(a, l, hi) <= bound
    decreases stop - lo
  {
    if lo < stop {
      StartsAtMostSound(a, bound, lo + 1, stop, hi);
    }
  }

  predicate CheckBest(a: seq<int>, r: Interval)
  {
    && |a| > 0
    && 0 <= r.begin <= r.end < |a|
    && r.length == r.end - r.begin + 1
    && r.sum == Sum(a, r.begin, r.end + 1)
    && WindowsAtMost(a, r.sum, |a|, 0, 0)
    && WindowsAtMost(a, r.sum - 1, r.end, 0, 0)
    && Min(FirstPositive(a), r.end) <= r.begin
    && StartsAtMost(a, r.sum - 1, Min(FirstPositive(a), r.end), r.begin, r.end + 1)
  }

  /** The brute-force check decides `IsBest`. */
  lemma CheckBestSound(a: seq<int>, r: Interval)
    requires CheckBest(a, r)
    ensures IsBest(a, r)
  {
    WindowsAtMostSound(a, r.sum, |a|, 0, 0);
    WindowsAtMostSound(a, r.sum - 1, r.end, 0, 0);
    StartsAtMostSound(a, r.sum - 1, Min(FirstPositive(a), r.end), r.begin, r.end + 1);
  }

  // The results recorded beside the test arrays of BestOnN.py.

  lemma BestExample1()
    ensures forall r :: IsBest([2, 8, 1, 5, 2], r) <==> r == Interval(18, 0, 4, 5)
  {
    assert WindowsAtMost([2, 8, 1, 5, 2], 18, 5, 0, 0);
    assert WindowsAtMost([2, 8, 1, 5, 2], 17, 4, 0, 0);
    assert StartsAtMost([2, 8, 1, 5, 2], 17, 0, 0, 5);
    Pin([2, 8, 1, 5, 2], Interval(18, 0, 4, 5));
  }

  lemma BestExample2()
    ensures forall r :: IsBest([5, 100, -150, 5, 20, 100], r) <==> r == Interval(125, 3, 5, 3)
  {
    assert WindowsAtMost([5, 100, -150, 5, 20, 100], 125, 6, 0, 0);
    assert WindowsAtMost([5, 100, -150, 5, 20, 100], 124, 5, 0, 0);
    assert StartsAtMost([5, 100, -150, 5, 20, 100], 124, 0, 3, 6);
    Pin([5, 100, -150, 5, 20, 100], Interval(125, 3, 5, 3));
  }

  lemma BestExample3()
    ensures forall r :: IsBest([1, 10, -15, 3, -10], r) <==> r == Interval(11, 0, 1, 2)
  {
    assert WindowsAtMost([1, 10, -15, 3, -10], 11, 5, 0, 0);
    assert WindowsAtMost([1, 10, -15, 3, -10], 10, 1, 0, 0);
    assert StartsAtMost([1, 10, -15, 3, -10], 10, 0, 0, 2);
    Pin([1, 10, -15, 3, -10], Interval(11, 0, 1, 2));
  }

  lemma BestExample4()
    ensures forall r :: IsBest([-2, -8, -1, -5, -2], r) <==> r == Interval(-1, 2, 2, 1)
  {
    assert WindowsAtMost([-2, -8, -1, -5, -2], -1, 5, 0, 0);
    assert WindowsAtMost([-2, -8, -1, -5, -2], -2, 2, 0, 0);
    assert StartsAtMost([-2, -8, -1, -5, -2], -2, 2, 2, 3);
    Pin([-2, -8, -1, -5, -2], Interval(-1, 2, 2, 1));
  }

  lemma BestExample5()
    ensures forall r :: IsBest([-1, -2, -2, -1, -50], r) <==> r == Interval(-1, 0, 0, 1)
  {
    assert WindowsAtMost([-1, -2, -2, -1, -50], -1, 5, 0, 0);
    assert WindowsAtMost([-1, -2, -2, -1, -50], -2, 0, 0, 0);
    assert StartsAtMost([-1, -2, -2, -1, -50], -2, 0, 0, 1);
    Pin([-1, -2, -2, -1, -50], Interval(-1, 0, 0, 1));
  }

  lemma BestExample6()
    ensures forall r :: IsBest([1, 2, 3, -50, 2, 4, -34, 6], r) <==> r == Interval(6, 0, 2, 3)
  {
    assert WindowsAtMost([1, 2, 3, -50, 2, 4, -34, 6], 6, 8, 0, 0);
    assert WindowsAtMost([1, 2, 3, -50, 2, 4, -34, 6], 5, 2, 0, 0);
    assert StartsAtMost([1, 2, 3, -50, 2, 4, -34, 6], 5, 0, 0, 3);
    Pin([1, 2, 3, -50, 2, 4, -34, 6], Interval(6, 0, 2, 3));
  }

  lemma BestExample7()
    ensures forall r :: IsBest([6, -50, 1, 2, 3, -34, 3, 3], r) <==> r == Interval(6, 0, 0, 1)
  {
    assert WindowsAtMost([6, -50, 1, 2, 3, -34, 3, 3], 6, 8, 0, 0);
    assert WindowsAtMost([6, -50, 1, 2, 3, -34, 3, 3], 5, 0, 0, 0);
    assert StartsAtMost([6, -50, 1, 2, 3, -34, 3, 3], 5, 0, 0, 1);
    Pin([6, -50, 1, 2, 3, -34, 3, 3], Interval(6, 0, 0, 1));
  }

  /** A checked candidate is the only result `IsBest` admits. */
  lemma Pin(a: seq<int>, r: Interval)
    requires CheckBest(a, r)
    ensures forall r' :: IsBest(a, r') <==> r' == r
  {
    CheckBestSound(a, r);
    forall r' | IsBest(a, r') ensures r' == r {
      BestIsUnique(a, r, r');
    }
  }
}
