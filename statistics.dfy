/** `calculateMean` and `calculateMedian` over the values of one field of a group. */
module Statistics {
  import opened Records
  import opened Sorting

  /** The reduce `acc += +entry[type]` from 0: a left fold of addition. */
  function Sum(xs: seq<real>): real
  {
    if xs == [] then 0.0 else Sum(xs[..|xs| - 1]) + xs[|xs| - 1]
  }

  /** The unrounded mean: the number that, taken |xs| times, gives the sum. */
  function ExactMean(xs: seq<real>): (m: real)
    requires xs != []
    ensures m * |xs| as real == Sum(xs)
  {
    Sum(xs) / |xs| as real
  }

  /** `calculateMean`: NaN (0 / 0) on an empty group, otherwise the rounded mean. */
  function CalculateMean(xs: seq<real>): (r: Outcome)
    ensures r.NaN? <==> xs == []
    ensures r.Num? ==> r.value == RoundToThree(ExactMean(xs))
  {
    if xs == [] then NaN else Num(RoundToThree(ExactMean(xs)))
  }

  lemma {:induction false} SumBounds(xs: seq<real>, lo: real, hi: real)
    requires forall i :: 0 <= i < |xs| ==> lo <= xs[i] <= hi
    ensures |xs| as real * lo <= Sum(xs) <= |xs| as real * hi
  {
    if xs != [] {
      var n := |xs| - 1;
      SumBounds(xs[..n], lo, hi);
      assert |xs| as real * lo == n as real * lo + lo;
      assert |xs| as real * hi == n as real * hi + hi;
    }
  }

  /** The mean of values that all lie in [lo, hi] lies in [lo, hi]; the
      reported (rounded) mean lies within half a thousandth of that range. */
  lemma MeanWithinBounds(xs: seq<real>, lo: real, hi: real)
    requires xs != []
    requires forall i :: 0 <= i < |xs| ==> lo <= xs[i] <= hi
    ensures lo <= ExactMean(xs) <= hi
    ensures lo - 1.0 / 2000.0 < CalculateMean(xs).value <= hi + 1.0 / 2000.0
  {
    var n := |xs| as real;
    var m := ExactMean(xs);
    SumBounds(xs, lo, hi);
    assert n * lo <= m * n <= n * hi;
  }

  /** The middle of a sorted copy: the element at n/2 for odd n, the average
      of the elements at n/2 - 1 and n/2 for even n. */
  function ExactMedian(xs: seq<real>): real
    requires xs != []
  {
    var s := SortAscending(xs);
    var mid := |s| / 2;
    if |s| % 2 == 0 then (s[mid - 1] + s[mid]) / 2.0 else s[mid]
  }

  /** `calculateMedian`: on an empty group it reads a field of
      `sortedData[-1]`, which is undefined, and throws; otherwise it rounds
      the middle of the sorted copy. The input itself is a value and is not
      reordered. */
  function CalculateMedian(xs: seq<real>): (r: Outcome)
    ensures r.TypeError? <==> xs == []
    ensures r.Num? ==> r.value == RoundToThree(ExactMedian(xs))
  {
    if xs == [] then TypeError else Num(RoundToThree(ExactMedian(xs)))
  }

  /** The median does not depend on which sorting algorithm produced the
      sorted copy: any ascending arrangement of the group's values has the
      same middle. */
  lemma MedianOfAnySortedCopy(xs: seq<real>, s: seq<real>)
    requires xs != []
    requires IsSorted(s) && multiset(s) == multiset(xs)
    ensures |s| == |xs|
    ensures |s| % 2 == 1 ==> ExactMedian(xs) == s[|s| / 2]
    ensures |s| % 2 == 0 ==> ExactMedian(xs) == (s[|s| / 2 - 1] + s[|s| / 2]) / 2.0
  {
    assert |s| == |multiset(s)|;
    SortedPermutationUnique(s, SortAscending(xs));
  }

  /** The predicates "at most m" and "at least m", as values to count with. */
  function AtMost(m: real): real -> bool
  {
    y => y <= m
  }

  function AtLeast(m: real): real -> bool
  {
    y => y >= m
  }

  /** In a sorted sequence, everything up to position `low` is at most `m`
      when the element before `low` is, and everything from `mid` on is at
      least `m` when the element at `mid` is. */
  lemma SortedSplitCounts(s: seq<real>, m: real, low: nat, mid: nat)
    requires IsSorted(s) && low <= |s| && mid < |s|
    requires low > 0 ==> s[low - 1] <= m
    requires s[mid] >= m
    ensures Count(s, AtMost(m)) >= low
    ensures Count(s, AtLeast(m)) >= |s| - mid
  {
    forall i | 0 <= i < low ensures AtMost(m)(s[i]) {
      assert s[i] <= s[low - 1];
    }
    forall i | mid <= i < |s| ensures AtLeast(m)(s[i]) {
      assert s[mid] <= s[i];
    }
    CountBlock(s, 0, low, AtMost(m));
    CountBlock(s, mid, |s|, AtLeast(m));
  }

  /** The median splits the group: at least half of the values (rounded up)
      are at most the median, and at least half are at least the median. */
  lemma MedianSplitsGroup(xs: seq<real>)
    requires xs != []
    ensures Count(xs, AtMost(ExactMedian(xs))) >= (|xs| + 1) / 2
    ensures Count(xs, AtLeast(ExactMedian(xs))) >= (|xs| + 1) / 2
  {
    var m := ExactMedian(xs);
    var s := SortAscending(xs);
    var n := |s|;
    var mid := n / 2;
    if n % 2 == 1 {
      assert m == s[mid];
      SortedSplitCounts(s, m, mid + 1, mid);
    } else {
      assert m == (s[mid - 1] + s[mid]) / 2.0;
      assert s[mid - 1] <= s[mid];
      SortedSplitCounts(s, m, mid, mid);
    }
    CountPermutation(s, xs, AtMost(m));
    CountPermutation(s, xs, AtLeast(m));
  }

  /** The median of values in [lo, hi] lies in [lo, hi]. */
  lemma MedianWithinBounds(xs: seq<real>, lo: real, hi: real)
    requires xs != []
    requires forall i :: 0 <= i < |xs| ==> lo <= xs[i] <= hi
    ensures lo <= ExactMedian(xs) <= hi
  {
    var s := SortAscending(xs);
    forall i | 0 <= i < |s| ensures lo <= s[i] <= hi {
      assert s[i] in multiset(xs);
    }
  }
}
