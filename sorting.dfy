/** Ascending order on numbers: the `(a, b) => a - b` comparator of the
    median, and the ascending order in which `for...in` visits integer keys. */
module Sorting {

  predicate IsSorted(s: seq<real>)
  {
    forall i, j :: 0 <= i < j < |s| ==> s[i] <= s[j]
  }

  /** Inserts `x` into the sorted sequence `s` before the first larger-or-equal element. */
  function Insert(x: real, s: seq<real>): (r: seq<real>)
    requires IsSorted(s)
    ensures |r| == |s| + 1
    ensures r[0] == if s == [] || x <= s[0] then x else s[0]
    ensures IsSorted(r)
    ensures multiset(r) == multiset(s) + multiset{x}
    decreases |s|
  {
    if s == [] || x <= s[0] then
      ConsSorted(x, s);
      [x] + s
    else
      SortedTail(s);
      var rest := Insert(x, s[1..]);
      ConsSorted(s[0], rest);
      assert s == [s[0]] + s[1..];
      [s[0]] + rest
  }

  lemma SortedTail(s: seq<real>)
    requires IsSorted(s) && s != []
    ensures IsSorted(s[1..])
  {
  }

  /** A value no larger than the head of a sorted sequence can be put in front of it. */
  lemma ConsSorted(y: real, t: seq<real>)
    requires IsSorted(t)
    requires t != [] ==> y <= t[0]
    ensures IsSorted([y] + t)
  {
    var r := [y] + t;
    forall i, j | 0 <= i < j < |r| ensures r[i] <= r[j] {
      if i == 0 {
        assert t[0] <= t[j - 1];
      } else {
        assert r[i] == t[i - 1] && r[j] == t[j - 1];
      }
    }
  }

  /** A sorted copy of `xs`: the same elements, ascending. */
  function SortAscending(xs: seq<real>): (s: seq<real>)
    ensures IsSorted(s)
    ensures multiset(s) == multiset(xs)
    ensures |s| == |xs|
  {
    if xs == [] then []
    else
      assert xs == [xs[0]] + xs[1..];
      var s := Insert(xs[0], SortAscending(xs[1..]));
      assert |s| == |multiset(s)|;
      s
  }

  /** Sorting is determined by its result's contents: two sorted arrangements
      of the same elements are equal, so any correct sort yields the same copy. */
  lemma {:induction false} SortedPermutationUnique(a: seq<real>, b: seq<real>)
    requires IsSorted(a) && IsSorted(b)
    requires multiset(a) == multiset(b)
    ensures a == b
  {
    assert |a| == |multiset(a)| == |multiset(b)| == |b|;
    if a != [] {
      SortedHeadsEqual(a, b);
      TailsSameMultiset(a, b);
      SortedTail(a);
      SortedTail(b);
      SortedPermutationUnique(a[1..], b[1..]);
      forall i | 0 <= i < |a| ensures a[i] == b[i] {
        if i > 0 {
          assert a[i] == a[1..][i - 1] && b[i] == b[1..][i - 1];
        }
      }
    }
  }

  /** Two sorted arrangements of the same elements start with the same element. */
  lemma SortedHeadsEqual(a: seq<real>, b: seq<real>)
    requires IsSorted(a) && IsSorted(b) && a != []
    requires multiset(a) == multiset(b)
    ensures b != [] && a[0] == b[0]
  {
    assert a[0] in multiset(a);
    SortedHeadIsLeast(b, a[0]);
    SortedHeadIsLeast(a, b[0]);
  }

  /** Equal multisets with equal heads have equal tails. */
  lemma TailsSameMultiset(a: seq<real>, b: seq<real>)
    requires a != [] && b != [] && a[0] == b[0]
    requires multiset(a) == multiset(b)
    ensures multiset(a[1..]) == multiset(b[1..])
  {
    assert a == [a[0]] + a[1..];
    assert b == [b[0]] + b[1..];
    assert multiset(a[1..]) == multiset(a) - multiset{a[0]};
    assert multiset(b[1..]) == multiset(b) - multiset{b[0]};
  }

  /** Removing the element at `j` removes one occurrence of it. */
  lemma MultisetRemoveAt(s: seq<real>, j: nat)
    requires j < |s|
    ensures multiset(s[..j] + s[j + 1..]) == multiset(s) - multiset{s[j]}
  {
    assert s == s[..j] + [s[j]] + s[j + 1..];
  }

  lemma SortedHeadIsLeast(s: seq<real>, x: real)
    requires IsSorted(s) && x in multiset(s)
    ensures s != [] && s[0] <= x
  {
    var i :| 0 <= i < |s| && s[i] == x;
  }

  /** The number of elements of `xs` satisfying `p`. */
  function Count(xs: seq<real>, p: real -> bool): (n: nat)
    ensures n <= |xs|
  {
    if xs == [] then 0 else (if p(xs[0]) then 1 else 0) + Count(xs[1..], p)
  }

  lemma {:induction false} CountConcat(a: seq<real>, b: seq<real>, p: real -> bool)
    ensures Count(a + b, p) == Count(a, p) + Count(b, p)
  {
    if a == [] {
      assert a + b == b;
    } else {
      assert (a + b)[1..] == a[1..] + b;
      CountConcat(a[1..], b, p);
    }
  }

  /** Counting does not depend on the order of the elements. */
  lemma {:induction false} CountPermutation(a: seq<real>, b: seq<real>, p: real -> bool)
    requires multiset(a) == multiset(b)
    ensures Count(a, p) == Count(b, p)
  {
    if a == [] {
      assert |b| == |multiset(b)| == 0;
    } else {
      assert a[0] in multiset(b);
      var j :| 0 <= j < |b| && b[j] == a[0];
      var rest := b[..j] + b[j + 1..];
      RemoveSameElement(a, b, j);
      CountPermutation(a[1..], rest, p);
      CountRemoveAt(b, j, p);
    }
  }

  /** Removing the same element from two arrangements of the same elements
      leaves two arrangements of the same elements. */
  lemma RemoveSameElement(a: seq<real>, b: seq<real>, j: nat)
    requires multiset(a) == multiset(b) && a != [] && j < |b| && b[j] == a[0]
    ensures multiset(a[1..]) == multiset(b[..j] + b[j + 1..])
  {
    MultisetRemoveAt(a, 0);
    MultisetRemoveAt(b, j);
    assert a[..0] + a[1..] == a[1..];
  }

  /** Removing the element at `j` lowers the count by one exactly when that
      element satisfies `p`. */
  lemma {:induction false} CountRemoveAt(b: seq<real>, j: nat, p: real -> bool)
    requires j < |b|
    ensures Count(b, p) == Count(b[..j] + b[j + 1..], p) + (if p(b[j]) then 1 else 0)
  {
    var rest := b[..j] + b[j + 1..];
    if j == 0 {
      assert rest == b[1..];
    } else {
      CountRemoveAt(b[1..], j - 1, p);
      assert rest[0] == b[0];
      assert rest[1..] == b[1..][..j - 1] + b[1..][j..];
    }
  }

  /** A block of `hi - lo` consecutive elements all satisfying `p` contributes
      at least that many to the count. */
  lemma CountBlock(xs: seq<real>, lo: nat, hi: nat, p: real -> bool)
    requires lo <= hi <= |xs|
    requires forall i :: lo <= i < hi ==> p(xs[i])
    ensures Count(xs, p) >= hi - lo
  {
    assert xs == xs[..lo] + xs[lo..hi] + xs[hi..];
    CountConcat(xs[..lo] + xs[lo..hi], xs[hi..], p);
    CountConcat(xs[..lo], xs[lo..hi], p);
    CountAll(xs[lo..hi], p);
  }

  lemma {:induction false} CountAll(xs: seq<real>, p: real -> bool)
    requires forall i :: 0 <= i < |xs| ==> p(xs[i])
    ensures Count(xs, p) == |xs|
  {
    if xs != [] {
      CountAll(xs[1..], p);
    }
  }
}
