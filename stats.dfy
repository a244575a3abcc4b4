/** The order statistics the cleaner borrows from numpy: sorting and
    `np.median` over real numbers. */
module Stats {

  function Abs(r: real): (a: real)
    ensures a >= 0.0
    ensures a == r || a == -r
  {
    if r < 0.0 then -r else r
  }

  predicate Sorted(s: seq<real>) {
    forall i, j :: 0 <= i < j < |s| ==> s[i] <= s[j]
  }

  /** Inserts `x` into the sorted sequence `s`, keeping it sorted. */
  function InsertSorted(x: real, s: seq<real>): (r: seq<real>)
    requires Sorted(s)
    ensures |r| == |s| + 1
    ensures multiset(r) == multiset(s) + multiset{x}
    ensures r[0] == if s == [] || x <= s[0] then x else s[0]
    ensures Sorted(r)
  {
    if s == [] || x <= s[0] then
      PrependSorted(x, s);
      [x] + s
    else
      SortedTail(s);
      var rest := InsertSorted(x, s[1..]);
      assert s == [s[0]] + s[1..];
      PrependSorted(s[0], rest);
      [s[0]] + rest
  }

  /** An element no larger than the head of a sorted sequence can go in
      front of it. */
  lemma PrependSorted(x: real, s: seq<real>)
    requires Sorted(s) && (s == [] || x <= s[0])
    ensures Sorted([x] + s)
  {
  }

  /** The ascending rearrangement of `s` (insertion sort). */
  function Sort(s: seq<real>): (r: seq<real>)
    ensures |r| == |s|
    ensures multiset(r) == multiset(s)
    ensures Sorted(r)
  {
    if s == [] then
      []
    else
      assert s == [s[0]] + s[1..];
      InsertSorted(s[0], Sort(s[1..]))
  }

  /** Dropping the first element keeps a sequence sorted. */
  lemma SortedTail(a: seq<real>)
    requires Sorted(a) && |a| > 0
    ensures Sorted(a[1..])
  {
    forall i, j | 0 <= i < j < |a| - 1 ensures a[1..][i] <= a[1..][j] {
      assert a[1..][i] == a[i + 1] && a[1..][j] == a[j + 1];
    }
  }

  /** The first element of a sorted sequence is at most every element. */
  lemma SortedHeadIsLeast(a: seq<real>, x: real)
    requires Sorted(a) && x in multiset(a)
    ensures a[0] <= x
  {
    var j :| 0 <= j < |a| && a[j] == x;
  }

  /** Removing the first element removes one occurrence of it. */
  lemma MultisetTail(a: seq<real>)
    requires |a| > 0
    ensures multiset(a[1..]) == multiset(a) - multiset{a[0]}
  {
    assert a == [a[0]] + a[1..];
  }

  /** Sequences agreeing on their first element and on the rest are equal. */
  lemma HeadTailEqual(a: seq<real>, b: seq<real>)
    requires |a| > 0 && |b| > 0 && a[0] == b[0] && a[1..] == b[1..]
    ensures a == b
  {
    assert a == [a[0]] + a[1..];
    assert b == [b[0]] + b[1..];
  }

  /** Two sorted sequences with the same elements are equal, so a sorted
      rearrangement is unique. */
  lemma {:induction false} SortedUnique(a: seq<real>, b: seq<real>)
    requires Sorted(a) && Sorted(b)
    requires multiset(a) == multiset(b)
    ensures a == b
    decreases |a|
  {
    assert |b| == |multiset(b)| == |multiset(a)| == |a|;
    if a != [] {
      assert b[0] in multiset(a);
      SortedHeadIsLeast(a, b[0]);
      assert a[0] in multiset(b);
      SortedHeadIsLeast(b, a[0]);
      MultisetTail(a);
      MultisetTail(b);
      assert multiset(a[1..]) == multiset(b[1..]);
      SortedTail(a);
      SortedTail(b);
      SortedUnique(a[1..], b[1..]);
      HeadTailEqual(a, b);
    }
  }

  /** `np.median`: the middle element of the sorted values, or the mean of
      the two middle elements when the length is even. */
  function Median(s: seq<real>): (m: real)
    requires |s| > 0
    ensures exists i :: 0 <= i < |s| && s[i] <= m
    ensures exists j :: 0 <= j < |s| && m <= s[j]
  {
    var t := Sort(s);
    var h := |t| / 2;
    assert t[0] in multiset(s) && t[|t| - 1] in multiset(s);
    if |t| % 2 == 1 then t[h] else (t[h - 1] + t[h]) / 2.0
  }

  /** The median of a sequence with no negative element is not negative. */
  lemma MedianNonNegative(s: seq<real>)
    requires |s| > 0
    requires forall i :: 0 <= i < |s| ==> s[i] >= 0.0
    ensures Median(s) >= 0.0
  {
  }

  /** The median of a constant sequence is that constant. */
  lemma MedianOfConstant(s: seq<real>, c: real)
    requires |s| > 0
    requires forall i :: 0 <= i < |s| ==> s[i] == c
    ensures Median(s) == c
  {
  }

  /** The median depends only on the multiset of values, not their order. */
  lemma {:induction false} MedianOfPermutation(a: seq<real>, b: seq<real>)
    requires |a| > 0
    requires multiset(a) == multiset(b)
    ensures |b| == |a|
    ensures Median(a) == Median(b)
  {
    assert |b| == |multiset(b)| == |multiset(a)| == |a|;
    SortedUnique(Sort(a), Sort(b));
  }

  /** A sorted sequence is its own sorted rearrangement. */
  lemma {:induction false} SortOfSorted(s: seq<real>)
    requires Sorted(s)
    ensures Sort(s) == s
  {
    SortedUnique(Sort(s), s);
  }

  /** An odd number of values has as median the middle element `m` of any
      ascending rearrangement of them. */
  lemma MedianOfOddRearranged(d: seq<real>, t: seq<real>, m: real)
    requires Sorted(t) && multiset(d) == multiset(t)
    requires |t| % 2 == 1 && t[|t| / 2] == m
    ensures Median(d) == m
  {
    assert |d| == |multiset(d)| == |multiset(t)| == |t|;
    MedianOfPermutation(t, d);
    SortOfSorted(t);
  }

  /** Moving a block to the back does not change the elements. */
  lemma MultisetMoveBack(p: seq<real>, q: seq<real>, r: seq<real>)
    ensures multiset(p + q + r) == multiset(p + r + q)
  {
    calc {
      multiset(p + q + r);
      multiset(p) + multiset(q) + multiset(r);
      multiset(p) + multiset(r) + multiset(q);
      multiset(p + r + q);
    }
  }
}
