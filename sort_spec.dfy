/**
 * What every sorting routine of the benchmark promises: the addressed range
 * ends up in non-decreasing order and holds the same multiset of values.
 */
module SortSpec {

  /** `s` is in non-decreasing order. */
  ghost predicate Sorted(s: seq<int>) {
    forall i, j :: 0 <= i < j < |s| ==> s[i] <= s[j]
  }

  /** The slice `s[lo..hi)` is in non-decreasing order. */
  ghost predicate SortedBetween(s: seq<int>, lo: int, hi: int)
    requires 0 <= lo && hi <= |s|
  {
    forall i, j :: lo <= i < j < hi ==> s[i] <= s[j]
  }

  /** Each element of `s[lo..hi)` is at least its left neighbour. */
  ghost predicate StepwiseSorted(s: seq<int>, lo: int, hi: int)
    requires 0 <= lo && hi <= |s|
  {
    forall k :: lo < k < hi ==> s[k - 1] <= s[k]
  }

  /** Neighbour-by-neighbour order is order: `s[lo..hi)` is sorted when each element is at least the one before it. */
  lemma {:induction false} StepwiseIsSorted(s: seq<int>, lo: int, hi: int)
    requires 0 <= lo && hi <= |s|
    requires StepwiseSorted(s, lo, hi)
    ensures SortedBetween(s, lo, hi)
    decreases hi - lo
  {
    if lo + 1 < hi {
      StepwiseIsSorted(s, lo + 1, hi);
      forall j | lo < j < hi
        ensures s[lo] <= s[j]
      {
        assert s[lo] <= s[lo + 1];
      }
    }
  }

  /** Every value in `s` is strictly below `v`. */
  ghost predicate AllBelow(s: seq<int>, v: int) {
    forall x :: x in s ==> x < v
  }

  /** Every value in `s` is at least `v`. */
  ghost predicate AllAtLeast(s: seq<int>, v: int) {
    forall x :: x in s ==> v <= x
  }

  /**
   * A non-decreasing permutation is unique: whichever of the seven routines
   * sorts an array, the result is the same sequence. In particular, sorting
   * an already sorted array leaves it as it was.
   */
  lemma {:induction false} SortedPermutationUnique(s: seq<int>, t: seq<int>)
    requires Sorted(s) && Sorted(t)
    requires multiset(s) == multiset(t)
    ensures s == t
    decreases |s|
  {
    assert |s| == |multiset(s)| == |multiset(t)| == |t|;
    if s != [] {
      SortedHeadsAgree(s, t);
      SortedTail(s);
      SortedTail(t);
      SortedPermutationUnique(s[1..], t[1..]);
    }
  }

  /** A non-empty sorted sequence is its head followed by a sorted tail holding the remaining values. */
  lemma SortedTail(s: seq<int>)
    requires Sorted(s) && s != []
    ensures Sorted(s[1..])
    ensures s == [s[0]] + s[1..]
    ensures multiset(s[1..]) == multiset(s) - multiset{s[0]}
  {
    assert s == [s[0]] + s[1..];
  }

  /** Two non-empty sorted permutations of each other start with the same value, their minimum. */
  lemma SortedHeadsAgree(s: seq<int>, t: seq<int>)
    requires Sorted(s) && Sorted(t) && |s| > 0 && |t| > 0
    requires multiset(s) == multiset(t)
    ensures s[0] == t[0]
  {
    assert s[0] in multiset(t) && t[0] in multiset(s);
    var i :| 0 <= i < |t| && t[i] == s[0];
    var j :| 0 <= j < |s| && s[j] == t[0];
    assert t[0] <= t[i] && s[0] <= s[j];
  }

  /** A sequence holds the values of its three slices around `[lo, hi)`. */
  lemma ThreeSlices(s: seq<int>, lo: int, hi: int)
    requires 0 <= lo <= hi <= |s|
    ensures multiset(s) == multiset(s[..lo]) + multiset(s[lo..hi]) + multiset(s[hi..])
  {
    assert s == s[..lo] + s[lo..hi] + s[hi..];
  }

  /**
   * Permuting a whole sequence while leaving everything outside
   * `[lo, hi)` in place permutes the range `[lo, hi)` itself.
   */
  lemma RangePermutation(s: seq<int>, t: seq<int>, lo: int, hi: int)
    requires 0 <= lo <= hi <= |s| == |t|
    requires s[..lo] == t[..lo] && s[hi..] == t[hi..]
    requires multiset(s) == multiset(t)
    ensures multiset(s[lo..hi]) == multiset(t[lo..hi])
  {
    ThreeSlices(s, lo, hi);
    ThreeSlices(t, lo, hi);
    forall x
      ensures multiset(s[lo..hi])[x] == multiset(t[lo..hi])[x]
    {
      assert multiset(s)[x] == multiset(s[..lo])[x] + multiset(s[lo..hi])[x] + multiset(s[hi..])[x];
      assert multiset(t)[x] == multiset(t[..lo])[x] + multiset(t[lo..hi])[x] + multiset(t[hi..])[x];
    }
  }

  /** `s` and `t` have the same length and agree everywhere outside `[lo, hi)`. */
  ghost predicate SameOutside(s: seq<int>, t: seq<int>, lo: int, hi: int) {
    |s| == |t| && forall k :: 0 <= k < |s| && !(lo <= k < hi) ==> s[k] == t[k]
  }

  /** A slice that lies outside `[lo, hi)` is the same in two sequences that agree outside it. */
  lemma SameOutsideSlice(s: seq<int>, t: seq<int>, lo: int, hi: int, x: int, y: int)
    requires SameOutside(s, t, lo, hi)
    requires 0 <= x <= y <= |s|
    requires y <= lo || hi <= x
    ensures s[x..y] == t[x..y]
  {
    assert forall k :: 0 <= k < y - x ==> s[x..y][k] == s[x + k] && t[x..y][k] == t[x + k];
  }

  /** A permutation of a whole sequence that changes nothing outside `[lo, hi)` permutes that range. */
  lemma SameOutsidePermutation(s: seq<int>, t: seq<int>, lo: int, hi: int)
    requires 0 <= lo <= hi <= |s|
    requires SameOutside(s, t, lo, hi) && multiset(s) == multiset(t)
    ensures multiset(s[lo..hi]) == multiset(t[lo..hi])
  {
    SameOutsideSlice(s, t, lo, hi, 0, lo);
    SameOutsideSlice(s, t, lo, hi, hi, |s|);
    RangePermutation(s, t, lo, hi);
  }

  /** Agreeing outside `[lo, hi)` is transitive. */
  lemma SameOutsideTrans(s: seq<int>, t: seq<int>, u: seq<int>, lo: int, hi: int)
    requires SameOutside(s, t, lo, hi) && SameOutside(t, u, lo, hi)
    ensures SameOutside(s, u, lo, hi)
  {
  }
}
