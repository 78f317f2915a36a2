/**
 * `quickSort` and its Lomuto `partition` from main.c, over the closed index
 * range `[low, high]` that the C code uses; the last cell of the range is
 * the pivot.
 */
module QuickSorting {
  import opened SortSpec
  import opened ArrayUtil

  /**
   * `partition(arr, low, high)`: with `pivot = a[high]`, moves every cell of
   * `[low, high)` that is strictly below the pivot to the front of the range
   * (cursor `i` marks the end of that front part), then exchanges the pivot
   * into the cell after it and returns that cell's index. The range is
   * permuted and nothing outside it changes.
   */
  method Partition(a: array<int>, low: int, high: int) returns (p: int)
    requires 0 <= low <= high < a.Length
    modifies a
    ensures low <= p <= high
    ensures a[p] == old(a[high])
    ensures forall k :: low <= k < p ==> a[k] < a[p]
    ensures forall k :: p < k <= high ==> a[p] <= a[k]
    ensures multiset(a[low..high + 1]) == old(multiset(a[low..high + 1]))
    ensures SameOutside(a[..], old(a[..]), low, high + 1)
  {
    var i := PartitionScan(a, low, high);
    Swap(a, i + 1, high);
    p := i + 1;
    SameOutsidePermutation(a[..], old(a[..]), low, high + 1);
  }

  /**
   * The loop of `partition`: with `pivot = a[high]`, cursor `j` runs over
   * `[low, high)` and every cell below the pivot is exchanged to the front,
   * whose last cell is `i`. Afterwards `[low, i]` holds the cells below the
   * pivot and `(i, high)` the others; the pivot has not moved, the range is
   * permuted and nothing outside it changes.
   */
  method PartitionScan(a: array<int>, low: int, high: int) returns (i: int)
    requires 0 <= low <= high < a.Length
    modifies a
    ensures low - 1 <= i < high
    ensures a[high] == old(a[high])
    ensures forall k :: low <= k <= i ==> a[k] < a[high]
    ensures forall k :: i < k < high ==> a[high] <= a[k]
    ensures SameOutside(a[..], old(a[..]), low, high + 1)
    ensures multiset(a[..]) == old(multiset(a[..]))
  {
    var pivot := a[high];
    i := low - 1;
    var j := low;
    while j < high
      invariant low - 1 <= i < j <= high
      invariant a[high] == pivot
      invariant forall k :: low <= k <= i ==> a[k] < pivot
      invariant forall k :: i < k < j ==> pivot <= a[k]
      invariant forall k :: 0 <= k < a.Length && !(low <= k <= high) ==> a[k] == old(a[k])
      invariant multiset(a[..]) == old(multiset(a[..]))
    {
      if a[j] < pivot {
        i := i + 1;
        Swap(a, i, j);
      }
      j := j + 1;
    }
  }

  /**
   * `quickSort(arr, low, high)`: a range of two or more cells is
   * partitioned, and the two sides of the pivot are sorted recursively. The
   * range ends up sorted as a permutation of its old contents, and nothing
   * outside it changes; a range of fewer than two cells is left alone.
   */
  method QuickSort(a: array<int>, low: int, high: int)
    requires 0 <= low <= high + 1 <= a.Length
    modifies a
    ensures Sorted(a[low..high + 1])
    ensures multiset(a[low..high + 1]) == old(multiset(a[low..high + 1]))
    ensures SameOutside(a[..], old(a[..]), low, high + 1)
    ensures low >= high ==> a[..] == old(a[..])
    decreases high - low
  {
    if low < high {
      ghost var s0 := a[..];
      var pi := Partition(a, low, high);
      ghost var s1 := a[..];
      QuickSort(a, low, pi - 1);
      ghost var s2 := a[..];
      QuickSort(a, pi + 1, high);
      QuickSortStep(s1, s2, a[..], low, pi, high);
      SameOutsideTrans(a[..], s1, s0, low, high + 1);
    }
  }

  /**
   * The reasoning behind one level of `quickSort`: once `s1[low..high]` is
   * partitioned around `s1[p]`, sorting `[low, p)` (state `s1` to `s2`) and
   * then `(p, high]` (to `s3`) sorts the whole range, permutes it, and
   * changes nothing outside it.
   */
  lemma QuickSortStep(s1: seq<int>, s2: seq<int>, s3: seq<int>, low: int, p: int, high: int)
    requires 0 <= low <= p <= high < |s1|
    requires forall k :: low <= k < p ==> s1[k] < s1[p]
    requires forall k :: p < k <= high ==> s1[p] <= s1[k]
    requires SameOutside(s2, s1, low, p) && SameOutside(s3, s2, p + 1, high + 1)
    requires Sorted(s2[low..p]) && multiset(s2[low..p]) == multiset(s1[low..p])
    requires Sorted(s3[p + 1..high + 1]) && multiset(s3[p + 1..high + 1]) == multiset(s2[p + 1..high + 1])
    ensures Sorted(s3[low..high + 1])
    ensures multiset(s3[low..high + 1]) == multiset(s1[low..high + 1])
    ensures SameOutside(s3, s1, low, high + 1)
  {
    PivotSlices(s1, s2, s3, low, p, high);
    var v := s1[p];
    assert AllBelow(s1[low..p], v);
    assert AllAtLeast(s1[p + 1..high + 1], v);
    JoinAroundPivot(s1[low..p], s1[p + 1..high + 1], s2[low..p], s3[p + 1..high + 1], v);
  }

  /**
   * The two recursive calls of one `quickSort` level leave each other's
   * side, and the pivot, alone; each range is its left side, the pivot and
   * its right side laid end to end.
   */
  lemma PivotSlices(s1: seq<int>, s2: seq<int>, s3: seq<int>, low: int, p: int, high: int)
    requires 0 <= low <= p <= high < |s1|
    requires SameOutside(s2, s1, low, p) && SameOutside(s3, s2, p + 1, high + 1)
    ensures s3[low..p] == s2[low..p] && s3[p] == s1[p]
    ensures s2[p + 1..high + 1] == s1[p + 1..high + 1]
    ensures s3[low..high + 1] == s3[low..p] + [s3[p]] + s3[p + 1..high + 1]
    ensures s1[low..high + 1] == s1[low..p] + [s1[p]] + s1[p + 1..high + 1]
    ensures SameOutside(s3, s1, low, high + 1)
  {
    SameOutsideSlice(s3, s2, p + 1, high + 1, low, p);
    SameOutsideSlice(s2, s1, low, p, p + 1, high + 1);
  }

  /**
   * Sorted permutations of the part strictly below pivot `v` and of the part
   * at or above it, joined around `v`, give a sorted permutation of the
   * whole.
   */
  lemma JoinAroundPivot(x0: seq<int>, y0: seq<int>, x: seq<int>, y: seq<int>, v: int)
    requires AllBelow(x0, v) && AllAtLeast(y0, v)
    requires Sorted(x) && multiset(x) == multiset(x0)
    requires Sorted(y) && multiset(y) == multiset(y0)
    ensures Sorted(x + [v] + y)
    ensures multiset(x + [v] + y) == multiset(x0 + [v] + y0)
  {
    forall e | e in x
      ensures e < v
    {
      assert e in multiset(x);
      assert e in x0;
    }
    forall e | e in y
      ensures v <= e
    {
      assert e in multiset(y);
      assert e in y0;
    }
    var r := x + [v] + y;
    forall i, j | 0 <= i < j < |r|
      ensures r[i] <= r[j]
    {
      if j < |x| {
        assert r[i] == x[i] && r[j] == x[j];
      } else if i > |x| {
        assert r[i] == y[i - |x| - 1] && r[j] == y[j - |x| - 1];
      } else {
        if i < |x| {
          assert r[i] == x[i] && x[i] in x;
        }
        if j > |x| {
          assert r[j] == y[j - |x| - 1] && y[j - |x| - 1] in y;
        }
      }
    }
  }
}
