/**
 * The three quadratic routines of main.c: `bubbleSort`, `selectionSort`
 * and `insertionSort`. Each sorts the whole array `a` (the C `n` is
 * `a.Length`) in place.
 */
module SimpleSorts {
  import opened SortSpec
  import opened ArrayUtil

  /**
   * `bubbleSort`: pass `i` bubbles the largest element of `a[0..n-i)` to
   * position `n-i-1`, so the suffix `a[n-i..n)` is sorted and final.
   */
  method BubbleSort(a: array<int>)
    modifies a
    ensures Sorted(a[..])
    ensures multiset(a[..]) == old(multiset(a[..]))
  {
    var n := a.Length;
    var i := 0;
    while i < n - 1
      invariant 0 <= i <= n
      invariant forall x, y :: n - i <= x < y < n ==> a[x] <= a[y]
      invariant forall x, y :: 0 <= x < n - i <= y < n ==> a[x] <= a[y]
      invariant multiset(a[..]) == old(multiset(a[..]))
    {
      var j := 0;
      while j < n - i - 1
        invariant 0 <= j <= n - i - 1
        invariant forall k :: 0 <= k <= j ==> a[k] <= a[j]
        invariant forall x, y :: n - i <= x < y < n ==> a[x] <= a[y]
        invariant forall x, y :: 0 <= x < n - i <= y < n ==> a[x] <= a[y]
        invariant multiset(a[..]) == old(multiset(a[..]))
      {
        if a[j] > a[j + 1] {
          Swap(a, j, j + 1);
        }
        j := j + 1;
      }
      i := i + 1;
    }
  }

  /**
   * `selectionSort`: pass `i` swaps the minimum of `a[i..n)` into position
   * `i`, so `a[0..i)` is sorted and holds the `i` smallest elements.
   */
  method SelectionSort(a: array<int>)
    modifies a
    ensures Sorted(a[..])
    ensures multiset(a[..]) == old(multiset(a[..]))
  {
    var n := a.Length;
    var i := 0;
    while i < n - 1
      invariant 0 <= i <= n
      invariant forall x, y :: 0 <= x < y < i ==> a[x] <= a[y]
      invariant forall x, y :: 0 <= x < i <= y < n ==> a[x] <= a[y]
      invariant multiset(a[..]) == old(multiset(a[..]))
    {
      var minIdx := i;
      var j := i + 1;
      while j < n
        invariant i + 1 <= j <= n
        invariant i <= minIdx < j
        invariant forall k :: i <= k < j ==> a[minIdx] <= a[k]
      {
        if a[j] < a[minIdx] {
          minIdx := j;
        }
        j := j + 1;
      }
      Swap(a, minIdx, i);
      i := i + 1;
    }
  }

  /**
   * `insertionSort`: pass `i` inserts `a[i]` into the sorted prefix
   * `a[0..i)`, so `a[0..i+1)` is sorted.
   */
  method InsertionSort(a: array<int>)
    modifies a
    ensures Sorted(a[..])
    ensures multiset(a[..]) == old(multiset(a[..]))
  {
    var n := a.Length;
    var i := 1;
    while i < n
      invariant n == 0 || (1 <= i <= n && StepwiseSorted(a[..], 0, i))
      invariant multiset(a[..]) == old(multiset(a[..]))
    {
      ghost var before := a[..];
      var gap := InsertKey(a, i);
      InsertionStep(before, i, gap);
      i := i + 1;
    }
    StepwiseIsSorted(a[..], 0, n);
  }

  /**
   * The body of one pass of `insertionSort`: `key = a[i]`; the elements
   * `a[j]` left of it that exceed `key` move one place right, scanning down
   * from `j = i - 1`, and `key` is written into the gap left at `j + 1`.
   * The gap is returned: everything shifted exceeds `key`, and the element
   * just left of the gap, if any, does not.
   */
  method InsertKey(a: array<int>, i: int) returns (gap: int)
    requires 0 <= i < a.Length
    modifies a
    ensures 0 <= gap <= i
    ensures gap > 0 ==> old(a[gap - 1]) <= old(a[i])
    ensures forall k :: gap <= k < i ==> old(a[k]) > old(a[i])
    ensures a[..] == Inserted(old(a[..]), i, gap)
  {
    ghost var before := a[..];
    var key := a[i];
    var j := i - 1;
    while j >= 0 && a[j] > key
      invariant -1 <= j <= i - 1
      invariant forall k :: 0 <= k <= j ==> a[k] == before[k]
      invariant forall k :: j + 1 < k <= i ==> a[k] == before[k - 1]
      invariant forall k :: i < k < a.Length ==> a[k] == before[k]
      invariant forall k :: j + 1 <= k < i ==> before[k] > key
    {
      a[j + 1] := a[j];
      j := j - 1;
    }
    a[j + 1] := key;
    gap := j + 1;
    forall k | 0 <= k < a.Length
      ensures a[k] == Inserted(before, i, gap)[k]
    {
      InsertedAt(before, i, gap, k);
    }
    InsertedAt(before, i, gap, 0);
  }

  /** `s` with `s[i]` moved down to position `p` and `s[p..i)` moved one place right. */
  ghost function Inserted(s: seq<int>, i: int, p: int): (r: seq<int>)
    requires 0 <= p <= i < |s|
    ensures |r| == |s|
  {
    s[..p] + [s[i]] + s[p..i] + s[i + 1..]
  }

  /**
   * Cell by cell, the moved sequence holds `s` below `p`, the moved `s[i]`
   * at `p`, the shifted cells up to `i`, and `s` again above `i`.
   */
  lemma InsertedAt(s: seq<int>, i: int, p: int, k: int)
    requires 0 <= p <= i < |s| && 0 <= k < |s|
    ensures |Inserted(s, i, p)| == |s|
    ensures Inserted(s, i, p)[k] == if k < p then s[k] else if k == p then s[i] else if k <= i then s[k - 1] else s[k]
  {
    var r := Inserted(s, i, p);
    if p < k <= i {
      assert r[k] == s[p..i][k - p - 1];
    } else if i < k {
      assert r[k] == s[i + 1..][k - i - 1];
    }
  }

  /** Moving `s[i]` down to position `p` permutes `s`. */
  lemma InsertedPermutes(s: seq<int>, i: int, p: int)
    requires 0 <= p <= i < |s|
    ensures multiset(Inserted(s, i, p)) == multiset(s)
  {
    assert s == s[..p] + s[p..i] + [s[i]] + s[i + 1..];
  }

  /**
   * One insertion pass, which stops at gap `p` after shifting exactly the
   * elements of the sorted prefix that exceed `key = s[i]`, yields a
   * permutation whose prefix `[0, i]` is sorted.
   */
  lemma InsertionStep(s: seq<int>, i: int, p: int)
    requires 0 <= p <= i < |s|
    requires StepwiseSorted(s, 0, i)
    requires p > 0 ==> s[p - 1] <= s[i]
    requires forall k :: p <= k < i ==> s[k] > s[i]
    ensures multiset(Inserted(s, i, p)) == multiset(s)
    ensures StepwiseSorted(Inserted(s, i, p), 0, i + 1)
  {
    InsertedPermutes(s, i, p);
    InsertedAt(s, i, p, 0);
    var r := Inserted(s, i, p);
    forall k | 0 < k <= i
      ensures r[k - 1] <= r[k]
    {
      InsertedAt(s, i, p, k - 1);
      InsertedAt(s, i, p, k);
      if k == p + 1 {
        assert s[p] > s[i];
      } else if k > p + 1 {
        assert s[k - 2] <= s[k - 1];
      }
    }
  }
}
