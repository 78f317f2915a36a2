/**
 * `mergeSort` and its two-buffer `merge` from main.c, over the closed
 * index range `[left, right]` that the C code uses.
 */
module MergeSorting {
  import opened SortSpec

  /**
   * The merge of two runs as main.c's `merge` performs it: the smaller head
   * goes first and, on a tie, the head of the left run `l` is taken.
   */
  function MergeRuns(l: seq<int>, r: seq<int>): (m: seq<int>)
    ensures |m| == |l| + |r|
    decreases |l| + |r|
  {
    if l == [] then r
    else if r == [] then l
    else if l[0] <= r[0] then [l[0]] + MergeRuns(l[1..], r)
    else [r[0]] + MergeRuns(l, r[1..])
  }

  /** The merge holds exactly the elements of both runs. */
  lemma {:induction false} MergeRunsPermutes(l: seq<int>, r: seq<int>)
    ensures multiset(MergeRuns(l, r)) == multiset(l) + multiset(r)
    decreases |l| + |r|
  {
    if l != [] && r != [] {
      if l[0] <= r[0] {
        MergeRunsPermutes(l[1..], r);
        assert MergeRuns(l, r) == [l[0]] + MergeRuns(l[1..], r);
        assert l == [l[0]] + l[1..];
      } else {
        MergeRunsPermutes(l, r[1..]);
        assert MergeRuns(l, r) == [r[0]] + MergeRuns(l, r[1..]);
        assert r == [r[0]] + r[1..];
      }
    }
  }

  /** Merging two sorted runs gives a sorted run. */
  lemma {:induction false} MergeRunsSorted(l: seq<int>, r: seq<int>)
    requires Sorted(l) && Sorted(r)
    ensures Sorted(MergeRuns(l, r))
    decreases |l| + |r|
  {
    if l != [] && r != [] {
      HeadBound(l);
      HeadBound(r);
      if l[0] <= r[0] {
        MergeRunsSorted(l[1..], r);
        MergeBound(l[0], l[1..], r);
        SortedCons(l[0], MergeRuns(l[1..], r));
      } else {
        MergeRunsSorted(l, r[1..]);
        MergeBound(r[0], l, r[1..]);
        SortedCons(r[0], MergeRuns(l, r[1..]));
      }
    }
  }

  /** The head of a non-empty sorted run is at most each of its elements. */
  lemma HeadBound(s: seq<int>)
    requires Sorted(s) && s != []
    ensures Sorted(s[1..])
    ensures forall y :: y in s ==> s[0] <= y
    ensures forall y :: y in s[1..] ==> s[0] <= y
  {
  }

  /** A lower bound of both runs is a lower bound of their merge. */
  lemma MergeBound(x: int, l: seq<int>, r: seq<int>)
    requires forall y :: y in l ==> x <= y
    requires forall y :: y in r ==> x <= y
    ensures forall y :: y in MergeRuns(l, r) ==> x <= y
  {
    MergeRunsPermutes(l, r);
    forall y | y in MergeRuns(l, r)
      ensures x <= y
    {
      assert y in multiset(MergeRuns(l, r));
      if y in multiset(l) {
        assert y in l;
      } else {
        assert y in multiset(r);
        assert y in r;
      }
    }
  }

  /** A value no larger than anything in a sorted run may be put in front of it. */
  lemma SortedCons(x: int, s: seq<int>)
    requires Sorted(s)
    requires forall y :: y in s ==> x <= y
    ensures Sorted([x] + s)
  {
    forall i, j | 0 <= i < j < |[x] + s|
      ensures ([x] + s)[i] <= ([x] + s)[j]
    {
      assert ([x] + s)[j] == s[j - 1] && s[j - 1] in s;
      if i > 0 {
        assert ([x] + s)[i] == s[i - 1];
      }
    }
  }

  /**
   * The step `merge` takes when the head `ls[i]` of what is left of the left
   * run wins (it wins ties, and wins outright once the right run is used up):
   * if the rest of the merge is the suffix `m[p..]`, then `m[p]` is `ls[i]`
   * and the merge of what remains is `m[p+1..]`.
   */
  lemma TakeLeft(ls: seq<int>, rs: seq<int>, i: int, j: int, m: seq<int>, p: int)
    requires 0 <= i < |ls| && 0 <= j <= |rs| && 0 <= p <= |m|
    requires j == |rs| || ls[i] <= rs[j]
    requires MergeRuns(ls[i..], rs[j..]) == m[p..]
    ensures p < |m| && m[p] == ls[i]
    ensures MergeRuns(ls[i + 1..], rs[j..]) == m[p + 1..]
  {
    assert ls[i..] == [ls[i]] + ls[i + 1..];
    assert m[p..][0] == m[p] && m[p..][1..] == m[p + 1..];
  }

  /**
   * The step `merge` takes when the head `rs[j]` of what is left of the right
   * run is strictly smaller, or the left run is used up.
   */
  lemma TakeRight(ls: seq<int>, rs: seq<int>, i: int, j: int, m: seq<int>, p: int)
    requires 0 <= i <= |ls| && 0 <= j < |rs| && 0 <= p <= |m|
    requires i == |ls| || rs[j] < ls[i]
    requires MergeRuns(ls[i..], rs[j..]) == m[p..]
    ensures p < |m| && m[p] == rs[j]
    ensures MergeRuns(ls[i..], rs[j + 1..]) == m[p + 1..]
  {
    assert rs[j..] == [rs[j]] + rs[j + 1..];
    assert m[p..][0] == m[p] && m[p..][1..] == m[p + 1..];
  }

  /**
   * `merge(arr, left, mid, right)`: copies the runs `a[left..mid]` and
   * `a[mid+1..right]` into scratch buffers `L` and `R`, then writes their
   * merge back into `a[left..right]`. Nothing outside `[left, right]`
   * changes.
   */
  method Merge(a: array<int>, left: int, mid: int, right: int)
    requires 0 <= left <= mid + 1 <= right + 1 <= a.Length
    modifies a
    ensures a[left..right + 1] == MergeRuns(old(a[left..mid + 1]), old(a[mid + 1..right + 1]))
    ensures SameOutside(a[..], old(a[..]), left, right + 1)
  {
    var n1 := mid - left + 1;
    var n2 := right - mid;
    var L := new int[n1];
    var R := new int[n2];
    for i := 0 to n1
      modifies L
      invariant L[..i] == a[left..left + i]
    {
      L[i] := a[left + i];
    }
    assert L[..] == L[..n1];
    for j := 0 to n2
      modifies R
      invariant R[..j] == a[mid + 1..mid + 1 + j]
    {
      R[j] := a[mid + 1 + j];
    }
    assert R[..] == R[..n2];
    assert L[..] == old(a[left..mid + 1]) && R[..] == old(a[mid + 1..right + 1]);
    MergeBack(a, L, R, left);
  }

  /**
   * The second half of `merge`: the cursors `i` into `L`, `j` into `R` and
   * `k` into `a` advance together, the smaller head (the left one on a tie)
   * being written to `a[k]`; once one buffer is used up, the rest of the
   * other is copied.
   */
  method MergeBack(a: array<int>, L: array<int>, R: array<int>, left: int)
    requires L != a && R != a
    requires 0 <= left && left + L.Length + R.Length <= a.Length
    modifies a
    ensures a[left..left + L.Length + R.Length] == MergeRuns(L[..], R[..])
    ensures SameOutside(a[..], old(a[..]), left, left + L.Length + R.Length)
  {
    ghost var ls, rs := L[..], R[..];
    ghost var merged := MergeRuns(ls, rs);
    var n1, n2 := L.Length, R.Length;
    var i, j, k := 0, 0, left;
    assert ls[0..] == ls && rs[0..] == rs && merged[0..] == merged;
    while i < n1 && j < n2
      invariant 0 <= i <= n1 && 0 <= j <= n2 && k == left + i + j
      invariant WrittenUpTo(a[..], old(a[..]), merged, left, k)
      invariant MergeRuns(ls[i..], rs[j..]) == merged[k - left..]
    {
      i, j := MergeStep(a, L, R, left, i, j, k, merged, old(a[..]));
      k := k + 1;
    }
    k := MergeTail(a, L, R, left, i, j, k, merged);
    WrittenRange(a[..], old(a[..]), merged, left, left + n1 + n2);
  }

  /** `s` holds `m` on `[lo, k)` and agrees with `t` everywhere else. */
  ghost predicate WrittenUpTo(s: seq<int>, t: seq<int>, m: seq<int>, lo: int, k: int)
  {
    |s| == |t| && 0 <= lo <= k <= lo + |m| && forall p :: 0 <= p < |s| ==> s[p] == if lo <= p < k then m[p - lo] else t[p]
  }

  /**
   * One pass of the first loop of `merge`: the smaller of the heads `L[i]`
   * and `R[j]` (the left one on a tie) is written to `a[k]`, which is the
   * next element of the merge, and its cursor advances.
   */
  method MergeStep(a: array<int>, L: array<int>, R: array<int>, left: int, i: int, j: int, k: int, ghost merged: seq<int>, ghost orig: seq<int>)
      returns (i': int, j': int)
    requires L != a && R != a
    requires 0 <= i < L.Length && 0 <= j < R.Length && 0 <= left <= k < a.Length && k - left <= |merged|
    requires MergeRuns(L[i..], R[j..]) == merged[k - left..]
    requires WrittenUpTo(a[..], orig, merged, left, k)
    modifies a
    ensures i' + j' == i + j + 1 && i <= i' <= L.Length && j <= j' <= R.Length
    ensures k - left < |merged| && a[..] == old(a[..])[k := merged[k - left]]
    ensures WrittenUpTo(a[..], orig, merged, left, k + 1)
    ensures MergeRuns(L[i'..], R[j'..]) == merged[k - left + 1..]
  {
    if L[i] <= R[j] {
      TakeLeft(L[..], R[..], i, j, merged, k - left);
      a[k] := L[i];
      i', j' := i + 1, j;
    } else {
      TakeRight(L[..], R[..], i, j, merged, k - left);
      a[k] := R[j];
      i', j' := i, j + 1;
    }
  }

  /** A sequence that holds `m` on `[lo, hi)` and agrees with `t` elsewhere. */
  lemma WrittenRange(s: seq<int>, t: seq<int>, m: seq<int>, lo: int, hi: int)
    requires 0 <= lo <= hi <= |s| == |t| && |m| == hi - lo
    requires forall p :: 0 <= p < |s| ==> s[p] == if lo <= p < hi then m[p - lo] else t[p]
    ensures s[lo..hi] == m
    ensures SameOutside(s, t, lo, hi)
  {
    assert forall p :: 0 <= p < hi - lo ==> s[lo..hi][p] == s[lo + p];
  }

  /**
   * The last two loops of `merge`: once one buffer is used up, what is left
   * of `L` and then of `R` is copied to `a[k..]`. Returns the final cursor.
   */
  method MergeTail(a: array<int>, L: array<int>, R: array<int>, left: int, i0: int, j0: int, k0: int, ghost merged: seq<int>)
      returns (k: int)
    requires L != a && R != a
    requires 0 <= left && left + L.Length + R.Length <= a.Length
    requires 0 <= i0 <= L.Length && 0 <= j0 <= R.Length && (i0 == L.Length || j0 == R.Length)
    requires k0 == left + i0 + j0 && |merged| == L.Length + R.Length
    requires MergeRuns(L[i0..], R[j0..]) == merged[k0 - left..]
    modifies a
    ensures k == left + L.Length + R.Length
    ensures forall p :: 0 <= p < a.Length ==> a[p] == if k0 <= p < k then merged[p - left] else old(a[p])
  {
    ghost var ls, rs := L[..], R[..];
    var n1, n2 := L.Length, R.Length;
    var i, j := i0, j0;
    k := k0;
    while i < n1
      invariant i0 <= i <= n1 && j == j0 && k == left + i + j
      invariant i < n1 ==> j == n2
      invariant forall p :: 0 <= p < a.Length ==> a[p] == if k0 <= p < k then merged[p - left] else old(a[p])
      invariant MergeRuns(ls[i..], rs[j..]) == merged[k - left..]
    {
      TakeLeft(ls, rs, i, j, merged, k - left);
      a[k] := L[i];
      i := i + 1;
      k := k + 1;
    }
    while j < n2
      invariant i == n1 && j0 <= j <= n2 && k == left + i + j
      invariant forall p :: 0 <= p < a.Length ==> a[p] == if k0 <= p < k then merged[p - left] else old(a[p])
      invariant MergeRuns(ls[i..], rs[j..]) == merged[k - left..]
    {
      TakeRight(ls, rs, i, j, merged, k - left);
      a[k] := R[j];
      j := j + 1;
      k := k + 1;
    }
  }

  /** `mid = left + (right - left) / 2` lies in `[left, right)` whenever the range has two or more cells. */
  function Midpoint(left: int, right: int): (mid: int)
    requires left < right
    ensures left <= mid < right
    ensures (mid - left) - (right - mid - 1) in {0, 1}
  {
    left + (right - left) / 2
  }

  /**
   * `mergeSort(arr, left, right)`: sorts `a[left..right]` in place, as a
   * permutation of its old contents, and touches nothing outside the
   * range; a range of fewer than two cells is left alone.
   */
  method MergeSort(a: array<int>, left: int, right: int)
    requires 0 <= left <= right + 1 <= a.Length
    modifies a
    ensures Sorted(a[left..right + 1])
    ensures multiset(a[left..right + 1]) == old(multiset(a[left..right + 1]))
    ensures SameOutside(a[..], old(a[..]), left, right + 1)
    ensures left >= right ==> a[..] == old(a[..])
    decreases right - left
  {
    if left < right {
      var mid := Midpoint(left, right);
      ghost var s0 := a[..];
      MergeSort(a, left, mid);
      ghost var s1 := a[..];
      MergeSort(a, mid + 1, right);
      ghost var s2 := a[..];
      Merge(a, left, mid, right);
      MergeSortStep(s0, s1, s2, a[..], left, mid, right);
    }
  }

  /**
   * The reasoning behind one level of `mergeSort`: sorting `[left, mid]`
   * (state `s0` to `s1`), then `[mid+1, right]` (to `s2`), then merging the
   * two runs (to `s3`) sorts and permutes `[left, right]` and changes
   * nothing outside it.
   */
  lemma MergeSortStep(s0: seq<int>, s1: seq<int>, s2: seq<int>, s3: seq<int>, left: int, mid: int, right: int)
    requires 0 <= left <= mid < right < |s0|
    requires SameOutside(s1, s0, left, mid + 1) && SameOutside(s2, s1, mid + 1, right + 1)
    requires SameOutside(s3, s2, left, right + 1)
    requires Sorted(s1[left..mid + 1]) && multiset(s1[left..mid + 1]) == multiset(s0[left..mid + 1])
    requires Sorted(s2[mid + 1..right + 1]) && multiset(s2[mid + 1..right + 1]) == multiset(s1[mid + 1..right + 1])
    requires s3[left..right + 1] == MergeRuns(s2[left..mid + 1], s2[mid + 1..right + 1])
    ensures Sorted(s3[left..right + 1])
    ensures multiset(s3[left..right + 1]) == multiset(s0[left..right + 1])
    ensures SameOutside(s3, s0, left, right + 1)
  {
    OutsideChain(s0, s1, s2, s3, left, mid, right);
    LevelSlices(s0, s1, s2, left, mid, right);
    MergeLevel(s0[left..mid + 1], s0[mid + 1..right + 1], s2[left..mid + 1], s2[mid + 1..right + 1]);
  }

  /**
   * The two recursive calls of one `mergeSort` level leave each other's half
   * alone: the left half merged is the one the first call produced, the right
   * half sorted by the second call is the one it started from, and the range
   * is the two halves laid end to end.
   */
  lemma LevelSlices(s0: seq<int>, s1: seq<int>, s2: seq<int>, left: int, mid: int, right: int)
    requires 0 <= left <= mid < right < |s0|
    requires SameOutside(s1, s0, left, mid + 1) && SameOutside(s2, s1, mid + 1, right + 1)
    ensures s2[left..mid + 1] == s1[left..mid + 1]
    ensures s1[mid + 1..right + 1] == s0[mid + 1..right + 1]
    ensures s0[left..right + 1] == s0[left..mid + 1] + s0[mid + 1..right + 1]
  {
    SameOutsideSlice(s2, s1, mid + 1, right + 1, left, mid + 1);
    SameOutsideSlice(s1, s0, left, mid + 1, mid + 1, right + 1);
  }

  /**
   * Merging a sorted permutation of each of two runs gives a sorted
   * permutation of the two runs laid end to end.
   */
  lemma MergeLevel(x0: seq<int>, y0: seq<int>, x: seq<int>, y: seq<int>)
    requires Sorted(x) && multiset(x) == multiset(x0)
    requires Sorted(y) && multiset(y) == multiset(y0)
    ensures Sorted(MergeRuns(x, y))
    ensures multiset(MergeRuns(x, y)) == multiset(x0 + y0)
  {
    MergeRunsSorted(x, y);
    MergeRunsPermutes(x, y);
  }

  /** The three steps of one `mergeSort` level each stay inside `[left, right]`, so together they do. */
  lemma OutsideChain(s0: seq<int>, s1: seq<int>, s2: seq<int>, s3: seq<int>, left: int, mid: int, right: int)
    requires left <= mid < right
    requires SameOutside(s1, s0, left, mid + 1) && SameOutside(s2, s1, mid + 1, right + 1)
    requires SameOutside(s3, s2, left, right + 1)
    ensures SameOutside(s3, s0, left, right + 1)
  {
  }
}
