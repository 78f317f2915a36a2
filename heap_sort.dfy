/**
 * `heapSort` and its sift-down `heapify` from main.c. The heap is the
 * implicit binary tree over `a[0..n)` in which the children of cell `i` are
 * `2i+1` and `2i+2`, so the parent of cell `c > 0` is `(c-1)/2`.
 */
module HeapSorting {
  import opened SortSpec
  import opened ArrayUtil

  /** The parent of cell `c > 0`. */
  function Parent(c: int): (p: int)
    requires 0 < c
    ensures 0 <= p < c && (c == 2 * p + 1 || c == 2 * p + 2)
  {
    (c - 1) / 2
  }

  /** Every parent at index `p` or beyond in `s[0..n)` is at least each of its children (a max-heap below `p`). */
  ghost predicate HeapFrom(s: seq<int>, n: int, p: int)
    requires n <= |s|
  {
    forall c {:trigger Parent(c)} :: 0 < c < n && p <= Parent(c) ==> s[c] <= s[Parent(c)]
  }

  /** Cell `k` lies in the subtree rooted at cell `j`. */
  ghost predicate Descends(k: int, j: int)
    decreases k
  {
    k == j || (0 <= j < k && Descends((k - 1) / 2, j))
  }

  /**
   * The subtree rooted at cell `r`, cut off at `n`, is a max-heap: every
   * parent in it is at least each of its children below `n`.
   */
  ghost predicate HeapAt(s: seq<int>, n: int, r: int)
    requires n <= |s|
  {
    forall c {:trigger Parent(c)} :: 0 < c < n && Descends(Parent(c), r) ==> s[c] <= s[Parent(c)]
  }

  /** A cell lies at or after the root of any subtree holding it. */
  lemma {:induction false} DescendsAtLeast(k: int, j: int)
    requires Descends(k, j)
    ensures j <= k
    decreases k
  {
    if k != j {
      DescendsAtLeast(Parent(k), j);
    }
  }

  /** A subtree of a subtree of `i` lies inside the subtree of `i`. */
  lemma {:induction false} DescendsTrans(k: int, m: int, i: int)
    requires Descends(k, m) && Descends(m, i)
    ensures Descends(k, i)
    decreases k
  {
    if k != m {
      DescendsAtLeast(m, i);
      DescendsTrans(Parent(k), m, i);
    }
  }

  /** Every cell of the array lies in the subtree of the root. */
  lemma {:induction false} DescendsFromRoot(k: int)
    requires 0 <= k
    ensures Descends(k, 0)
    decreases k
  {
    if k > 0 {
      DescendsFromRoot(Parent(k));
    }
  }

  /** In a heap below `p`, the subtree at every cell `r >= p` is a heap. */
  lemma HeapFromAt(s: seq<int>, n: int, p: int, r: int)
    requires 0 <= n <= |s| && 0 <= p <= r
    requires HeapFrom(s, n, p)
    ensures HeapAt(s, n, r)
  {
    forall c | 0 < c < n && Descends(Parent(c), r)
      ensures s[c] <= s[Parent(c)]
    {
      DescendsAtLeast(Parent(c), r);
    }
  }

  /** A heap at the root is a heap below `0`: the root's subtree is the whole array. */
  lemma HeapAtRoot(s: seq<int>, n: int)
    requires 0 <= n <= |s| && HeapAt(s, n, 0)
    ensures HeapFrom(s, n, 0)
  {
    forall c | 0 < c < n
      ensures s[c] <= s[Parent(c)]
    {
      DescendsFromRoot(Parent(c));
    }
  }

  /** In a heap at `j`, the value at `j` is at least every value of its subtree. */
  lemma {:induction false} HeapAncestorBound(s: seq<int>, n: int, j: int, k: int)
    requires 0 <= n <= |s| && 0 <= j
    requires HeapAt(s, n, j)
    requires k < n && Descends(k, j)
    ensures s[k] <= s[j]
    decreases k
  {
    if k != j {
      var q := Parent(k);
      assert s[k] <= s[q];
      HeapAncestorBound(s, n, j, q);
    }
  }

  /** The root of a heap over `s[0..n)` holds its maximum. */
  lemma HeapRootMax(s: seq<int>, n: int)
    requires 0 < n <= |s| && HeapFrom(s, n, 0)
    ensures forall k :: 0 <= k < n ==> s[k] <= s[0]
  {
    HeapFromAt(s, n, 0, 0);
    forall k | 0 <= k < n
      ensures s[k] <= s[0]
    {
      DescendsFromRoot(k);
      HeapAncestorBound(s, n, 0, k);
    }
  }

  /** A cell strictly inside the subtree at `i` lies in the subtree of one of the two children of `i`. */
  lemma {:induction false} ChildOf(k: int, i: int) returns (ch: int)
    requires 0 <= i && Descends(k, i) && k != i
    ensures (ch == 2 * i + 1 || ch == 2 * i + 2) && Descends(k, ch)
    decreases k
  {
    if Parent(k) == i {
      ch := k;
    } else {
      ch := ChildOf(Parent(k), i);
      DescendsAtLeast(Parent(k), ch);
    }
  }

  /**
   * A cell at least as large as its children, whose two child subtrees are
   * heaps, roots a heap.
   */
  lemma HeapAtJoin(s: seq<int>, n: int, i: int)
    requires 0 <= i && 0 <= n <= |s|
    requires HeapAt(s, n, 2 * i + 1) && HeapAt(s, n, 2 * i + 2)
    requires 2 * i + 1 < n ==> s[2 * i + 1] <= s[i]
    requires 2 * i + 2 < n ==> s[2 * i + 2] <= s[i]
    ensures HeapAt(s, n, i)
  {
    forall c | 0 < c < n && Descends(Parent(c), i)
      ensures s[c] <= s[Parent(c)]
    {
      if Parent(c) != i {
        var ch := ChildOf(Parent(c), i);
      }
    }
  }

  /** A heap at `r` is a heap at every cell `q` of its subtree. */
  lemma HeapAtBelow(s: seq<int>, n: int, r: int, q: int)
    requires 0 <= n <= |s| && Descends(q, r)
    requires HeapAt(s, n, r)
    ensures HeapAt(s, n, q)
  {
    forall c | 0 < c < n && Descends(Parent(c), q)
      ensures s[c] <= s[Parent(c)]
    {
      DescendsTrans(Parent(c), q, r);
    }
  }

  /** A heap at `r` stays a heap when no cell at or after `r` changes. */
  lemma HeapAtFrame(s: seq<int>, t: seq<int>, n: int, r: int)
    requires 0 <= n <= |s| == |t| && 0 <= r
    requires HeapAt(s, n, r)
    requires forall k :: r <= k < |s| ==> t[k] == s[k]
    ensures HeapAt(t, n, r)
  {
    forall c | 0 < c < n && Descends(Parent(c), r)
      ensures t[c] <= t[Parent(c)]
    {
      DescendsAtLeast(Parent(c), r);
    }
  }

  /**
   * `heapify(arr, n, i)`: when the subtrees at the two children of `i` are heaps, sifts
   * `a[i]` down (swapping it with its larger child while that child is
   * larger) so that the subtree at `i` is a heap. Only cells of that
   * subtree inside `[0, n)` move, and the new root value comes from one of
   * them (the ghost result `src` names which).
   */
  method Heapify(a: array<int>, n: int, i: int) returns (ghost src: int)
    requires 0 <= i && 0 <= n <= a.Length
    requires HeapAt(a[..], n, 2 * i + 1) && HeapAt(a[..], n, 2 * i + 2)
    modifies a
    ensures HeapAt(a[..], n, i)
    ensures multiset(a[..]) == old(multiset(a[..]))
    ensures forall k :: 0 <= k < a.Length && !(k < n && Descends(k, i)) ==> a[k] == old(a[k])
    ensures i < n ==> 0 <= src < n && Descends(src, i) && a[i] == old(a[src])
    decreases n - i
  {
    var largest := i;
    var left := 2 * i + 1;
    var right := 2 * i + 2;
    if left < n && a[left] > a[largest] {
      largest := left;
    }
    if right < n && a[right] > a[largest] {
      largest := right;
    }
    src := i;
    if largest != i {
      ghost var s0 := a[..];
      Swap(a, i, largest);
      ghost var s1 := a[..];
      SwapKeepsHeapBelow(s0, s1, n, i, largest);
      ghost var sub := Heapify(a, n, largest);
      SiftDownStep(s0, s1, a[..], n, i, largest, sub);
      src := largest;
      assert Descends(largest, i);
      forall k | 0 <= k < a.Length && !(k < n && Descends(k, i))
        ensures a[k] == old(a[k])
      {
        if k < n && Descends(k, largest) {
          DescendsTrans(k, largest, i);
        }
      }
    } else {
      HeapAtJoin(a[..], n, i);
    }
  }

  /**
   * Exchanging a parent `i` with its child `m`, when the subtree at `m` is a
   * heap, leaves the subtrees at the two children of `m` heaps.
   */
  lemma SwapKeepsHeapBelow(s0: seq<int>, s1: seq<int>, n: int, i: int, m: int)
    requires 0 <= i && 0 <= n <= |s0| == |s1| && (m == 2 * i + 1 || m == 2 * i + 2)
    requires HeapAt(s0, n, m)
    requires forall k :: 0 <= k < |s0| && k != i && k != m ==> s1[k] == s0[k]
    ensures HeapAt(s1, n, 2 * m + 1) && HeapAt(s1, n, 2 * m + 2)
  {
    assert (2 * m + 1 - 1) / 2 == m && (2 * m + 2 - 1) / 2 == m;
    assert Descends(2 * m + 1, m) && Descends(2 * m + 2, m);
    HeapAtBelow(s0, n, m, 2 * m + 1);
    HeapAtBelow(s0, n, m, 2 * m + 2);
    HeapAtFrame(s0, s1, n, 2 * m + 1);
    HeapAtFrame(s0, s1, n, 2 * m + 2);
  }

  /**
   * One level of sift-down: `m` is the larger child of `i` and exceeds it,
   * the two are exchanged (`s0` to `s1`), and the subtree at `m` is
   * re-heaped (`s1` to `s2`, its new root taken from cell `src` of that
   * subtree). Then the subtree at `i` is a heap.
   */
  lemma SiftDownStep(s0: seq<int>, s1: seq<int>, s2: seq<int>, n: int, i: int, m: int, src: int)
    requires 0 <= i && n <= |s0| == |s1| == |s2| && (m == 2 * i + 1 || m == 2 * i + 2) && m < n
    requires HeapAt(s0, n, 2 * i + 1) && HeapAt(s0, n, 2 * i + 2)
    requires 2 * i + 1 < n ==> s0[2 * i + 1] <= s0[m]
    requires 2 * i + 2 < n ==> s0[2 * i + 2] <= s0[m]
    requires s0[i] < s0[m]
    requires s1[i] == s0[m] && s1[m] == s0[i]
    requires forall k :: 0 <= k < |s0| && k != i && k != m ==> s1[k] == s0[k]
    requires HeapAt(s2, n, m)
    requires forall k :: 0 <= k < |s1| && !(k < n && Descends(k, m)) ==> s2[k] == s1[k]
    requires 0 <= src < n && Descends(src, m) && s2[m] == s1[src]
    ensures HeapAt(s2, n, i)
  {
    assert s2[i] == s0[m] by {
      if Descends(i, m) {
        DescendsAtLeast(i, m);
      }
    }
    assert s2[m] <= s2[i] by {
      DescendsAtLeast(src, m);
      if src != m {
        HeapAncestorBound(s0, n, m, src);
      }
    }
    forall c | 0 < c < n && Descends(Parent(c), i)
      ensures s2[c] <= s2[Parent(c)]
    {
      var p := Parent(c);
      if p == i {
        if c != m {
          NotBelow(c, m);
        }
      } else if !Descends(p, m) {
        DescendsAtLeast(p, i);
        var ch := ChildOf(p, i);
        assert s0[c] <= s0[p];
      }
    }
  }

  /** A cell other than `m` whose parent comes before `m` is outside the subtree at `m`. */
  lemma NotBelow(c: int, m: int)
    requires 0 < c && c != m && Parent(c) < m
    ensures !Descends(c, m)
  {
    if Descends(c, m) {
      DescendsAtLeast(Parent(c), m);
    }
  }

  /**
   * One pass of `heapSort`'s first loop: heapifying cell `i` of a heap below
   * `i + 1` (state `s0` to `s1`, which moves only cells of the subtree at
   * `i`) gives a heap below `i`.
   */
  lemma BuildStep(s0: seq<int>, s1: seq<int>, n: int, i: int)
    requires 0 <= i && 0 <= n <= |s0| == |s1|
    requires HeapFrom(s0, n, i + 1) && HeapAt(s1, n, i)
    requires forall k :: 0 <= k < |s0| && !(k < n && Descends(k, i)) ==> s1[k] == s0[k]
    ensures HeapFrom(s1, n, i)
  {
    forall c | 0 < c < n && i <= Parent(c)
      ensures s1[c] <= s1[Parent(c)]
    {
      var p := Parent(c);
      if !Descends(p, i) {
        assert !Descends(c, i);
      }
    }
  }

  /**
   * `heapSort`: builds a max-heap over the whole array by heapifying every
   * parent from `n/2 - 1` down to `0`, then repeatedly exchanges the root
   * (the maximum of the heap `a[0..i]`) with `a[i]` and re-heapifies
   * `a[0..i)`, so that `a[i..n)` is sorted and holds the largest values.
   */
  method HeapSort(a: array<int>)
    modifies a
    ensures Sorted(a[..])
    ensures multiset(a[..]) == old(multiset(a[..]))
  {
    var n := a.Length;
    var i := n / 2 - 1;
    while i >= 0
      invariant -1 <= i < n
      invariant HeapFrom(a[..], n, i + 1)
      invariant multiset(a[..]) == old(multiset(a[..]))
    {
      ghost var s0 := a[..];
      HeapFromAt(s0, n, i + 1, 2 * i + 1);
      HeapFromAt(s0, n, i + 1, 2 * i + 2);
      ghost var src := Heapify(a, n, i);
      BuildStep(s0, a[..], n, i);
      i := i - 1;
    }
    i := n - 1;
    while i > 0
      invariant -1 <= i < n
      invariant HeapFrom(a[..], i + 1, 0)
      invariant forall x, y :: i < x < y < n ==> a[x] <= a[y]
      invariant forall x, y :: 0 <= x <= i < y < n ==> a[x] <= a[y]
      invariant multiset(a[..]) == old(multiset(a[..]))
    {
      ExtractMax(a, i);
      i := i - 1;
    }
  }

  /**
   * One pass of `heapSort`'s second loop: `a[0]` and `a[i]` are exchanged
   * and `heapify(arr, i, 0)` restores the heap over `a[0..i)`. The maximum
   * of the heap lands at `a[i]`, above everything left in the heap.
   */
  method ExtractMax(a: array<int>, i: int)
    requires 0 < i < a.Length
    requires HeapFrom(a[..], i + 1, 0)
    requires forall x, y :: i < x < y < a.Length ==> a[x] <= a[y]
    requires forall x, y :: 0 <= x <= i < y < a.Length ==> a[x] <= a[y]
    modifies a
    ensures a[i] == old(a[0]) && a[i + 1..] == old(a[i + 1..])
    ensures HeapFrom(a[..], i, 0)
    ensures forall x, y :: i <= x < y < a.Length ==> a[x] <= a[y]
    ensures forall x, y :: 0 <= x < i <= y < a.Length ==> a[x] <= a[y]
    ensures multiset(a[..]) == old(multiset(a[..]))
  {
    HeapRootMax(a[..], i + 1);
    ghost var s0 := a[..];
    Swap(a, 0, i);
    ghost var s1 := a[..];
    assert HeapFrom(s1, i, 1) by {
      assert HeapFrom(s0, i + 1, 1);
    }
    HeapFromAt(s1, i, 1, 1);
    HeapFromAt(s1, i, 1, 2);
    ghost var src := Heapify(a, i, 0);
    HeapAtRoot(a[..], i);
    HeapRootMax(a[..], i);
    assert a[0] <= a[i] by {
      assert a[0] == s1[src];
    }
  }
}
