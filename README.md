# Sorting benchmark core, in Dafny

This project models the sorting library of a small C benchmark, `main.c`. The
benchmark reads arrays of `int`, gives a fresh copy of each array to each of
seven in-place sorting routines, and ranks the routines by their average time.
The model covers the seven routines and their helpers:

- `bubbleSort`, `selectionSort` and `insertionSort`;
- `mergeSort` with its two-buffer `merge`;
- `heapSort` with its sift-down `heapify`;
- `radixSort` with `getMax` and the per-digit `countSort`;
- `quickSort` with its Lomuto `partition`;
- `copyArray`, which the driver uses to hand each routine its copy.

Each routine is a Dafny `method` over an `array<int>` that updates the array in
place, as the C code does. Loops become `while` or `for` loops with invariants, and
recursion stays recursion. Every routine is proved to leave its range
non-decreasing (`SortSpec.Sorted`) and to hold the same multiset of values
as before. `mergeSort`, `quickSort`, `merge` and `partition` work on the
closed index range `[left, right]` / `[low, high]` that the C code uses, and
they are also proved to leave every cell outside that range unchanged
(`SortSpec.SameOutside`).

Each routine is proved against its own specification:

- `merge` writes `MergeRuns` of its two runs back into the array.
  `MergeRuns` is a function that takes the smaller head and, on a tie, the
  head of the left run.
- `heapify` makes the subtree at `i` a max-heap (`HeapAt`) when the subtrees
  at both children of `i` already are.
- `partition` returns the pivot's final index. Cells left of it are strictly
  below the pivot, and cells right of it are at or above it.
- `countSort` turns the array into `Distribute`: the elements grouped by
  digit in increasing digit order, each group in its old order.

Lemmas then prove that each specification sorts, permutes, or is stable.

Modules:

- `SortSpec` (`sort_spec.dfy`): the shared specification. It defines order,
  agreement outside a range, and the lemma that a sorted permutation is
  unique.
- `ArrayUtil` (`array_util.dfy`): the inline exchange of two cells, and
  `copyArray`.
- `SimpleSorts` (`simple_sorts.dfy`): the three quadratic sorts.
- `MergeSorting` (`merge_sort.dfy`), `HeapSorting` (`heap_sort.dfy`),
  `QuickSorting` (`quick_sort.dfy`) and `RadixSorting` (`radix_sort.dfy`):
  one module per remaining routine.

`main.c` registers seven routines (`ALGO_COUNT 7`, with `quickSort` as the
seventh), and all seven are modelled.

## Model

| member | source | states |
|---|---|---|
| SortSpec.SortedPermutationUnique | main.c:79-105 | two sorted permutations of the same values are equal, so every routine whose precondition holds produces the same array from the same copy, and sorting a sorted array changes nothing; `radixSort`'s precondition excludes empty arrays and negative values |
| SortSpec.StepwiseIsSorted | main.c:186-194 | a range in which each element is at least its left neighbour is sorted |
| SortSpec.SameOutsidePermutation | main.c:317-332 | a permutation of the whole array that changes nothing outside a range permutes that range |
| SortSpec.RangePermutation | main.c:317-332 | a permutation of the whole array whose prefix and suffix are unchanged permutes the middle slice |
| ArrayUtil.Swap | main.c:161-163 | cells `i` and `j` exchange their values, nothing else changes, the multiset is kept |
| ArrayUtil.CopyArray | main.c:335-339 | `dest[0..n)` becomes `source[0..n)`, the rest of `dest` and all of `source` are unchanged |
| SimpleSorts.BubbleSort | main.c:157-167 | the whole array ends sorted and is a permutation of its old contents |
| SimpleSorts.SelectionSort | main.c:170-182 | the whole array ends sorted and is a permutation of its old contents |
| SimpleSorts.InsertionSort | main.c:185-195 | the whole array ends sorted and is a permutation of its old contents |
| SimpleSorts.Inserted | main.c:186-193 | the array after one insertion pass: `a[i]` moved down to position `p` and `a[p..i)` moved one place right; the length is unchanged |
| SimpleSorts.InsertKey | main.c:186-193 | one pass moves `a[i]` down to the returned gap; every shifted element exceeded the key, the element left of the gap does not |
| SimpleSorts.InsertedAt | main.c:189-193 | cell by cell, the pass leaves `a[0..gap)` alone, puts the key at the gap, shifts `[gap, i)` right by one, and leaves the rest alone |
| SimpleSorts.InsertedPermutes | main.c:189-193 | the shifting and the write of the key permute the array |
| SimpleSorts.InsertionStep | main.c:186-194 | after pass `i`, on a prefix `[0, i)` that was sorted, the prefix `[0, i]` is sorted |
| MergeSorting.MergeRuns | main.c:217-239 | the merge as `merge` performs it: the smaller head first, ties to the left run, and the rest of the other run once one is used up; the length is the sum of the runs' lengths |
| MergeSorting.MergeRunsPermutes | main.c:217-239 | the merge holds exactly the elements of both runs |
| MergeSorting.MergeRunsSorted | main.c:217-239 | the merge of two sorted runs is sorted |
| MergeSorting.MergeBound | main.c:217-239 | a lower bound of both runs is a lower bound of their merge |
| MergeSorting.TakeLeft | main.c:219-221 | when the left head is at most the right head (a tie goes left), or the right run is used up, the next merged element is the left head; this is the tie rule of `merge` (on `int` values, equal elements are indistinguishable, so the rule cannot be seen in the result) |
| MergeSorting.TakeRight | main.c:222-224 | when the right head is strictly smaller, or the left run is used up, the next merged element is the right head |
| MergeSorting.Merge | main.c:207-240 | `a[left..right]` becomes the merge of its old halves `[left, mid]` and `[mid+1, right]`; nothing outside the range changes |
| MergeSorting.MergeBack | main.c:217-239 | the three loops write exactly the merge of `L` and `R` from `left` on and nothing else |
| MergeSorting.MergeStep | main.c:218-226 | one pass of the first loop writes the next merged element at `k` and advances one cursor |
| MergeSorting.MergeTail | main.c:229-239 | the last two loops copy what is left of `L` and then `R` into the remaining cells of the merge |
| MergeSorting.WrittenRange | main.c:217-239 | cells written with the merge on `[lo, hi)` and untouched elsewhere give that slice and change nothing outside it |
| MergeSorting.Midpoint | main.c:200 | for a range of two or more cells the midpoint lies in `[left, right)` and splits it into halves differing by at most one |
| MergeSorting.MergeSort | main.c:198-205 | `a[left..right]` ends sorted and permuted, nothing outside it changes, and a range of fewer than two cells is untouched |
| MergeSorting.MergeSortStep | main.c:199-204 | sorting both halves and merging them sorts and permutes the range and keeps the outside |
| MergeSorting.MergeLevel | main.c:202-203 | merging sorted permutations of the two halves gives a sorted permutation of their concatenation |
| HeapSorting.Parent | main.c:257-258 | the parent of cell `c > 0` lies before it and has `c` as its left or right child |
| HeapSorting.HeapAncestorBound | main.c:255-272 | when the subtree at `j` is a heap, `a[j]` is at least every cell in it |
| HeapSorting.HeapFromAt | main.c:244-245 | when every parent from `p` on is at least its children, the subtree at every cell `r >= p` is a heap |
| HeapSorting.HeapAtRoot | main.c:247-251 | a heap at the root orders every parent of the array over its children |
| HeapSorting.HeapAtJoin | main.c:260-265 | when neither child exceeds `a[i]` (`largest` stays `i`) and both child subtrees are heaps, the subtree at `i` is a heap |
| HeapSorting.HeapAtBelow | main.c:270 | a heap at `r` is a heap at every cell of its subtree |
| HeapSorting.HeapAtFrame | main.c:266-269 | a heap at `r` stays one when no cell at or after `r` changes |
| HeapSorting.ChildOf | main.c:256-258 | a cell strictly inside the subtree at `i` lies in the subtree of one of the children `2i+1`, `2i+2` |
| HeapSorting.BuildStep | main.c:244-245 | heapifying cell `i` when every parent after `i` is ordered leaves every parent from `i` on ordered |
| HeapSorting.HeapRootMax | main.c:247-251 | the root of a heap over `a[0..n)` holds its maximum |
| HeapSorting.Heapify | main.c:255-272 | when the subtrees at the two children of `i` are heaps, the subtree at `i` becomes one; only cells of that subtree below `n` move, the new `a[i]` comes from that subtree, and the array is permuted |
| HeapSorting.SiftDownStep | main.c:266-271 | exchanging `i` with its larger, larger-than-`i` child and re-heaping that child's subtree makes the subtree at `i` a heap |
| HeapSorting.SwapKeepsHeapBelow | main.c:266-270 | exchanging `a[i]` with its child `a[m]`, when the subtree at `m` is a heap, leaves the subtrees at the children of `m` heaps, as the recursive call needs |
| HeapSorting.HeapSort | main.c:243-253 | the whole array ends sorted and is a permutation of its old contents |
| HeapSorting.ExtractMax | main.c:247-252 | the old root lands at `a[i]` and `a(i, n)` is unchanged; re-heaping `a[0..i)` keeps the heap, extends the sorted suffix to `[i, n)`, and keeps it above the heap |
| QuickSorting.Partition | main.c:317-332 | returns `p` in `[low, high]` holding the old pivot `a[high]`; cells of `[low, p)` are strictly below it, cells of `(p, high]` at or above it; the range is permuted and nothing outside changes |
| QuickSorting.PartitionScan | main.c:318-327 | after the loop `[low, i]` holds cells below the pivot, `(i, high)` the others, the pivot is in place, and nothing outside the range changes |
| QuickSorting.QuickSort | main.c:309-315 | `a[low..high]` ends sorted and permuted, nothing outside it changes, and a range of fewer than two cells is untouched |
| QuickSorting.QuickSortStep | main.c:310-314 | sorting both sides of a partitioned range sorts and permutes the range and keeps the outside |
| QuickSorting.JoinAroundPivot | main.c:311-313 | sorted permutations of the parts below and at or above the pivot, joined around it, are a sorted permutation of the whole |
| RadixSorting.Digit | main.c:294 | the digit `(x / exp) % 10` lies in `[0, 10)` |
| RadixSorting.GetMax | main.c:281-287 | for a non-empty array, the result is one of its elements and at least every element |
| RadixSorting.Distribute | main.c:289-306 | what one `countSort` pass produces: the elements grouped by digit, digit `0` first, each group in its old order; the length is unchanged |
| RadixSorting.CountSort | main.c:289-306 | the array becomes `Distribute` of its old contents for the digit selected by `exp` |
| RadixSorting.CountDigits | main.c:293-294 | `count[d]` becomes the number of elements whose digit is `d` |
| RadixSorting.PrefixSums | main.c:296-297 | `count[d]` becomes the end position of bucket `d`, the sum of the sizes of buckets `0..d` |
| RadixSorting.Place | main.c:299-302 | placing from the last element down, each at the current end of its bucket, fills `output` with `Distribute` |
| RadixSorting.PlaceOne | main.c:300-301 | one placement writes `x` just below the end of its bucket and moves that end down by one |
| RadixSorting.PlaceStep | main.c:299-302 | the end of bucket `d` minus one is exactly the slot of `s[i]` in bucket `d`, and the counters then describe `s[0..i)` |
| RadixSorting.PlacedStep | main.c:300-301 | writing that slot keeps every bucket's placed tail correct |
| RadixSorting.PlacedAll | main.c:299-305 | when every counter has reached its bucket's start, the output is the distributed sequence |
| RadixSorting.StartTotal | main.c:296-297 | the last bucket ends at `n`, so the buckets account for every element |
| RadixSorting.StartMono | main.c:296-297 | bucket boundaries never decrease |
| RadixSorting.DistributePermutes | main.c:289-306 | a counting-sort pass is a permutation |
| RadixSorting.DistributeStable | main.c:299-302 | a pass is stable: the elements with any one digit keep their relative order |
| RadixSorting.DistributeOrdered | main.c:289-306 | after a pass the digits are in non-decreasing order |
| RadixSorting.DistributeIndex | main.c:299-302 | position `k` of a pass's output holds an element of the bucket whose range contains `k` |
| RadixSorting.RadixStep | main.c:277-278 | a pass on the digit for `exp` turns order by the lowest digits below `exp` into order by the lowest digits below `10 * exp` |
| RadixSorting.RadixPass | main.c:277-278 | one loop iteration keeps the values in `[0, max]`, permutes them, and extends the digit order by one digit |
| RadixSorting.RadixDone | main.c:277 | when `exp` exceeds `max` (the loop's exit test), order by the digits below `exp` is order by value |
| RadixSorting.DivPositive | main.c:277 | the loop test `max / exp > 0` holds exactly when `exp <= max` |
| RadixSorting.RadixSort | main.c:275-279 | a non-empty array of non-negative values ends sorted and is a permutation of its old contents |

## Left out

- The driver `main`: reading `arrays.txt`, tokenising with `strtok`/`atoi`, the `MAX_SIZE` bounds, the per-routine timers, the averaging in `double`, the `qsort` ranking with `compare`, and the printed report. These are I/O, clocks and floating point. `copyArray` is modelled, and so is the fact that all routines whose preconditions hold produce the same array from the same copy. No member runs two routines on copies of one array.
- C `int` overflow: values are unbounded integers. In particular, `exp *= 10` in `radixSort` overflows a 32-bit `int` when `max >= 10^9`; the model's `exp` keeps growing.
- RadixSorting.RadixSort: requires every value to be non-negative, so the model does not cover negative input. On such input the C code behaves in three ways. When the maximum is at most 0, the loop at `main.c:277` never runs and the array is returned unchanged, possibly unsorted. Otherwise, a negative value whose truncated digit `(arr[i] / exp) % 10` is non-zero indexes `count` out of bounds. Negative values whose digits are all 0 go into bucket 0 and can come back out of order.
- RadixSorting.RadixSort: requires a non-empty array, because `getMax` reads `arr[0]` even when `n == 0`. RadixSorting.GetMax has the same precondition.
- RadixSorting.CountSort: requires non-negative values. A negative value with a non-zero truncated digit indexes `count` out of bounds, and on negative operands C's truncating `/` and `%` differ from Dafny's. On non-negative values the two agree.
- The variable-length stack buffers (`L`, `R` in `merge`, `output` in `countSort`) are heap-allocated Dafny arrays; stack exhaustion for large `n` is not modelled.
- Some C loops and loop bodies are split out into helper methods. The loops are `MergeBack`, `MergeTail`, `PartitionScan`, `CountDigits`, `PrefixSums` and `Place`. The loop bodies are `InsertKey`, `MergeStep`, `ExtractMax` and `PlaceOne`. These helpers perform the same statements in the same order.
