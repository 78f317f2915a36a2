/**
 * `radixSort`, `getMax` and `countSort` from main.c: a least-significant-
 * digit radix sort in base 10 over non-negative values. Each pass is a
 * stable counting sort on the digit selected by `exp` (1, 10, 100, ...).
 */
module RadixSorting {
  import opened SortSpec

  /**
   * The digit `(x / exp) % 10` that a pass with divisor `exp` sorts on.
   * Dafny's `/` and `%` round toward negative infinity while C's truncate
   * toward zero; the two agree on the non-negative values the sort accepts.
   */
  function Digit(x: int, exp: int): (d: int)
    requires exp > 0
    ensures 0 <= d < 10
  {
    (x / exp) % 10
  }

  /** The elements of `s` whose digit for `exp` is `d`, in their order in `s`. */
  ghost function Bucket(s: seq<int>, exp: int, d: int): (b: seq<int>)
    requires exp > 0
    ensures |b| <= |s|
  {
    if s == [] then []
    else if Digit(s[|s| - 1], exp) == d then Bucket(s[..|s| - 1], exp, d) + [s[|s| - 1]]
    else Bucket(s[..|s| - 1], exp, d)
  }

  /** Bucket `d` holds only elements of `s`, and only ones whose digit is `d`. */
  lemma {:induction false} BucketMembers(s: seq<int>, exp: int, d: int)
    requires exp > 0
    ensures forall x :: x in Bucket(s, exp, d) ==> x in s && Digit(x, exp) == d
  {
    if s != [] {
      BucketMembers(s[..|s| - 1], exp, d);
    }
  }

  /** The buckets for digits `d` to 9 laid end to end. */
  ghost function DistributeFrom(s: seq<int>, exp: int, d: int): (r: seq<int>)
    requires exp > 0 && 0 <= d <= 10
    decreases 10 - d
  {
    if d == 10 then [] else Bucket(s, exp, d) + DistributeFrom(s, exp, d + 1)
  }

  /**
   * What one `countSort` pass produces: the elements grouped by digit in
   * increasing digit order, each group in the order of `s` (the pass is
   * stable).
   */
  ghost function Distribute(s: seq<int>, exp: int): (r: seq<int>)
    requires exp > 0
    ensures |r| == |s|
  {
    DistributeFromLength(s, exp, 0);
    StartTotal(s, exp);
    DistributeFrom(s, exp, 0)
  }

  /** Where bucket `d` begins in the distributed sequence: the sizes of the buckets before it added up. */
  ghost function Start(s: seq<int>, exp: int, d: int): (p: int)
    requires exp > 0 && 0 <= d <= 10
    ensures 0 <= p
  {
    if d == 0 then 0 else Start(s, exp, d - 1) + |Bucket(s, exp, d - 1)|
  }

  /** Every value of `s` lies in `[0, max]`. */
  ghost predicate Within(s: seq<int>, max: int) {
    forall k :: 0 <= k < |s| ==> 0 <= s[k] <= max
  }

  /** `s` is ordered by the remainder modulo `m`, that is, by its lowest digits. */
  ghost predicate SortedByKey(s: seq<int>, m: int)
    requires m > 0
  {
    forall i, j :: 0 <= i < j < |s| ==> s[i] % m <= s[j] % m
  }

  // ---- Arithmetic of digits ----

  /** Euclidean division has one quotient and remainder. */
  lemma DivModUnique(x: int, m: int, q: int, r: int)
    requires m > 0 && 0 <= r < m && x == q * m + r
    ensures x / m == q && x % m == r
  {
    var t := q - x / m;
    assert t * m == x % m - r;
  }

  /**
   * The remainder modulo `10 * exp` is the digit for `exp` followed by the
   * remainder modulo `exp`.
   */
  lemma ModSplit(x: int, exp: int)
    requires exp > 0
    ensures x % (10 * exp) == Digit(x, exp) * exp + x % exp
  {
    var q := x / exp;
    var r := x % exp;
    var d := q % 10;
    var q2 := q / 10;
    assert x == (q2 * 10 + d) * exp + r;
    assert x == q2 * (10 * exp) + (d * exp + r);
    assert 0 <= d * exp + r < 10 * exp by {
      assert d * exp <= 9 * exp;
    }
    DivModUnique(x, 10 * exp, q2, d * exp + r);
  }

  /** Values with a smaller digit for `exp` have a smaller remainder modulo `10 * exp`. */
  lemma DigitOrder(x: int, y: int, exp: int)
    requires exp > 0 && Digit(x, exp) < Digit(y, exp)
    ensures x % (10 * exp) < y % (10 * exp)
  {
    ModSplit(x, exp);
    ModSplit(y, exp);
    var dx, dy := Digit(x, exp), Digit(y, exp);
    MulLe(dx + 1, dy, exp);
    assert (dx + 1) * exp == dx * exp + exp;
  }

  /** Multiplying by a non-negative factor keeps order. */
  lemma MulLe(a: int, b: int, c: int)
    requires a <= b && 0 <= c
    ensures a * c <= b * c
  {
    assert b * c - a * c == (b - a) * c;
  }

  /** Values with the same digit for `exp` compare modulo `10 * exp` as they do modulo `exp`. */
  lemma DigitTie(x: int, y: int, exp: int)
    requires exp > 0 && Digit(x, exp) == Digit(y, exp) && x % exp <= y % exp
    ensures x % (10 * exp) <= y % (10 * exp)
  {
    ModSplit(x, exp);
    ModSplit(y, exp);
  }

  /** A value below the modulus is its own remainder. */
  lemma ModSmall(x: int, m: int)
    requires 0 <= x < m
    ensures x % m == x
  {
    DivModUnique(x, m, 0, x);
  }

  /** `x / m` is positive exactly when `m <= x`, for non-negative `x`. */
  lemma DivPositive(x: int, m: int)
    requires 0 <= x && m > 0
    ensures x / m > 0 <==> m <= x
  {
    if x < m {
      DivModUnique(x, m, 0, x);
    } else {
      DivModUnique(x, m, (x - m) / m + 1, (x - m) % m);
    }
  }

  // ---- Buckets ----

  /** Appending `x` extends exactly the bucket of its digit. */
  lemma BucketSnoc(s: seq<int>, x: int, exp: int, d: int)
    requires exp > 0
    ensures Bucket(s + [x], exp, d) == Bucket(s, exp, d) + (if Digit(x, exp) == d then [x] else [])
  {
    assert (s + [x])[..|s|] == s;
  }

  /** Taking a bucket commutes with concatenation. */
  lemma {:induction false} BucketConcat(s: seq<int>, t: seq<int>, exp: int, d: int)
    requires exp > 0
    ensures Bucket(s + t, exp, d) == Bucket(s, exp, d) + Bucket(t, exp, d)
    decreases |t|
  {
    if t == [] {
      assert s + t == s;
    } else {
      var t0, y := t[..|t| - 1], t[|t| - 1];
      assert t == t0 + [y];
      assert s + t == (s + t0) + [y];
      BucketConcat(s, t0, exp, d);
      BucketSnoc(s + t0, y, exp, d);
      BucketSnoc(t0, y, exp, d);
    }
  }

  /** A sequence whose elements all have digit `d` is its own bucket `d`, and its other buckets are empty. */
  lemma {:induction false} BucketOfUniform(b: seq<int>, exp: int, d: int, e: int)
    requires exp > 0
    requires forall x :: x in b ==> Digit(x, exp) == d
    ensures Bucket(b, exp, e) == if e == d then b else []
    decreases |b|
  {
    if b != [] {
      var b0 := b[..|b| - 1];
      assert b == b0 + [b[|b| - 1]];
      assert forall x :: x in b0 ==> x in b;
      BucketOfUniform(b0, exp, d, e);
    }
  }

  /** Every bucket of a sequence ordered by key modulo `m` is ordered by that key too. */
  lemma {:induction false} BucketSortedByKey(s: seq<int>, exp: int, d: int, m: int)
    requires exp > 0 && m > 0
    requires SortedByKey(s, m)
    ensures SortedByKey(Bucket(s, exp, d), m)
    decreases |s|
  {
    if s != [] {
      var s0, x := s[..|s| - 1], s[|s| - 1];
      assert SortedByKey(s0, m);
      BucketSortedByKey(s0, exp, d, m);
      if Digit(x, exp) == d {
        BucketMembers(s0, exp, d);
        var b0 := Bucket(s0, exp, d);
        var b := b0 + [x];
        forall i, j | 0 <= i < j < |b|
          ensures b[i] % m <= b[j] % m
        {
          assert b[i] == b0[i] && b0[i] in s0;
          var k :| 0 <= k < |s0| && s0[k] == b0[i];
          if j < |b0| {
            assert b[j] == b0[j];
          } else {
            assert s[k] == b[i] && s[|s| - 1] == b[j];
          }
        }
      }
    }
  }

  // ---- Bucket boundaries ----

  /** The bucket boundaries of a sequence with no elements are all zero. */
  lemma {:induction false} StartOfEmpty(exp: int, d: int)
    requires exp > 0 && 0 <= d <= 10
    ensures Start([], exp, d) == 0
  {
    if d > 0 {
      StartOfEmpty(exp, d - 1);
    }
  }

  /** Appending `x` moves up by one every bucket boundary past the bucket of `x`. */
  lemma {:induction false} StartSnoc(s: seq<int>, x: int, exp: int, d: int)
    requires exp > 0 && 0 <= d <= 10
    ensures Start(s + [x], exp, d) == Start(s, exp, d) + if Digit(x, exp) < d then 1 else 0
  {
    if d > 0 {
      StartSnoc(s, x, exp, d - 1);
      BucketSnoc(s, x, exp, d - 1);
    }
  }

  /** The buckets account for every element: the last boundary is `|s|`. */
  lemma {:induction false} StartTotal(s: seq<int>, exp: int)
    requires exp > 0
    ensures Start(s, exp, 10) == |s|
    decreases |s|
  {
    if s == [] {
      StartOfEmpty(exp, 10);
    } else {
      var s0 := s[..|s| - 1];
      assert s == s0 + [s[|s| - 1]];
      StartTotal(s0, exp);
      StartSnoc(s0, s[|s| - 1], exp, 10);
    }
  }

  /** Bucket boundaries never decrease. */
  lemma {:induction false} StartMono(s: seq<int>, exp: int, d: int, e: int)
    requires exp > 0 && 0 <= d <= e <= 10
    ensures Start(s, exp, d) <= Start(s, exp, e)
    decreases e - d
  {
    if d < e {
      StartMono(s, exp, d, e - 1);
    }
  }

  /** The buckets from `d` on fill everything from boundary `d` to the end. */
  lemma {:induction false} DistributeFromLength(s: seq<int>, exp: int, d: int)
    requires exp > 0 && 0 <= d <= 10
    ensures |DistributeFrom(s, exp, d)| == Start(s, exp, 10) - Start(s, exp, d)
    decreases 10 - d
  {
    if d < 10 {
      DistributeFromLength(s, exp, d + 1);
    }
  }

  /** Element `t` of bucket `d` sits at position `Start(d) + t` of the distributed sequence. */
  lemma {:induction false} DistributeAt(s: seq<int>, exp: int, e: int, d: int, t: int)
    requires exp > 0 && 0 <= e <= d < 10 && 0 <= t < |Bucket(s, exp, d)|
    ensures 0 <= Start(s, exp, d) - Start(s, exp, e) + t < |DistributeFrom(s, exp, e)|
    ensures DistributeFrom(s, exp, e)[Start(s, exp, d) - Start(s, exp, e) + t] == Bucket(s, exp, d)[t]
    decreases d - e
  {
    var A, B := Bucket(s, exp, e), DistributeFrom(s, exp, e + 1);
    assert DistributeFrom(s, exp, e) == A + B;
    if e < d {
      DistributeAt(s, exp, e + 1, d, t);
      assert Start(s, exp, e + 1) == Start(s, exp, e) + |A|;
    }
  }

  /** Every position below boundary 10 lies in some bucket's range, at or after bucket `d` when it is past boundary `d`. */
  lemma {:induction false} FindBucket(s: seq<int>, exp: int, k: int, d: int) returns (e: int)
    requires exp > 0 && 0 <= d <= 10 && Start(s, exp, d) <= k < Start(s, exp, 10)
    ensures d <= e < 10 && Start(s, exp, e) <= k < Start(s, exp, e + 1)
    decreases 10 - d
  {
    if k < Start(s, exp, d + 1) {
      e := d;
    } else {
      e := FindBucket(s, exp, k, d + 1);
    }
  }

  /** Position `k` of the distributed sequence holds element `k - Start(d)` of the bucket `d` whose range holds `k`. */
  lemma DistributeIndex(s: seq<int>, exp: int, k: int) returns (d: int)
    requires exp > 0 && 0 <= k < |s|
    ensures 0 <= d < 10 && Start(s, exp, d) <= k < Start(s, exp, d + 1)
    ensures k < |Distribute(s, exp)| && Distribute(s, exp)[k] == Bucket(s, exp, d)[k - Start(s, exp, d)]
    ensures Digit(Distribute(s, exp)[k], exp) == d
  {
    StartTotal(s, exp);
    d := FindBucket(s, exp, k, 0);
    DistributeAt(s, exp, 0, d, k - Start(s, exp, d));
    BucketMembers(s, exp, d);
    assert Bucket(s, exp, d)[k - Start(s, exp, d)] in Bucket(s, exp, d);
  }

  // ---- Properties of one pass ----

  /** Appending `x` to the input adds `x` to the buckets from `d` on exactly when its digit is at least `d`. */
  lemma {:induction false} DistributeFromSnoc(s: seq<int>, x: int, exp: int, d: int)
    requires exp > 0 && 0 <= d <= 10
    ensures multiset(DistributeFrom(s + [x], exp, d))
         == multiset(DistributeFrom(s, exp, d)) + if d <= Digit(x, exp) then multiset{x} else multiset{}
    decreases 10 - d
  {
    if d < 10 {
      DistributeFromSnoc(s, x, exp, d + 1);
      BucketSnoc(s, x, exp, d);
    }
  }

  /** A pass is a permutation. */
  lemma {:induction false} DistributePermutes(s: seq<int>, exp: int)
    requires exp > 0
    ensures multiset(Distribute(s, exp)) == multiset(s)
    decreases |s|
  {
    if s != [] {
      var s0 := s[..|s| - 1];
      assert s == s0 + [s[|s| - 1]];
      DistributePermutes(s0, exp);
      DistributeFromSnoc(s0, s[|s| - 1], exp, 0);
    }
  }

  /** The buckets from `e` on, re-bucketed by digit `d`, give bucket `d` when `e <= d` and nothing otherwise. */
  lemma {:induction false} BucketOfDistributeFrom(s: seq<int>, exp: int, e: int, d: int)
    requires exp > 0 && 0 <= e <= 10
    ensures Bucket(DistributeFrom(s, exp, e), exp, d) == if e <= d < 10 then Bucket(s, exp, d) else []
    decreases 10 - e
  {
    if e < 10 {
      BucketOfDistributeFrom(s, exp, e + 1, d);
      BucketConcat(Bucket(s, exp, e), DistributeFrom(s, exp, e + 1), exp, d);
      BucketMembers(s, exp, e);
      BucketOfUniform(Bucket(s, exp, e), exp, e, d);
    }
  }

  /**
   * A pass is stable: the elements with any one digit appear after the pass
   * in the same order as before it.
   */
  lemma DistributeStable(s: seq<int>, exp: int, d: int)
    requires exp > 0 && 0 <= d < 10
    ensures Bucket(Distribute(s, exp), exp, d) == Bucket(s, exp, d)
  {
    BucketOfDistributeFrom(s, exp, 0, d);
  }

  /** After a pass the digits are in non-decreasing order. */
  lemma DistributeOrdered(s: seq<int>, exp: int, i: int, j: int)
    requires exp > 0 && 0 <= i < j < |s|
    ensures Digit(Distribute(s, exp)[i], exp) <= Digit(Distribute(s, exp)[j], exp)
  {
    var di := DistributeIndex(s, exp, i);
    var dj := DistributeIndex(s, exp, j);
    BucketRangesOrdered(s, exp, i, j, di, dj);
  }

  /** A position of bucket `di` before a position of bucket `dj` means `di <= dj`. */
  lemma BucketRangesOrdered(s: seq<int>, exp: int, i: int, j: int, di: int, dj: int)
    requires exp > 0 && 0 <= di < 10 && 0 <= dj < 10 && i < j
    requires Start(s, exp, di) <= i < Start(s, exp, di + 1)
    requires Start(s, exp, dj) <= j < Start(s, exp, dj + 1)
    ensures di <= dj
  {
    if dj < di {
      StartMono(s, exp, dj + 1, di);
    }
  }

  /**
   * The invariant of `radixSort`: a pass on the digit for `exp` turns an
   * order by the lowest digits below `exp` into an order by the lowest
   * digits below `10 * exp`.
   */
  lemma RadixStep(s: seq<int>, exp: int)
    requires exp > 0
    requires SortedByKey(s, exp)
    ensures SortedByKey(Distribute(s, exp), 10 * exp)
  {
    var r := Distribute(s, exp);
    forall i, j | 0 <= i < j < |r|
      ensures r[i] % (10 * exp) <= r[j] % (10 * exp)
    {
      RadixPair(s, exp, i, j);
    }
  }

  /** The case of `RadixStep` for one pair of positions `i < j`. */
  lemma RadixPair(s: seq<int>, exp: int, i: int, j: int)
    requires exp > 0 && 0 <= i < j < |s|
    requires SortedByKey(s, exp)
    ensures Distribute(s, exp)[i] % (10 * exp) <= Distribute(s, exp)[j] % (10 * exp)
  {
    var r := Distribute(s, exp);
    var di := DistributeIndex(s, exp, i);
    var dj := DistributeIndex(s, exp, j);
    DistributeOrdered(s, exp, i, j);
    if di == dj {
      BucketSortedByKey(s, exp, di, exp);
      assert r[i] % exp <= r[j] % exp;
    }
    KeyStep(r[i], r[j], exp);
  }

  /**
   * The order of one pass on two values: by their digits for `exp` when
   * these differ, and by their lower digits when they agree.
   */
  lemma KeyStep(x: int, y: int, exp: int)
    requires exp > 0 && Digit(x, exp) <= Digit(y, exp)
    requires Digit(x, exp) == Digit(y, exp) ==> x % exp <= y % exp
    ensures x % (10 * exp) <= y % (10 * exp)
  {
    if Digit(x, exp) == Digit(y, exp) {
      DigitTie(x, y, exp);
    } else {
      DigitOrder(x, y, exp);
    }
  }

  /** Ordered by the remainder modulo `m`, values in `[0, max]` with `max < m` are sorted. */
  lemma RadixDone(s: seq<int>, max: int, m: int)
    requires 0 <= max < m && SortedByKey(s, m) && Within(s, max)
    ensures Sorted(s)
  {
    forall i, j | 0 <= i < j < |s|
      ensures s[i] <= s[j]
    {
      ModSmall(s[i], m);
      ModSmall(s[j], m);
    }
  }

  // ---- The routines ----

  /** `getMax(arr, n)`: the largest element, scanning from `a[0]`; the array must not be empty. */
  method GetMax(a: array<int>) returns (max: int)
    requires a.Length >= 1
    ensures max in a[..]
    ensures forall k :: 0 <= k < a.Length ==> a[k] <= max
  {
    max := a[0];
    var i := 1;
    while i < a.Length
      invariant 1 <= i <= a.Length
      invariant max in a[..i]
      invariant forall k :: 0 <= k < i ==> a[k] <= max
    {
      if a[i] > max {
        max := a[i];
      }
      i := i + 1;
    }
    assert a[..a.Length] == a[..];
  }

  /**
   * `countSort(arr, n, exp)`: counts the elements per digit, turns the
   * counts into bucket end positions, places the elements into `output`
   * from the last one down (each at the end position of its bucket, which
   * then moves down by one) and copies `output` back.
   */
  method CountSort(a: array<int>, exp: int)
    requires exp > 0
    requires forall k :: 0 <= k < a.Length ==> 0 <= a[k]
    modifies a
    ensures a[..] == Distribute(old(a[..]), exp)
  {
    var n := a.Length;
    ghost var s := a[..];
    var output := new int[n];
    var count := new int[10](_ => 0);
    CountDigits(a, exp, count);
    PrefixSums(s, exp, count);
    Place(a, exp, count, output);
    for i := 0 to n
      modifies a
      invariant a[..i] == output[..i]
    {
      a[i] := output[i];
    }
    assert a[..] == a[..n];
  }

  /** The first loop of `countSort`: `count[d]` becomes the size of bucket `d`. */
  method CountDigits(a: array<int>, exp: int, count: array<int>)
    requires exp > 0 && count.Length == 10 && count != a
    requires forall d :: 0 <= d < 10 ==> count[d] == 0
    modifies count
    ensures forall d :: 0 <= d < 10 ==> count[d] == |Bucket(a[..], exp, d)|
  {
    var i := 0;
    while i < a.Length
      invariant 0 <= i <= a.Length
      invariant forall d :: 0 <= d < 10 ==> count[d] == |Bucket(a[..i], exp, d)|
    {
      assert a[..i + 1] == a[..i] + [a[i]];
      forall d | 0 <= d < 10 {
        BucketSnoc(a[..i], a[i], exp, d);
      }
      var d := Digit(a[i], exp);
      count[d] := count[d] + 1;
      i := i + 1;
    }
    assert a[..a.Length] == a[..];
  }

  /** The second loop of `countSort`: running sums turn each bucket size into the end position of that bucket. */
  method PrefixSums(ghost s: seq<int>, exp: int, count: array<int>)
    requires exp > 0 && count.Length == 10
    requires forall d :: 0 <= d < 10 ==> count[d] == |Bucket(s, exp, d)|
    modifies count
    ensures forall d :: 0 <= d < 10 ==> count[d] == Start(s, exp, d + 1)
  {
    for i := 1 to 10
      invariant forall d :: 0 <= d < i ==> count[d] == Start(s, exp, d + 1)
      invariant forall d :: i <= d < 10 ==> count[d] == |Bucket(s, exp, d)|
    {
      count[i] := count[i] + count[i - 1];
    }
  }

  /**
   * Cells `[c, st + |b|)` of `o` hold the tail of the run `b` that is laid
   * out from position `st`, each element at its own position.
   */
  ghost predicate PlacedRun(o: seq<int>, c: int, st: int, b: seq<int>)
  {
    forall k :: 0 <= k && c <= k < |o| && st <= k < st + |b| ==> o[k] == b[k - st]
  }

  /** The start of every bucket, by digit. */
  ghost function Starts(s: seq<int>, exp: int): (st: seq<int>)
    requires exp > 0
    ensures |st| == 10 && forall d {:trigger st[d]} :: 0 <= d < 10 ==> st[d] == Start(s, exp, d)
  {
    seq(10, d requires 0 <= d < 10 => Start(s, exp, d))
  }

  /** Every bucket, by digit. */
  ghost function Buckets(s: seq<int>, exp: int): (bs: seq<seq<int>>)
    requires exp > 0
    ensures |bs| == 10 && forall d {:trigger bs[d]} :: 0 <= d < 10 ==> bs[d] == Bucket(s, exp, d)
  {
    seq(10, d requires 0 <= d < 10 => Bucket(s, exp, d))
  }

  /** The runs `bs[d]`, laid out from `st[d]`, follow one another in digit order without overlapping. */
  ghost predicate Apart(st: seq<int>, bs: seq<seq<int>>)
  {
    |st| == |bs| == 10 && forall d, e :: 0 <= d < e < 10 ==> st[d] + |bs[d]| <= st[e]
  }

  /** Each run `bs[d]`, laid out from `st[d]`, is placed from `cnt[d]` on. */
  ghost predicate Placed(o: seq<int>, cnt: seq<int>, st: seq<int>, bs: seq<seq<int>>)
    requires |cnt| == |st| == |bs| == 10
  {
    forall d :: 0 <= d < 10 ==> PlacedRun(o, cnt[d], st[d], bs[d])
  }

  /**
   * The counters of the placement loop when `s[..i + 1]` is still to be
   * placed: `cnt[d]` is the start of bucket `d` plus the number of its
   * elements among them.
   */
  ghost predicate Counted(cnt: seq<int>, s: seq<int>, exp: int, i: int)
    requires exp > 0 && -1 <= i < |s|
  {
    |cnt| == 10 && forall d {:trigger cnt[d]} :: 0 <= d < 10 ==> cnt[d] == Start(s, exp, d) + |Bucket(s[..i + 1], exp, d)|
  }

  /**
   * The third loop of `countSort`: from `i = n - 1` down, `a[i]` is written
   * to `output[count[d] - 1]` for its digit `d`, and `count[d]` is decreased.
   * Afterwards `output` holds the distributed sequence.
   */
  method Place(a: array<int>, exp: int, count: array<int>, output: array<int>)
    requires exp > 0 && count.Length == 10 && output.Length == a.Length
    requires count != a && output != a && output != count
    requires forall d :: 0 <= d < 10 ==> count[d] == Start(a[..], exp, d + 1)
    modifies count, output
    ensures output[..] == Distribute(a[..], exp)
  {
    ghost var s := a[..];
    ghost var st, bs := Starts(s, exp), Buckets(s, exp);
    BucketsApart(s, exp);
    var i := a.Length - 1;
    PlaceInit(count[..], s, exp);
    while i >= 0
      invariant -1 <= i < a.Length
      invariant Counted(count[..], s, exp, i)
      invariant Placed(output[..], count[..], st, bs)
    {
      var d := Digit(a[i], exp);
      ghost var o0, c0 := output[..], count[..];
      PlaceStep(c0, s, exp, i, d);
      PlacedStep(o0, c0, st, bs, d, a[i]);
      PlaceOne(output, count, d, a[i]);
      i := i - 1;
    }
    PlacedAll(output[..], count[..], s, exp);
  }

  /**
   * The body of the placement loop: `x` goes to the cell just below the
   * current end `count[d]` of its bucket, and that end moves down by one.
   */
  method PlaceOne(output: array<int>, count: array<int>, d: int, x: int)
    requires output != count && 0 <= d < count.Length && 0 <= count[d] - 1 < output.Length
    modifies output, count
    ensures output[..] == old(output[..])[old(count[d]) - 1 := x]
    ensures count[..] == old(count[..])[d := old(count[d]) - 1]
  {
    output[count[d] - 1] := x;
    count[d] := count[d] - 1;
  }

  /** Before the placement loop every bucket ends at its counter and nothing is placed yet. */
  lemma PlaceInit(cnt: seq<int>, s: seq<int>, exp: int)
    requires exp > 0 && |cnt| == 10
    requires forall d :: 0 <= d < 10 ==> cnt[d] == Start(s, exp, d + 1)
    ensures Counted(cnt, s, exp, |s| - 1)
  {
    assert s[..|s|] == s;
  }

  /**
   * One step of the placement loop: the element `s[i]` of digit `d` belongs
   * at position `c[d] - 1`, where `c[d]` is the current end of bucket `d`;
   * after it the counters describe `s[..i]`.
   */
  lemma PlaceStep(c: seq<int>, s: seq<int>, exp: int, i: int, d: int)
    requires exp > 0 && 0 <= i < |s| && d == Digit(s[i], exp)
    requires Counted(c, s, exp, i)
    ensures Start(s, exp, d) <= c[d] - 1 < Start(s, exp, d) + |Bucket(s, exp, d)| <= |s|
    ensures Bucket(s, exp, d)[c[d] - 1 - Start(s, exp, d)] == s[i]
    ensures Counted(c[d := c[d] - 1], s, exp, i - 1)
  {
    PrefixBucketStep(s, exp, i, d);
    SlotOf(s, exp, i, d);
    CountedStep(c, s, exp, i, d);
  }

  /** Taking one more element of `s` into the prefix adds it to the bucket of its digit only. */
  lemma PrefixBucketStep(s: seq<int>, exp: int, i: int, e: int)
    requires exp > 0 && 0 <= i < |s|
    ensures Bucket(s[..i + 1], exp, e) == Bucket(s[..i], exp, e) + (if Digit(s[i], exp) == e then [s[i]] else [])
  {
    assert s[..i + 1] == s[..i] + [s[i]];
    BucketSnoc(s[..i], s[i], exp, e);
  }

  /** The counters for `s[..i + 1]`, with the one of `s[i]`'s digit decreased, are the counters for `s[..i]`. */
  lemma CountedStep(c: seq<int>, s: seq<int>, exp: int, i: int, d: int)
    requires exp > 0 && 0 <= i < |s| && d == Digit(s[i], exp)
    requires Counted(c, s, exp, i)
    ensures Counted(c[d := c[d] - 1], s, exp, i - 1)
  {
    var c' := c[d := c[d] - 1];
    forall e | 0 <= e < 10
      ensures c'[e] == Start(s, exp, e) + |Bucket(s[..i], exp, e)|
    {
      PrefixBucketStep(s, exp, i, e);
    }
  }

  /**
   * The element `s[i]` of digit `d` sits in bucket `d` right after the
   * elements of that bucket that come before it in `s`.
   */
  lemma SlotOf(s: seq<int>, exp: int, i: int, d: int)
    requires exp > 0 && 0 <= i < |s| && d == Digit(s[i], exp)
    ensures Start(s, exp, d) + |Bucket(s[..i], exp, d)| < Start(s, exp, d) + |Bucket(s, exp, d)| <= |s|
    ensures Bucket(s, exp, d)[|Bucket(s[..i], exp, d)|] == s[i]
  {
    PrefixBucketStep(s, exp, i, d);
    assert s == s[..i + 1] + s[i + 1..];
    BucketConcat(s[..i + 1], s[i + 1..], exp, d);
    StartMono(s, exp, d + 1, 10);
    StartTotal(s, exp);
  }

  /** The buckets are laid out one after another in digit order. */
  lemma BucketsApart(s: seq<int>, exp: int)
    requires exp > 0
    ensures Apart(Starts(s, exp), Buckets(s, exp))
  {
    var st, bs := Starts(s, exp), Buckets(s, exp);
    forall d, e | 0 <= d < e < 10
      ensures st[d] + |bs[d]| <= st[e]
    {
      StartMono(s, exp, d + 1, e);
    }
  }

  /** A write outside the range of a run leaves that run placed. */
  lemma RunUntouched(o: seq<int>, c: int, st: int, b: seq<int>, p: int, x: int)
    requires PlacedRun(o, c, st, b) && 0 <= p < |o|
    requires p < st || st + |b| <= p
    ensures PlacedRun(o[p := x], c, st, b)
  {
  }

  /** Writing the element that belongs just below the placed tail of a run extends that tail by one. */
  lemma RunExtended(o: seq<int>, c: int, st: int, b: seq<int>, x: int)
    requires PlacedRun(o, c, st, b)
    requires st <= c - 1 < st + |b| && 0 <= c - 1 < |o| && b[c - 1 - st] == x
    ensures PlacedRun(o[c - 1 := x], c - 1, st, b)
  {
  }

  /**
   * Writing the element that belongs just below the placed tail of run `d`
   * there, and moving that run's end down by one, keeps every run placed.
   */
  lemma PlacedStep(o: seq<int>, cnt: seq<int>, st: seq<int>, bs: seq<seq<int>>, d: int, x: int)
    requires |cnt| == 10 && Apart(st, bs) && 0 <= d < 10
    requires Placed(o, cnt, st, bs)
    requires st[d] <= cnt[d] - 1 < st[d] + |bs[d]| && 0 <= cnt[d] - 1 < |o|
    requires bs[d][cnt[d] - 1 - st[d]] == x
    ensures Placed(o[cnt[d] - 1 := x], cnt[d := cnt[d] - 1], st, bs)
  {
    var o', cnt' := o[cnt[d] - 1 := x], cnt[d := cnt[d] - 1];
    forall e | 0 <= e < 10
      ensures PlacedRun(o', cnt'[e], st[e], bs[e])
    {
      if e == d {
        RunExtended(o, cnt[d], st[d], bs[d], x);
      } else {
        RunUntouched(o, cnt[e], st[e], bs[e], cnt[d] - 1, x);
      }
    }
  }

  /** Once every bucket is placed in full, the output is the distributed sequence. */
  lemma PlacedAll(o: seq<int>, cnt: seq<int>, s: seq<int>, exp: int)
    requires exp > 0 && |cnt| == 10 && |o| == |s|
    requires forall d {:trigger cnt[d]} :: 0 <= d < 10 ==> cnt[d] == Start(s, exp, d)
    requires Placed(o, cnt, Starts(s, exp), Buckets(s, exp))
    ensures o == Distribute(s, exp)
  {
    forall k | 0 <= k < |s|
      ensures o[k] == Distribute(s, exp)[k]
    {
      PlacedCell(o, cnt, s, exp, k);
    }
  }

  /** The case of `PlacedAll` for one position `k`. */
  lemma PlacedCell(o: seq<int>, cnt: seq<int>, s: seq<int>, exp: int, k: int)
    requires exp > 0 && |cnt| == 10 && |o| == |s| && 0 <= k < |s|
    requires forall d {:trigger cnt[d]} :: 0 <= d < 10 ==> cnt[d] == Start(s, exp, d)
    requires Placed(o, cnt, Starts(s, exp), Buckets(s, exp))
    ensures k < |Distribute(s, exp)| && o[k] == Distribute(s, exp)[k]
  {
    var st, bs := Starts(s, exp), Buckets(s, exp);
    var d := DistributeIndex(s, exp, k);
    RunAt(o, cnt[d], st[d], bs[d], k);
  }

  /** A cell inside the placed tail of a run holds that run's element. */
  lemma RunAt(o: seq<int>, c: int, st: int, b: seq<int>, k: int)
    requires PlacedRun(o, c, st, b)
    requires 0 <= k < |o| && c <= k && st <= k < st + |b|
    ensures o[k] == b[k - st]
  {
  }

  /**
   * `radixSort(arr, n)`: one counting-sort pass per decimal digit of the
   * maximum, least significant first. Needs a non-empty array (`getMax`
   * reads `arr[0]`) of non-negative values.
   */
  method RadixSort(a: array<int>)
    requires a.Length >= 1
    requires forall k :: 0 <= k < a.Length ==> 0 <= a[k]
    modifies a
    ensures Sorted(a[..])
    ensures multiset(a[..]) == old(multiset(a[..]))
  {
    var max := GetMax(a);
    var exp := 1;
    while max / exp > 0
      invariant exp > 0 && 0 <= max
      invariant Within(a[..], max)
      invariant SortedByKey(a[..], exp)
      invariant multiset(a[..]) == old(multiset(a[..]))
      decreases max - exp
    {
      DivPositive(max, exp);
      ghost var s := a[..];
      CountSort(a, exp);
      RadixPass(s, exp, max);
      exp := exp * 10;
    }
    DivPositive(max, exp);
    RadixDone(a[..], max, exp);
  }

  /**
   * One pass of `radixSort`'s loop on values in `[0, max]` ordered by their
   * digits below `exp`: the pass orders them by their digits below
   * `10 * exp`, permutes them, and so keeps them in `[0, max]`.
   */
  lemma RadixPass(s: seq<int>, exp: int, max: int)
    requires exp > 0 && SortedByKey(s, exp) && Within(s, max)
    ensures SortedByKey(Distribute(s, exp), 10 * exp)
    ensures multiset(Distribute(s, exp)) == multiset(s)
    ensures Within(Distribute(s, exp), max)
  {
    var r := Distribute(s, exp);
    DistributePermutes(s, exp);
    RadixStep(s, exp);
    forall k | 0 <= k < |r|
      ensures 0 <= r[k] <= max
    {
      assert r[k] in multiset(s);
    }
  }
}
