/** The two array primitives the routines share: the exchange of two cells and `copyArray`. */
module ArrayUtil {

  /** Exchanges `a[i]` and `a[j]` through a temporary, as every routine of main.c does inline; `i == j` is allowed. */
  method Swap(a: array<int>, i: int, j: int)
    requires 0 <= i < a.Length && 0 <= j < a.Length
    modifies a
    ensures a[i] == old(a[j]) && a[j] == old(a[i])
    ensures forall k :: 0 <= k < a.Length && k != i && k != j ==> a[k] == old(a[k])
    ensures multiset(a[..]) == old(multiset(a[..]))
  {
    var temp := a[i];
    a[i] := a[j];
    a[j] := temp;
  }

  /**
   * `copyArray(source, dest, n)`: the first `n` cells of `dest` become those
   * of `source`; the rest of `dest`, and `source`, are left as they were.
   */
  method CopyArray(source: array<int>, dest: array<int>, n: int)
    requires 0 <= n <= source.Length && n <= dest.Length
    modifies dest
    ensures dest[..n] == old(source[..n])
    ensures dest[n..] == old(dest[n..])
    ensures source[..] == old(source[..])
  {
    var i := 0;
    while i < n
      invariant 0 <= i <= n
      invariant dest[..i] == old(source[..i])
      invariant dest[i..] == old(dest[i..])
      invariant source[..] == old(source[..])
    {
      dest[i] := source[i];
      i := i + 1;
    }
  }
}
