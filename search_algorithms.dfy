/** Binary search over a sorted, randomly accessible list.

    The list is a `seq<T>` and the three-way comparison a function `cmp`
    (see module Ordering). Since the list is a value, the search cannot
    modify it. The result is either the index of an element that compares
    equal to the searched value, or the bitwise complement of the position
    where that value would be inserted.
 */
module SearchAlgorithms {
  import opened Ordering
  import Int32

  /** The midpoint as the source writes it, `(lIndex + rIndex) / 2` on 32-bit
      integers: the sum wraps around before the truncating division. */
  function MidpointAsWritten(lo: int, hi: int): (r: int)
    requires Int32.InRange(lo) && Int32.InRange(hi)
    ensures Int32.InRange(r)
  {
    Int32.TruncDiv2(Int32.Wrap(lo + hi))
  }

  /** The midpoint the search is meant to take: the floor of the mean of
      two valid indices, computed without leaving the 32-bit range. */
  function Midpoint(lo: int, hi: int): (r: int)
    requires 0 <= lo <= hi <= Int32.Max
    ensures lo <= r <= hi
    ensures r == (lo + hi) / 2
  {
    lo + (hi - lo) / 2
  }

  /** On every pair of indices whose sum fits in 32 bits, the written and the
      intended midpoint agree. */
  lemma MidpointAsWrittenAgrees(lo: int, hi: int)
    requires 0 <= lo <= hi && lo + hi <= Int32.Max
    ensures MidpointAsWritten(lo, hi) == Midpoint(lo, hi)
  {
  }

  /** Once the sum of two valid indices passes `Int32.Max`, the written midpoint
      is negative, so `items[median]` is out of range. Searching a list of
      2^30 + 1 elements for a value above all of them reaches lo == hi == 2^30. */
  lemma MidpointAsWrittenOverflows(lo: int, hi: int)
    requires 0 <= lo <= hi <= Int32.Max && lo + hi > Int32.Max
    ensures MidpointAsWritten(lo, hi) < 0
  {
  }

  /** 2 to the power `k`. */
  function Pow2(k: nat): (r: nat)
    ensures r >= 1
  {
    if k == 0 then 1 else 2 * Pow2(k - 1)
  }

  /** The bound on comparisons carried by the search loop: while `steps`
      comparisons leave a range of `width` elements, `Pow2(steps) * width`
      fits in the list. One more comparison is affordable while the range is
      not empty, and a range halved by it keeps the bound. */
  lemma HalvingKeepsBound(steps: nat, width: int, newWidth: int, n: int)
    requires 1 <= width && Pow2(steps) * width <= n
    requires 0 <= newWidth && 2 * newWidth <= width
    ensures Pow2(steps) <= n
    ensures Pow2(steps + 1) * newWidth <= n
  {
  }

  /** The search of `SearchAlgorithms.BinarySearch<T>`. A non-negative result is
      the index of a match; a negative result `r` encodes the insertion point
      `Complement(r)`; the first happens exactly when the value is in the list.
      The ghost `steps` counts the calls of `cmp`: on a non-empty list it is at
      most one more than the base-2 logarithm of the length. */
  method BinarySearch<T(!new)>(cmp: (T, T) -> int, items: seq<T>, value: T) returns (r: int, ghost steps: nat)
    requires TotalOrder(cmp) && Sorted(cmp, items)
    requires |items| <= Int32.Max
    ensures Int32.InRange(r)
    ensures r >= 0 ==> r < |items| && cmp(value, items[r]) == 0
    ensures r < 0 ==> IsInsertionPoint(cmp, items, value, Int32.Complement(r))
    ensures r >= 0 <==> Contains(cmp, items, value)
    ensures |items| == 0 ==> r == -1
    ensures |items| > 0 ==> steps >= 1 && Pow2(steps - 1) <= |items|
  {
    var lo, hi := 0, |items| - 1;
    steps := 0;
    while lo <= hi
      invariant 0 <= lo <= hi + 1 <= |items|
      invariant forall i :: 0 <= i < lo ==> cmp(value, items[i]) > 0
      invariant forall i :: hi < i < |items| ==> cmp(value, items[i]) < 0
      invariant Pow2(steps) * (hi - lo + 1) <= |items|
      invariant steps == 0 ==> lo == 0 && hi == |items| - 1
      invariant steps >= 1 ==> Pow2(steps - 1) <= |items|
      decreases hi - lo
    {
      var mid := Midpoint(lo, hi);
      var comparison := cmp(value, items[mid]);
      HalvingKeepsBound(steps, hi - lo + 1, if comparison > 0 then hi - mid else mid - lo, |items|);
      steps := steps + 1;
      if comparison == 0 {
        return mid, steps;
      }
      if comparison > 0 {
        forall k | 0 <= k <= mid
          ensures cmp(value, items[k]) > 0
        {
          AboveSortedPrefix(cmp, items, value, mid, k);
        }
        lo := mid + 1;
      } else {
        forall k | mid <= k < |items|
          ensures cmp(value, items[k]) < 0
        {
          BelowSortedSuffix(cmp, items, value, mid, k);
        }
        hi := mid - 1;
      }
    }
    Int32.ComplementInvolution(lo);
    InsertionPointExcludesMatch(cmp, items, value, lo);
    r := Int32.Complement(lo);
  }
}
