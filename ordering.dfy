/** The order a binary search relies on, and what its answers mean.

    A comparator `cmp` plays the part of `IComparable<T>.CompareTo`: only the
    sign of `cmp(a, b)` matters (negative: a before b, zero: a and b compare
    equal, positive: a after b). Membership and positions are stated through
    the comparator, not through `==`, because that is all the search observes.
 */
module Ordering {

  /** The contract of `CompareTo`: swapping the arguments flips the sign,
      and "compares at most" is transitive. */
  ghost predicate TotalOrder<T(!new)>(cmp: (T, T) -> int) {
    && (forall a, b :: cmp(a, b) < 0 <==> cmp(b, a) > 0)
    && (forall a, b, c :: cmp(a, b) <= 0 && cmp(b, c) <= 0 ==> cmp(a, c) <= 0)
  }

  /** A sorted list: no element compares after a later one (duplicates allowed). */
  ghost predicate Sorted<T>(cmp: (T, T) -> int, s: seq<T>) {
    forall i, j :: 0 <= i < j < |s| ==> cmp(s[i], s[j]) <= 0
  }

  /** Some element of `s` compares equal to `v`. */
  ghost predicate Contains<T>(cmp: (T, T) -> int, s: seq<T>, v: T) {
    exists i :: 0 <= i < |s| && cmp(v, s[i]) == 0
  }

  /** `p` is where `v` goes in `s`: everything before `p` compares below `v`,
      everything from `p` on compares above it. */
  ghost predicate IsInsertionPoint<T>(cmp: (T, T) -> int, s: seq<T>, v: T, p: int) {
    && 0 <= p <= |s|
    && (forall i :: 0 <= i < p ==> cmp(v, s[i]) > 0)
    && (forall i :: p <= i < |s| ==> cmp(v, s[i]) < 0)
  }

  /** `s` with `v` placed at position `p`. */
  function InsertAt<T>(s: seq<T>, p: int, v: T): (r: seq<T>)
    requires 0 <= p <= |s|
    ensures |r| == |s| + 1 && r[p] == v
    ensures forall i :: 0 <= i < p ==> r[i] == s[i]
    ensures forall i :: p < i < |r| ==> r[i] == s[i - 1]
    ensures multiset(r) == multiset(s) + multiset{v}
  {
    assert s == s[..p] + s[p..];
    s[..p] + [v] + s[p..]
  }

  /** A value that has an insertion point is not in the list. */
  lemma InsertionPointExcludesMatch<T>(cmp: (T, T) -> int, s: seq<T>, v: T, p: int)
    requires IsInsertionPoint(cmp, s, v, p)
    ensures !Contains(cmp, s, v)
  {
  }

  /** A value has at most one insertion point in a list. */
  lemma InsertionPointUnique<T>(cmp: (T, T) -> int, s: seq<T>, v: T, p: int, q: int)
    requires IsInsertionPoint(cmp, s, v, p)
    requires IsInsertionPoint(cmp, s, v, q)
    ensures p == q
  {
    // the element just below each point compares below `v`, so it is
    // also below the other point
    if q > 0 { assert cmp(v, s[q - 1]) > 0; }
    if p > 0 { assert cmp(v, s[p - 1]) > 0; }
  }

  /** In a sorted list, a value that compares above the element at `m`
      compares above every element before it too. */
  lemma AboveSortedPrefix<T(!new)>(cmp: (T, T) -> int, s: seq<T>, v: T, m: int, k: int)
    requires TotalOrder(cmp) && Sorted(cmp, s)
    requires 0 <= k <= m < |s| && cmp(v, s[m]) > 0
    ensures cmp(v, s[k]) > 0
  {
  }

  /** In a sorted list, a value that compares below the element at `m`
      compares below every element after it too. */
  lemma BelowSortedSuffix<T(!new)>(cmp: (T, T) -> int, s: seq<T>, v: T, m: int, k: int)
    requires TotalOrder(cmp) && Sorted(cmp, s)
    requires 0 <= m <= k < |s| && cmp(v, s[m]) < 0
    ensures cmp(v, s[k]) < 0
  {
  }

  /** Placing a value at its insertion point keeps a sorted list sorted;
      this is what makes the encoded miss of a binary search usable for
      sorted insertion (and `InsertAt` adds exactly that one element). */
  lemma InsertAtInsertionPointKeepsSorted<T(!new)>(cmp: (T, T) -> int, s: seq<T>, v: T, p: int)
    requires TotalOrder(cmp) && Sorted(cmp, s)
    requires IsInsertionPoint(cmp, s, v, p)
    ensures Sorted(cmp, InsertAt(s, p, v))
  {
  }
}
