# Binary search of CSharpDSA, in Dafny

CSharpDSA is a small C# library of data structures and algorithms. Its one
implemented algorithm is `SearchAlgorithms.BinarySearch<T>`. The method searches
a sorted `IList<T>` for a value, using `IComparable<T>.CompareTo`. It narrows a
low index `lIndex` and a high index `rIndex` around the midpoint:

- It returns the midpoint as soon as the comparison is 0.
- It moves `lIndex` past the midpoint when the value compares greater.
- It moves `rIndex` below the midpoint when the value compares smaller.
- When the range becomes empty, it returns `~lIndex`. This negative number
  encodes the position where the value would be inserted.

This project models that method and proves what its answers mean.

- `Ordering` (`ordering.dfy`) holds the order the search depends on.
  - The comparator is a function `cmp: (T, T) -> int`. Only the sign of its
    result matters, as with `CompareTo`.
  - `TotalOrder` is `CompareTo`'s contract: swapping the arguments flips the
    sign, and "compares at most" is transitive.
  - `Sorted`, `Contains` and `IsInsertionPoint` give the meaning of a
    sorted list, a hit and a miss.
  - Its lemmas cover the insertion point. A value with an insertion point is
    absent. The insertion point is unique. Inserting there keeps the list
    sorted and adds exactly that one element.
- `Int32` (`int32.dfy`) models C#'s unchecked 32-bit arithmetic:
  - wrap-around addition;
  - `/ 2` truncating toward zero;
  - `~x`, which is `-x - 1`.
- `SearchAlgorithms` (`search_algorithms.dfy`) holds the search itself.
  - `BinarySearch` is a method with the source's `while` loop. Its loop
    invariants bound the indices. They also say that every element below
    `lIndex` compares below the value and every element above `rIndex`
    compares above it. The loop is proved against the predicates of
    `Ordering`. A ghost counter of comparisons shows the search is
    logarithmic: the range at least halves with every comparison that does
    not return.
  - The module also holds the midpoint computation, both as written and as
    intended (see "## Findings").

The list is a `seq<T>`, which is a value, so the search cannot change it. The
search requires a sorted list, as the interface's documentation asks
(CSharpDSA/Algorithms/ISearchAlgorithms.cs:12-14). It also requires at most
`Int32.Max` elements, because `IList<T>.Count` is an `int`.

## Model

| member | source | states |
|---|---|---|
| SearchAlgorithms.BinarySearch | CSharpDSA/Algorithms/SearchAlgorithms.cs:14-37 | For a sorted list under a total order, the result fits in 32 bits. A non-negative result is an index whose element compares equal to the value. A negative result `r` decodes by `~r` to the insertion point of the value. The result is non-negative exactly when the value is in the list. An empty list gives -1. On a non-empty list of length n, the number of comparisons `steps` satisfies 2^(steps-1) <= n, i.e. at most floor(log2 n) + 1 comparisons. |
| SearchAlgorithms.HalvingKeepsBound | CSharpDSA/Algorithms/SearchAlgorithms.cs:21-33 | While the remaining range is non-empty, one more comparison fits the logarithmic budget. A comparison that narrows the range to at most half keeps the invariant `2^steps * width <= n`. |
| SearchAlgorithms.Midpoint | CSharpDSA/Algorithms/SearchAlgorithms.cs:21 | The midpoint the loop takes lies between the low and the high index. It equals `(lIndex + rIndex) / 2` computed without overflow. |
| SearchAlgorithms.MidpointAsWritten | CSharpDSA/Algorithms/SearchAlgorithms.cs:21 | `(lIndex + rIndex) / 2` in 32-bit arithmetic is always a 32-bit value. |
| SearchAlgorithms.MidpointAsWrittenAgrees | CSharpDSA/Algorithms/SearchAlgorithms.cs:21 | When the index sum fits in 32 bits, the written midpoint equals the intended one. |
| SearchAlgorithms.MidpointAsWrittenOverflows | CSharpDSA/Algorithms/SearchAlgorithms.cs:21-22 | When the sum of two valid indices exceeds `Int32.Max`, the written midpoint is negative, so `items[median]` is out of range. |
| Int32.Wrap | CSharpDSA/Algorithms/SearchAlgorithms.cs:21 | Wrap-around addition gives the one 32-bit value congruent to the sum modulo 2^32. Sums already in range are unchanged. |
| Int32.TruncDiv2 | CSharpDSA/Algorithms/SearchAlgorithms.cs:21 | C#'s `/ 2` leaves a remainder of magnitude at most 1, with the sign of the dividend. |
| Int32.Complement | CSharpDSA/Algorithms/SearchAlgorithms.cs:36 | `~x` maps non-negative numbers to negative ones and back, and never leaves the 32-bit range. |
| Int32.ComplementInvolution | CSharpDSA/Algorithms/SearchAlgorithms.cs:36 | `~~x == x`, so a caller recovers the insertion point from a miss. |
| Ordering.AboveSortedPrefix | CSharpDSA/Algorithms/SearchAlgorithms.cs:26-29 | In a sorted list, a value that compares above the midpoint element compares above every earlier element. This justifies `lIndex = median + 1`. |
| Ordering.BelowSortedSuffix | CSharpDSA/Algorithms/SearchAlgorithms.cs:30-33 | In a sorted list, a value that compares below the midpoint element compares below every later element. This justifies `rIndex = median - 1`. |
| Ordering.InsertionPointExcludesMatch | CSharpDSA/Algorithms/SearchAlgorithms.cs:34-36 | A value that has an insertion point compares equal to no element, so a miss is returned only for absent values. |
| Ordering.InsertionPointUnique | CSharpDSA/Algorithms/SearchAlgorithms.cs:36 | A value has at most one insertion point, so the encoded miss is determined by the list and the value. |
| Ordering.InsertAt | CSharpDSA/Algorithms/SearchAlgorithms.cs:36 | Inserting at the decoded position puts the value there and shifts the later elements by one. The result's multiset of elements is the old one plus that value. |
| Ordering.InsertAtInsertionPointKeepsSorted | CSharpDSA/Algorithms/SearchAlgorithms.cs:16-36 | Inserting the value at its insertion point keeps a sorted list sorted. |

## Findings

| source | as written | input that shows it | evidently intended | confidence | as-written member | corrected member |
|---|---|---|---|---|---|---|
| CSharpDSA/Algorithms/SearchAlgorithms.cs:21 | `(lIndex + rIndex) / 2` adds two `int` indices, which wraps around in C#'s default unchecked context | a list of 2^30 + 1 elements searched for a value above every element: the last iteration has `lIndex == rIndex == 2^30`, the sum wraps to -2^31, `median` is -2^30, and `items[median]` throws | the floor of the mean of the two indices, e.g. `lIndex + (rIndex - lIndex) / 2` | not executed; the arithmetic is proved, but whether such a list can be built depends on the `IList<T>` implementation | SearchAlgorithms.MidpointAsWrittenOverflows | SearchAlgorithms.Midpoint |

`BinarySearch` uses `Midpoint`. By `MidpointAsWrittenAgrees`, the model behaves
exactly like the source on every list short enough that the index sum never
exceeds `Int32.Max`, which includes every list of at most 2^30 elements.

## Left out

- Graph (CSharpDSA/DataStructures/Graph.cs) is left out. Every operation
  throws `NotImplementedException`, and `Count` and `IsReadOnly` are never
  set. The code has no graph behaviour to model.
  `Ordering.InsertAtInsertionPointKeepsSorted` is the property a caller that
  inserts at the decoded position relies on.
- Breadth-first search is only declared
  (CSharpDSA/Algorithms/ISearchAlgorithms.cs:26-27). `SearchAlgorithms` has no
  body for it, so there is nothing to model.
- The interfaces in CSharpDSA/IGraph.cs and CSharpDSA/DataStructures/IGraph.cs
  have no logic. The graph unit tests exercise only the stubs.
- The singleton plumbing (private constructor and static `Instance`) is left
  out, because it has no behaviour to verify.
- Null references and the virtual dispatch of `IComparable<T>.CompareTo` are
  left out. The comparison is a total function `cmp` that must satisfy
  `Ordering.TotalOrder`.
- A `CompareTo` that throws or breaks its contract is left out, because the
  model requires a total order.
- Concurrent mutation of the `IList<T>` during a search is left out. The model
  reads an immutable sequence.
- SearchAlgorithms.BinarySearch: uses the overflow-free `Midpoint`, not the
  midpoint as written. On a list longer than 2^30 elements, once
  `lIndex + rIndex` passes `Int32.Max`, the model returns an answer where the
  source reads a negative index and throws (see "## Findings").
- SearchAlgorithms.BinarySearch: the match is stated as "compares equal"
  (`cmp(value, items[r]) == 0`), not as `==`. This is all `CompareTo` promises.
  When the list has duplicates, the model does not say which matching index
  is returned. The source does not promise one either.
