# ArraySorter in Dafny

A verified model of `fintech.ArraySorter`, a static utility class with six operations on integer arrays:
- the swap helper `swapValuesInIntArray`;
- the `shuffle`;
- four ascending sorts: `sortSelection`, `sortGnome`, `sortCocktail`, and `sortQuick` with its recursive `sortQuickDivide`.

Every public operation behaves the same way at the edges:
- It fails on an empty array.
- It returns its argument itself when the array has one element.
- Otherwise it works on a private clone, so the caller's array is never written.

The project has three modules:

- `Sequences` (`sequences.dfy`) holds the vocabulary on values. It defines ascending order (over all pairs, over a window, and adjacent pairs as the tests check it) and the value-level swap. It also proves that a sorted permutation is unique.
- `Disorder` (`disorder.dfy`) counts the inverted pairs in a window. It proves that exchanging an inverted pair strictly lowers the count. This count is the termination measure of the gnome loop, the partition loop and the quicksort recursion.
- `ArraySorter` (`array_sorter.dfy`) holds the operations as imperative methods over `array<int>`:
  - The public methods take the caller's array and have no `modifies` clause, so the verifier checks that the caller's array is untouched.
  - They return `Result<array<int>>`: `Err(EmptyInput)` on an empty array, `Ok(input)` (the same object) on one element, and otherwise `Ok` of a fresh array.
  - Each sort promises that the result is a sorted permutation of the input (`SortsTo`), and that a sorted input comes back with the same contents.
  - The shuffle promises that the result is the input rearranged by a permutation that is a single cycle through every index. Such a permutation has no fixed point. If the result equals the input, each element equals the element the cycle moves into its place. Following the one cycle through every index then makes all elements equal. So the result equals the input exactly when all elements are equal. A two-element array always comes back exchanged.

The source clones the working array at every exchange (`swapValuesInIntArray`), and `sortQuickDivide` clones its argument again on every entry whose range holds at least two elements (ArraySorter.java line 250). `sortQuickDivide` never writes an array in place: every change goes through `swapValuesInIntArray`, which clones before it writes. So the caller's array stays untouched in `sortQuick` even though `sortQuick` passes its argument straight through. What the clone on the first entry adds is a result that is a new object even when the partition exchanges nothing (for `[1, 2]`, both recursive calls would otherwise return the argument itself). All these copies are private to the operation, so the model clones once per public call (`Clone`) and exchanges in place on that single working array (`SwapAt`). `Swap` states the same exchange on values.

`java.util.Random` becomes a parameter. `Shuffle` takes the sequence `draws` of values that `random.nextInt(i)` returns: draw `t` serves index `i = n - 1 - t` and lies in `[0, i)`.

Two points where the model states exactly what the code does:
- Selection sort's choice among equal maxima. The scan starts with `a[lastIndex]` as the candidate and replaces it only on a strictly greater element. So the chosen index stays at `lastIndex` when that element is already a maximum. Otherwise it is the leftmost maximum (`MaxIndex`).
- The shuffle's draw. The method's documentation (ArraySorter.java line 40) names it the Fisher–Yates shuffle, but the draw `random.nextInt(i)` lies in `[0, i)` and so excludes `i`. That makes it Sattolo's variant: every result is the input rearranged along a single cycle, not a uniformly random permutation.

## Model

| member | source | states |
|---|---|---|
| Sequences.Swap | src/main/java/fintech/ArraySorter.java:29-37 | the swapped copy has the same length, holds the two values exchanged, keeps every other position, and is a permutation |
| Sequences.SwapTwice | src/main/java/fintech/ArraySorter.java:29-37 | exchanging the same two positions twice gives back the original array |
| Sequences.AdjacentSortedIsSorted | src/test/java/fintech/ArraySorterTest.java:683-701 | the tests' check (each element at least its predecessor) holds exactly when every pair is in order |
| Sequences.SortedPermutationUnique | src/main/java/fintech/ArraySorter.java:67-309 | two sorted permutations of the same elements are equal, so a sort's result is determined by the input's multiset |
| Sequences.SortOfSortedIsIdentity | src/main/java/fintech/ArraySorter.java:67-309 | a correct sort of an already sorted array returns the same contents |
| Disorder.NoInversionsIffSorted | src/main/java/fintech/ArraySorter.java:138-155 | a window has no inverted pair exactly when it is sorted, so the inversion count reaches zero only on sorted data |
| Disorder.SwapInvertedPairDecreases | src/main/java/fintech/ArraySorter.java:140-141 | exchanging an inverted pair inside a window strictly lowers the window's inversion count |
| ArraySorter.Clone | src/main/java/fintech/ArraySorter.java:52 | the working array is a fresh object with the caller's contents; the same member stands for the clones at lines 81, 132 and 174 and, in `sortQuick`, for the one at line 250 |
| ArraySorter.SwapAt | src/main/java/fintech/ArraySorter.java:29-37 | the working array afterwards is the old contents with the two positions exchanged |
| ArraySorter.ShuffleStep | src/main/java/fintech/ArraySorter.java:55-63 | exchanging the open index `i` with a smaller index joins their cycles, so every cycle of the permutation keeps exactly one open index while `i` is closed |
| ArraySorter.ShuffleStart | src/main/java/fintech/ArraySorter.java:52-55 | before the first draw the identity rearrangement has every index open in its own cycle |
| ArraySorter.ShuffleAdvance | src/main/java/fintech/ArraySorter.java:55-63 | one loop step with a draw in `[0, i)` keeps the shuffle's state: the array is the input rearranged by a tracked permutation, and each cycle has one open index |
| ArraySorter.EqualToRoot | src/test/java/fintech/ArraySorterTest.java:183-206 | if the rearranged array equals the input, every element equals the element at its cycle's open index |
| ArraySorter.PredecessorOfRoot | src/main/java/fintech/ArraySorter.java:55-63 | following the permutation from a closed index reaches its cycle's open index from some closed index |
| ArraySorter.NoFixedPoint | src/main/java/fintech/ArraySorter.java:55-63 | once only index 0 is open, in an array of at least two elements no element stays at its index |
| ArraySorter.UnchangedMeansAllEqual | src/test/java/fintech/ArraySorterTest.java:183-206 | a finished shuffle that gives the input back unchanged implies all elements are equal |
| ArraySorter.ShuffleOutcome | src/test/java/fintech/ArraySorterTest.java:165-206 | a finished shuffle has no fixed point, its result equals the input exactly when all elements are equal, and two elements come back exchanged |
| ArraySorter.Derange | src/main/java/fintech/ArraySorter.java:52-64 | the shuffle loop leaves the array rearranged by a single-cycle permutation of the old contents |
| ArraySorter.Shuffle | src/main/java/fintech/ArraySorter.java:45-65 | fails on empty input and returns a one-element input itself; otherwise returns a fresh rearrangement of the input along a single cycle (`perm` with the witnesses `root` and `dist`, only index 0 open), so no element is left at its index; the result is equal to the input exactly when all elements are equal, and the exchanged pair for two elements |
| ArraySorter.MaxIndex | src/main/java/fintech/ArraySorter.java:95-102 | the chosen index holds a maximum of `[0..lastIndex]`; it leaves `lastIndex` exactly when some element is strictly greater than `a[lastIndex]`, and then it is the leftmost maximum |
| ArraySorter.SortSelection | src/main/java/fintech/ArraySorter.java:74-114 | empty input fails, one element returns the input itself; otherwise the result is a fresh sorted permutation, equal to a sorted input (loop keeps: the suffix after `lastIndex` is sorted and dominates the prefix) |
| ArraySorter.Finish | src/main/java/fintech/ArraySorter.java:113 | a sorted permutation of the input is the sort's answer, and for sorted input it has the input's contents |
| ArraySorter.SortGnome | src/main/java/fintech/ArraySorter.java:125-158 | empty input fails, one element returns the input itself; otherwise the result is a fresh sorted permutation (loop keeps `j == i + 1` and `[0, j)` sorted; it is bounded by the inversion count, then by `n - j`) |
| ArraySorter.WindowRearranged | src/main/java/fintech/ArraySorter.java:183-211 | rearranging only the open window `[left..right]` keeps the settled prefix and suffix sorted and separated |
| ArraySorter.AfterForwardPass | src/main/java/fintech/ArraySorter.java:186-196 | after a forward pass `right` is settled too, and a pass without exchange leaves the whole array sorted |
| ArraySorter.AfterBackwardPass | src/main/java/fintech/ArraySorter.java:200-210 | after a backward pass `left` is settled too, and a pass without exchange leaves the whole array sorted |
| ArraySorter.SettledSorted | src/main/java/fintech/ArraySorter.java:183-213 | a settled array whose open window is sorted (or empty) is sorted |
| ArraySorter.ForwardPass | src/main/java/fintech/ArraySorter.java:186-191 | only the window changes and it is permuted; its maximum ends at `right`; no exchange means nothing changed and the window is sorted |
| ArraySorter.BackwardPass | src/main/java/fintech/ArraySorter.java:200-205 | only the window changes and it is permuted; its minimum ends at `left`; no exchange means nothing changed and the window is sorted |
| ArraySorter.Shake | src/main/java/fintech/ArraySorter.java:175-211 | the cocktail loop, early exit included, leaves a sorted permutation of the working array |
| ArraySorter.SortCocktail | src/main/java/fintech/ArraySorter.java:167-214 | empty input fails, one element returns the input itself; otherwise the result is a fresh sorted permutation, equal to a sorted input |
| ArraySorter.ScanUp | src/main/java/fintech/ArraySorter.java:264-271 | the left cursor stops at the pivot's index or at the first element greater than the pivot value, passing only elements not greater than it |
| ArraySorter.ScanDown | src/main/java/fintech/ArraySorter.java:277-284 | the right cursor stops at the pivot's index or at the first element smaller than the pivot value, passing only elements not smaller than it |
| ArraySorter.ExchangeStep | src/main/java/fintech/ArraySorter.java:287-300 | the exchanged pair is inverted, so the exchange removes an inversion, and with the pivot index followed the partition invariant still holds |
| ArraySorter.NextBase | src/main/java/fintech/ArraySorter.java:289-299 | for every array with the three indices in range, after the exchange of `left` and `right` the returned index holds the value that `baseIndex` held before: the pivot index follows the pivot value |
| ArraySorter.Partition | src/main/java/fintech/ArraySorter.java:252-301 | the cursors meet at the pivot index, which holds the midpoint's original value with nothing greater before it and nothing smaller after it in `[start..end]`; the window is permuted and the rest untouched; if the pivot ends at `end` the window lost an inversion |
| ArraySorter.SortedHalves | src/main/java/fintech/ArraySorter.java:306-307 | sorting `[start..baseIndex]` and then `[baseIndex+1..end]` of a partitioned window sorts the whole window |
| ArraySorter.QuickDivide | src/main/java/fintech/ArraySorter.java:244-309 | the window `[start..end]` ends sorted and permuted, with everything outside it unchanged; the recursion is measured by window size, then by its inversion count |
| ArraySorter.SortQuick | src/main/java/fintech/ArraySorter.java:227-234 | empty input fails, one element returns the input itself; otherwise the result is a fresh sorted permutation, equal to a sorted input |
| ArraySorter.SortsAgree | src/main/java/fintech/ArraySorter.java:67-309 | the four sorts fail together on empty input and otherwise return the same contents |

## Left out

- `java.util.Random` and the distribution of shuffle results are not modelled. The draws are a parameter, and no claim is made about uniformity over single-cycle permutations.
- Passing `null` instead of an array (a JVM null dereference) is not modelled: Dafny's array type excludes `null`.
- `ArraySorterException` is not modelled as a class. The empty-input failure is the result `Err(EmptyInput)`.
- The demo driver `ArraySorterManualTest` (console output of random arrays) is not part of this model.
- Several clones are not modelled, nor is the identity of the intermediate arrays they produce:
  - the clone made at every exchange (`swapValuesInIntArray`);
  - the clone that `sortQuickDivide` makes on every entry with `start < end` (ArraySorter.java line 250).

  The model exchanges in place on one private working array, created once per public call by `Clone`. In `sortQuick` that single clone stands in for the clone on `sortQuickDivide`'s first entry, which is what makes the source's result a new object. Results are fresh arrays (`fresh(r.value)`), distinct from the input.
- Java's 32-bit `int` is modelled as unbounded `int`. The operations only compare and move values, so no overflow can arise. The midpoint `start + (end - start) / 2` is computed on non-negative indices, where Java and Dafny division agree.
- Stack depth and running time are not modelled, for the quicksort recursion or for any loop.
- ArraySorter.QuickDivide requires `start <= end + 1`. These are the only ranges its callers pass: `[0, n - 1]` and the two sides of a pivot. The source would also accept `end` more than one below `start` (the base case returns its argument), but no caller produces such a range.
