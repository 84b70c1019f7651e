# Sorting performance app — a verified model of its sorting core

`SortingPerformanceApp` loads a CSV file, lets the user pick a column, and
sorts the data rows on that column. It can run one of five sorts, or run
all five one after another and report the fastest. This project models
that core in Dafny:

- the five sorts: insertion, shell, merge, quick (three-way partition on
  the last element) and heap sort;
- the key comparison `compare`;
- the two harness entry points, `sortColumn` and `bestAlgorithm`, including
  the choice of the fastest algorithm and the millisecond conversion.

The sorts are generic. They take a list of elements and an order
`le(a, b)`, which stands for `compare(a[column], b[column]) <= 0`:
- `compare > 0` is `!le(a, b)`;
- `compare(x, pivot) < 0` is `!le(pivot, x)`.

Every sort proof assumes `le` is a *total preorder*: total and transitive.
Two rows are *tied* when `le` holds both ways.

The Java list is a sequence that a method updates exactly where the Java
code calls `set` or `Collections.swap`. Merge sort returns a new list in
Java, so here it is a pure function.

Modules:

- `Orders` (`orders.dfy`): the vocabulary used by all the sorts.
  - Sortedness, gap-sortedness and `Collections.swap`.
  - Stability, defined through `TiesOf`: the subsequence of elements tied
    with a given one.
- `InsertionSorting`, `ShellSorting`, `MergeSorting`, `QuickSorting`,
  `HeapSorting`: one module per algorithm, with the loops and recursion of
  the Java code.
- `SortedUniqueness`: two sorted permutations of the same rows have tied
  keys at every position. This is why an already sorted list gets its keys
  back from every algorithm. Two sorted, stable permutations are equal, so
  insertion sort and merge sort return the very same list.
- `KeyCompare` (`keys.dfy`): `compare` itself.
  - It compares numerically when both cells parse as numbers, and with
    `String.compareTo` otherwise.
  - Number parsing is a parameter.
  - The module shows that `compare` is *not* transitive on a column that
    mixes numbers and text. That is why the sorts take an abstract order.
  - It also proves a consistent variant (numbers first, then text) to be a
    total preorder.
- `Benchmark`: `sortColumn` and `bestAlgorithm`.
  - Measured times are parameters.
  - Errors are `Result` values.
  - The data rows are `csvData.subList(1, size)`. The header row was already
    removed when the file was loaded, so the first data row never reaches a
    sort. The model reproduces this.
  - `bestAlgorithm` applies the five sorts one after another to the same
    working list, so every sort after the first receives sorted input. The
    model reproduces this too.

Two facts about the code shape the model:
- `compare` is not transitive on a column that mixes numbers and text (see
  Findings), so the sorts are proved for an abstract order.
- `sortColumn` and `bestAlgorithm` reject only a negative column index;
  they never compare the index with the number of columns of the rows.

## Model

| member | source | states |
|---|---|---|
| InsertionSorting.InsertionSort | SortingPerformanceApp.java:355-366 | the result is a permutation of the input, sorted, and stable (every group of tied rows keeps its order); an already sorted list comes back unchanged |
| InsertionSorting.InsertOne | SortingPerformanceApp.java:358-364 | one outer pass: if the prefix `[0, i)` was sorted, `[0, i]` is sorted afterwards, as a permutation with every group of tied rows in its old order; the rows after `i` are untouched; nothing moves if `[0, i]` was already in order |
| ShellSorting.ShellGapsShape | SortingPerformanceApp.java:371 | the gap sequence starts at `n/2`, halves each time, stays positive and ends with gap 1; it is empty exactly when `n < 2` |
| ShellSorting.ShellSort | SortingPerformanceApp.java:368-381 | the result is a sorted permutation of the input, and an already sorted list comes back unchanged; the body records the gap of each pass in the ghost `gaps`, and the contract fixes that record to `n/2, n/4, …, 1` |
| ShellSorting.GapPass | SortingPerformanceApp.java:372-379 | one pass leaves the list a permutation in which every element is not below the one `gap` places earlier |
| ShellSorting.GapInsert | SortingPerformanceApp.java:373-378 | the gapped insertion of element `i` extends gap-order from `[0, i)` to `[0, i]` and only permutes; the rows after `i`, and every row not on the chain `i, i - gap, i - 2*gap, …`, are untouched |
| MergeSorting.Merge | SortingPerformanceApp.java:393-406 | the merged list is as long as `left` and `right` together and holds exactly the elements of both |
| MergeSorting.MergeSorted | SortingPerformanceApp.java:393-406 | merging two sorted lists gives a sorted list |
| MergeSorting.MergeTies | SortingPerformanceApp.java:396-402 | because ties take from `left`, the rows tied with any `x` come out as those of `left` followed by those of `right` |
| MergeSorting.MergeInOrder | SortingPerformanceApp.java:393-406 | merging two lists that are together already in order gives their concatenation |
| MergeSorting.MergeSort | SortingPerformanceApp.java:383-391 | the result is a permutation of the input, and a list of at most one row is returned as it is |
| MergeSorting.MergeSortSorted | SortingPerformanceApp.java:383-391 | merge sort returns a sorted list |
| MergeSorting.MergeSortStable | SortingPerformanceApp.java:383-391 | merge sort is stable: the rows tied with any `x` keep their original order |
| MergeSorting.MergeSortIdempotent | SortingPerformanceApp.java:383-391 | merge sort returns an already sorted list unchanged |
| QuickSorting.PartitionStep | SortingPerformanceApp.java:415-422 | one step keeps the band invariant: `[low, lt)` below the pivot, `[lt, i)` tied with it, `(gt, high]` above it, nothing outside `[low, high]` touched; `gt - i` shrinks |
| QuickSorting.Partition | SortingPerformanceApp.java:410-423 | the three-way partition around the last element gives a non-empty pivot band between a band strictly below and a band strictly above; it permutes only `[low, high]`; a range already in order is left as it is |
| QuickSorting.QuickSort | SortingPerformanceApp.java:408-427 | the inclusive range `[low, high]` ends up a sorted permutation of itself, positions outside it keep their rows, and a range already in order is not changed |
| QuickSorting.QuickSortList | SortingPerformanceApp.java:214 | the call on `[0, size - 1]` sorts the whole list, also when it is empty, and returns a sorted list unchanged |
| HeapSorting.Largest | SortingPerformanceApp.java:442-451 | the chosen position is `i` or a child inside the heap, and holds an element not below `i` or either child; a child is chosen only when it is strictly greater than `i`, and the right child only when it is strictly greater than the left one, so tied rows are never swapped |
| HeapSorting.Heapify | SortingPerformanceApp.java:441-456 | if the heap `[0, n)` is in order except at `i`, sifting down restores the max-heap property; it swaps only inside `[i, n)` |
| HeapSorting.BuildMaxHeap | SortingPerformanceApp.java:431-434 | heapifying from `n/2 - 1` down to the root turns the whole list into a max-heap, as a permutation |
| HeapSorting.RootIsMax | SortingPerformanceApp.java:435-437 | the root of a max-heap is not below any of its nodes |
| HeapSorting.ExtractMax | SortingPerformanceApp.java:435-438 | after one extraction step the suffix `[i, n)` holds the largest elements in sorted order and `[0, i)` is again a heap |
| HeapSorting.HeapSort | SortingPerformanceApp.java:430-439 | the result is a sorted permutation of the input |
| KeyCompare.LexCompareAtFirstDifference | SortingPerformanceApp.java:463 | the string fallback returns the difference of the first differing characters, or of the lengths when one string is a prefix of the other |
| KeyCompare.LexCompareAntisymmetric | SortingPerformanceApp.java:463 | swapping the strings negates the string comparison |
| KeyCompare.LexCompare | SortingPerformanceApp.java:463 | `String.compareTo` is 0 exactly when the strings are equal, and is the difference of the lengths when one string is a prefix of the other |
| KeyCompare.LexLeTotalPreorder | SortingPerformanceApp.java:463 | the string order is total and transitive |
| KeyCompare.NumCompare | SortingPerformanceApp.java:461 | the numeric comparison is -1, 0 or 1 according to `<`, `==`, `>` |
| KeyCompare.JavaCompare | SortingPerformanceApp.java:458-465 | when both cells parse, the sign of `compare` is that of the numeric comparison of the parsed values; otherwise it is 0 exactly for equal strings, and is the difference of the first differing characters, or of the lengths when one cell is a prefix of the other |
| KeyCompare.JavaLeTotal | SortingPerformanceApp.java:458-465 | every pair of cells is ordered one way or the other |
| KeyCompare.JavaCompareAntisymmetric | SortingPerformanceApp.java:458-465 | swapping the cells flips the sign of `compare`, and keeps 0 at 0 |
| KeyCompare.JavaLeTransitiveOnOneKind | SortingPerformanceApp.java:458-465 | `compare` is transitive on three numbers and on three text cells |
| KeyCompare.CompareNotTransitive | SortingPerformanceApp.java:458-465 | for any parser that accepts "2" and "10" and rejects "1a": "2" < "10" < "1a" < "2", so `compare <= 0` is not transitive |
| KeyCompare.MixedLeTotalPreorder | SortingPerformanceApp.java:458-465 | the corrected comparison is a total preorder, it agrees with `compare` when both cells are numbers or both are text, and every number comes strictly before every text cell |
| Benchmark.RowLeTotalPreorder | SortingPerformanceApp.java:360 | ordering rows by the cells of one column is a total preorder whenever the key order is one |
| SortedUniqueness.SortedPermutationsTied | SortingPerformanceApp.java:206-217 | whichever algorithm is chosen, two sorted permutations of the same rows have tied keys at every position |
| SortedUniqueness.StableSortUnique | SortingPerformanceApp.java:355-406 | two sorted, stable permutations of the same list are equal, so the two stable sorts cannot disagree |
| Benchmark.SortWith | SortingPerformanceApp.java:206-217 | every algorithm returns a sorted permutation; insertion and merge sort are stable, and insertion sort returns exactly the list merge sort returns; on sorted input every algorithm but heap sort returns the list unchanged, and heap sort returns rows with the same keys position by position |
| Benchmark.SortColumn | SortingPerformanceApp.java:190-225 | it fails exactly when there is no data, no column, no chosen algorithm, no data rows or a row without the column; a missing selection is reported before a dismissed dialog, as in the Java code; otherwise it returns a sorted permutation of every data row but the first |
| Orders.Swap | SortingPerformanceApp.java:417-419 | `Collections.swap` exchanges the two positions, leaves every other position alone and keeps the multiset of rows |
| Benchmark.Consider | SortingPerformanceApp.java:262-265 | after one run the best time is the smaller of the two; a strictly faster run becomes the best run with its time, and a run no faster than the best so far leaves it unchanged, so ties keep the earlier algorithm |
| Benchmark.Fastest | SortingPerformanceApp.java:237-266 | the scan from `(none, Long.MAX_VALUE)` with strict `<` reports the first run of least time, and reports none exactly when no run beats `Long.MAX_VALUE` |
| Benchmark.FastestIsFirstMinimum | SortingPerformanceApp.java:262-266 | run `i` is reported exactly when its time is below `Long.MAX_VALUE`, no run is faster, and every earlier run is strictly slower |
| Benchmark.Millis | SortingPerformanceApp.java:276 | the millisecond figure is the nanosecond time divided by 1000000, truncated toward zero |
| Benchmark.BestAlgorithm | SortingPerformanceApp.java:229-268 | it fails exactly on missing data, column, data rows or a short row; otherwise the working list after all five runs is a sorted permutation of the data rows, and the report names the first fastest algorithm with its time in nanoseconds and milliseconds; when no run beats `Long.MAX_VALUE` it names none and reports `Long.MAX_VALUE` |

## Left out

- `Double.parseDouble` is a parameter `parse` of the key comparison, and numbers are exact reals.
- KeyCompare.NumCompare: `Double.compare`'s treatment of NaN (above everything) and of -0.0 (below 0.0) is not modelled, because reals have neither.
- KeyCompare.LexCompare: Java compares UTF-16 code units while Dafny characters are Unicode scalar values, so text with characters outside the Basic Multilingual Plane may order differently.
- The sorts are proved for an abstract total preorder, not for `compare` itself. `compare` is not one on mixed columns (see Findings). The key order is required to be a total preorder on all strings, so nothing is claimed for `compare` on any column, even one that holds only numbers or only text.
- `System.nanoTime` is not modelled. The elapsed time of each run is a parameter, and the subtraction `endTime - startTime` is taken to give that time without overflow.
- Benchmark.SortColumn: a row without the selected column is rejected before sorting (`ShortRow`). Java throws `ArrayIndexOutOfBoundsException` only when `compare` reads that row, possibly after part of the list has been reordered, and never when there is only one row.
- Benchmark.BestAlgorithm: the same up-front `ShortRow` rejection. The per-algorithm results that `performanceResultUpdate` prints are not part of the report.
- HeapSorting.HeapSort: it has no "sorted input comes back unchanged" property, because heap sort can reorder tied rows of a sorted list. Only same keys position by position is stated (in Benchmark.SortWith).
- Shell, quick and heap sort are not stable, and no stability is claimed for them.
- QuickSorting.QuickSort: the recursion depth is not modelled. With the last element as pivot, a strictly increasing range puts every other element below the pivot, so the next call is on `[low, high - 1]` and the recursion is `n - 1` deep. `bestAlgorithm` always hands quick sort a sorted list, and `sortColumn` does so on sorted input. On a column with many thousands of distinct values Java can therefore throw `StackOverflowError` inside the event handler, and no report appears, where `Benchmark.SortColumn` and `Benchmark.BestAlgorithm` return a success.
- Java's `int` indices are unbounded integers here. Overflow of the child index `2 * i + 2` in `heapify`, reachable only on lists of more than 2^30 rows, is not modelled.
- `mergeSort` returns `subList` views, and for short lists the very list it was given. This aliasing is modelled by value.
- `readCSV` and `uploadCSVFile` (file reading, `split`, the blank-line filter, header removal) are file I/O; the model starts from the loaded rows.
- `selectSortingAlgorithm` is a dialog; its answer is a parameter `choice`, with `None` for a dismissed dialog.
- `updateTablePreview`, `populateColumnSelector`, `displaySortedData`, `updateSortingResults`, `performanceResultUpdate`, the message dialogs, the constructor and `main` are Swing UI and text formatting.

## Findings

| source | as written | input that shows it | evidently intended | confidence | as-written member | corrected member |
|---|---|---|---|---|---|---|
| SortingPerformanceApp.java:458-465 | `compare` compares numerically when both cells parse and by `String.compareTo` otherwise, so on a column mixing numbers and text it is not transitive and the sorts have no consistent order to sort by | "2" < "10" numerically, "10" < "1a" and "1a" < "2" as strings | one consistent order per column: numbers among themselves numerically, text among itself as strings, numbers before text | medium; not executed | KeyCompare.CompareNotTransitive | KeyCompare.MixedLeTotalPreorder |

The corrected comparison `KeyCompare.MixedLe` is a total preorder. It can
therefore be given as the key order of `Benchmark.SortColumn` and
`Benchmark.BestAlgorithm`, whose guarantees need exactly that.
