/** The benchmark harness around the sorts: `sortColumn`
    (SortingPerformanceApp.java:190-225) sorts the rows with one chosen
    algorithm, and `bestAlgorithm` (lines 229-281) runs all five, in a fixed
    order, on one working list and reports the fastest.

    Rows are string arrays and are ordered by one column through a key
    order `keyLe` (`compare(a, b) <= 0`). Clock readings are not modelled:
    the elapsed nanoseconds of each run are a parameter. */
module Benchmark {
  import opened Orders
  import opened Results
  import InsertionSorting
  import ShellSorting
  import MergeSorting
  import QuickSorting
  import HeapSorting
  import SortedUniqueness

  datatype Algorithm = Insertion | Shell | Merge | Quick | Heap

  /** The order in which `bestAlgorithm` runs the sorts (line 241). */
  const Algorithms: seq<Algorithm> := [Insertion, Shell, Merge, Quick, Heap]

  /** `Long.MAX_VALUE`, the starting "fastest time" (line 238). */
  const LongMax: int := 0x7FFF_FFFF_FFFF_FFFF

  type Row = seq<string>

  /** `row[column]`; a row without the column gives the empty string, but
      the harness never sorts such rows. */
  function Cell(row: Row, column: nat): string {
    if column < |row| then row[column] else ""
  }

  /** Every row has the column. */
  predicate HasColumn(rows: seq<Row>, column: nat) {
    forall k :: 0 <= k < |rows| ==> column < |rows[k]|
  }

  /** Rows ordered by their cells in one column. */
  function RowLe(keyLe: (string, string) -> bool, column: nat): (Row, Row) -> bool {
    (a, b) => keyLe(Cell(a, column), Cell(b, column))
  }

  /** Ordering rows by a column inherits totality and transitivity from the
      key order. */
  lemma RowLeTotalPreorder(keyLe: (string, string) -> bool, column: nat)
    requires TotalPreorder(keyLe)
    ensures TotalPreorder(RowLe(keyLe, column))
  {
    var le := RowLe(keyLe, column);
    forall a, b
      ensures le(a, b) || le(b, a)
    {
      assert keyLe(Cell(a, column), Cell(b, column)) || keyLe(Cell(b, column), Cell(a, column));
    }
    forall a, b, c | le(a, b) && le(b, c)
      ensures le(a, c)
    {
      assert keyLe(Cell(a, column), Cell(b, column)) && keyLe(Cell(b, column), Cell(c, column));
    }
  }

  /** The `switch` of lines 206-217 and 244-255: runs one algorithm. Every
      algorithm sorts; insertion sort and merge sort are also stable, and
      therefore return the very same list. On a
      list already in order every algorithm but heap sort changes nothing,
      and heap sort may only reorder tied rows. */
  method SortWith<T(!new)>(alg: Algorithm, rows: seq<T>, le: (T, T) -> bool) returns (r: seq<T>)
    requires TotalPreorder(le)
    ensures |r| == |rows|
    ensures multiset(r) == multiset(rows)
    ensures Sorted(r, le)
    ensures alg == Insertion || alg == Merge ==> Stable(rows, r, le)
    ensures alg == Insertion ==> r == MergeSorting.MergeSort(rows, le)
    ensures alg != Heap && Sorted(rows, le) ==> r == rows
    ensures Sorted(rows, le) ==> forall k :: 0 <= k < |r| ==> Tied(le, r[k], rows[k])
  {
    match alg
    case Insertion =>
      r := InsertionSorting.InsertionSort(rows, le);
      MergeSorting.MergeSortSorted(rows, le);
      MergeSorting.MergeSortStable(rows, le);
      SortedUniqueness.StableSortUnique(rows, r, MergeSorting.MergeSort(rows, le), le);
    case Shell =>
      ghost var gaps;
      r, gaps := ShellSorting.ShellSort(rows, le);
    case Merge =>
      r := MergeSorting.MergeSort(rows, le);
      MergeSorting.MergeSortSorted(rows, le);
      MergeSorting.MergeSortStable(rows, le);
      if Sorted(rows, le) {
        MergeSorting.MergeSortIdempotent(rows, le);
      }
    case Quick =>
      r := QuickSorting.QuickSortList(rows, le);
    case Heap =>
      r := HeapSorting.HeapSort(rows, le);
      if Sorted(rows, le) {
        SortedUniqueness.SortedPermutationsTied(r, rows, le);
      }
  }

  /** Why a run produced no sorted list. */
  datatype Error =
    | NoSelection  // no data loaded, or no column selected (lines 192-195, 231-234)
    | Cancelled    // the algorithm dialog was dismissed (lines 198-200)
    | NoRows       // `subList(1, 0)` on an empty list throws (lines 202, 236)
    | ShortRow     // a row has no cell in the selected column

  /** `sortColumn`: the rows sorted are `csvData.subList(1, size)`, so the
      first data row is left out (the header was already removed when the
      file was loaded). */
  method SortColumn(csvData: Option<seq<Row>>, column: int, choice: Option<Algorithm>, keyLe: (string, string) -> bool)
    returns (r: Result<seq<Row>, Error>)
    requires TotalPreorder(keyLe)
    ensures r.Failure? <==>
              csvData.None? || column < 0 || choice.None? || |csvData.value| == 0
              || !HasColumn(csvData.value[1..], column)
    ensures r.Failure? && (csvData.None? || column < 0) ==> r.error == NoSelection
    ensures r.Failure? && csvData.Some? && column >= 0 && choice.None? ==> r.error == Cancelled
    ensures r.Success? ==>
              var rows, le := csvData.value[1..], RowLe(keyLe, column);
              && |r.value| == |rows|
              && multiset(r.value) == multiset(rows)
              && Sorted(r.value, le)
              && (choice.value == Insertion || choice.value == Merge ==> Stable(rows, r.value, le))
  {
    if csvData.None? || column < 0 {
      return Failure(NoSelection);
    }
    if choice.None? {
      return Failure(Cancelled);
    }
    if |csvData.value| == 0 {
      return Failure(NoRows);
    }
    var rows := csvData.value[1..];
    if !HasColumn(rows, column) {
      return Failure(ShortRow);
    }
    RowLeTotalPreorder(keyLe, column);
    var sorted := SortWith(choice.value, rows, RowLe(keyLe, column));
    r := Success(sorted);
  }

  /** The fastest run seen so far: its position in `Algorithms` (none yet
      while no time has beaten `Long.MAX_VALUE`) and its time. */
  datatype Best = Best(index: Option<nat>, nanos: int)

  /** One test of lines 262-265: a run replaces the best only when it is
      strictly faster. */
  function Consider(b: Best, k: nat, nanos: int): (r: Best)
    ensures r.nanos <= b.nanos && r.nanos <= nanos
    ensures r.nanos == b.nanos || r.nanos == nanos
    ensures r.index == b.index || r.index == Some(k)
    ensures nanos < b.nanos ==> r == Best(Some(k), nanos)
    ensures b.nanos <= nanos ==> r == b
  {
    if nanos < b.nanos then Best(Some(k), nanos) else b
  }

  /** The fastest of the runs timed `times`, scanned in order from
      `(none, Long.MAX_VALUE)`: the first run of least time, provided some
      run took less than `Long.MAX_VALUE`. */
  function Fastest(times: seq<int>): (b: Best)
    ensures b.index.None? <==> forall k :: 0 <= k < |times| ==> LongMax <= times[k]
    ensures b.index.None? ==> b.nanos == LongMax
    ensures b.index.Some? ==>
              && b.index.value < |times|
              && b.nanos == times[b.index.value]
              && (forall k :: 0 <= k < |times| ==> b.nanos <= times[k])
              && (forall k :: 0 <= k < b.index.value ==> b.nanos < times[k])
  {
    if |times| == 0 then Best(None, LongMax)
    else Consider(Fastest(times[..|times| - 1]), |times| - 1, times[|times| - 1])
  }

  /** Run `i` is reported exactly when it is the first of least time and
      beats `Long.MAX_VALUE`. */
  lemma FastestIsFirstMinimum(times: seq<int>, i: nat)
    requires i < |times|
    ensures Fastest(times).index == Some(i) <==>
              && times[i] < LongMax
              && (forall k :: 0 <= k < |times| ==> times[i] <= times[k])
              && (forall k :: 0 <= k < i ==> times[i] < times[k])
  {
    var b := Fastest(times);
    if b.index == Some(i) {
      var k :| 0 <= k < |times| && times[k] < LongMax;
      assert times[i] <= times[k];
    }
    if times[i] < LongMax && (forall k :: 0 <= k < |times| ==> times[i] <= times[k])
       && (forall k :: 0 <= k < i ==> times[i] < times[k])
    {
      assert b.index.Some?;
    }
  }

  /** `nanos / 1000000` on a Java `long`: the quotient truncated toward
      zero. */
  function Millis(nanos: int): (ms: int)
    ensures 0 <= nanos ==> 0 <= ms && ms * 1000000 <= nanos < ms * 1000000 + 1000000
    ensures nanos < 0 ==> ms <= 0 && ms * 1000000 - 1000000 < nanos <= ms * 1000000
  {
    if 0 <= nanos then nanos / 1000000 else -((-nanos) / 1000000)
  }

  /** What `bestAlgorithm` ends with: the working list after all five runs,
      the fastest algorithm (none when `fastestAlgorithm` stays ""), and its
      time in nanoseconds and in milliseconds (line 276). */
  datatype Report = Report(rows: seq<Row>, fastest: Option<Algorithm>, nanos: int, millis: int)

  /** `bestAlgorithm`: every algorithm sorts the list the previous one left,
      and the run times `times[k]` of `Algorithms[k]` decide the fastest. */
  method BestAlgorithm(csvData: Option<seq<Row>>, column: int, times: seq<int>, keyLe: (string, string) -> bool)
    returns (r: Result<Report, Error>)
    requires TotalPreorder(keyLe)
    requires |times| == |Algorithms|
    ensures r.Failure? <==>
              csvData.None? || column < 0 || |csvData.value| == 0 || !HasColumn(csvData.value[1..], column)
    ensures r.Failure? && (csvData.None? || column < 0) ==> r.error == NoSelection
    ensures r.Success? ==>
              var rows := csvData.value[1..];
              && |r.value.rows| == |rows|
              && multiset(r.value.rows) == multiset(rows)
              && Sorted(r.value.rows, RowLe(keyLe, column))
    ensures r.Success? ==>
              && (r.value.fastest.None? <==> forall k :: 0 <= k < |times| ==> LongMax <= times[k])
              && (forall k :: 0 <= k < |times| && r.value.fastest == Some(Algorithms[k]) ==>
                    && r.value.nanos == times[k]
                    && (forall m :: 0 <= m < |times| ==> times[k] <= times[m])
                    && (forall m :: 0 <= m < k ==> times[k] < times[m]))
              && (r.value.fastest.None? ==> r.value.nanos == LongMax)
              && r.value.millis == Millis(r.value.nanos)
  {
    if csvData.None? || column < 0 {
      return Failure(NoSelection);
    }
    if |csvData.value| == 0 {
      return Failure(NoRows);
    }
    var input := csvData.value[1..];
    if !HasColumn(input, column) {
      return Failure(ShortRow);
    }
    var le := RowLe(keyLe, column);
    RowLeTotalPreorder(keyLe, column);
    var rows := input;
    var best := Best(None, LongMax);
    var k := 0;
    while k < |Algorithms|
      invariant 0 <= k <= |Algorithms|
      invariant |rows| == |input|
      invariant multiset(rows) == multiset(input)
      invariant k > 0 ==> Sorted(rows, le)
      invariant best == Fastest(times[..k])
    {
      rows := SortWith(Algorithms[k], rows, le);
      assert times[..k + 1][..k] == times[..k];
      best := Consider(best, k, times[k]);
      k := k + 1;
    }
    assert times[..k] == times;
    var fastest := if best.index.Some? then Some(Algorithms[best.index.value]) else None;
    r := Success(Report(rows, fastest, best.nanos, Millis(best.nanos)));
  }
}
