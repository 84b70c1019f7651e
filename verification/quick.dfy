/** Quick sort (`quickSort`, SortingPerformanceApp.java:408-427): three-way
    (Dutch national flag) partition around the last element of the range,
    then recursion on the parts strictly below and strictly above it. */
module QuickSorting {
  import opened Orders

  /** `compare(x, pivot) < 0`. */
  predicate Below<T>(le: (T, T) -> bool, x: T, pivot: T) {
    !le(pivot, x)
  }

  /** `compare(x, pivot) > 0`. */
  predicate Above<T>(le: (T, T) -> bool, x: T, pivot: T) {
    !le(x, pivot)
  }

  /** Sorts the inclusive range `[low, high]` of the list and leaves every
      other position alone. A range of at most one element is a no-op, so
      the initial call `quickSort(rows, column, 0, rows.size() - 1)` is fine
      on an empty list. */
  method QuickSort<T(!new)>(a0: seq<T>, low: int, high: int, le: (T, T) -> bool) returns (a: seq<T>)
    requires TotalPreorder(le)
    requires low >= high || (0 <= low && high < |a0|)
    ensures |a| == |a0|
    ensures multiset(a) == multiset(a0)
    ensures forall k :: 0 <= k < |a0| && (k < low || high < k) ==> a[k] == a0[k]
    ensures low < high ==> SortedBetween(a, low, high + 1, le)
    ensures low >= high || SortedBetween(a0, low, high + 1, le) ==> a == a0
    decreases high - low
  {
    if low >= high {
      return a0;
    }
    var p, lt, gt := Partition(a0, low, high, le);
    var a1 := QuickSort(p, low, lt - 1, le);
    a := QuickSort(a1, gt + 1, high, le);
    QuickCombine(p, a1, a, low, lt, gt, high, a0[high], le);
  }

  /** Sorts a whole list, as the benchmark calls it. */
  method QuickSortList<T(!new)>(s: seq<T>, le: (T, T) -> bool) returns (r: seq<T>)
    requires TotalPreorder(le)
    ensures |r| == |s|
    ensures multiset(r) == multiset(s)
    ensures Sorted(r, le)
    ensures Sorted(s, le) ==> r == s
  {
    r := QuickSort(s, 0, |s| - 1, le);
  }

  /** The partition loop (lines 410-423). On return, with `pivot` the last
      element of the range, `[low, lt)` is strictly below the pivot,
      `[lt, gt]` is tied with it and is not empty, and `(gt, high]` is
      strictly above it. Positions outside `[low, high]` are not touched.
      A range already in order is left as it is, with nothing above the
      pivot. */
  method Partition<T(!new)>(a0: seq<T>, low: int, high: int, le: (T, T) -> bool)
    returns (a: seq<T>, lt: int, gt: int)
    requires TotalPreorder(le)
    requires 0 <= low < high < |a0|
    ensures |a| == |a0|
    ensures multiset(a) == multiset(a0)
    ensures forall k :: 0 <= k < |a0| && (k < low || high < k) ==> a[k] == a0[k]
    ensures low <= lt <= gt <= high
    ensures forall k :: low <= k < lt ==> Below(le, a[k], a0[high])
    ensures forall k :: lt <= k <= gt ==> Tied(le, a[k], a0[high])
    ensures forall k :: gt < k <= high ==> Above(le, a[k], a0[high])
    ensures SortedBetween(a0, low, high + 1, le) ==> a == a0 && gt == high
  {
    a := a0;
    var pivot := a[high];
    lt, gt := low, high;
    var i := low;
    while i <= gt
      invariant low <= lt <= i <= gt + 1 <= high + 1
      invariant |a| == |a0|
      invariant multiset(a) == multiset(a0)
      invariant forall k :: 0 <= k < |a| && (k < low || high < k) ==> a[k] == a0[k]
      invariant forall k :: low <= k < lt ==> Below(le, a[k], pivot)
      invariant forall k :: lt <= k < i ==> Tied(le, a[k], pivot)
      invariant forall k :: gt < k <= high ==> Above(le, a[k], pivot)
      invariant SortedBetween(a0, low, high + 1, le) ==> a == a0 && gt == high
      decreases gt - i + 1
    {
      a, lt, i, gt := PartitionStep(a0, a, low, lt, i, gt, high, le);
    }
    PivotBandNonEmpty(a0, a, low, lt, gt, high, le);
  }

  /** One iteration of the partition loop (lines 415-422): an element below
      the pivot is swapped to the end of the lower band, one above it to the
      front of the upper band, and a tied one is stepped over. */
  method PartitionStep<T(!new)>(a0: seq<T>, a: seq<T>, low: int, lt: int, i: int, gt: int, high: int, le: (T, T) -> bool)
    returns (a': seq<T>, lt': int, i': int, gt': int)
    requires TotalPreorder(le)
    requires 0 <= low <= lt <= i <= gt <= high < |a0| == |a|
    requires multiset(a) == multiset(a0)
    requires forall k :: 0 <= k < |a| && (k < low || high < k) ==> a[k] == a0[k]
    requires forall k :: low <= k < lt ==> Below(le, a[k], a0[high])
    requires forall k :: lt <= k < i ==> Tied(le, a[k], a0[high])
    requires forall k :: gt < k <= high ==> Above(le, a[k], a0[high])
    requires SortedBetween(a0, low, high + 1, le) ==> a == a0 && gt == high
    ensures low <= lt' <= i' <= gt' + 1 <= high + 1
    ensures gt' - i' < gt - i
    ensures |a'| == |a0|
    ensures multiset(a') == multiset(a0)
    ensures forall k :: 0 <= k < |a'| && (k < low || high < k) ==> a'[k] == a0[k]
    ensures forall k :: low <= k < lt' ==> Below(le, a'[k], a0[high])
    ensures forall k :: lt' <= k < i' ==> Tied(le, a'[k], a0[high])
    ensures forall k :: gt' < k <= high ==> Above(le, a'[k], a0[high])
    ensures SortedBetween(a0, low, high + 1, le) ==> a' == a0 && gt' == high
  {
    var pivot := a0[high];
    if SortedBetween(a0, low, high + 1, le) {
      InOrderStep(a0, low, lt, i, high, le);
    }
    if Below(le, a[i], pivot) {
      a' := Swap(a, lt, i);
      lt', i', gt' := lt + 1, i + 1, gt;
    } else if Above(le, a[i], pivot) {
      a' := Swap(a, i, gt);
      lt', i', gt' := lt, i, gt - 1;
    } else {
      a', lt', i', gt' := a, lt, i + 1, gt;
    }
  }

  /** In a range already in order, once the loop has seen an element tied
      with the pivot it cannot meet one strictly below it, and it never
      meets one strictly above it: every swap is then a no-op. */
  lemma InOrderStep<T(!new)>(a: seq<T>, low: int, lt: int, i: int, high: int, le: (T, T) -> bool)
    requires TotalPreorder(le)
    requires 0 <= low <= lt <= i <= high < |a|
    requires SortedBetween(a, low, high + 1, le)
    requires forall k :: lt <= k < i ==> Tied(le, a[k], a[high])
    ensures !Above(le, a[i], a[high])
    ensures Below(le, a[i], a[high]) ==> lt == i
  {
    if i < high {
      assert le(a[i], a[high]);
    }
    if lt < i {
      assert le(a[lt], a[i]);
    }
  }

  /** The pivot itself is tied with itself, so it ends up in the middle
      band, which is therefore not empty. */
  lemma PivotBandNonEmpty<T(!new)>(a0: seq<T>, a: seq<T>, low: int, lt: int, gt: int, high: int, le: (T, T) -> bool)
    requires Total(le)
    requires 0 <= low <= high && low <= lt <= gt + 1 <= high + 1 <= |a0| == |a|
    requires multiset(a) == multiset(a0)
    requires forall k :: 0 <= k < |a| && (k < low || high < k) ==> a[k] == a0[k]
    requires forall k :: low <= k < lt ==> Below(le, a[k], a0[high])
    requires forall k :: gt < k <= high ==> Above(le, a[k], a0[high])
    ensures lt <= gt
  {
    SliceMultiset(a0, a, low, high + 1);
    assert a0[high] == a0[low..high + 1][high - low];
    assert a0[high] in multiset(a[low..high + 1]);
    var m :| 0 <= m < high + 1 - low && a[low..high + 1][m] == a0[high];
    assert a[low + m] == a0[high];
    assert le(a0[high], a0[high]);
  }

  /** After both recursive calls the three bands are each in order and
      still lie below, on and above the pivot, so the range is sorted. */
  lemma QuickCombine<T(!new)>(p: seq<T>, a1: seq<T>, a: seq<T>, low: int, lt: int, gt: int, high: int, pivot: T, le: (T, T) -> bool)
    requires TotalPreorder(le)
    requires 0 <= low <= lt <= gt <= high < |p| == |a1| == |a|
    requires forall k :: low <= k < lt ==> Below(le, p[k], pivot)
    requires forall k :: lt <= k <= gt ==> Tied(le, p[k], pivot)
    requires forall k :: gt < k <= high ==> Above(le, p[k], pivot)
    requires multiset(a1) == multiset(p)
    requires forall k :: 0 <= k < |p| && (k < low || lt - 1 < k) ==> a1[k] == p[k]
    requires low < lt - 1 ==> SortedBetween(a1, low, lt, le)
    requires multiset(a) == multiset(a1)
    requires forall k :: 0 <= k < |p| && (k < gt + 1 || high < k) ==> a[k] == a1[k]
    requires gt + 1 < high ==> SortedBetween(a, gt + 1, high + 1, le)
    ensures SortedBetween(a, low, high + 1, le)
  {
    SliceMultiset(p, a1, low, lt);
    PermutedSliceKeeps(a1, p, low, lt, x => Below(le, x, pivot));
    SliceMultiset(a1, a, gt + 1, high + 1);
    PermutedSliceKeeps(a, a1, gt + 1, high + 1, x => Above(le, x, pivot));
    forall p', q' | low <= p' < q' <= high
      ensures le(a[p'], a[q'])
    {
      if q' < lt {
        assert a[p'] == a1[p'] && a[q'] == a1[q'];
      } else if p' > gt {
      } else if p' < lt {
        assert a[p'] == a1[p'] && Below(le, a[p'], pivot);
      } else if q' <= gt {
        assert a[p'] == p[p'] && a[q'] == p[q'];
      } else {
        assert a[p'] == p[p'] && Above(le, a[q'], pivot);
      }
    }
  }
}
