/** Heap sort (`heapSort` and `heapify`, SortingPerformanceApp.java:430-456):
    build a max-heap bottom-up over the whole list, then repeatedly swap the
    root with the last element of the shrinking heap and sift the new root
    down. Node `p` has children `2p + 1` and `2p + 2`. */
module HeapSorting {
  import opened Orders

  predicate IsChild(p: int, c: int) {
    c == 2 * p + 1 || c == 2 * p + 2
  }

  /** Every node `p >= lo` of the heap `a[..n]` is not below its children. */
  ghost predicate HeapFrom<T>(a: seq<T>, lo: nat, n: int, le: (T, T) -> bool)
    requires n <= |a|
  {
    forall p, c :: lo <= p < c < n && IsChild(p, c) ==> le(a[c], a[p])
  }

  /** `heapify(data, n, i)`: sifts the element at `i` down the heap
      `a0[..n]`. Before the call, the nodes from `lo` on may be out of order
      only at `i` itself, and `i`'s parent (if it is a node from `lo` on) is
      not below `i`'s children. Afterwards all nodes from `lo` on are in
      order, and only positions in `[i, n)` have moved. */
  method Heapify<T(!new)>(a0: seq<T>, n: int, i: int, ghost lo: nat, le: (T, T) -> bool) returns (a: seq<T>)
    requires TotalPreorder(le)
    requires lo <= i && n <= |a0|
    requires forall p, c :: lo <= p < c < n && IsChild(p, c) && p != i ==> le(a0[c], a0[p])
    requires forall q, c :: lo <= q && IsChild(q, i) && IsChild(i, c) && c < n ==> le(a0[c], a0[q])
    ensures |a| == |a0|
    ensures multiset(a) == multiset(a0)
    ensures forall k :: 0 <= k < |a0| && (k < i || n <= k) ==> a[k] == a0[k]
    ensures HeapFrom(a, lo, n, le)
    decreases n - i
  {
    var largest := Largest(a0, n, i, le);
    if largest != i {
      var s := Swap(a0, i, largest);
      SiftStep(a0, s, n, i, largest, lo, le);
      a := Heapify(s, n, largest, lo, le);
    } else {
      a := a0;
    }
  }

  /** Lines 442-451: the position among `i` and its children inside the
      heap that holds the largest element; `i` unless a child is strictly
      greater, and the left child when both children are greater and tied. */
  function Largest<T(!new)>(a: seq<T>, n: int, i: int, le: (T, T) -> bool): (largest: int)
    requires TotalPreorder(le)
    requires 0 <= i && n <= |a|
    ensures largest == i || (IsChild(i, largest) && largest < n)
    ensures largest < n ==> le(a[i], a[largest])
    ensures forall c :: IsChild(i, c) && c < n ==> le(a[c], a[largest])
    ensures largest != i ==> !le(a[largest], a[i])
    ensures largest == 2 * i + 2 && 2 * i + 1 < n ==> !le(a[largest], a[2 * i + 1])
  {
    var left := 2 * i + 1;
    var right := 2 * i + 2;
    var largest := if left < n && !le(a[left], a[i]) then left else i;
    if right < n && !le(a[right], a[largest]) then right else largest
  }

  /** After swapping `i` with its larger child `largest`, the only node that
      may be out of order is `largest`, and its new parent (`i`) is not below
      its children. */
  lemma SiftStep<T(!new)>(a0: seq<T>, s: seq<T>, n: int, i: int, largest: int, lo: nat, le: (T, T) -> bool)
    requires TotalPreorder(le)
    requires lo <= i && n <= |a0| && IsChild(i, largest) && largest < n
    requires le(a0[i], a0[largest])
    requires forall c :: IsChild(i, c) && c < n ==> le(a0[c], a0[largest])
    requires forall p, c :: lo <= p < c < n && IsChild(p, c) && p != i ==> le(a0[c], a0[p])
    requires forall q, c :: lo <= q && IsChild(q, i) && IsChild(i, c) && c < n ==> le(a0[c], a0[q])
    requires s == Swap(a0, i, largest)
    ensures forall p, c :: lo <= p < c < n && IsChild(p, c) && p != largest ==> le(s[c], s[p])
    ensures forall q, c :: lo <= q && IsChild(q, largest) && IsChild(largest, c) && c < n ==> le(s[c], s[q])
  {
    forall p, c | lo <= p < c < n && IsChild(p, c) && p != largest
      ensures le(s[c], s[p])
    {
      if p == i {
        assert s[p] == a0[largest];
      } else if c == i {
        assert s[c] == a0[largest] && s[p] == a0[p];
      } else {
        assert s[c] == a0[c] && s[p] == a0[p];
      }
    }
    forall q, c | lo <= q && IsChild(q, largest) && IsChild(largest, c) && c < n
      ensures le(s[c], s[q])
    {
      assert q == i;
      assert s[c] == a0[c] && s[q] == a0[largest];
    }
  }

  /** The build loop (lines 431-434): heapify every internal node, from the
      last one (`n/2 - 1`) back to the root. */
  method BuildMaxHeap<T(!new)>(s: seq<T>, le: (T, T) -> bool) returns (a: seq<T>)
    requires TotalPreorder(le)
    ensures |a| == |s|
    ensures multiset(a) == multiset(s)
    ensures HeapFrom(a, 0, |a|, le)
  {
    a := s;
    var n := |a|;
    var i := n / 2 - 1;
    while i >= 0
      invariant -1 <= i < n || (n == 0 && i == -1)
      invariant |a| == n
      invariant multiset(a) == multiset(s)
      invariant HeapFrom(a, i + 1, n, le)
    {
      a := Heapify(a, n, i, i, le);
      i := i - 1;
    }
  }

  /** The root of a heap is not below any of its nodes. */
  lemma {:induction false} RootIsMax<T(!new)>(a: seq<T>, n: int, k: int, le: (T, T) -> bool)
    requires TotalPreorder(le)
    requires 0 <= k < n <= |a|
    requires HeapFrom(a, 0, n, le)
    ensures le(a[k], a[0])
    decreases k
  {
    if k > 0 {
      var p := (k - 1) / 2;
      assert IsChild(p, k);
      RootIsMax(a, n, p, le);
    }
  }

  /** One step of the extraction loop (lines 436-437): the root, the largest
      element of the heap `a0[..i + 1]`, moves to position `i`. Afterwards
      `a[i..]` holds the largest elements in sorted order and `a[..i]` is a
      heap again. */
  method ExtractMax<T(!new)>(a0: seq<T>, i: int, le: (T, T) -> bool) returns (a: seq<T>)
    requires TotalPreorder(le)
    requires 0 < i < |a0|
    requires HeapFrom(a0, 0, i + 1, le)
    requires SortedBetween(a0, i + 1, |a0|, le)
    requires forall p, q :: 0 <= p <= i < q < |a0| ==> le(a0[p], a0[q])
    ensures |a| == |a0|
    ensures multiset(a) == multiset(a0)
    ensures HeapFrom(a, 0, i, le)
    ensures SortedBetween(a, i, |a|, le)
    ensures forall p, q :: 0 <= p < i <= q < |a| ==> le(a[p], a[q])
  {
    var s := Swap(a0, 0, i);
    a := Heapify(s, i, 0, 0, le);
    ExtractFacts(a0, s, a, i, le);
  }

  lemma ExtractFacts<T(!new)>(a0: seq<T>, s: seq<T>, a: seq<T>, i: int, le: (T, T) -> bool)
    requires TotalPreorder(le)
    requires 0 < i < |a0|
    requires HeapFrom(a0, 0, i + 1, le)
    requires SortedBetween(a0, i + 1, |a0|, le)
    requires forall p, q :: 0 <= p <= i < q < |a0| ==> le(a0[p], a0[q])
    requires s == Swap(a0, 0, i)
    requires |a| == |s| && multiset(a) == multiset(s)
    requires forall k :: 0 <= k < |s| && i <= k ==> a[k] == s[k]
    ensures SortedBetween(a, i, |a|, le)
    ensures forall p, q :: 0 <= p < i <= q < |a| ==> le(a[p], a[q])
  {
    forall k | 0 <= k < i
      ensures le(s[k], a0[0])
    {
      if k == 0 {
        RootIsMax(a0, i + 1, i, le);
      } else {
        RootIsMax(a0, i + 1, k, le);
      }
    }
    SliceMultiset(s, a, 0, i);
    PermutedSliceKeeps(a, s, 0, i, x => le(x, a0[0]));
    forall p, q | 0 <= p < i <= q < |a|
      ensures le(a[p], a[q])
    {
      if q > i {
        assert le(a0[0], a0[q]);
      }
    }
  }

  /** Sorts the list: build the heap, then extract the maximum `n - 1`
      times. */
  method HeapSort<T(!new)>(s: seq<T>, le: (T, T) -> bool) returns (r: seq<T>)
    requires TotalPreorder(le)
    ensures |r| == |s|
    ensures multiset(r) == multiset(s)
    ensures Sorted(r, le)
  {
    var a := BuildMaxHeap(s, le);
    var n := |a|;
    var i := n - 1;
    while i > 0
      invariant 0 <= i < n || (n == 0 && i == -1)
      invariant |a| == n
      invariant multiset(a) == multiset(s)
      invariant HeapFrom(a, 0, i + 1, le)
      invariant SortedBetween(a, i + 1, n, le)
      invariant forall p, q :: 0 <= p <= i < q < n ==> le(a[p], a[q])
    {
      a := ExtractMax(a, i, le);
      i := i - 1;
    }
    r := a;
  }
}
