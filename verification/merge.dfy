/** Merge sort (`mergeSort` and `merge`, SortingPerformanceApp.java:383-406).

    The Java code returns a new list rather than sorting in place, so it is
    modelled by pure functions on sequences. */
module MergeSorting {
  import opened Orders

  /** Merges two lists, taking from `left` whenever its head is not greater
      than the head of `right` (`compare <= 0`), then appending whatever is
      left of either list. */
  function Merge<T>(left: seq<T>, right: seq<T>, le: (T, T) -> bool): (m: seq<T>)
    ensures |m| == |left| + |right|
    ensures multiset(m) == multiset(left) + multiset(right)
    decreases |left| + |right|
  {
    if |left| == 0 then right
    else if |right| == 0 then left
    else if le(left[0], right[0]) then
      assert left == [left[0]] + left[1..];
      [left[0]] + Merge(left[1..], right, le)
    else
      assert right == [right[0]] + right[1..];
      [right[0]] + Merge(left, right[1..], le)
  }

  /** Lists of at most one row come back as they are; longer lists are split
      at `mid = size / 2`, each half is sorted, and the halves are merged. */
  function MergeSort<T>(s: seq<T>, le: (T, T) -> bool): (r: seq<T>)
    ensures |r| == |s|
    ensures multiset(r) == multiset(s)
    ensures |s| <= 1 ==> r == s
    decreases |s|
  {
    if |s| <= 1 then s
    else
      var mid := |s| / 2;
      assert s == s[..mid] + s[mid..];
      Merge(MergeSort(s[..mid], le), MergeSort(s[mid..], le), le)
  }

  /** A lower bound of both inputs is a lower bound of the merge. */
  lemma MergeBelow<T>(left: seq<T>, right: seq<T>, x: T, le: (T, T) -> bool)
    requires forall k :: 0 <= k < |left| ==> le(x, left[k])
    requires forall k :: 0 <= k < |right| ==> le(x, right[k])
    ensures forall k :: 0 <= k < |Merge(left, right, le)| ==> le(x, Merge(left, right, le)[k])
  {
    var m := Merge(left, right, le);
    forall k | 0 <= k < |m|
      ensures le(x, m[k])
    {
      assert m[k] in multiset(left) + multiset(right);
      if m[k] in left {
        var p :| 0 <= p < |left| && left[p] == m[k];
      } else {
        assert m[k] in right;
        var p :| 0 <= p < |right| && right[p] == m[k];
      }
    }
  }

  /** Prepending an element not above any element keeps a list sorted. */
  lemma SortedCons<T>(x: T, s: seq<T>, le: (T, T) -> bool)
    requires Sorted(s, le)
    requires forall k :: 0 <= k < |s| ==> le(x, s[k])
    ensures Sorted([x] + s, le)
  {
    var t := [x] + s;
    forall p, q | 0 <= p < q < |t|
      ensures le(t[p], t[q])
    {
      if p == 0 {
        assert t[q] == s[q - 1];
      } else {
        assert t[p] == s[p - 1] && t[q] == s[q - 1];
      }
    }
  }

  /** The merge of two sorted lists is sorted. */
  lemma {:induction false} MergeSorted<T(!new)>(left: seq<T>, right: seq<T>, le: (T, T) -> bool)
    requires TotalPreorder(le)
    requires Sorted(left, le) && Sorted(right, le)
    ensures Sorted(Merge(left, right, le), le)
    decreases |left| + |right|
  {
    if |left| > 0 && |right| > 0 {
      if le(left[0], right[0]) {
        var x, rest := left[0], left[1..];
        MergeSorted(rest, right, le);
        assert forall k :: 0 <= k < |right| ==> le(right[0], right[k]);
        MergeBelow(rest, right, x, le);
        SortedCons(x, Merge(rest, right, le), le);
      } else {
        var x, rest := right[0], right[1..];
        MergeSorted(left, rest, le);
        assert forall k :: 0 <= k < |left| ==> le(left[0], left[k]);
        MergeBelow(left, rest, x, le);
        SortedCons(x, Merge(left, rest, le), le);
      }
    }
  }

  /** The merge is stable: the rows tied with `x` come out as those of
      `left` followed by those of `right`. */
  lemma {:induction false} MergeTies<T(!new)>(left: seq<T>, right: seq<T>, x: T, le: (T, T) -> bool)
    requires TotalPreorder(le)
    requires Sorted(left, le) && Sorted(right, le)
    ensures TiesOf(Merge(left, right, le), x, le) == TiesOf(left, x, le) + TiesOf(right, x, le)
    decreases |left| + |right|
  {
    if |left| == 0 {
      assert TiesOf(left, x, le) == [];
    } else if |right| == 0 {
      assert TiesOf(right, x, le) == [];
    } else if le(left[0], right[0]) {
      SortedTail(left, le);
      MergeTies(left[1..], right, x, le);
      TakeLeftTies(left, right, x, le);
    } else {
      SortedTail(right, le);
      MergeTies(left, right[1..], x, le);
      TakeRightTies(left, right, x, le);
    }
  }

  /** The step of `MergeTies` where the head of `left` is taken. */
  lemma TakeLeftTies<T>(left: seq<T>, right: seq<T>, x: T, le: (T, T) -> bool)
    requires |left| > 0 && |right| > 0 && le(left[0], right[0])
    requires TiesOf(Merge(left[1..], right, le), x, le) == TiesOf(left[1..], x, le) + TiesOf(right, x, le)
    ensures TiesOf(Merge(left, right, le), x, le) == TiesOf(left, x, le) + TiesOf(right, x, le)
  {
    var head := if Tied(le, left[0], x) then [left[0]] else [];
    var m := Merge(left[1..], right, le);
    var tl, tr := TiesOf(left[1..], x, le), TiesOf(right, x, le);
    TiesOfConcat([left[0]], m, x, le);
    calc {
      TiesOf(Merge(left, right, le), x, le);
      TiesOf([left[0]] + m, x, le);
      TiesOf([left[0]], x, le) + TiesOf(m, x, le);
      { assert TiesOf([left[0]], x, le) == head; }
      head + (tl + tr);
      { SeqAssoc(head, tl, tr); }
      (head + tl) + tr;
      TiesOf(left, x, le) + tr;
    }
  }

  /** The step of `MergeTies` where the head of `right` is taken. */
  lemma TakeRightTies<T(!new)>(left: seq<T>, right: seq<T>, x: T, le: (T, T) -> bool)
    requires TotalPreorder(le)
    requires |left| > 0 && |right| > 0 && !le(left[0], right[0])
    requires Sorted(left, le)
    requires TiesOf(Merge(left, right[1..], le), x, le) == TiesOf(left, x, le) + TiesOf(right[1..], x, le)
    ensures TiesOf(Merge(left, right, le), x, le) == TiesOf(left, x, le) + TiesOf(right, x, le)
  {
    var head := if Tied(le, right[0], x) then [right[0]] else [];
    var m := Merge(left, right[1..], le);
    var tl, tr := TiesOf(left, x, le), TiesOf(right[1..], x, le);
    TiesOfConcat([right[0]], m, x, le);
    NothingTiedBelow(left, right[0], x, le);
    assert head == [] || tl == [];
    calc {
      TiesOf(Merge(left, right, le), x, le);
      TiesOf([right[0]] + m, x, le);
      TiesOf([right[0]], x, le) + TiesOf(m, x, le);
      { assert TiesOf([right[0]], x, le) == head; }
      head + (tl + tr);
      { if head == [] { assert head + (tl + tr) == tl + tr; } else { assert tl + (head + tr) == head + tr; } }
      tl + (head + tr);
      tl + TiesOf(right, x, le);
    }
  }

  /** Concatenation is associative; stated on its own so that the calc step
      in `TakeLeftTies` stays cheap. */
  lemma SeqAssoc<T>(a: seq<T>, b: seq<T>, c: seq<T>)
    ensures a + (b + c) == (a + b) + c
  {
  }

  lemma SortedTail<T>(s: seq<T>, le: (T, T) -> bool)
    requires |s| > 0 && Sorted(s, le)
    ensures Sorted(s[1..], le)
  {
    forall p, q | 0 <= p < q < |s| - 1
      ensures le(s[1..][p], s[1..][q])
    {
      assert s[1..][p] == s[p + 1] && s[1..][q] == s[q + 1];
    }
  }

  /** When the head of `right` is taken it is strictly below the head of
      `left`, hence below all of `left`, so nothing in `left` is tied with
      it. */
  lemma NothingTiedBelow<T(!new)>(left: seq<T>, y: T, x: T, le: (T, T) -> bool)
    requires TotalPreorder(le)
    requires |left| > 0 && Sorted(left, le) && !le(left[0], y)
    ensures Tied(le, y, x) ==> TiesOf(left, x, le) == []
  {
    if Tied(le, y, x) {
      forall k | 0 <= k < |left|
        ensures !Tied(le, left[k], x)
      {
        if k > 0 {
          assert le(left[0], left[k]);
        }
      }
      TiesOfNone(left, x, le);
    }
  }

  /** Merge sort sorts. */
  lemma {:induction false} MergeSortSorted<T(!new)>(s: seq<T>, le: (T, T) -> bool)
    requires TotalPreorder(le)
    ensures Sorted(MergeSort(s, le), le)
    decreases |s|
  {
    if |s| > 1 {
      var mid := |s| / 2;
      MergeSortSorted(s[..mid], le);
      MergeSortSorted(s[mid..], le);
      MergeSorted(MergeSort(s[..mid], le), MergeSort(s[mid..], le), le);
    }
  }

  /** Merge sort is stable: the rows tied with any `x` come out in their
      original order. */
  lemma {:induction false} MergeSortStable<T(!new)>(s: seq<T>, le: (T, T) -> bool)
    requires TotalPreorder(le)
    ensures Stable(s, MergeSort(s, le), le)
    decreases |s|
  {
    if |s| <= 1 {
      forall x
        ensures TiesOf(MergeSort(s, le), x, le) == TiesOf(s, x, le)
      {
      }
    } else {
      var mid := |s| / 2;
      var l, r := s[..mid], s[mid..];
      MergeSortStable(l, le);
      MergeSortStable(r, le);
      MergeSortSorted(l, le);
      MergeSortSorted(r, le);
      var sl, sr := MergeSort(l, le), MergeSort(r, le);
      assert s == l + r;
      forall x
        ensures TiesOf(MergeSort(s, le), x, le) == TiesOf(s, x, le)
      {
        MergeTies(sl, sr, x, le);
        TiesOfConcat(l, r, x, le);
      }
    }
  }

  /** Merging two lists that are already in order, `left` before `right`,
      gives back their concatenation. */
  lemma {:induction false} MergeInOrder<T>(left: seq<T>, right: seq<T>, le: (T, T) -> bool)
    requires Sorted(left + right, le)
    ensures Merge(left, right, le) == left + right
    decreases |left|
  {
    if |left| > 0 && |right| > 0 {
      var t := left + right;
      assert t[0] == left[0] && t[|left|] == right[0];
      assert left[1..] + right == t[1..];
      MergeInOrder(left[1..], right, le);
      assert left == [left[0]] + left[1..];
    } else if |left| == 0 {
      assert left + right == right;
    } else {
      assert left + right == left;
    }
  }

  /** Sorting an already sorted list gives it back unchanged. */
  lemma {:induction false} MergeSortIdempotent<T>(s: seq<T>, le: (T, T) -> bool)
    requires Sorted(s, le)
    ensures MergeSort(s, le) == s
    decreases |s|
  {
    if |s| > 1 {
      var mid := |s| / 2;
      var l, r := s[..mid], s[mid..];
      assert s == l + r;
      assert Sorted(l, le) by {
        forall p, q | 0 <= p < q < |l| ensures le(l[p], l[q]) { assert l[p] == s[p] && l[q] == s[q]; }
      }
      assert Sorted(r, le) by {
        forall p, q | 0 <= p < q < |r| ensures le(r[p], r[q]) { assert r[p] == s[mid + p] && r[q] == s[mid + q]; }
      }
      MergeSortIdempotent(l, le);
      MergeSortIdempotent(r, le);
      MergeInOrder(l, r, le);
    }
  }
}
