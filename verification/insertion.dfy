/** Insertion sort (`insertionSort`, SortingPerformanceApp.java:355-366).

    The Java list is modelled as a sequence that the method updates position
    by position, exactly where the Java code calls `data.set`. */
module InsertionSorting {
  import opened Orders

  /** Sorts `s` by shifting each element left past every larger one. The
      shift happens only while `compare > 0`, i.e. while the element to the
      left is strictly greater, so tied elements are never reordered. */
  method InsertionSort<T(!new)>(s: seq<T>, le: (T, T) -> bool) returns (r: seq<T>)
    requires TotalPreorder(le)
    ensures |r| == |s|
    ensures multiset(r) == multiset(s)
    ensures Sorted(r, le)
    ensures Stable(s, r, le)
    ensures Sorted(s, le) ==> r == s
  {
    var a := s;
    var n := |a|;
    var i := 1;
    while i < n
      invariant 1 <= i && (i <= n || n == 0)
      invariant |a| == n
      invariant i <= n ==> SortedBetween(a, 0, i, le)
      invariant multiset(a) == multiset(s)
      invariant Stable(s, a, le)
      invariant Sorted(s, le) ==> a == s
    {
      a := InsertOne(a, i, le);
      i := i + 1;
    }
    if n == 0 {
      assert Sorted(a, le);
    }
    r := a;
  }

  /** One pass of the outer loop (lines 358-364): the element at `i` is
      taken out, every strictly greater element to its left moves one place
      right, and the element drops into the gap. */
  method InsertOne<T(!new)>(a0: seq<T>, i: int, le: (T, T) -> bool) returns (a: seq<T>)
    requires TotalPreorder(le)
    requires 0 < i < |a0|
    requires SortedBetween(a0, 0, i, le)
    ensures |a| == |a0|
    ensures multiset(a) == multiset(a0)
    ensures SortedBetween(a, 0, i + 1, le)
    ensures forall k :: i < k < |a0| ==> a[k] == a0[k]
    ensures forall x :: TiesOf(a, x, le) == TiesOf(a0, x, le)
    ensures SortedBetween(a0, 0, i + 1, le) ==> a == a0
  {
    var n := |a0|;
    a := a0;
    var key := a[i];
    var j := i - 1;
    while j >= 0 && !le(a[j], key)
      invariant -1 <= j < i
      invariant |a| == n
      invariant forall k :: 0 <= k <= j ==> a[k] == a0[k]
      invariant forall k :: j + 1 < k <= i ==> a[k] == a0[k - 1]
      invariant forall k :: i < k < n ==> a[k] == a0[k]
      invariant forall k :: j < k < i ==> !le(a0[k], key)
      invariant SortedBetween(a0, 0, i + 1, le) ==> j == i - 1 && a == a0
    {
      a := a[j + 1 := a[j]];
      j := j - 1;
    }
    a := a[j + 1 := key];
    InsertStep(a0, i, j, a, le);
  }

  /** One pass of the outer loop: `key == a0[i]` moves from position `i` to
      position `j + 1`, past exactly the elements strictly greater than it.
      The prefix grows by one and stays sorted, and no tied pair swaps. */
  lemma InsertStep<T(!new)>(a0: seq<T>, i: int, j: int, a1: seq<T>, le: (T, T) -> bool)
    requires TotalPreorder(le)
    requires 0 <= i < |a0| && -1 <= j < i
    requires SortedBetween(a0, 0, i, le)
    requires j >= 0 ==> le(a0[j], a0[i])
    requires forall k :: j < k < i ==> !le(a0[k], a0[i])
    requires |a1| == |a0|
    requires forall k :: 0 <= k <= j ==> a1[k] == a0[k]
    requires a1[j + 1] == a0[i]
    requires forall k :: j + 1 < k <= i ==> a1[k] == a0[k - 1]
    requires forall k :: i < k < |a0| ==> a1[k] == a0[k]
    ensures multiset(a1) == multiset(a0)
    ensures SortedBetween(a1, 0, i + 1, le)
    ensures forall x :: TiesOf(a1, x, le) == TiesOf(a0, x, le)
  {
    InsertSorted(a0, i, j, a1, le);
    ShiftShape(a0, i, j, a1);
    forall x
      ensures TiesOf(a1, x, le) == TiesOf(a0, x, le)
    {
      InsertTies(a0[..j + 1], a0[j + 1..i], a0[i], a0[i + 1..], x, le);
    }
  }

  /** The shape of the list after one pass, as concatenations. */
  lemma ShiftShape<T>(a0: seq<T>, i: int, j: int, a1: seq<T>)
    requires 0 <= i < |a0| && -1 <= j < i
    requires |a1| == |a0|
    requires forall k :: 0 <= k <= j ==> a1[k] == a0[k]
    requires a1[j + 1] == a0[i]
    requires forall k :: j + 1 < k <= i ==> a1[k] == a0[k - 1]
    requires forall k :: i < k < |a0| ==> a1[k] == a0[k]
    ensures a0 == a0[..j + 1] + a0[j + 1..i] + [a0[i]] + a0[i + 1..]
    ensures a1 == a0[..j + 1] + [a0[i]] + a0[j + 1..i] + a0[i + 1..]
    ensures multiset(a1) == multiset(a0)
  {
    assert a0 == a0[..j + 1] + a0[j + 1..i] + [a0[i]] + a0[i + 1..];
    var c := a0[..j + 1] + [a0[i]] + a0[j + 1..i] + a0[i + 1..];
    assert |c| == |a1|;
    forall k | 0 <= k < |a1|
      ensures a1[k] == c[k]
    {
      if k <= j {
      } else if k == j + 1 {
      } else if k <= i {
        assert c[k] == a0[j + 1..i][k - j - 2];
      } else {
      }
    }
  }

  lemma InsertSorted<T(!new)>(a0: seq<T>, i: int, j: int, a1: seq<T>, le: (T, T) -> bool)
    requires TotalPreorder(le)
    requires 0 <= i < |a0| && -1 <= j < i
    requires SortedBetween(a0, 0, i, le)
    requires j >= 0 ==> le(a0[j], a0[i])
    requires forall k :: j < k < i ==> !le(a0[k], a0[i])
    requires |a1| == |a0|
    requires forall k :: 0 <= k <= j ==> a1[k] == a0[k]
    requires a1[j + 1] == a0[i]
    requires forall k :: j + 1 < k <= i ==> a1[k] == a0[k - 1]
    ensures SortedBetween(a1, 0, i + 1, le)
  {
    var key := a0[i];
    forall p, q | 0 <= p < q < i + 1
      ensures le(a1[p], a1[q])
    {
      if q <= j {
        assert a1[p] == a0[p] && a1[q] == a0[q];
      } else if q == j + 1 {
        assert a1[p] == a0[p] && a1[q] == key;
        assert le(a0[p], a0[j]);
      } else if p == j + 1 {
        assert a1[p] == key && a1[q] == a0[q - 1];
        assert !le(a0[q - 1], key);
      } else if p <= j {
        assert a1[p] == a0[p] && a1[q] == a0[q - 1];
      } else {
        assert a1[p] == a0[p - 1] && a1[q] == a0[q - 1];
      }
    }
  }

  /** Moving `key` in front of a block of strictly greater elements keeps
      every group of tied elements in order. */
  lemma InsertTies<T(!new)>(front: seq<T>, shifted: seq<T>, key: T, rest: seq<T>, x: T, le: (T, T) -> bool)
    requires TotalPreorder(le)
    requires forall k :: 0 <= k < |shifted| ==> !le(shifted[k], key)
    ensures TiesOf(front + [key] + shifted + rest, x, le) == TiesOf(front + shifted + [key] + rest, x, le)
  {
    TiesOfConcat(front + [key] + shifted, rest, x, le);
    TiesOfConcat(front + [key], shifted, x, le);
    TiesOfConcat(front, [key], x, le);
    TiesOfConcat(front + shifted + [key], rest, x, le);
    TiesOfConcat(front + shifted, [key], x, le);
    TiesOfConcat(front, shifted, x, le);
    if Tied(le, key, x) {
      TiesOfNone(shifted, x, le);
    } else {
      assert TiesOf([key], x, le) == [];
    }
  }
}
