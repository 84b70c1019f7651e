/** Shell sort (`shellSort`, SortingPerformanceApp.java:368-381): gapped
    insertion passes with gaps `n/2, n/4, ..., 1`. */
module ShellSorting {
  import opened Orders

  /** The gaps the outer loop runs through, starting from `g` and halving
      with integer division until it reaches 0 (which is not a gap). */
  function HalvingFrom(g: nat): seq<nat>
  {
    if g == 0 then [] else [g] + HalvingFrom(g / 2)
  }

  /** The gap sequence for a list of `n` rows. */
  function ShellGaps(n: nat): seq<nat>
  {
    HalvingFrom(n / 2)
  }

  /** The gaps are `n/2, n/4, ...`: the first is `n/2`, each is half the
      one before, all are positive, and the last pass has gap 1. A list of
      fewer than two rows gets no pass at all. */
  lemma ShellGapsShape(n: nat)
    ensures var r := ShellGaps(n);
      && (n >= 2 <==> |r| > 0)
      && (|r| > 0 ==> r[0] == n / 2 && r[|r| - 1] == 1)
      && (forall k :: 0 <= k < |r| ==> r[k] > 0)
      && (forall k :: 0 < k < |r| ==> r[k] == r[k - 1] / 2)
  {
    HalvingFromShape(n / 2);
  }

  lemma {:induction false} HalvingFromShape(g: nat)
    ensures var r := HalvingFrom(g);
      && (g == 0 <==> |r| == 0)
      && (|r| > 0 ==> r[0] == g && r[|r| - 1] == 1)
      && (forall k :: 0 <= k < |r| ==> r[k] > 0)
      && (forall k :: 0 < k < |r| ==> r[k] == r[k - 1] / 2)
  {
    if g > 0 {
      HalvingFromShape(g / 2);
      var t := HalvingFrom(g / 2);
      assert HalvingFrom(g) == [g] + t;
      forall k | 0 < k < 1 + |t|
        ensures HalvingFrom(g)[k] == HalvingFrom(g)[k - 1] / 2
      {
        if k == 1 {
          assert HalvingFrom(g)[k] == t[0];
        } else {
          assert HalvingFrom(g)[k] == t[k - 1];
        }
      }
    }
  }

  /** Sorts `s`. The ghost result `gaps` records the gap of every pass in
      the order they ran. */
  method ShellSort<T(!new)>(s: seq<T>, le: (T, T) -> bool) returns (r: seq<T>, ghost gaps: seq<nat>)
    requires TotalPreorder(le)
    ensures |r| == |s|
    ensures multiset(r) == multiset(s)
    ensures Sorted(r, le)
    ensures Sorted(s, le) ==> r == s
    ensures gaps == ShellGaps(|s|)
  {
    var a := s;
    var n := |a|;
    var gap: nat := n / 2;
    gaps := [];
    while gap > 0
      invariant |a| == n
      invariant multiset(a) == multiset(s)
      invariant gap == 0 ==> Sorted(a, le)
      invariant Sorted(s, le) ==> a == s
      invariant gaps + HalvingFrom(gap) == ShellGaps(n)
      decreases gap
    {
      a := GapPass(a, gap, le);
      if gap == 1 {
        GapOneSorted(a, le);
      }
      assert HalvingFrom(gap) == [gap] + HalvingFrom(gap / 2);
      gaps := gaps + [gap];
      gap := gap / 2;
    }
    r := a;
  }

  /** One pass of the outer loop (lines 372-379): a gapped insertion sort
      that leaves the list `gap`-sorted. */
  method GapPass<T(!new)>(s: seq<T>, gap: nat, le: (T, T) -> bool) returns (a: seq<T>)
    requires Total(le)
    requires gap > 0
    ensures |a| == |s|
    ensures multiset(a) == multiset(s)
    ensures GapSorted(a, gap, le)
    ensures Sorted(s, le) ==> a == s
  {
    a := s;
    var n := |a|;
    var i := gap;
    while i < n
      invariant gap <= i && (i <= n || i == gap)
      invariant |a| == n
      invariant multiset(a) == multiset(s)
      invariant i <= n ==> GapSortedBelow(a, gap, i, le)
      invariant Sorted(s, le) ==> a == s
    {
      a := GapInsert(a, gap, i, le);
      i := i + 1;
    }
  }

  /** One step of the pass: the element at `i` moves down its chain
      `i, i - gap, i - 2*gap, ...` past every strictly greater element. */
  method GapInsert<T(!new)>(a0: seq<T>, gap: nat, i: int, le: (T, T) -> bool) returns (a: seq<T>)
    requires Total(le)
    requires 0 < gap <= i < |a0|
    requires GapSortedBelow(a0, gap, i, le)
    ensures |a| == |a0|
    ensures multiset(a) == multiset(a0)
    ensures GapSortedBelow(a, gap, i + 1, le)
    ensures forall k :: 0 <= k < |a0| && (i < k || (i - k) % gap != 0) ==> a[k] == a0[k]
    ensures Sorted(a0, le) ==> a == a0
  {
    a := a0;
    var n := |a|;
    var temp := a[i];
    var j := i;
    // `b` is the list as it would be if `temp` were written at `j` now.
    ghost var b := a;
    while j >= gap && !le(a[j - gap], temp)
      invariant 0 <= j <= i
      invariant |a| == n && |b| == n
      invariant b[j] == temp
      invariant (i - j) % gap == 0
      invariant forall k :: 0 <= k < n && (i < k || (i - k) % gap != 0) ==> b[k] == a0[k]
      invariant forall k :: 0 <= k < n && k != j ==> a[k] == b[k]
      invariant multiset(b) == multiset(a0)
      invariant forall k :: gap <= k <= i && k != j ==> le(b[k - gap], b[k])
      invariant gap <= j && j + gap <= i ==> le(b[j - gap], b[j + gap])
      invariant le(a0[i - gap], a0[i]) ==> j == i && a == a0
      decreases j
    {
      var a', b' := a[j := a[j - gap]], b[j - gap := b[j]][j := b[j - gap]];
      GapStep(a0, a, b, a', b', gap, i, j, le);
      a, b := a', b';
      j := j - gap;
    }
    a := a[j := temp];
    assert a == b;
  }

  /** The list `a` and its view `b` with the hole at `j` filled, before and
      after one shift of the inner loop. */
  lemma GapStep<T(!new)>(a0: seq<T>, a: seq<T>, b: seq<T>, a': seq<T>, b': seq<T>, gap: nat, i: int, j: int, le: (T, T) -> bool)
    requires Total(le)
    requires 0 < gap <= j <= i < |b| == |a| == |a0|
    requires (i - j) % gap == 0
    requires forall k :: 0 <= k < |a0| && (i < k || (i - k) % gap != 0) ==> b[k] == a0[k]
    requires !le(a[j - gap], b[j])
    requires forall k :: 0 <= k < |a| && k != j ==> a[k] == b[k]
    requires forall k :: gap <= k <= i && k != j ==> le(b[k - gap], b[k])
    requires j + gap <= i ==> le(b[j - gap], b[j + gap])
    requires a' == a[j := a[j - gap]]
    requires b' == b[j - gap := b[j]][j := b[j - gap]]
    ensures |a'| == |b'| == |a|
    ensures b'[j - gap] == b[j]
    ensures forall k :: 0 <= k < |a| && k != j - gap ==> a'[k] == b'[k]
    ensures multiset(b') == multiset(b)
    ensures forall k :: gap <= k <= i && k != j - gap ==> le(b'[k - gap], b'[k])
    ensures gap <= j - gap ==> le(b'[j - 2 * gap], b'[j])
    ensures (i - (j - gap)) % gap == 0
    ensures forall k :: 0 <= k < |a0| && (i < k || (i - k) % gap != 0) ==> b'[k] == a0[k]
  {
    ChainStep(i - j, gap);
    SwapMultiset(b, j - gap, j);
    GapShift(b, b', gap, i, j, le);
  }

  /** The next position down a chain is on the same chain. */
  lemma ChainStep(d: int, gap: nat)
    requires 0 < gap && d % gap == 0
    ensures (d + gap) % gap == 0
  {
    var q, q', r' := d / gap, (d + gap) / gap, (d + gap) % gap;
    var x := q + 1 - q';
    assert x * gap == r' by {
      assert d == q * gap;
      assert d + gap == q' * gap + r';
      assert (q + 1) * gap == q * gap + gap;
      assert x * gap == (q + 1) * gap - q' * gap;
    }
    if x >= 1 {
      MulAtLeast(x, gap);
    } else if x <= -1 {
      MulAtLeast(-x, gap);
    }
  }

  lemma {:induction false} MulAtLeast(x: int, gap: nat)
    requires x >= 1
    ensures x * gap >= gap
    decreases x
  {
    if x > 1 {
      MulAtLeast(x - 1, gap);
      assert x * gap == (x - 1) * gap + gap;
    }
  }

  /** One shift of the inner loop, on the list `b` with `temp` written at
      the hole `j`: `temp` trades places with the strictly greater element
      `gap` below it (giving `b'`), and the hole moves down by `gap`. */
  lemma GapShift<T(!new)>(b: seq<T>, b': seq<T>, gap: nat, i: int, j: int, le: (T, T) -> bool)
    requires Total(le)
    requires 0 < gap <= j <= i < |b| == |b'|
    requires !le(b[j - gap], b[j])
    requires forall k :: gap <= k <= i && k != j ==> le(b[k - gap], b[k])
    requires j + gap <= i ==> le(b[j - gap], b[j + gap])
    requires b'[j - gap] == b[j] && b'[j] == b[j - gap]
    requires forall k :: 0 <= k < |b| && k != j - gap && k != j ==> b'[k] == b[k]
    ensures forall k :: gap <= k <= i && k != j - gap ==> le(b'[k - gap], b'[k])
    ensures gap <= j - gap ==> le(b'[j - 2 * gap], b'[j])
  {
    forall k | gap <= k <= i && k != j - gap
      ensures le(b'[k - gap], b'[k])
    {
      if k == j {
      } else if k == j + gap {
      } else {
        assert b'[k - gap] == b[k - gap];
      }
    }
    if gap <= j - gap {
      assert le(b[j - 2 * gap], b[j - gap]);
    }
  }
}
