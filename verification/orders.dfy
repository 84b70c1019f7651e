/** The vocabulary every sort in this project is specified with.

    The sorts never look at a row's fields directly: they ask a comparison
    `le(a, b)` ("a may come before b"), which stands for `compare(a, b) <= 0`
    on the chosen column. The model assumes `le` is a total preorder; two rows
    with `le` in both directions are tied (equal keys, possibly different
    rows). */
module Orders {

  /** Any two elements compare. */
  ghost predicate Total<T(!new)>(le: (T, T) -> bool) {
    forall a, b :: le(a, b) || le(b, a)
  }

  ghost predicate Transitive<T(!new)>(le: (T, T) -> bool) {
    forall a, b, c :: le(a, b) && le(b, c) ==> le(a, c)
  }

  /** Any two elements compare, and the comparison is transitive. */
  ghost predicate TotalPreorder<T(!new)>(le: (T, T) -> bool) {
    Total(le) && Transitive(le)
  }

  /** `a` and `b` have equal keys. */
  predicate Tied<T>(le: (T, T) -> bool, a: T, b: T) {
    le(a, b) && le(b, a)
  }

  /** The slice `s[lo..hi]` is non-decreasing under `le`. */
  ghost predicate SortedBetween<T>(s: seq<T>, lo: int, hi: int, le: (T, T) -> bool)
    requires 0 <= lo <= hi <= |s|
  {
    forall p, q :: lo <= p < q < hi ==> le(s[p], s[q])
  }

  ghost predicate Sorted<T>(s: seq<T>, le: (T, T) -> bool) {
    SortedBetween(s, 0, |s|, le)
  }

  /** `s[..hi]` is `gap`-sorted: no element is below the one `gap` places
      before it. */
  ghost predicate GapSortedBelow<T>(s: seq<T>, gap: nat, hi: int, le: (T, T) -> bool)
    requires hi <= |s|
  {
    forall k :: gap <= k < hi ==> le(s[k - gap], s[k])
  }

  ghost predicate GapSorted<T>(s: seq<T>, gap: nat, le: (T, T) -> bool) {
    GapSortedBelow(s, gap, |s|, le)
  }

  /** The elements of `s` tied with `x`, in their order in `s`. */
  function TiesOf<T>(s: seq<T>, x: T, le: (T, T) -> bool): (r: seq<T>)
    ensures |r| <= |s|
  {
    if |s| == 0 then []
    else (if Tied(le, s[0], x) then [s[0]] else []) + TiesOf(s[1..], x, le)
  }

  /** `r` keeps the relative order of every group of tied elements of `s`:
      that is what it means for a sort to be stable. */
  ghost predicate Stable<T(!new)>(s: seq<T>, r: seq<T>, le: (T, T) -> bool) {
    forall x :: TiesOf(r, x, le) == TiesOf(s, x, le)
  }

  lemma {:induction false} TiesOfConcat<T>(a: seq<T>, b: seq<T>, x: T, le: (T, T) -> bool)
    ensures TiesOf(a + b, x, le) == TiesOf(a, x, le) + TiesOf(b, x, le)
  {
    if |a| > 0 {
      assert (a + b)[0] == a[0];
      assert (a + b)[1..] == a[1..] + b;
      TiesOfConcat(a[1..], b, x, le);
    } else {
      assert a + b == b;
    }
  }

  lemma {:induction false} TiesOfNone<T>(s: seq<T>, x: T, le: (T, T) -> bool)
    requires forall k :: 0 <= k < |s| ==> !Tied(le, s[k], x)
    ensures TiesOf(s, x, le) == []
  {
    if |s| > 0 {
      TiesOfNone(s[1..], x, le);
    }
  }

  /** A gap-1 sorted sequence is sorted: adjacent order extends to all pairs
      by transitivity. */
  lemma {:induction false} GapOneSorted<T(!new)>(s: seq<T>, le: (T, T) -> bool)
    requires TotalPreorder(le)
    requires GapSorted(s, 1, le)
    ensures Sorted(s, le)
  {
    forall p, q | 0 <= p < q < |s|
      ensures le(s[p], s[q])
    {
      var k := p + 1;
      while k < q
        invariant p < k <= q
        invariant le(s[p], s[k])
      {
        assert le(s[k], s[k + 1]);
        k := k + 1;
      }
    }
  }

  /** Swapping two positions does not change the multiset of elements. */
  lemma SwapMultiset<T>(s: seq<T>, i: int, j: int)
    requires 0 <= i < |s| && 0 <= j < |s|
    ensures multiset(s[i := s[j]][j := s[i]]) == multiset(s)
  {
    var t := s[i := s[j]];
    assert multiset(t) == multiset(s) - multiset{s[i]} + multiset{s[j]};
    assert multiset(t[j := s[i]]) == multiset(t) - multiset{t[j]} + multiset{s[i]};
  }

  /** If the whole sequence keeps its multiset and nothing outside
      `[lo, hi)` moves, then the slice `[lo, hi)` keeps its multiset. */
  lemma SliceMultiset<T>(a: seq<T>, b: seq<T>, lo: int, hi: int)
    requires |a| == |b| && 0 <= lo <= hi <= |a|
    requires multiset(a) == multiset(b)
    requires forall k :: 0 <= k < |a| && (k < lo || hi <= k) ==> a[k] == b[k]
    ensures multiset(a[lo..hi]) == multiset(b[lo..hi])
  {
    assert a == a[..lo] + a[lo..hi] + a[hi..];
    assert b == b[..lo] + b[lo..hi] + b[hi..];
    assert a[..lo] == b[..lo];
    assert a[hi..] == b[hi..];
    assert multiset(a) == multiset(a[..lo]) + multiset(a[lo..hi]) + multiset(a[hi..]);
    assert multiset(b) == multiset(b[..lo]) + multiset(b[lo..hi]) + multiset(b[hi..]);
    assert multiset(a[lo..hi]) == multiset(a) - multiset(a[..lo]) - multiset(a[hi..]);
    assert multiset(b[lo..hi]) == multiset(b) - multiset(b[..lo]) - multiset(b[hi..]);
  }

  /** `Collections.swap`: exchanges two positions of a list. */
  function Swap<T>(s: seq<T>, i: int, j: int): (r: seq<T>)
    requires 0 <= i < |s| && 0 <= j < |s|
    ensures |r| == |s|
    ensures r[i] == s[j] && r[j] == s[i]
    ensures forall k :: 0 <= k < |s| && k != i && k != j ==> r[k] == s[k]
    ensures multiset(r) == multiset(s)
  {
    SwapMultiset(s, i, j);
    s[i := s[j]][j := s[i]]
  }

  /** A property every element of a slice has survives a permutation of
      that slice. */
  lemma PermutedSliceKeeps<T>(x: seq<T>, y: seq<T>, lo: int, hi: int, P: T -> bool)
    requires 0 <= lo <= hi <= |x| == |y|
    requires multiset(x[lo..hi]) == multiset(y[lo..hi])
    requires forall k :: lo <= k < hi ==> P(y[k])
    ensures forall k :: lo <= k < hi ==> P(x[k])
  {
    forall k | lo <= k < hi
      ensures P(x[k])
    {
      assert x[k] == x[lo..hi][k - lo];
      assert x[k] in multiset(y[lo..hi]);
      var m :| 0 <= m < hi - lo && y[lo..hi][m] == x[k];
      assert y[lo + m] == x[k];
    }
  }
}
