/** Sorting determines its result up to ties: two sorted permutations of the
    same rows have tied keys at every position. This is what makes "sorting
    an already sorted list gives the same keys back" hold for every
    algorithm, stable or not. */
module SortedUniqueness {
  import opened Orders

  /** The number of elements of `s` that satisfy `P`. */
  function Count<T>(s: seq<T>, P: T -> bool): (n: nat)
    ensures n <= |s|
  {
    if |s| == 0 then 0 else (if P(s[0]) then 1 else 0) + Count(s[1..], P)
  }

  lemma {:induction false} CountConcat<T>(a: seq<T>, b: seq<T>, P: T -> bool)
    ensures Count(a + b, P) == Count(a, P) + Count(b, P)
  {
    if |a| > 0 {
      assert (a + b)[0] == a[0];
      assert (a + b)[1..] == a[1..] + b;
      CountConcat(a[1..], b, P);
    } else {
      assert a + b == b;
    }
  }

  /** The count depends only on the multiset of elements. */
  lemma {:induction false} CountPermutation<T>(s: seq<T>, t: seq<T>, P: T -> bool)
    requires multiset(s) == multiset(t)
    ensures Count(s, P) == Count(t, P)
    decreases |s|
  {
    if |s| == 0 {
      assert |t| == |multiset(t)| == 0;
    } else {
      var x := s[0];
      assert x in multiset(t);
      var j :| 0 <= j < |t| && t[j] == x;
      var front, back := t[..j], t[j + 1..];
      RemoveMatching(s, t, j);
      CountPermutation(s[1..], front + back, P);
      CountConcat(front, [x] + back, P);
      CountConcat([x], back, P);
      CountConcat(front, back, P);
    }
  }

  /** Taking the first element of `s` out of `s`, and a copy of it out of
      a permutation `t`, leaves permutations of each other. */
  lemma RemoveMatching<T>(s: seq<T>, t: seq<T>, j: int)
    requires multiset(s) == multiset(t) && |s| > 0
    requires 0 <= j < |t| && t[j] == s[0]
    ensures t == t[..j] + ([t[j]] + t[j + 1..])
    ensures multiset(t[..j] + t[j + 1..]) == multiset(s[1..])
  {
    var x, front, back := s[0], t[..j], t[j + 1..];
    assert t == front + ([x] + back);
    assert s == [x] + s[1..];
    calc {
      multiset(front + back);
      multiset(front) + multiset(back);
      multiset(t) - multiset{x};
      multiset(s) - multiset{x};
      multiset(s[1..]);
    }
  }

  lemma {:induction false} CountAll<T>(s: seq<T>, P: T -> bool)
    requires forall k :: 0 <= k < |s| ==> P(s[k])
    ensures Count(s, P) == |s|
  {
    if |s| > 0 {
      CountAll(s[1..], P);
    }
  }

  /** A positive count has a witness. */
  lemma {:induction false} CountWitness<T>(s: seq<T>, P: T -> bool) returns (k: nat)
    requires Count(s, P) > 0
    ensures k < |s| && P(s[k])
  {
    if P(s[0]) {
      k := 0;
    } else {
      var k' := CountWitness(s[1..], P);
      k := k' + 1;
    }
  }

  /** In two sorted permutations of each other, the element at any position
      of `a` is not above the one at the same position of `b`. Otherwise the
      first `k + 1` elements of `b`, all below `a[k]`, could only sit in the
      first `k` positions of `a`. */
  lemma SortedPermutationLe<T(!new)>(a: seq<T>, b: seq<T>, k: nat, le: (T, T) -> bool)
    requires TotalPreorder(le)
    requires multiset(a) == multiset(b) && Sorted(a, le) && Sorted(b, le)
    requires k < |a| == |b|
    ensures le(a[k], b[k])
  {
    var P := y => le(y, b[k]);
    assert b == b[..k + 1] + b[k + 1..];
    CountConcat(b[..k + 1], b[k + 1..], P);
    CountAll(b[..k + 1], P);
    CountPermutation(a, b, P);
    assert a == a[..k] + a[k..];
    CountConcat(a[..k], a[k..], P);
    var j := CountWitness(a[k..], P);
    assert le(a[k], a[k + j]) && le(a[k + j], b[k]);
  }

  /** Two sorted permutations of each other have tied keys position by
      position. */
  lemma SortedPermutationsTied<T(!new)>(a: seq<T>, b: seq<T>, le: (T, T) -> bool)
    requires TotalPreorder(le)
    requires multiset(a) == multiset(b) && Sorted(a, le) && Sorted(b, le)
    ensures |a| == |b|
    ensures forall k :: 0 <= k < |a| ==> Tied(le, a[k], b[k])
  {
    assert |a| == |multiset(a)| == |multiset(b)| == |b|;
    forall k | 0 <= k < |a|
      ensures Tied(le, a[k], b[k])
    {
      SortedPermutationLe(a, b, k, le);
      SortedPermutationLe(b, a, k, le);
    }
  }

  lemma {:induction false} CountNone<T>(s: seq<T>, P: T -> bool)
    requires forall k :: 0 <= k < |s| ==> !P(s[k])
    ensures Count(s, P) == 0
  {
    if |s| > 0 {
      CountNone(s[1..], P);
    }
  }

  /** In a sorted list, the elements strictly below `x` form a prefix; the
      result is its length. */
  lemma {:induction false} FirstNotBelow<T(!new)>(a: seq<T>, x: T, le: (T, T) -> bool) returns (m: nat)
    requires TotalPreorder(le) && Sorted(a, le)
    ensures m <= |a|
    ensures forall j :: 0 <= j < m ==> !le(x, a[j])
    ensures forall j :: m <= j < |a| ==> le(x, a[j])
    ensures Count(a, y => !le(x, y)) == m
  {
    var P := y => !le(x, y);
    if |a| == 0 {
      m := 0;
    } else if le(x, a[0]) {
      m := 0;
      assert forall j :: 0 <= j < |a| ==> le(a[0], a[j]);
      CountNone(a, P);
    } else {
      assert Sorted(a[1..], le) by {
        forall p, q | 0 <= p < q < |a| - 1 ensures le(a[1..][p], a[1..][q]) {
          assert a[1..][p] == a[p + 1] && a[1..][q] == a[q + 1];
        }
      }
      var m' := FirstNotBelow(a[1..], x, le);
      m := m' + 1;
      forall j | m <= j < |a|
        ensures le(x, a[j])
      {
        assert a[j] == a[1..][j - 1];
      }
      forall j | 0 <= j < m
        ensures !le(x, a[j])
      {
        if j > 0 {
          assert a[j] == a[1..][j - 1];
        }
      }
    }
  }

  lemma {:induction false} TiesOfAll<T>(s: seq<T>, x: T, le: (T, T) -> bool)
    requires forall k :: 0 <= k < |s| ==> Tied(le, s[k], x)
    ensures TiesOf(s, x, le) == s
  {
    if |s| > 0 {
      TiesOfAll(s[1..], x, le);
      assert s == [s[0]] + s[1..];
    }
  }

  /** When `a[..lo]` is strictly below `x` and `a[lo..k + 1]` is tied with
      it, `a[k]` is the element at `k - lo` among the ones tied with `x`. */
  lemma TiesAt<T(!new)>(a: seq<T>, x: T, lo: nat, k: nat, le: (T, T) -> bool)
    requires lo <= k < |a|
    requires forall j :: 0 <= j < lo ==> !le(x, a[j])
    requires forall j :: lo <= j <= k ==> Tied(le, a[j], x)
    ensures k - lo < |TiesOf(a, x, le)| && TiesOf(a, x, le)[k - lo] == a[k]
  {
    var front, mid, back := a[..lo], a[lo..k + 1], a[k + 1..];
    assert a == (front + mid) + back;
    TiesOfNone(front, x, le);
    TiesOfAll(mid, x, le);
    var rest := TiesOf(back, x, le);
    calc {
      TiesOf(a, x, le);
      { TiesOfConcat(front + mid, back, x, le); }
      TiesOf(front + mid, x, le) + rest;
      { TiesOfConcat(front, mid, x, le); }
      (TiesOf(front, x, le) + TiesOf(mid, x, le)) + rest;
      ([] + mid) + rest;
      mid + rest;
    }
    assert (mid + rest)[k - lo] == mid[k - lo] == a[k];
  }

  /** A stable sort has only one possible result: two sorted, stable
      permutations of the same list are equal. */
  lemma StableSortUnique<T(!new)>(s: seq<T>, a: seq<T>, b: seq<T>, le: (T, T) -> bool)
    requires TotalPreorder(le)
    requires multiset(a) == multiset(s) && Sorted(a, le) && Stable(s, a, le)
    requires multiset(b) == multiset(s) && Sorted(b, le) && Stable(s, b, le)
    ensures a == b
  {
    SortedPermutationsTied(a, b, le);
    forall k | 0 <= k < |a|
      ensures a[k] == b[k]
    {
      StableSortAt(s, a, b, k, le);
    }
  }

  lemma StableSortAt<T(!new)>(s: seq<T>, a: seq<T>, b: seq<T>, k: nat, le: (T, T) -> bool)
    requires TotalPreorder(le)
    requires multiset(a) == multiset(b) && Sorted(a, le) && Sorted(b, le)
    requires k < |a| == |b| && Tied(le, a[k], b[k])
    requires TiesOf(a, a[k], le) == TiesOf(s, a[k], le) == TiesOf(b, a[k], le)
    ensures a[k] == b[k]
  {
    var x := a[k];
    var ma := FirstNotBelow(a, x, le);
    var mb := FirstNotBelow(b, x, le);
    CountPermutation(a, b, y => !le(x, y));
    assert le(x, a[k]) && le(x, b[k]);
    forall j | ma <= j <= k
      ensures Tied(le, a[j], x)
    {
    }
    forall j | ma <= j <= k
      ensures Tied(le, b[j], x)
    {
      assert le(b[j], b[k]);
    }
    TiesAt(a, x, ma, k, le);
    TiesAt(b, x, ma, k, le);
  }
}
