/** The key comparison `compare(a, b)` (SortingPerformanceApp.java:458-465).

    When both cells parse as numbers they are compared numerically;
    otherwise they are compared as strings with `String.compareTo`. Number
    parsing is a parameter `parse` (`None` where the parser throws), and
    numbers are exact reals. */
module KeyCompare {
  import opened Orders
  import opened Results

  /** `String.compareTo`: the difference of the first pair of differing
      characters, or the difference of the lengths when one string is a
      prefix of the other. */
  function LexCompare(a: string, b: string): (d: int)
    ensures d == 0 <==> a == b
    ensures a <= b || b <= a ==> d == |a| - |b|
    decreases |a|
  {
    if |a| == 0 || |b| == 0 then |a| - |b|
    else if a[0] != b[0] then a[0] as int - b[0] as int
    else LexCompare(a[1..], b[1..])
  }

  /** `LexCompare` agrees with the documented definition of
      `String.compareTo`: with `k` the length of the common prefix, it is
      `a[k] - b[k]` when both strings are longer than `k`, and the
      difference of the lengths otherwise. */
  lemma {:induction false} LexCompareAtFirstDifference(a: string, b: string, k: nat)
    requires k <= |a| && k <= |b|
    requires forall i :: 0 <= i < k ==> a[i] == b[i]
    requires k < |a| && k < |b| ==> a[k] != b[k]
    ensures LexCompare(a, b) == if k < |a| && k < |b| then a[k] as int - b[k] as int else |a| - |b|
    decreases k
  {
    if k > 0 {
      assert a[0] == b[0];
      LexCompareAtFirstDifference(a[1..], b[1..], k - 1);
    }
  }

  /** `k` is the length of the common prefix of `a` and `b`. */
  predicate FirstDifference(a: string, b: string, k: nat) {
    && k <= |a| && k <= |b|
    && a[..k] == b[..k]
    && (k < |a| && k < |b| ==> a[k] != b[k])
  }

  lemma LexCompareFirstDifference(a: string, b: string)
    ensures forall k: nat :: FirstDifference(a, b, k) ==>
              LexCompare(a, b) == if k < |a| && k < |b| then a[k] as int - b[k] as int else |a| - |b|
  {
    forall k: nat | FirstDifference(a, b, k)
      ensures LexCompare(a, b) == if k < |a| && k < |b| then a[k] as int - b[k] as int else |a| - |b|
    {
      forall i | 0 <= i < k
        ensures a[i] == b[i]
      {
        assert a[..k][i] == b[..k][i];
      }
      LexCompareAtFirstDifference(a, b, k);
    }
  }

  /** Swapping the arguments negates the result. */
  lemma {:induction false} LexCompareAntisymmetric(a: string, b: string)
    ensures LexCompare(a, b) == -LexCompare(b, a)
    decreases |a|
  {
    if |a| > 0 && |b| > 0 && a[0] == b[0] {
      LexCompareAntisymmetric(a[1..], b[1..]);
    }
  }

  lemma {:induction false} LexCompareTransitive(a: string, b: string, c: string)
    requires LexCompare(a, b) <= 0 && LexCompare(b, c) <= 0
    ensures LexCompare(a, c) <= 0
    decreases |a|
  {
    if |a| > 0 && |b| > 0 && |c| > 0 && a[0] == b[0] && b[0] == c[0] {
      LexCompareTransitive(a[1..], b[1..], c[1..]);
    }
  }

  /** "a may come before b" under `String.compareTo`. */
  function LexLe(): (string, string) -> bool {
    (a, b) => LexCompare(a, b) <= 0
  }

  /** The string order alone is a total preorder (indeed a total order). */
  lemma LexLeTotalPreorder()
    ensures TotalPreorder(LexLe())
  {
    var le := LexLe();
    forall a, b
      ensures le(a, b) || le(b, a)
    {
      LexCompareAntisymmetric(a, b);
    }
    forall a, b, c | le(a, b) && le(b, c)
      ensures le(a, c)
    {
      LexCompareTransitive(a, b, c);
    }
  }

  /** `Double.compare` on parsed numbers: -1, 0 or 1. */
  function NumCompare(x: real, y: real): (d: int)
    ensures d < 0 <==> x < y
    ensures d == 0 <==> x == y
    ensures -1 <= d <= 1
  {
    if x < y then -1 else if x > y then 1 else 0
  }

  /** `compare(a, b)` as written: numeric when both parse, otherwise
      `String.compareTo`. */
  function JavaCompare(parse: string -> Option<real>, a: string, b: string): (d: int)
    ensures parse(a).Some? && parse(b).Some? ==>
              && (d < 0 <==> parse(a).value < parse(b).value)
              && (d == 0 <==> parse(a).value == parse(b).value)
    ensures parse(a).None? || parse(b).None? ==>
              && (d == 0 <==> a == b)
              && (forall k: nat :: FirstDifference(a, b, k) ==>
                    d == if k < |a| && k < |b| then a[k] as int - b[k] as int else |a| - |b|)
  {
    match (parse(a), parse(b))
    case (Some(x), Some(y)) => NumCompare(x, y)
    case _ => LexCompareFirstDifference(a, b); LexCompare(a, b)
  }

  /** The order the sorts see: `compare(a, b) <= 0`. */
  function JavaLe(parse: string -> Option<real>): (string, string) -> bool {
    (a, b) => JavaCompare(parse, a, b) <= 0
  }

  /** `compare` is total: every pair is ordered one way or the other. */
  lemma JavaLeTotal(parse: string -> Option<real>)
    ensures Total(JavaLe(parse))
  {
    forall a, b
      ensures JavaLe(parse)(a, b) || JavaLe(parse)(b, a)
    {
      LexCompareAntisymmetric(a, b);
    }
  }

  /** Swapping the cells flips the sign of `compare`. */
  lemma JavaCompareAntisymmetric(parse: string -> Option<real>, a: string, b: string)
    ensures JavaCompare(parse, a, b) < 0 <==> JavaCompare(parse, b, a) > 0
    ensures JavaCompare(parse, a, b) == 0 <==> JavaCompare(parse, b, a) == 0
  {
    LexCompareAntisymmetric(a, b);
  }

  /** `compare` is transitive on three numbers, and on three text cells. */
  lemma JavaLeTransitiveOnOneKind(parse: string -> Option<real>, a: string, b: string, c: string)
    requires (parse(a).Some? && parse(b).Some? && parse(c).Some?) || (parse(a).None? && parse(b).None? && parse(c).None?)
    requires JavaLe(parse)(a, b) && JavaLe(parse)(b, c)
    ensures JavaLe(parse)(a, c)
  {
    if parse(a).None? {
      LexCompareTransitive(a, b, c);
    }
  }

  /** On a column that mixes numbers and text, `compare` is not transitive:
      "2" < "10" numerically, "10" < "1a" and "1a" < "2" as strings. Any
      parser that reads "2" and "10" as numbers and rejects "1a" shows it. */
  lemma CompareNotTransitive(parse: string -> Option<real>)
    requires parse("2") == Some(2.0) && parse("10") == Some(10.0) && parse("1a") == None
    ensures JavaCompare(parse, "2", "10") < 0
    ensures JavaCompare(parse, "10", "1a") < 0
    ensures JavaCompare(parse, "1a", "2") < 0
    ensures !Transitive(JavaLe(parse))
  {
    assert LexCompare("10", "1a") == '0' as int - 'a' as int;
    assert LexCompare("1a", "2") == '1' as int - '2' as int;
    assert LexCompare("2", "1a") == '2' as int - '1' as int;
    var le := JavaLe(parse);
    assert le("2", "10") && le("10", "1a") && !le("2", "1a");
  }

  /** A consistent version of `compare`: numbers compare numerically, text
      compares as strings, and every number comes before every text cell. */
  function MixedCompare(parse: string -> Option<real>, a: string, b: string): int {
    match (parse(a), parse(b))
    case (Some(x), Some(y)) => NumCompare(x, y)
    case (Some(_), None) => -1
    case (None, Some(_)) => 1
    case (None, None) => LexCompare(a, b)
  }

  function MixedLe(parse: string -> Option<real>): (string, string) -> bool {
    (a, b) => MixedCompare(parse, a, b) <= 0
  }

  /** The consistent comparison is a total preorder on every column, and it
      agrees with `compare` whenever both cells are numbers or both are
      text. */
  lemma MixedLeTotalPreorder(parse: string -> Option<real>)
    ensures TotalPreorder(MixedLe(parse))
    ensures forall a, b :: parse(a).Some? == parse(b).Some? ==> MixedCompare(parse, a, b) == JavaCompare(parse, a, b)
    ensures forall a, b :: parse(a).Some? && parse(b).None? ==> MixedLe(parse)(a, b) && !MixedLe(parse)(b, a)
  {
    var le := MixedLe(parse);
    forall a, b
      ensures le(a, b) || le(b, a)
    {
      LexCompareAntisymmetric(a, b);
    }
    forall a, b, c | le(a, b) && le(b, c)
      ensures le(a, c)
    {
      if parse(a).None? && parse(b).None? && parse(c).None? {
        LexCompareTransitive(a, b, c);
      }
    }
  }
}
