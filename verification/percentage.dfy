/** The share of readings that satisfy a comparator, as a percentage.

    `count_percentage` is defined identically in tower.py and tower_utils.py;
    it is defined once here. The arithmetic is exact (`real`), not IEEE-754.
 */
module Percentage {
  import opened Outcomes

  /** The elements of `values` that satisfy `pred`, in their original order. */
  function Filter<T>(values: seq<T>, pred: T -> bool): (r: seq<T>)
    ensures |r| <= |values|
    ensures forall i :: 0 <= i < |r| ==> pred(r[i])
    ensures forall x :: x in r ==> x in values
    ensures forall x {:trigger pred(x), x in values} :: x in values && pred(x) ==> x in r
  {
    if |values| == 0 then []
    else
      assert values == [values[0]] + values[1..];
      if pred(values[0]) then [values[0]] + Filter(values[1..], pred)
      else Filter(values[1..], pred)
  }

  /** The number of elements of `values` that satisfy `pred`. */
  function Count<T>(values: seq<T>, pred: T -> bool): nat
  {
    |Filter(values, pred)|
  }

  /** `count_percentage(values, comparator)`: matching / len(values) * 100,
      which raises ZeroDivisionError on an empty sequence. */
  function CountPercentage<T>(values: seq<T>, comparator: T -> bool): (r: Result<real>)
    ensures r.Err? <==> |values| == 0
    ensures r.Err? ==> r.fault == ZeroDivisionError
    ensures r.Ok? ==> 0.0 <= r.value <= 100.0
    ensures r.Ok? ==> r.value * (|values| as real) == 100.0 * (Count(values, comparator) as real)
  {
    if |values| == 0 then Err(ZeroDivisionError)
    else Ok(Share(|Filter(values, comparator)| as real, |values| as real))
  }

  /** `m / n * 100`: the share of `m` out of `n`, as a percentage. */
  function Share(m: real, n: real): (r: real)
    requires n > 0.0 && 0.0 <= m <= n
    ensures 0.0 <= r <= 100.0
    ensures r * n == 100.0 * m
  {
    ShareOfWhole(m, n);
    m / n * 100.0
  }

  /** `count` out of `n` is a share strictly greater than `pct` percent. */
  predicate Exceeds(count: nat, n: nat, pct: real)
  {
    (count as real) * 100.0 > pct * (n as real)
  }

  // ---------------------------------------------------------------------------
  // Counting
  // ---------------------------------------------------------------------------

  lemma {:induction false} CountAllIff<T>(values: seq<T>, pred: T -> bool)
    ensures Count(values, pred) == |values| <==> forall i :: 0 <= i < |values| ==> pred(values[i])
  {
    if |values| > 0 {
      CountAllIff(values[1..], pred);
      if !pred(values[0]) {
        assert Count(values, pred) == Count(values[1..], pred);
      } else {
        forall i | 1 <= i < |values| ensures values[i] == values[1..][i - 1] { }
      }
    }
  }

  lemma {:induction false} CountNoneIff<T>(values: seq<T>, pred: T -> bool)
    ensures Count(values, pred) == 0 <==> forall i :: 0 <= i < |values| ==> !pred(values[i])
  {
    if |values| > 0 {
      CountNoneIff(values[1..], pred);
      if !pred(values[0]) {
        forall i | 1 <= i < |values| ensures values[i] == values[1..][i - 1] { }
      }
    }
  }

  /** Two comparators that no element satisfies together match at most all elements. */
  lemma {:induction false} CountDisjoint<T>(values: seq<T>, a: T -> bool, b: T -> bool)
    requires forall i :: 0 <= i < |values| ==> !(a(values[i]) && b(values[i]))
    ensures Count(values, a) + Count(values, b) <= |values|
  {
    if |values| > 0 {
      CountDisjoint(values[1..], a, b);
    }
  }

  /** A comparator and its negation together match every element exactly once. */
  lemma {:induction false} CountComplement<T>(values: seq<T>, a: T -> bool, b: T -> bool)
    requires forall i :: 0 <= i < |values| ==> (b(values[i]) <==> !a(values[i]))
    ensures Count(values, a) + Count(values, b) == |values|
  {
    if |values| > 0 {
      CountComplement(values[1..], a, b);
    }
  }

  /** A weaker comparator matches at least as many elements. */
  lemma {:induction false} CountMonotone<T>(values: seq<T>, a: T -> bool, b: T -> bool)
    requires forall i :: 0 <= i < |values| ==> (a(values[i]) ==> b(values[i]))
    ensures Count(values, a) <= Count(values, b)
  {
    if |values| > 0 {
      CountMonotone(values[1..], a, b);
    }
  }

  /** Filtering a concatenation filters each part and keeps them in order:
      the kept elements appear in the order they had in the input. */
  lemma {:induction false} FilterAppend<T>(s: seq<T>, t: seq<T>, pred: T -> bool)
    ensures Filter(s + t, pred) == Filter(s, pred) + Filter(t, pred)
  {
    if |s| > 0 {
      FilterAppend(s[1..], t, pred);
      assert (s + t)[1..] == s[1..] + t;
    } else {
      assert s + t == t;
    }
  }

  /** Counting over a concatenation adds the counts of the parts. */
  lemma {:induction false} CountAppend<T>(s: seq<T>, t: seq<T>, pred: T -> bool)
    ensures Count(s + t, pred) == Count(s, pred) + Count(t, pred)
  {
    if |s| > 0 {
      CountAppend(s[1..], t, pred);
      assert (s + t)[1..] == s[1..] + t;
    } else {
      assert s + t == t;
    }
  }

  // ---------------------------------------------------------------------------
  // Percentages
  // ---------------------------------------------------------------------------

  /** Comparing the percentage with a limit is comparing the count with the limit's share of the length. */
  lemma PercentageExceedsIff<T>(values: seq<T>, comparator: T -> bool, pct: real)
    requires |values| > 0
    ensures CountPercentage(values, comparator).Ok?
    ensures CountPercentage(values, comparator).value > pct
        <==> Exceeds(Count(values, comparator), |values|, pct)
  {
    var r := CountPercentage(values, comparator).value;
    var n := |values| as real;
    assert r * n == 100.0 * (Count(values, comparator) as real);
    if r > pct {
      assert r * n > pct * n;
    } else {
      assert r * n <= pct * n;
    }
  }

  /** The percentage is 100 exactly when every element matches. */
  lemma PercentageAllIff<T>(values: seq<T>, comparator: T -> bool)
    requires |values| > 0
    ensures CountPercentage(values, comparator) == Ok(100.0)
        <==> forall i :: 0 <= i < |values| ==> comparator(values[i])
  {
    CountAllIff(values, comparator);
    var r := CountPercentage(values, comparator).value;
    var n := |values| as real;
    var c := Count(values, comparator) as real;
    if r == 100.0 {
      assert 100.0 * n == 100.0 * c;
    }
  }

  /** The percentage is 0 exactly when no element matches. */
  lemma PercentageNoneIff<T>(values: seq<T>, comparator: T -> bool)
    requires |values| > 0
    ensures CountPercentage(values, comparator) == Ok(0.0)
        <==> forall i :: 0 <= i < |values| ==> !comparator(values[i])
  {
    CountNoneIff(values, comparator);
  }

  /** The percentages of two disjoint comparators, such as `x > t` and `x < t`, sum to at most 100. */
  lemma PercentageDisjoint<T>(values: seq<T>, a: T -> bool, b: T -> bool)
    requires |values| > 0
    requires forall i :: 0 <= i < |values| ==> !(a(values[i]) && b(values[i]))
    ensures CountPercentage(values, a).Ok? && CountPercentage(values, b).Ok?
    ensures CountPercentage(values, a).value + CountPercentage(values, b).value <= 100.0
  {
    CountDisjoint(values, a, b);
    SharesSumAtMost(CountPercentage(values, a).value, CountPercentage(values, b).value,
                    |values| as real, Count(values, a) as real, Count(values, b) as real);
  }

  /** The percentages of a comparator and its negation sum to exactly 100. */
  lemma PercentageComplement<T>(values: seq<T>, a: T -> bool, b: T -> bool)
    requires |values| > 0
    requires forall i :: 0 <= i < |values| ==> (b(values[i]) <==> !a(values[i]))
    ensures CountPercentage(values, a).Ok? && CountPercentage(values, b).Ok?
    ensures CountPercentage(values, a).value + CountPercentage(values, b).value == 100.0
  {
    CountComplement(values, a, b);
    SharesSumExactly(CountPercentage(values, a).value, CountPercentage(values, b).value,
                     |values| as real, Count(values, a) as real, Count(values, b) as real);
  }

  /** If `a` implies `b` on every element, the percentage for `a` is at most the one for `b`. */
  lemma PercentageMonotone<T>(values: seq<T>, a: T -> bool, b: T -> bool)
    requires |values| > 0
    requires forall i :: 0 <= i < |values| ==> (a(values[i]) ==> b(values[i]))
    ensures CountPercentage(values, a).Ok? && CountPercentage(values, b).Ok?
    ensures CountPercentage(values, a).value <= CountPercentage(values, b).value
  {
    CountMonotone(values, a, b);
    SharesOrdered(CountPercentage(values, a).value, CountPercentage(values, b).value,
                  |values| as real, Count(values, a) as real, Count(values, b) as real);
  }

  // Real-arithmetic steps on shares `r = 100 * c / n`, stated over reals only so
  // that each proof sees nothing but the facts it needs.

  lemma SharesSumAtMost(ra: real, rb: real, n: real, ca: real, cb: real)
    requires n > 0.0 && ra * n == 100.0 * ca && rb * n == 100.0 * cb && ca + cb <= n
    ensures ra + rb <= 100.0
  {
    var sum := ra + rb;
    assert sum * n == ra * n + rb * n;
    ScaledLe(sum * n, 100.0 * n, ca + cb, n);
    Cancel(sum, 100.0, n);
  }

  lemma SharesSumExactly(ra: real, rb: real, n: real, ca: real, cb: real)
    requires n > 0.0 && ra * n == 100.0 * ca && rb * n == 100.0 * cb && ca + cb == n
    ensures ra + rb == 100.0
  {
    var sum := ra + rb;
    assert sum * n == ra * n + rb * n;
    ScaledLe(sum * n, 100.0 * n, ca + cb, n);
    ScaledLe(100.0 * n, sum * n, n, ca + cb);
    Cancel(sum, 100.0, n);
    Cancel(100.0, sum, n);
  }

  lemma SharesOrdered(ra: real, rb: real, n: real, ca: real, cb: real)
    requires n > 0.0 && ra * n == 100.0 * ca && rb * n == 100.0 * cb && ca <= cb
    ensures ra <= rb
  {
    ScaledLe(ra * n, rb * n, ca, cb);
    Cancel(ra, rb, n);
  }

  lemma ShareOfWhole(m: real, n: real)
    requires n > 0.0 && 0.0 <= m <= n
    ensures 0.0 <= m / n * 100.0 <= 100.0
    ensures m / n * 100.0 * n == 100.0 * m
  {
    var q := m / n;
    assert q * n == m;
    assert q * 100.0 * n == 100.0 * (q * n);
    Cancel(q, 1.0, n);
    if q < 0.0 {
      Cancel(0.0, q, n);
    }
  }

  lemma ScaledLe(p: real, q: real, c: real, m: real)
    requires p == 100.0 * c && q == 100.0 * m && c <= m
    ensures p <= q
  {
  }

  lemma Cancel(x: real, y: real, n: real)
    requires n > 0.0
    requires x * n <= y * n
    ensures x <= y
  {
  }
}
