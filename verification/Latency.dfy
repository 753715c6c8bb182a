/** Percentiles of latency samples, by linear interpolation between order statistics. */
module Latency {
  import opened Prelude

  /** Rounding for presentation: any monotone function. */
  ghost predicate Monotone(round: real -> real) {
    forall x, y | x <= y :: round(x) <= round(y)
  }

  predicate Sorted(s: seq<real>) {
    forall i, j | 0 <= i < j < |s| :: s[i] <= s[j]
  }

  function Insert(x: real, s: seq<real>): seq<real> {
    if s == [] then [x] else if x <= s[0] then [x] + s else [s[0]] + Insert(x, s[1..])
  }

  function Sort(s: seq<real>): seq<real> {
    if s == [] then [] else Insert(s[0], Sort(s[1..]))
  }

  /** The observations that count: the non-negative ones. */
  function Observed(values: seq<real>): seq<real> {
    if values == [] then []
    else if 0.0 <= values[0] then [values[0]] + Observed(values[1..])
    else Observed(values[1..])
  }

  function Scaled(width: real, fraction: real): real {
    width * fraction
  }

  /** The value at a fractional position between order statistics. */
  function Interpolate(ordered: seq<real>, position: real): real
    requires 0.0 <= position <= (|ordered| - 1) as real
  {
    var lower := position.Floor;
    if position == lower as real then ordered[lower]
    else ordered[lower] + Scaled(ordered[lower + 1] - ordered[lower], position - lower as real)
  }

  /** `(len(ordered) - 1) * quantile` */
  function Position(n: nat, quantile: real): (p: real)
    requires 0.0 <= quantile <= 1.0
    ensures 0.0 <= p <= n as real
  {
    n as real * quantile
  }

  function OfSorted(round: real -> real, ordered: seq<real>, quantile: real): Option<real>
    requires 0.0 <= quantile <= 1.0
  {
    if ordered == [] then None else Some(round(Interpolate(ordered, Position(|ordered| - 1, quantile))))
  }

  /** `percentile` */
  function Percentile(round: real -> real, values: seq<real>, quantile: real): Option<real>
    requires 0.0 <= quantile <= 1.0
  {
    OfSorted(round, Sort(Observed(values)), quantile)
  }

  // ---- Sorting ----

  lemma {:induction false} InsertAdds(x: real, s: seq<real>)
    ensures multiset(Insert(x, s)) == multiset{x} + multiset(s)
  {
    if s != [] && !(x <= s[0]) {
      InsertAdds(x, s[1..]);
      assert s == [s[0]] + s[1..];
    }
  }

  lemma {:induction false} InsertSorts(x: real, s: seq<real>, least: real)
    requires Sorted(s) && least <= x && forall i | 0 <= i < |s| :: least <= s[i]
    ensures Sorted(Insert(x, s)) && forall i | 0 <= i < |Insert(x, s)| :: least <= Insert(x, s)[i]
  {
    if s != [] && !(x <= s[0]) {
      InsertSorts(x, s[1..], s[0]);
    }
  }

  lemma {:induction false} SortSorts(s: seq<real>)
    ensures Sorted(Sort(s)) && multiset(Sort(s)) == multiset(s)
  {
    if s != [] {
      SortSorts(s[1..]);
      assert s == [s[0]] + s[1..];
      var rest := Sort(s[1..]);
      InsertAdds(s[0], rest);
      InsertSorts(s[0], rest, if rest == [] || s[0] <= rest[0] then s[0] else rest[0]);
    }
  }

  lemma {:induction false} FirstIsLeast(a: seq<real>)
    requires Sorted(a) && a != []
    ensures a[0] in multiset(a) && forall x | x in multiset(a) :: a[0] <= x
    ensures multiset(a[1..]) == multiset(a) - multiset{a[0]}
  {
    assert a == [a[0]] + a[1..];
    forall x | x in multiset(a) ensures a[0] <= x {
      assert x in a;
    }
  }

  lemma {:induction false} SameFirst(a: seq<real>, b: seq<real>)
    requires Sorted(a) && Sorted(b) && multiset(a) == multiset(b) && a != [] && b != []
    ensures a[0] == b[0] && multiset(a[1..]) == multiset(b[1..])
  {
    FirstIsLeast(a);
    FirstIsLeast(b);
  }

  lemma {:induction false} SameLength(a: seq<real>, b: seq<real>)
    requires multiset(a) == multiset(b)
    ensures |a| == |b|
  {
    assert |multiset(a)| == |a| && |multiset(b)| == |b|;
  }

  lemma {:induction false} SortedIsUnique(a: seq<real>, b: seq<real>)
    requires Sorted(a) && Sorted(b) && multiset(a) == multiset(b)
    ensures a == b
    decreases |a|
  {
    SameLength(a, b);
    if a != [] {
      SameFirst(a, b);
      SortedIsUnique(a[1..], b[1..]);
      assert a == [a[0]] + a[1..] && b == [b[0]] + b[1..];
    }
  }

  lemma {:induction false} ObservedCount(values: seq<real>, x: real)
    ensures multiset(Observed(values))[x] == if 0.0 <= x then multiset(values)[x] else 0
  {
    if values != [] {
      ObservedCount(values[1..], x);
      assert values == [values[0]] + values[1..];
    }
  }

  lemma {:induction false} ObservedSame(a: seq<real>, b: seq<real>)
    requires multiset(a) == multiset(b)
    ensures multiset(Observed(a)) == multiset(Observed(b))
  {
    forall x ensures multiset(Observed(a))[x] == multiset(Observed(b))[x] {
      ObservedCount(a, x);
      ObservedCount(b, x);
    }
  }

  /** The order in which samples arrive does not matter. */
  lemma {:induction false} PercentileIgnoresOrder(round: real -> real, a: seq<real>, b: seq<real>, quantile: real)
    requires 0.0 <= quantile <= 1.0 && multiset(a) == multiset(b)
    ensures Percentile(round, a, quantile) == Percentile(round, b, quantile)
  {
    ObservedSame(a, b);
    SortSorts(Observed(a));
    SortSorts(Observed(b));
    SortedIsUnique(Sort(Observed(a)), Sort(Observed(b)));
  }

  // ---- Interpolation ----

  lemma {:induction false} ScaleMonotone(width: real, x: real, y: real)
    requires 0.0 <= width && 0.0 <= x <= y <= 1.0
    ensures 0.0 <= Scaled(width, x) <= Scaled(width, y) <= width
  {
    assert width * y - width * x == width * (y - x);
    assert width - width * y == width * (1.0 - y);
  }

  /** A value lies between the order statistics around its position. */
  lemma {:induction false} Between(ordered: seq<real>, position: real)
    requires Sorted(ordered) && 0.0 <= position <= (|ordered| - 1) as real
    ensures var lower := position.Floor;
            && 0 <= lower < |ordered|
            && ordered[lower] <= Interpolate(ordered, position)
            && (position != lower as real ==>
                  lower + 1 < |ordered| && Interpolate(ordered, position) <= ordered[lower + 1])
            && (position == lower as real ==> Interpolate(ordered, position) == ordered[lower])
  {
    var lower := position.Floor;
    if position != lower as real {
      ScaleMonotone(ordered[lower + 1] - ordered[lower], position - lower as real, 1.0);
    }
  }

  lemma {:induction false} InterpolateMonotone(ordered: seq<real>, p: real, q: real)
    requires Sorted(ordered) && 0.0 <= p <= q <= (|ordered| - 1) as real
    ensures Interpolate(ordered, p) <= Interpolate(ordered, q)
  {
    Between(ordered, p);
    Between(ordered, q);
    var lower := p.Floor;
    if p.Floor == q.Floor {
      if q != q.Floor as real {
        ScaleMonotone(ordered[lower + 1] - ordered[lower], p - lower as real, q - lower as real);
      }
    } else if p != lower as real {
      assert ordered[lower + 1] <= ordered[q.Floor];
    }
  }

  lemma {:induction false} PositionMonotone(n: nat, x: real, y: real)
    requires 0.0 <= x <= y <= 1.0
    ensures Position(n, x) <= Position(n, y)
  {
    var r := n as real;
    assert 0.0 <= r * (y - x) == r * y - r * x;
  }

  lemma {:induction false} InterpolateEnds(ordered: seq<real>)
    requires ordered != []
    ensures Interpolate(ordered, 0.0) == ordered[0]
    ensures Interpolate(ordered, (|ordered| - 1) as real) == ordered[|ordered| - 1]
  {
  }

  lemma {:induction false} InterpolateBetweenExtremes(ordered: seq<real>, p: real, q: real)
    requires ordered != [] && Sorted(ordered) && 0.0 <= p <= q <= (|ordered| - 1) as real
    ensures ordered[0] <= Interpolate(ordered, p) <= Interpolate(ordered, q) <= ordered[|ordered| - 1]
  {
    InterpolateEnds(ordered);
    InterpolateMonotone(ordered, 0.0, p);
    InterpolateMonotone(ordered, p, q);
    InterpolateMonotone(ordered, q, (|ordered| - 1) as real);
  }

  lemma {:induction false} OfSortedIsMonotone(round: real -> real, ordered: seq<real>, low: real, high: real)
    requires Monotone(round) && 0.0 <= low <= high <= 1.0 && ordered != [] && Sorted(ordered)
    ensures round(ordered[0]) <= OfSorted(round, ordered, low).value
    ensures OfSorted(round, ordered, low).value <= OfSorted(round, ordered, high).value
    ensures OfSorted(round, ordered, high).value <= round(ordered[|ordered| - 1])
  {
    var n := |ordered| - 1;
    PositionMonotone(n, low, high);
    InterpolateBetweenExtremes(ordered, Position(n, low), Position(n, high));
  }

  /**
   The percentile grows with the quantile and stays between the rounded extremes of the observations, so
   the median, the 95th percentile and the maximum come in this order.
   */
  lemma {:induction false} PercentileIsMonotone(round: real -> real, values: seq<real>, low: real, high: real)
    requires Monotone(round) && 0.0 <= low <= high <= 1.0 && Observed(values) != []
    ensures var ordered := Sort(Observed(values));
            && ordered != [] && Sorted(ordered) && multiset(ordered) == multiset(Observed(values))
            && round(ordered[0]) <= Percentile(round, values, low).value
            && Percentile(round, values, low).value <= Percentile(round, values, high).value
            && Percentile(round, values, high).value <= round(ordered[|ordered| - 1])
  {
    var ordered := Sort(Observed(values));
    SortSorts(Observed(values));
    assert |multiset(ordered)| == |multiset(Observed(values))|;
    OfSortedIsMonotone(round, ordered, low, high);
  }

  // ---- Distributions ----

  function Greatest(values: seq<real>): (m: real)
    requires values != []
    ensures m in values && forall x | x in values :: x <= m
  {
    if |values| == 1 then values[0] else
    var rest := Greatest(values[1..]);
    assert values == [values[0]] + values[1..];
    if rest <= values[0] then values[0] else rest
  }

  datatype Distribution = Distribution(count: nat, p50: Option<real>, p95: Option<real>, max: Option<real>)

  /** `distribution` of the samples that are present. */
  function Distribute(round: real -> real, values: seq<real>): Distribution {
    Distribution(|values|, Percentile(round, values, 0.5), Percentile(round, values, 0.95),
                 if values == [] then None else Some(round(Greatest(values))))
  }

  lemma {:induction false} ObservedMembers(values: seq<real>)
    ensures forall x :: x in Observed(values) <==> x in values && 0.0 <= x
  {
    forall x ensures x in Observed(values) <==> x in values && 0.0 <= x {
      ObservedCount(values, x);
      assert x in Observed(values) <==> x in multiset(Observed(values));
      assert x in values <==> x in multiset(values);
    }
  }

  lemma {:induction false} LastIsObserved(values: seq<real>)
    requires Observed(values) != []
    ensures var ordered := Sort(Observed(values)); ordered != [] && ordered[|ordered| - 1] in values
  {
    var ordered := Sort(Observed(values));
    SortSorts(Observed(values));
    ObservedMembers(values);
    assert |multiset(ordered)| == |multiset(Observed(values))|;
    assert ordered[|ordered| - 1] in multiset(ordered);
  }

  /** A reported distribution is ordered: median, 95th percentile, maximum. */
  lemma {:induction false} DistributionIsOrdered(round: real -> real, values: seq<real>)
    requires Monotone(round) && exists x | x in values :: 0.0 <= x
    ensures var d := Distribute(round, values);
            && d.p50.Some? && d.p95.Some? && d.max.Some?
            && d.p50.value <= d.p95.value <= d.max.value
  {
    ObservedMembers(values);
    var x :| x in values && 0.0 <= x;
    assert x in Observed(values);
    LastIsObserved(values);
    var ordered := Sort(Observed(values));
    PercentileIsMonotone(round, values, 0.5, 0.95);
    assert ordered[|ordered| - 1] <= Greatest(values);
  }

  // ---- The values themselves ----

  lemma {:induction false} InterpolateAt(ordered: seq<real>, k: nat, f: real)
    requires k + 1 < |ordered| && 0.0 <= f <= 1.0
    ensures Interpolate(ordered, k as real + f) == ordered[k] + Scaled(ordered[k + 1] - ordered[k], f)
  {
    if f == 1.0 {
      assert k as real + f == (k + 1) as real;
    } else {
      assert (k as real + f).Floor == k;
    }
  }

  lemma {:induction false} OfSortedAt(round: real -> real, ordered: seq<real>, k: nat, f: real, quantile: real)
    requires 0.0 <= quantile <= 1.0 && 0.0 <= f <= 1.0 && k + 1 < |ordered|
    requires Position(|ordered| - 1, quantile) == k as real + f
    ensures OfSorted(round, ordered, quantile) ==
              Some(round(ordered[k] + Scaled(ordered[k + 1] - ordered[k], f)))
  {
    InterpolateAt(ordered, k, f);
  }

  lemma {:induction false} ObservedInOrder(values: seq<real>)
    ensures var ordered := Sort(Observed(values));
            Sorted(ordered) && multiset(ordered) == multiset(Observed(values)) && |ordered| == |Observed(values)|
  {
    SortSorts(Observed(values));
    assert |multiset(Sort(Observed(values)))| == |multiset(Observed(values))|;
  }

  /**
   Between neighbouring observations the percentile moves in proportion: at the fraction `f` of the way
   from the k-th to the next it is the rounded value that far between them. At `f == 0.0` and `f == 1.0`
   it is the rounded observation itself.
   */
  lemma {:induction false} PercentileInterpolates(round: real -> real, values: seq<real>, ordered: seq<real>, n: nat,
                                                  k: nat, f: real, quantile: real) returns (step: real)
    requires ordered == Sort(Observed(values)) && |ordered| == n + 1 && k < n
    requires 0.0 <= quantile <= 1.0 && 0.0 <= f <= 1.0 && n as real * quantile == k as real + f
    ensures step == (ordered[k + 1] - ordered[k]) * f
    ensures Percentile(round, values, quantile) == Some(round(ordered[k] + step))
  {
    OfSortedAt(round, ordered, k, f, quantile);
    step := Scaled(ordered[k + 1] - ordered[k], f);
  }

  /** Percentiles are of every sample that is not negative, as often as it occurs, in order. */
  lemma {:induction false} ObservedExactly(values: seq<real>)
    ensures var ordered := Sort(Observed(values));
            && (forall i, j | 0 <= i < j < |ordered| :: ordered[i] <= ordered[j])
            && forall x :: multiset(ordered)[x] == if 0.0 <= x then multiset(values)[x] else 0
    ensures forall round, q: real | 0.0 <= q <= 1.0 :: Percentile(round, values, q).None? <==> Observed(values) == []
  {
    forall x ensures multiset(Observed(values))[x] == if 0.0 <= x then multiset(values)[x] else 0 {
      ObservedCount(values, x);
    }
    ObservedInOrder(values);
  }

  lemma {:induction false} OfSortedOn(round: real -> real, ordered: seq<real>, k: nat, quantile: real)
    requires 0.0 <= quantile <= 1.0 && k < |ordered| && Position(|ordered| - 1, quantile) == k as real
    ensures OfSorted(round, ordered, quantile) == Some(round(ordered[k]))
  {
  }

  /** The middle observation of an odd sample is its median. */
  lemma {:induction false} MedianIsTheMiddle(round: real -> real, values: seq<real>, ordered: seq<real>, m: nat)
    requires ordered == Sort(Observed(values)) && |ordered| == 2 * m + 1
    ensures Distribute(round, values).p50 == Some(round(ordered[m]))
  {
    assert Position(2 * m, 0.5) == m as real;
    OfSortedOn(round, ordered, m, 0.5);
  }

  /** And of twenty equal steps nineteen lead to the 95th percentile. */
  lemma {:induction false} NineteenOfTwenty(round: real -> real, values: seq<real>, ordered: seq<real>, m: nat)
    requires ordered == Sort(Observed(values)) && |ordered| == 20 * m + 1
    ensures Distribute(round, values).p95 == Some(round(ordered[19 * m]))
  {
    assert Position(20 * m, 0.95) == (19 * m) as real;
    OfSortedOn(round, ordered, 19 * m, 0.95);
  }

  /** The count is of all samples and the maximum is the rounded greatest of them. */
  lemma {:induction false} CountAndMaximum(round: real -> real, values: seq<real>)
    ensures Distribute(round, values).count == |values|
    ensures values == [] <==> Distribute(round, values).max.None?
    ensures values != [] ==>
              exists x :: x in values && (forall y | y in values :: y <= x) &&
                Distribute(round, values).max == Some(round(x))
  {
  }
}
