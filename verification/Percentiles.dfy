/** The percentiles of a report, over exact numbers: the client's integer rank, the validator's real
    position and the benchmark's ceiling rank. */
module Percentiles {
  import Sorting

  function AtMost(a: real, b: real): bool { a <= b }

  predicate Sorted(values: seq<real>) {
    forall i, j | 0 <= i < j < |values| :: values[i] <= values[j]
  }

  function Sort(values: seq<real>): (r: seq<real>)
    ensures |r| == |values| && multiset(r) == multiset(values)
  {
    Sorting.Sort(values, AtMost)
  }

  lemma SortSorts(values: seq<real>)
    ensures Sorted(Sort(values))
  {
    Sorting.SortSorts(values, AtMost);
    assert Sorting.SortedBy(Sort(values), AtMost);
  }

  /** Sorting a sorted list changes nothing. */
  lemma SortOnce(values: seq<real>)
    ensures Sort(Sort(values)) == Sort(values)
  {
    Sorting.SortSorts(values, AtMost);
    Sorting.SortedIsFixed(Sort(values), AtMost);
  }

  // ---- The three percentiles ----

  /** The client's: the rank is an integer quotient, the rest of it weighs the next value. */
  function Percentile(values: seq<real>, numerator: nat, denominator: nat): real
    requires values != [] && numerator <= denominator && denominator > 0
  {
    RankInRange(|values| - 1, numerator, denominator);
    AtRank(values, (|values| - 1) * numerator, denominator)
  }

  function AtRank(values: seq<real>, scaledRank: nat, denominator: nat): real
    requires denominator > 0 && scaledRank / denominator < |values|
  {
    var lower := scaledRank / denominator;
    var upper := if lower + 1 < |values| - 1 then lower + 1 else |values| - 1;
    if lower == upper then values[lower]
    else
      var weight := (scaledRank % denominator) as real / denominator as real;
      values[lower] * (1.0 - weight) + values[upper] * weight
  }

  lemma RankInRange(intervals: nat, numerator: nat, denominator: nat)
    requires numerator <= denominator && denominator > 0
    ensures 0 <= intervals * numerator / denominator <= intervals
  {
    var rank := intervals * numerator;
    assert rank <= intervals * denominator;
    QuotientAtMost(rank, intervals, denominator);
  }

  lemma QuotientAtMost(rank: nat, intervals: nat, denominator: nat)
    requires denominator > 0 && rank <= intervals * denominator
    ensures rank / denominator <= intervals
  {
    var q := rank / denominator;
    assert q * denominator <= rank;
    if q >= intervals + 1 {
      Scale(intervals + 1, q, denominator);
    }
  }

  lemma Scale(a: nat, b: nat, factor: nat)
    requires a <= b
    ensures a * factor <= b * factor
  {
  }

  function Position(values: seq<real>, quantile: real): real
    requires values != []
  {
    Times((|values| - 1) as real, quantile)
  }

  function Times(a: real, b: real): real { a * b }

  /** The validator's: the position is a real number between two ranks. */
  function PositionPercentile(values: seq<real>, quantile: real): real
    requires values != [] && 0.0 <= quantile <= 1.0
  {
    if |values| == 1 then values[0]
    else
      var position := Position(values, quantile);
      PositionInRange(values, quantile);
      var lower, upper := position.Floor, Ceiling(position);
      if lower == upper then values[lower]
      else
        var fraction := position - lower as real;
        values[lower] * (1.0 - fraction) + values[upper] * fraction
  }

  function Ceiling(x: real): (c: int)
    ensures (c - 1) as real < x <= c as real
  {
    if x.Floor as real == x then x.Floor else x.Floor + 1
  }

  lemma PositionInRange(values: seq<real>, quantile: real)
    requires values != [] && 0.0 <= quantile <= 1.0
    ensures 0.0 <= Position(values, quantile) <= (|values| - 1) as real
    ensures 0 <= Position(values, quantile).Floor <= Ceiling(Position(values, quantile)) < |values|
  {
    hide Times;
    ProductBounds((|values| - 1) as real, quantile);
  }

  /** The benchmark's: the value at the position rounded up. */
  function CeilingPercentile(values: seq<real>, quantile: real): real
    requires values != [] && 0.0 <= quantile <= 1.0
  {
    PositionInRange(values, quantile);
    values[Ceiling(Position(values, quantile))]
  }

  // ---- The client and the validator agree ----

  lemma QuotientPosition(rank: nat, denominator: nat)
    requires denominator > 0
    ensures var position := rank as real / denominator as real;
            && position.Floor == rank / denominator
            && position - (rank / denominator) as real == (rank % denominator) as real / denominator as real
  {
    var q, r, d := rank / denominator, rank % denominator, denominator as real;
    assert rank == q * denominator + r;
    assert rank as real == q as real * d + r as real;
    Divided(rank as real, q as real, r as real, d);
  }

  lemma Divided(a: real, q: real, r: real, d: real)
    requires d > 0.0 && a == q * d + r && 0.0 <= r < d
    ensures a / d == q + r / d && 0.0 <= r / d < 1.0
  {
  }

  lemma ScaledPosition(intervals: nat, numerator: nat, denominator: nat)
    requires denominator > 0
    ensures intervals as real * (numerator as real / denominator as real)
            == (intervals * numerator) as real / denominator as real
  {
  }

  /** The value a fraction of the way from rank `lower` to the next. */
  function Between(values: seq<real>, lower: nat, fraction: real): real
    requires lower < |values| && 0.0 <= fraction < 1.0 && (fraction > 0.0 ==> lower + 1 < |values|)
  {
    if fraction == 0.0 then values[lower] else values[lower] * (1.0 - fraction) + values[lower + 1] * fraction
  }

  lemma PositionIsBetween(values: seq<real>, quantile: real)
    requires values != [] && 0.0 <= quantile <= 1.0
    ensures var position := Position(values, quantile);
            && 0 <= position.Floor < |values| && 0.0 <= position - position.Floor as real < 1.0
            && (position > position.Floor as real ==> position.Floor + 1 < |values|)
            && PositionPercentile(values, quantile)
                == Between(values, position.Floor, position - position.Floor as real)
  {
    hide Position;
    PositionInRange(values, quantile);
  }

  /** The integer rank and the real position give the same percentile. */
  lemma PercentilesCoincide(values: seq<real>, numerator: nat, denominator: nat)
    requires values != [] && numerator <= denominator && denominator > 0
    ensures 0.0 <= numerator as real / denominator as real <= 1.0
    ensures Percentile(values, numerator, denominator)
            == PositionPercentile(values, numerator as real / denominator as real)
  {
    hide PositionPercentile, AtRank, Between, Position;
    RatioInRange(numerator, denominator);
    RankInRange(|values| - 1, numerator, denominator);
    PositionOfRank(values, numerator, denominator);
    PositionIsBetween(values, numerator as real / denominator as real);
    RankIsBetween(values, (|values| - 1) * numerator, denominator);
  }

  lemma PositionOfRank(values: seq<real>, numerator: nat, denominator: nat)
    requires values != [] && denominator > 0
    ensures var rank, position := (|values| - 1) * numerator, Position(values, numerator as real / denominator as real);
            && position.Floor == rank / denominator
            && position - position.Floor as real == (rank % denominator) as real / denominator as real
  {
    ScaledPosition(|values| - 1, numerator, denominator);
    QuotientPosition((|values| - 1) * numerator, denominator);
  }

  lemma RatioInRange(numerator: nat, denominator: nat)
    requires numerator <= denominator && denominator > 0
    ensures 0.0 <= numerator as real / denominator as real <= 1.0
  {
  }

  lemma RankIsBetween(values: seq<real>, rank: nat, denominator: nat)
    requires denominator > 0 && rank / denominator < |values|
    requires var weight := (rank % denominator) as real / denominator as real;
             0.0 <= weight < 1.0 && (weight > 0.0 ==> rank / denominator + 1 < |values|)
    ensures AtRank(values, rank, denominator)
            == Between(values, rank / denominator, (rank % denominator) as real / denominator as real)
  {
    var lower, weight := rank / denominator, (rank % denominator) as real / denominator as real;
    if weight == 0.0 && lower + 1 < |values| {
      assert values[lower] * (1.0 - weight) + values[lower + 1] * weight == values[lower];
    }
  }

  // ---- What a percentile promises ----

  lemma BetweenBounds(values: seq<real>, lower: nat, fraction: real)
    requires Sorted(values)
    requires lower < |values| && 0.0 <= fraction < 1.0 && (fraction > 0.0 ==> lower + 1 < |values|)
    ensures values[lower] <= Between(values, lower, fraction)
    ensures Between(values, lower, fraction) <= if fraction == 0.0 then values[lower] else values[lower + 1]
  {
    if fraction > 0.0 {
      Mix(values[lower], values[lower + 1], fraction);
    }
  }

  lemma Mix(low: real, high: real, fraction: real)
    requires low <= high && 0.0 <= fraction <= 1.0
    ensures low * (1.0 - fraction) + high * fraction == low + Times(high - low, fraction)
    ensures low <= low * (1.0 - fraction) + high * fraction <= high
  {
    hide Times;
    ProductBounds(high - low, fraction);
    Spread(low, high, fraction);
  }

  lemma Spread(low: real, high: real, fraction: real)
    ensures low * (1.0 - fraction) + high * fraction == low + Times(high - low, fraction)
  {
  }

  lemma ProductBounds(a: real, f: real)
    requires a >= 0.0 && 0.0 <= f <= 1.0
    ensures 0.0 <= Times(a, f) <= a
  {
  }

  /** A percentile lies between the least and the greatest value, and never above the ceiling rank. */
  lemma PercentileBounds(values: seq<real>, quantile: real)
    requires Sorted(values) && values != [] && 0.0 <= quantile <= 1.0
    ensures values[0] <= PositionPercentile(values, quantile) <= values[|values| - 1]
    ensures PositionPercentile(values, quantile) <= CeilingPercentile(values, quantile)
  {
    hide PositionPercentile, Between, Position;
    var position := Position(values, quantile);
    PositionInRange(values, quantile);
    PositionIsBetween(values, quantile);
    BetweenBounds(values, position.Floor, position - position.Floor as real);
  }

  /** A larger quantile never gives a smaller percentile. */
  lemma PercentileMonotone(values: seq<real>, p: real, q: real)
    requires Sorted(values) && values != [] && 0.0 <= p <= q <= 1.0
    ensures PositionPercentile(values, p) <= PositionPercentile(values, q)
  {
    hide PositionPercentile, Between, Position;
    var a, b := Position(values, p), Position(values, q);
    PositionMonotone(values, p, q);
    PositionIsBetween(values, p);
    PositionIsBetween(values, q);
    BetweenBounds(values, a.Floor, a - a.Floor as real);
    BetweenBounds(values, b.Floor, b - b.Floor as real);
    if a.Floor == b.Floor {
      BetweenMonotone(values, a.Floor, a - a.Floor as real, b - b.Floor as real);
    }
  }

  lemma PositionMonotone(values: seq<real>, p: real, q: real)
    requires values != [] && p <= q
    ensures Position(values, p) <= Position(values, q)
  {
    hide Times;
    ProductMonotone((|values| - 1) as real, p, q);
  }

  lemma ProductMonotone(n: real, p: real, q: real)
    requires n >= 0.0 && p <= q
    ensures Times(n, p) <= Times(n, q)
  {
  }

  lemma BetweenMonotone(values: seq<real>, lower: nat, f: real, g: real)
    requires Sorted(values) && lower < |values| && 0.0 <= f <= g < 1.0 && (g > 0.0 ==> lower + 1 < |values|)
    ensures Between(values, lower, f) <= Between(values, lower, g)
  {
    hide Times;
    if g > 0.0 {
      Mix(values[lower], values[lower + 1], f);
      Mix(values[lower], values[lower + 1], g);
      ProductMonotone(values[lower + 1] - values[lower], f, g);
    }
  }
}
