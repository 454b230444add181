/** Sums, means, maxima and minima of scores: Python's `sum`, `max`, `min`,
    `sum(xs) / len(xs)` and SQL's `avg`.  Scores are exact reals; the
    two-decimal rounding of the source is left abstract. */
module Estadistica {

  function Sum(xs: seq<real>): real
  {
    if xs == [] then 0.0 else Sum(xs[..|xs| - 1]) + xs[|xs| - 1]
  }

  function Max(xs: seq<real>): (m: real)
    requires xs != []
    ensures m in xs
    ensures forall k | 0 <= k < |xs| :: xs[k] <= m
  {
    if |xs| == 1 then xs[0]
    else
      var m := Max(xs[..|xs| - 1]);
      assert xs == xs[..|xs| - 1] + [xs[|xs| - 1]];
      if xs[|xs| - 1] > m then xs[|xs| - 1] else m
  }

  function Min(xs: seq<real>): (m: real)
    requires xs != []
    ensures m in xs
    ensures forall k | 0 <= k < |xs| :: m <= xs[k]
  {
    if |xs| == 1 then xs[0]
    else
      var m := Min(xs[..|xs| - 1]);
      assert xs == xs[..|xs| - 1] + [xs[|xs| - 1]];
      if xs[|xs| - 1] < m then xs[|xs| - 1] else m
  }

  function Mean(xs: seq<real>): real
    requires xs != []
  {
    Sum(xs) / (|xs| as real)
  }

  /** SQL `avg(...)` read as `promedio_query if promedio_query else 0.0`:
      the mean, or 0.0 when there is no row. */
  function MeanOrZero(xs: seq<real>): real
  {
    if xs == [] then 0.0 else Mean(xs)
  }

  lemma {:induction false} SumBounds(xs: seq<real>, lo: real, hi: real)
    requires forall k | 0 <= k < |xs| :: lo <= xs[k] <= hi
    ensures (|xs| as real) * lo <= Sum(xs) <= (|xs| as real) * hi
  {
    if xs != [] {
      SumBounds(xs[..|xs| - 1], lo, hi);
    }
  }

  /** A mean lies between the smallest and the largest value. */
  lemma MeanBetween(xs: seq<real>)
    requires xs != []
    ensures Min(xs) <= Mean(xs) <= Max(xs)
  {
    SumBounds(xs, Min(xs), Max(xs));
    QuotientBounds(Sum(xs), |xs| as real, Min(xs), Max(xs));
  }

  lemma QuotientBounds(s: real, n: real, lo: real, hi: real)
    requires n > 0.0 && n * lo <= s <= n * hi
    ensures lo <= s / n <= hi
  {
    var q := s / n;
    assert q * n == s;
    assert (q - lo) * n == s - n * lo;
    assert (hi - q) * n == n * hi - s;
  }

  /** A mean times the number of values gives back their sum. */
  lemma MeanTimesCount(xs: seq<real>)
    requires xs != []
    ensures Mean(xs) * (|xs| as real) == Sum(xs)
  {
    QuotientTimes(Sum(xs), |xs| as real);
  }

  lemma QuotientTimes(s: real, n: real)
    requires n > 0.0
    ensures (s / n) * n == s
  {
  }

  /** Scores in a range have their mean in that range. */
  lemma MeanInRange(xs: seq<real>, lo: real, hi: real)
    requires xs != []
    requires forall k | 0 <= k < |xs| :: lo <= xs[k] <= hi
    ensures lo <= Mean(xs) <= hi
  {
    MeanBetween(xs);
  }

  lemma {:induction false} SumAppend(xs: seq<real>, ys: seq<real>)
    ensures Sum(xs + ys) == Sum(xs) + Sum(ys)
    decreases |ys|
  {
    if ys != [] {
      assert (xs + ys)[..|xs + ys| - 1] == xs + ys[..|ys| - 1];
      SumAppend(xs, ys[..|ys| - 1]);
    } else {
      assert xs + ys == xs;
    }
  }
}
