/**
 * The arithmetic behind the week averages: Python's `sum` over a sequence of
 * values, its extremes, and the mean with the facts that pin it down.
 */
module Stats {
  /** Python's `sum(xs)`: zero for no values, the value itself for one. */
  function Sum(xs: seq<real>): real
  {
    if xs == [] then 0.0 else xs[0] + Sum(xs[1..])
  }

  /** Summing is additive over concatenation, so the order of the values does not matter to it. */
  lemma {:induction false} SumAppend(a: seq<real>, b: seq<real>)
    ensures Sum(a + b) == Sum(a) + Sum(b)
  {
    if a != [] {
      assert (a + b)[0] == a[0] && (a + b)[1..] == a[1..] + b;
      SumAppend(a[1..], b);
      assert Sum(a + b) == a[0] + Sum(a[1..] + b);
    } else {
      assert a + b == b;
    }
  }

  function Lowest(xs: seq<real>): (m: real)
    requires xs != []
    ensures m in xs && forall x :: x in xs ==> m <= x
  {
    if |xs| == 1 then xs[0]
    else
      var rest := Lowest(xs[1..]);
      assert forall x :: x in xs ==> x == xs[0] || x in xs[1..];
      if xs[0] <= rest then xs[0] else rest
  }

  function Highest(xs: seq<real>): (m: real)
    requires xs != []
    ensures m in xs && forall x :: x in xs ==> x <= m
  {
    if |xs| == 1 then xs[0]
    else
      var rest := Highest(xs[1..]);
      assert forall x :: x in xs ==> x == xs[0] || x in xs[1..];
      if xs[0] >= rest then xs[0] else rest
  }

  lemma {:induction false} SumBounds(xs: seq<real>, lo: real, hi: real)
    requires forall x :: x in xs ==> lo <= x <= hi
    ensures |xs| as real * lo <= Sum(xs) <= |xs| as real * hi
  {
    if xs != [] {
      var tail := xs[1..];
      assert forall x :: x in tail ==> x in xs;
      SumBounds(tail, lo, hi);
      assert xs[0] in xs;
      assert Sum(xs) == xs[0] + Sum(tail);
      StepBounds(|tail| as real, |xs| as real, Sum(tail), xs[0], lo, hi);
    }
  }

  /** One more value within the bounds keeps a sum within one more step of them. */
  lemma StepBounds(n: real, m: real, total: real, x: real, lo: real, hi: real)
    requires m == n + 1.0
    requires n * lo <= total <= n * hi && lo <= x <= hi
    ensures m * lo <= x + total <= m * hi
  {
    assert m * lo == n * lo + lo;
    assert m * hi == n * hi + hi;
  }

  lemma QuotientExact(q: real, total: real, n: real)
    requires n > 0.0 && q == total / n
    ensures q * n == total
  {
    assert (total / n) * n == total;
  }

  lemma QuotientBounds(total: real, n: real, lo: real, hi: real)
    requires n > 0.0 && n * lo <= total <= n * hi
    ensures lo <= total / n <= hi
  {
    var q := total / n;
    assert q * n == total;
    assert (q - lo) * n == total - n * lo;
    assert (hi - q) * n == n * hi - total;
  }

  /** The arithmetic mean of a non-empty sequence. */
  function Mean(xs: seq<real>): real
    requires xs != []
  {
    Sum(xs) / (|xs| as real)
  }

  /** The mean lies between the smallest and the largest value. */
  lemma MeanBounds(xs: seq<real>)
    requires xs != []
    ensures Lowest(xs) <= Mean(xs) <= Highest(xs)
  {
    SumBounds(xs, Lowest(xs), Highest(xs));
    QuotientBounds(Sum(xs), |xs| as real, Lowest(xs), Highest(xs));
  }

  /** The mean is the value that, counted once per value, gives the sum. */
  lemma MeanTimesCount(xs: seq<real>)
    requires xs != []
    ensures Mean(xs) * (|xs| as real) == Sum(xs)
  {
    QuotientExact(Mean(xs), Sum(xs), |xs| as real);
  }
}
