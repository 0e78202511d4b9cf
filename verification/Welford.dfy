/** The averaging of benchmark results (utils/bench-scheduler.cc:333-393), over the reals. */
module Welford {

  datatype Phase = Phase(time: real, rate: real, period: real)

  datatype Result = Result(init: Phase, run: Phase)

  datatype Field = InitTime | InitRate | InitPeriod | RunTime | RunRate | RunPeriod

  function Get(r: Result, f: Field): real {
    match f
    case InitTime => r.init.time
    case InitRate => r.init.rate
    case InitPeriod => r.init.period
    case RunTime => r.run.time
    case RunRate => r.run.rate
    case RunPeriod => r.run.period
  }

  /** One field of all results. */
  function Column(rs: seq<Result>, f: Field): (c: seq<real>)
    ensures |c| == |rs|
  {
    if rs == [] then [] else Column(rs[..|rs| - 1], f) + [Get(rs[|rs| - 1], f)]
  }

  // ---------------------------------------------------------------- reference: mean and deviations

  ghost function Sum(xs: seq<real>): real {
    if xs == [] then 0.0 else Sum(xs[..|xs| - 1]) + xs[|xs| - 1]
  }

  ghost function SumSquares(xs: seq<real>): real {
    if xs == [] then 0.0 else SumSquares(xs[..|xs| - 1]) + Square(xs[|xs| - 1])
  }

  /** The sum of squared deviations from `c`. */
  ghost function Deviation(xs: seq<real>, c: real): real {
    if xs == [] then 0.0 else Deviation(xs[..|xs| - 1], c) + Square(xs[|xs| - 1] - c)
  }

  function Square(x: real): real {
    x * x
  }

  /** `a` is the mean of `xs`; any number will do when there are none. */
  ghost predicate IsMean(a: real, xs: seq<real>) {
    |xs| as real * a == Sum(xs)
  }

  lemma SquareOfDifference(a: real, b: real)
    ensures Square(a - b) == Square(a) - 2.0 * (a * b) + Square(b)
  {
  }

  lemma Distribute(a: real, b: real, c: real)
    ensures (a + b) * c == a * c + b * c
  {
  }

  lemma OneMore(n: nat, x: real)
    ensures (n + 1) as real * x == n as real * x + x
  {
  }

  lemma {:induction false} DeviationExpanded(xs: seq<real>, c: real)
    ensures Deviation(xs, c) == SumSquares(xs) - 2.0 * (Sum(xs) * c) + |xs| as real * Square(c)
  {
    if xs != [] {
      var front, x := xs[..|xs| - 1], xs[|xs| - 1];
      DeviationExpanded(front, c);
      SquareOfDifference(x, c);
      Distribute(Sum(front), x, c);
      OneMore(|front|, Square(c));
    }
  }

  /** Moving the centre by `e` away from the mean `a`. */
  lemma DeviationMoved(xs: seq<real>, a: real, e: real)
    requires IsMean(a, xs)
    ensures Deviation(xs, a + e) == Deviation(xs, a) + |xs| as real * Square(e)
  {
    hide Square;
    var b := a + e;
    DeviationExpanded(xs, a);
    DeviationExpanded(xs, b);
    MovedAlgebra(|xs| as real, a, e, b, Sum(xs), SumSquares(xs), Deviation(xs, a), Deviation(xs, b));
  }

  lemma MovedAlgebra(n: real, a: real, e: real, b: real, s: real, q: real, d: real, d': real)
    requires n * a == s && b == a + e
    requires d == q - 2.0 * (s * a) + n * Square(a)
    requires d' == q - 2.0 * (s * b) + n * Square(b)
    ensures d' == d + n * Square(e)
  {
    assert Square(b) == Square(a) + 2.0 * (a * e) + Square(e);
    assert n * Square(b) == n * Square(a) + 2.0 * (n * (a * e)) + n * Square(e);
    assert s * b == s * a + s * e;
    assert s * e == n * (a * e);
  }

  /** The average and the second moment of the samples so far. Before the first sample
      the average may be anything. */
  ghost predicate Accumulated(xs: seq<real>, average: real, moment2: real) {
    IsMean(average, xs) && moment2 == Deviation(xs, average)
  }

  /** One sample more, with `e` the change of the average. */
  lemma WelfordStep(xs: seq<real>, x: real, average: real, moment2: real, e: real)
    requires Accumulated(xs, average, moment2)
    requires e * (|xs| as real + 1.0) == x - average
    ensures Accumulated(xs + [x], average + e, moment2 + (x - average) * (x - (average + e)))
  {
    hide Square;
    assert (xs + [x])[..|xs|] == xs;
    NewMean(|xs| as real, Sum(xs), average, e, x);
    DeviationMoved(xs, average, e);
    NewMoment(|xs| as real, average, e, x, moment2, Deviation(xs, average + e));
  }

  lemma NewMean(n: real, s: real, average: real, e: real, x: real)
    requires n * average == s && e * (n + 1.0) == x - average
    ensures (n + 1.0) * (average + e) == s + x
  {
    assert (n + 1.0) * (average + e) == n * average + average + e * (n + 1.0);
  }

  lemma NewMoment(n: real, average: real, e: real, x: real, moment2: real, moved: real)
    requires e * (n + 1.0) == x - average
    requires moved == moment2 + n * Square(e)
    ensures moment2 + (x - average) * (x - (average + e)) == moved + Square(x - (average + e))
  {
    assert x - (average + e) == n * e by {
      assert e * (n + 1.0) == n * e + e;
    }
    StepAlgebra(n, e);
  }

  lemma StepAlgebra(n: real, e: real)
    ensures (e * (n + 1.0)) * (n * e) == n * Square(e) + Square(n * e)
  {
    assert e * (n + 1.0) == n * e + e;
    Distribute(n * e, e, n * e);
    assert e * (n * e) == n * Square(e);
  }

  /** `m` is the sum of the squares of `xs` less `|xs|` times the square of `a`. */
  ghost predicate IsMoment(m: real, xs: seq<real>, a: real) {
    m == SumSquares(xs) - |xs| as real * Square(a)
  }

  /** The second moment is the sum of the squares less `n` times the squared mean, so over
      `n` it is the mean of the squares less the squared mean. */
  lemma MomentIsSumOfSquares(xs: seq<real>, average: real, moment2: real)
    requires Accumulated(xs, average, moment2)
    ensures IsMoment(moment2, xs, average)
  {
    hide Square;
    DeviationExpanded(xs, average);
    CentreAlgebra(|xs| as real, average, Sum(xs));
  }

  lemma CentreAlgebra(n: real, a: real, s: real)
    requires n * a == s
    ensures s * a == n * Square(a)
  {
  }

  // ---------------------------------------------------------------- the program

  method Accumulate(sample: real, average: real, moment2: real, count: nat, ghost xs: seq<real>)
    returns (newAverage: real, newMoment2: real)
    requires count == |xs| + 1 && Accumulated(xs, average, moment2)
    ensures Accumulated(xs + [sample], newAverage, newMoment2)
  {
    var deltaPre := sample - average;
    newAverage := average + deltaPre / count as real;
    var deltaPost := sample - newAverage;
    newMoment2 := moment2 + deltaPre * deltaPost;
    assert deltaPre / count as real * (|xs| as real + 1.0) == deltaPre;
    WelfordStep(xs, sample, average, moment2, deltaPre / count as real);
  }

  /** The accumulation of one phase: its three fields in turn. */
  method AccumulatePhase(sample: Phase, average: Phase, moment2: Phase, count: nat,
                         ghost times: seq<real>, ghost rates: seq<real>, ghost periods: seq<real>)
    returns (newAverage: Phase, newMoment2: Phase)
    requires count == |times| + 1 == |rates| + 1 == |periods| + 1
    requires Accumulated(times, average.time, moment2.time)
    requires Accumulated(rates, average.rate, moment2.rate)
    requires Accumulated(periods, average.period, moment2.period)
    ensures Accumulated(times + [sample.time], newAverage.time, newMoment2.time)
    ensures Accumulated(rates + [sample.rate], newAverage.rate, newMoment2.rate)
    ensures Accumulated(periods + [sample.period], newAverage.period, newMoment2.period)
  {
    var a0, m0 := Accumulate(sample.time, average.time, moment2.time, count, times);
    var a1, m1 := Accumulate(sample.rate, average.rate, moment2.rate, count, rates);
    var a2, m2 := Accumulate(sample.period, average.period, moment2.period, count, periods);
    newAverage, newMoment2 := Phase(a0, a1, a2), Phase(m0, m1, m2);
  }

  /** The six fields of the average and the second moment, over the results so far. */
  ghost predicate AllAccumulated(rs: seq<Result>, average: Result, moment2: Result) {
    forall f: Field :: Accumulated(Column(rs, f), Get(average, f), Get(moment2, f))
  }

  /** With fewer than two results there is nothing to log. Otherwise every field of the
      average is the mean of that field, every field of the second moment is its sum of
      squared deviations from that mean, which over the count is the mean of the squares
      less the squared mean; the seed of the average does not matter. */
  method Log(results: seq<Result>) returns (logged: bool, average: Result, moment2: Result, n: nat)
    ensures logged <==> |results| >= 2
    ensures logged ==> n == |results| && AllAccumulated(results, average, moment2)
    ensures logged ==> forall f: Field :: IsMoment(Get(moment2, f), Column(results, f), Get(average, f))
  {
    var zero := Result(Phase(0.0, 0.0, 0.0), Phase(0.0, 0.0, 0.0));
    average, moment2, n := zero, zero, 0;
    if |results| < 2 {
      return false, average, moment2, n;
    }
    average := results[0];
    while n < |results|
      invariant n <= |results|
      invariant AllAccumulated(results[..n], average, moment2)
    {
      var run := results[n];
      ghost var before := results[..n];
      assert results[..n + 1][..n] == before;
      var a, m := AccumulatePhase(run.init, average.init, moment2.init, n + 1,
                                  Column(before, InitTime), Column(before, InitRate), Column(before, InitPeriod));
      var b, k := AccumulatePhase(run.run, average.run, moment2.run, n + 1,
                                  Column(before, RunTime), Column(before, RunRate), Column(before, RunPeriod));
      average, moment2 := Result(a, b), Result(m, k);
      n := n + 1;
    }
    assert results[..n] == results;
    forall f: Field
      ensures IsMoment(Get(moment2, f), Column(results, f), Get(average, f))
    {
      MomentIsSumOfSquares(Column(results, f), Get(average, f), Get(moment2, f));
    }
    logged := true;
  }
}
