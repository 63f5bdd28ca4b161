/** The running mean and second moment that utils/bench-scheduler.cc logs, over the reals. */
module Welford {
  import opened Wrappers

  datatype PhaseResult = PhaseResult(time: real, rate: real, period: real)

  datatype Result = Result(init: PhaseResult, run: PhaseResult)

  datatype Field = InitTime | InitRate | InitPeriod | RunTime | RunRate | RunPeriod

  function Get(r: Result, f: Field): real {
    match f
    case InitTime => r.init.time
    case InitRate => r.init.rate
    case InitPeriod => r.init.period
    case RunTime => r.run.time
    case RunRate => r.run.rate
    case RunPeriod => r.run.period
  }

  /** The sum of one field over the first `n` results. */
  function Sum(rs: seq<Result>, f: Field, n: nat): real
    requires n <= |rs|
  {
    if n == 0 then 0.0 else Sum(rs, f, n - 1) + Get(rs[n - 1], f)
  }

  /** The sum of the squared deviations of one field from `m` over the first `n` results. */
  function SquaredDeviations(rs: seq<Result>, f: Field, n: nat, m: real): real
    requires n <= |rs|
  {
    if n == 0 then 0.0
    else SquaredDeviations(rs, f, n - 1, m) + (Get(rs[n - 1], f) - m) * (Get(rs[n - 1], f) - m)
  }

  function SumOfSquares(rs: seq<Result>, f: Field, n: nat): real
    requires n <= |rs|
  {
    if n == 0 then 0.0 else SumOfSquares(rs, f, n - 1) + Get(rs[n - 1], f) * Get(rs[n - 1], f)
  }

  /** `d` is a sum of `k` squared deviations from `m`, multiplied out. */
  ghost predicate Expanded(d: real, q: real, m: real, s: real, k: real) {
    d == q - 2.0 * m * s + k * (m * m)
  }

  lemma {:induction false} DeviationsExpanded(rs: seq<Result>, f: Field, n: nat, m: real)
    requires n <= |rs|
    ensures Expanded(SquaredDeviations(rs, f, n, m), SumOfSquares(rs, f, n), m, Sum(rs, f, n), n as real)
  {
    if n == 0 {
    } else {
      DeviationsExpanded(rs, f, n - 1, m);
      OneMore(SquaredDeviations(rs, f, n - 1, m), SumOfSquares(rs, f, n - 1), m, Sum(rs, f, n - 1), (n - 1) as real,
              Get(rs[n - 1], f), Sum(rs, f, n), n as real);
    }
  }

  lemma OneMore(d: real, q: real, m: real, s: real, k: real, x: real, s': real, k': real)
    requires Expanded(d, q, m, s, k) && k' == k + 1.0 && s' == s + x
    ensures Expanded(d + (x - m) * (x - m), q + x * x, m, s', k')
  {
    assert k' * (m * m) == k * (m * m) + m * m;
    assert (x - m) * (x - m) == x * x - 2.0 * m * x + m * m;
    assert 2.0 * m * s' == 2.0 * m * s + 2.0 * m * x;
  }

  /** `average` is the mean of the first `n` results, and `moment2` their second moment about it. */
  ghost predicate Accumulated(rs: seq<Result>, f: Field, n: nat, average: real, moment2: real)
    requires n <= |rs|
  {
    IsMoment(average, moment2, SumOfSquares(rs, f, n), Sum(rs, f, n), n as real)
  }

  ghost predicate IsMoment(a: real, m: real, q: real, s: real, k: real) {
    a * k == s && m == q - a * s
  }

  lemma MomentIsExact(rs: seq<Result>, f: Field, n: nat, average: real, moment2: real)
    requires n <= |rs| && Accumulated(rs, f, n, average, moment2)
    ensures moment2 == SquaredDeviations(rs, f, n, average)
  {
    DeviationsExpanded(rs, f, n, average);
    AboutTheMean(SquaredDeviations(rs, f, n, average), SumOfSquares(rs, f, n), average, Sum(rs, f, n), n as real);
  }

  lemma AboutTheMean(d: real, q: real, a: real, s: real, k: real)
    requires Expanded(d, q, a, s, k) && a * k == s
    ensures d == q - a * s
  {
    assert k * (a * a) == a * (a * k);
  }

  /** One Welford update, for plain numbers: `s` and `q` are the sums before, `x` the next value. */
  lemma Update(x: real, k: real, k': real, s: real, q: real, a: real, m: real, a': real)
    requires k > 0.0 && k' == k + 1.0 && IsMoment(a, m, q, s, k) && a' == a + (x - a) / k'
    ensures IsMoment(a', m + (x - a) * (x - a'), q + x * x, s + x, k')
  {
    var d := (x - a) / k';
    DividedBack(x - a, k');
    assert (a + d) * k' == a * k + a + d * k';
    CrossTerms(x, k, s, a, a');
    assert (x - a) * (x - a') == x * x - x * a' - a * x + a * a';
    assert a' * (s + x) == a' * s + a' * x;
  }

  lemma CrossTerms(x: real, k: real, s: real, a: real, a': real)
    requires a * k == s && a' * (k + 1.0) == s + x
    ensures a * a' + a' * s == a * s + a * x
  {
    assert a * (s + x) == a * (a' * (k + 1.0)) == a' * (a * k) + a * a';
    assert a * (s + x) == a * s + a * x;
  }

  lemma DividedBack(y: real, z: real)
    requires z > 0.0
    ensures (y / z) * z == y
  {}

  /** Before the first round, `average` is the first result itself. */
  ghost predicate Before(rs: seq<Result>, f: Field, n: nat, average: real, moment2: real)
    requires n < |rs|
  {
    if n == 0 then average == Get(rs[0], f) && moment2 == 0.0 else Accumulated(rs, f, n, average, moment2)
  }

  lemma RoundIsExact(rs: seq<Result>, f: Field, n: nat, average: real, moment2: real, average': real, moment2': real)
    requires n < |rs| && Before(rs, f, n, average, moment2)
    requires average' == average + (Get(rs[n], f) - average) / (n + 1) as real
    requires moment2' == moment2 + (Get(rs[n], f) - average) * (Get(rs[n], f) - average')
    ensures Accumulated(rs, f, n + 1, average', moment2')
  {
    var x, s, q := Get(rs[n], f), Sum(rs, f, n), SumOfSquares(rs, f, n);
    assert Sum(rs, f, n + 1) == s + x && SumOfSquares(rs, f, n + 1) == q + x * x;
    if n == 0 {
      assert average' == x && moment2' == 0.0 && s == 0.0 && q == 0.0;
    } else {
      Update(x, n as real, (n + 1) as real, s, q, average, moment2, average');
    }
  }

  /** The macro ACCUMULATE, for field `f` of result `n`. */
  method Accumulate(ghost rs: seq<Result>, ghost f: Field, n: nat, x: real, average: real, moment2: real)
    returns (average': real, moment2': real)
    requires n < |rs| && x == Get(rs[n], f) && Before(rs, f, n, average, moment2)
    ensures Accumulated(rs, f, n + 1, average', moment2')
  {
    var count := n + 1;
    var deltaPre := x - average;
    average' := average + deltaPre / count as real;
    var deltaPost := x - average';
    moment2' := moment2 + deltaPre * deltaPost;
    RoundIsExact(rs, f, n, average, moment2, average', moment2');
  }

  ghost predicate AllBefore(rs: seq<Result>, n: nat, average: Result, moment2: Result)
    requires n < |rs|
  {
    forall f :: Before(rs, f, n, Get(average, f), Get(moment2, f))
  }

  ghost predicate AllAccumulated(rs: seq<Result>, n: nat, average: Result, moment2: Result)
    requires n <= |rs|
  {
    forall f :: Accumulated(rs, f, n, Get(average, f), Get(moment2, f))
  }

  /** One round of the loop of `Log`: all six fields. */
  method AccumulateAll(rs: seq<Result>, n: nat, average: Result, moment2: Result)
    returns (average': Result, moment2': Result)
    requires n < |rs| && AllBefore(rs, n, average, moment2)
    ensures AllAccumulated(rs, n + 1, average', moment2')
  {
    var run := rs[n];
    var a1, m1 := Accumulate(rs, InitTime, n, Get(run, InitTime), Get(average, InitTime), Get(moment2, InitTime));
    var a2, m2 := Accumulate(rs, InitRate, n, Get(run, InitRate), Get(average, InitRate), Get(moment2, InitRate));
    var a3, m3 := Accumulate(rs, InitPeriod, n, Get(run, InitPeriod), Get(average, InitPeriod), Get(moment2, InitPeriod));
    var a4, m4 := Accumulate(rs, RunTime, n, Get(run, RunTime), Get(average, RunTime), Get(moment2, RunTime));
    var a5, m5 := Accumulate(rs, RunRate, n, Get(run, RunRate), Get(average, RunRate), Get(moment2, RunRate));
    var a6, m6 := Accumulate(rs, RunPeriod, n, Get(run, RunPeriod), Get(average, RunPeriod), Get(moment2, RunPeriod));
    average' := Result(PhaseResult(a1, a2, a3), PhaseResult(a4, a5, a6));
    moment2' := Result(PhaseResult(m1, m2, m3), PhaseResult(m4, m5, m6));
  }

  /** The numbers under the square roots. */
  function Variance(moment2: Result, n: nat): Result
    requires n > 0
  {
    var k := n as real;
    Result(PhaseResult(moment2.init.time / k, moment2.init.rate / k, moment2.init.period / k),
           PhaseResult(moment2.run.time / k, moment2.run.rate / k, moment2.run.period / k))
  }

  /** `average` is the exact mean and `variance` the exact mean squared deviation, in every field. */
  ghost predicate Exact(rs: seq<Result>, average: Result, variance: Result)
    requires rs != []
  {
    forall f ::
      && Get(average, f) == Sum(rs, f, |rs|) / |rs| as real
      && Get(variance, f) == SquaredDeviations(rs, f, |rs|, Get(average, f)) / |rs| as real
  }

  lemma AccumulatedIsExact(rs: seq<Result>, average: Result, moment2: Result)
    requires rs != [] && AllAccumulated(rs, |rs|, average, moment2)
    ensures Exact(rs, average, Variance(moment2, |rs|))
  {
    var variance := Variance(moment2, |rs|);
    forall f
      ensures Get(average, f) == Sum(rs, f, |rs|) / |rs| as real
      ensures Get(variance, f) == SquaredDeviations(rs, f, |rs|, Get(average, f)) / |rs| as real
    {
      FieldIsExact(rs, f, Get(average, f), Get(moment2, f));
      VarianceField(moment2, |rs|, f);
    }
  }

  lemma FieldIsExact(rs: seq<Result>, f: Field, average: real, moment2: real)
    requires rs != [] && Accumulated(rs, f, |rs|, average, moment2)
    ensures average == Sum(rs, f, |rs|) / |rs| as real
    ensures moment2 == SquaredDeviations(rs, f, |rs|, average)
  {
    MomentIsExact(rs, f, |rs|, average, moment2);
    MeanIsQuotient(average, |rs| as real, Sum(rs, f, |rs|));
  }

  lemma VarianceField(moment2: Result, n: nat, f: Field)
    requires n > 0
    ensures Get(Variance(moment2, n), f) == Get(moment2, f) / n as real
  {}

  lemma MeanIsQuotient(a: real, k: real, s: real)
    requires k > 0.0 && a * k == s
    ensures a == s / k
  {}

  // ----- The standard deviation -----

  /** The library's square root, over the reals. */
  ghost predicate IsSquareRoot(sqrt: real -> real) {
    forall x | x >= 0.0 :: IsRootOf(sqrt(x), x)
  }

  ghost predicate IsRootOf(r: real, x: real) {
    r >= 0.0 && r * r == x
  }

  function Rooted(sqrt: real -> real, r: Result): Result {
    Result(PhaseResult(sqrt(r.init.time), sqrt(r.init.rate), sqrt(r.init.period)),
           PhaseResult(sqrt(r.run.time), sqrt(r.run.rate), sqrt(r.run.period)))
  }

  /** In every field, `average` is the mean and `stdev` the standard deviation: the root of the mean squared deviation. */
  ghost predicate IsStatistics(rs: seq<Result>, average: Result, stdev: Result)
    requires rs != []
  {
    forall f ::
      && Get(average, f) == Sum(rs, f, |rs|) / |rs| as real
      && IsRootOf(Get(stdev, f), SquaredDeviations(rs, f, |rs|, Get(average, f)) / |rs| as real)
  }

  lemma {:induction false} DeviationsNotNegative(rs: seq<Result>, f: Field, n: nat, m: real)
    requires n <= |rs|
    ensures SquaredDeviations(rs, f, n, m) >= 0.0
  {
    if n == 0 {
    } else {
      DeviationsNotNegative(rs, f, n - 1, m);
      NotNegative(Get(rs[n - 1], f) - m);
    }
  }

  lemma NotNegative(d: real)
    ensures d * d >= 0.0
  {}

  lemma NotNegativeQuotient(d: real, k: real)
    requires d >= 0.0 && k > 0.0
    ensures d / k >= 0.0
  {}

  lemma RootsAreDeviations(sqrt: real -> real, rs: seq<Result>, average: Result, variance: Result)
    requires IsSquareRoot(sqrt) && rs != [] && Exact(rs, average, variance)
    ensures IsStatistics(rs, average, Rooted(sqrt, variance))
  {
    forall f
      ensures Get(average, f) == Sum(rs, f, |rs|) / |rs| as real
      ensures IsRootOf(Get(Rooted(sqrt, variance), f), SquaredDeviations(rs, f, |rs|, Get(average, f)) / |rs| as real)
    {
      DeviationsNotNegative(rs, f, |rs|, Get(average, f));
      NotNegativeQuotient(SquaredDeviations(rs, f, |rs|, Get(average, f)), |rs| as real);
      assert Get(Rooted(sqrt, variance), f) == sqrt(Get(variance, f));
      assert IsRootOf(sqrt(Get(variance, f)), Get(variance, f));
    }
  }

  /** `Log`: nothing for fewer than two results; otherwise the mean and the standard deviation. */
  method Log(sqrt: real -> real, rs: seq<Result>) returns (logged: Option<(Result, Result)>)
    requires IsSquareRoot(sqrt)
    ensures logged.None? <==> |rs| < 2
    ensures logged.Some? ==> IsStatistics(rs, logged.value.0, logged.value.1)
  {
    if |rs| < 2 {
      return None;
    }
    var n := 0;
    var zero := PhaseResult(0.0, 0.0, 0.0);
    var average, moment2 := rs[0], Result(zero, zero);
    while n < |rs|
      invariant n <= |rs|
      invariant if n < |rs| then AllBefore(rs, n, average, moment2) else AllAccumulated(rs, n, average, moment2)
    {
      average, moment2 := AccumulateAll(rs, n, average, moment2);
      n := n + 1;
      SameLater(rs, n, average, moment2);
    }
    AccumulatedIsExact(rs, average, moment2);
    RootsAreDeviations(sqrt, rs, average, Variance(moment2, n));
    logged := Some((average, Rooted(sqrt, Variance(moment2, n))));
  }

  lemma SameLater(rs: seq<Result>, n: nat, average: Result, moment2: Result)
    requires 0 < n <= |rs| && AllAccumulated(rs, n, average, moment2)
    ensures n < |rs| ==> AllBefore(rs, n, average, moment2)
  {
    forall f | n < |rs| ensures Before(rs, f, n, Get(average, f), Get(moment2, f)) {
      assert Accumulated(rs, f, n, Get(average, f), Get(moment2, f));
    }
  }
}
