/** Jain's fairness index as dctcp-example.cc computes it, over unsigned 64-bit counters. */
module Fairness {
  const WORD := 0x1_0000_0000_0000_0000

  /** A double division: 0/0 and x/0 are no numbers. */
  datatype Quotient = Finite(value: real) | Infinite | NotANumber

  function Divide(a: nat, b: nat): Quotient {
    if b != 0 then Finite(a as real / b as real) else if a != 0 then Infinite else NotANumber
  }

  function Sum(xs: seq<nat>, n: nat): nat
    requires n <= |xs|
  {
    if n == 0 then 0 else Sum(xs, n - 1) + xs[n - 1]
  }

  function SumSquares(xs: seq<nat>, n: nat): nat
    requires n <= |xs|
  {
    if n == 0 then 0 else SumSquares(xs, n - 1) + xs[n - 1] * xs[n - 1]
  }

  /** Wrapping the parts of a sum first does not change the wrapped sum. */
  lemma AddWrapped(a: nat, b: nat)
    ensures (a % WORD + b) % WORD == (a + b) % WORD
    ensures (a % WORD + b % WORD) % WORD == (a + b) % WORD
  {}

  /** The quotient of the two products, with every result reduced to 64 bits. */
  function WrappedFairness(xs: seq<nat>): Quotient {
    var sum, sumSquares := Sum(xs, |xs|) % WORD, SumSquares(xs, |xs|) % WORD;
    Divide(sum * sum % WORD, |xs| * sumSquares % WORD)
  }

  /** A double divided by a double that is not negative. */
  function DivideReal(a: real, b: real): Quotient {
    if b != 0.0 then Finite(a / b) else if a != 0.0 then Infinite else NotANumber
  }

  /** The mean throughput of a group in Mbps: the bytes of a flow are truncated, and every integer result wraps. */
  function WrappedThroughput(xs: seq<nat>, seconds: real): Quotient
    requires xs != []
  {
    match DivideReal((Sum(xs, |xs|) % WORD / |xs| * 8 % WORD) as real, seconds)
    case Finite(v) => Finite(v / 1.0e6)
    case other => other
  }

  /** One group of `PrintFairness`: every operation wraps at 64 bits. */
  method GroupFairness(xs: seq<nat>, seconds: real) returns (average: Quotient, fairness: Quotient)
    requires xs != []
    ensures average == WrappedThroughput(xs, seconds)
    ensures fairness == WrappedFairness(xs)
  {
    var sum: nat, sumSquares: nat := 0, 0;
    for i := 0 to |xs|
      invariant sum == Sum(xs, i) % WORD && sumSquares == SumSquares(xs, i) % WORD
    {
      AddWrapped(Sum(xs, i), xs[i]);
      AddWrapped(SumSquares(xs, i), xs[i] * xs[i]);
      sum := (sum + xs[i]) % WORD;
      sumSquares := (sumSquares + xs[i] * xs[i] % WORD) % WORD;
    }
    average := DivideReal((sum / |xs| * 8 % WORD) as real, seconds);
    if average.Finite? {
      average := Finite(average.value / 1.0e6);
    }
    fairness := Divide(sum * sum % WORD, |xs| * sumSquares % WORD);
  }

  // ----- The bounds of the index -----

  /** The sum of the squared differences to `y`. */
  function Spread(xs: seq<nat>, n: nat, y: int): nat
    requires n <= |xs|
  {
    if n == 0 then 0 else Spread(xs, n - 1, y) + Square(xs[n - 1] - y)
  }

  function Square(d: int): nat {
    NonNegativeSquare(d);
    d * d
  }

  lemma NonNegativeSquare(d: int)
    ensures d * d >= 0 && (d * d == 0 <==> d == 0)
  {}

  lemma {:induction false} SpreadIs(xs: seq<nat>, n: nat, y: int)
    requires n <= |xs|
    ensures Spread(xs, n, y) == SumSquares(xs, n) - 2 * y * Sum(xs, n) + n * (y * y)
  {
    if n == 0 {
    } else {
      SpreadIs(xs, n - 1, y);
      SpreadStep(xs[n - 1], y, Sum(xs, n - 1), SumSquares(xs, n - 1), n - 1);
    }
  }

  lemma SpreadStep(x: int, y: int, s: int, q: int, k: int)
    ensures (q - 2 * y * s + k * (y * y)) + (x - y) * (x - y)
         == (q + x * x) - 2 * y * (s + x) + (k + 1) * (y * y)
  {
    assert (x - y) * (x - y) == x * x - 2 * y * x + y * y;
    assert 2 * y * (s + x) == 2 * y * s + 2 * y * x;
  }

  lemma {:induction false} SpreadZero(xs: seq<nat>, n: nat, y: int)
    requires n <= |xs|
    ensures Spread(xs, n, y) == 0 <==> forall i | 0 <= i < n :: xs[i] == y
  {
    if n == 0 {
    } else {
      SpreadZero(xs, n - 1, y);
      NonNegativeSquare(xs[n - 1] - y);
    }
  }

  ghost predicate AllEqual(xs: seq<nat>, n: nat)
    requires n <= |xs|
  {
    forall i, j | 0 <= i < n && 0 <= j < n :: xs[i] == xs[j]
  }

  /** How much a counter `x` adds to `n` times the sum of squares, less the square of the sum. */
  lemma GapStep(n: int, x: int, s: int, q: int)
    ensures (n + 1) * (q + x * x) - (s + x) * (s + x) == (n * q - s * s) + (q - 2 * x * s + n * (x * x))
  {
    assert (s + x) * (s + x) == s * s + 2 * x * s + x * x;
    assert (n + 1) * (q + x * x) == n * q + n * (x * x) + q + x * x;
  }

  /** The square of the sum is at most `n` times the sum of squares, with equality for equal counters only. */
  lemma {:induction false} CauchySchwarz(xs: seq<nat>, n: nat)
    requires n <= |xs|
    ensures Sum(xs, n) * Sum(xs, n) <= n * SumSquares(xs, n)
    ensures Sum(xs, n) * Sum(xs, n) == n * SumSquares(xs, n) <==> AllEqual(xs, n)
  {
    if n == 0 {
    } else {
      var x := xs[n - 1];
      CauchySchwarz(xs, n - 1);
      SpreadIs(xs, n - 1, x);
      SpreadZero(xs, n - 1, x);
      GapStep(n - 1, x, Sum(xs, n - 1), SumSquares(xs, n - 1));
      assert AllEqual(xs, n) <==> AllEqual(xs, n - 1) && forall i | 0 <= i < n - 1 :: xs[i] == x;
      var gap, before := n * SumSquares(xs, n) - Sum(xs, n) * Sum(xs, n),
                         (n - 1) * SumSquares(xs, n - 1) - Sum(xs, n - 1) * Sum(xs, n - 1);
      assert gap == before + Spread(xs, n - 1, x);
    }
  }

  ghost predicate AtMostOneNonZero(xs: seq<nat>, n: nat)
    requires n <= |xs|
  {
    forall i, j | 0 <= i < j < n :: xs[i] == 0 || xs[j] == 0
  }

  lemma {:induction false} SumZero(xs: seq<nat>, n: nat)
    requires n <= |xs|
    ensures Sum(xs, n) == 0 <==> forall i | 0 <= i < n :: xs[i] == 0
    ensures SumSquares(xs, n) == 0 <==> Sum(xs, n) == 0
    ensures Sum(xs, n) <= SumSquares(xs, n)
  {
    if n == 0 {
    } else {
      SumZero(xs, n - 1);
      var x := xs[n - 1];
      assert x <= x * x by { if x > 0 { assert x * 1 <= x * x; } }
    }
  }

  lemma SquareOfSum(x: nat, s: nat)
    ensures (s + x) * (s + x) == s * s + 2 * (x * s) + x * x
    ensures x * s >= 0 && (x * s == 0 <==> x == 0 || s == 0)
  {}

  /** The sum of squares is at most the square of the sum, with equality for one non-zero counter at most. */
  lemma {:induction false} SquaresBelow(xs: seq<nat>, n: nat)
    requires n <= |xs|
    ensures SumSquares(xs, n) <= Sum(xs, n) * Sum(xs, n)
    ensures SumSquares(xs, n) == Sum(xs, n) * Sum(xs, n) <==> AtMostOneNonZero(xs, n)
  {
    if n == 0 {
    } else {
      var x, s := xs[n - 1], Sum(xs, n - 1);
      SquaresBelow(xs, n - 1);
      SumZero(xs, n - 1);
      SquareOfSum(x, s);
      assert AtMostOneNonZero(xs, n) <==>
             AtMostOneNonZero(xs, n - 1) && (x == 0 || forall i | 0 <= i < n - 1 :: xs[i] == 0);
      var extra := 2 * (x * s);
      assert Sum(xs, n) * Sum(xs, n) - SumSquares(xs, n) == (s * s - SumSquares(xs, n - 1)) + extra;
    }
  }

  // ----- When the 64-bit arithmetic is exact -----

  /** None of the results that `GroupFairness` computes reaches 2^64. */
  ghost predicate NothingWraps(xs: seq<nat>) {
    && (forall i | 0 <= i < |xs| :: xs[i] * xs[i] < WORD)
    && (forall i | 0 <= i <= |xs| :: Sum(xs, i) < WORD && SumSquares(xs, i) < WORD)
    && Sum(xs, |xs|) * Sum(xs, |xs|) < WORD && |xs| * SumSquares(xs, |xs|) < WORD
  }

  lemma {:induction false} PartsBelow(xs: seq<nat>, i: nat, n: nat)
    requires i <= n <= |xs|
    ensures Sum(xs, i) <= Sum(xs, n) && SumSquares(xs, i) <= SumSquares(xs, n)
    ensures i < n ==> xs[i] * xs[i] <= SumSquares(xs, n)
  {
    if i == n {
    } else {
      PartsBelow(xs, i, n - 1);
    }
  }

  lemma AtLeastFactor(n: nat, q: nat)
    requires n > 0
    ensures q <= n * q
  {}

  /** Nothing wraps exactly when the last product does not. */
  lemma NothingWrapsIff(xs: seq<nat>)
    requires xs != []
    ensures NothingWraps(xs) <==> |xs| * SumSquares(xs, |xs|) < WORD
  {
    var n := |xs|;
    CauchySchwarz(xs, n);
    SumZero(xs, n);
    AtLeastFactor(n, SumSquares(xs, n));
    if n * SumSquares(xs, n) < WORD {
      forall i | 0 <= i <= n
        ensures Sum(xs, i) < WORD && SumSquares(xs, i) < WORD
        ensures i < n ==> xs[i] * xs[i] < WORD
      {
        PartsBelow(xs, i, n);
      }
    }
  }

  lemma SquareMonotone(x: nat, b: nat)
    requires x <= b
    ensures x * x <= b * b
  {
    assert x * x <= x * b <= b * b;
  }

  lemma OneMoreTimes(n: int, c: int)
    ensures (n + 1) * c == n * c + c
  {}

  lemma {:induction false} SquaresBound(xs: seq<nat>, n: nat, b: nat, c: nat)
    requires n <= |xs| && (forall i | 0 <= i < n :: xs[i] <= b) && c == b * b
    ensures SumSquares(xs, n) <= n * c
  {
    if n == 0 {
    } else {
      SquaresBound(xs, n - 1, b, c);
      SquareMonotone(xs[n - 1], b);
      OneMoreTimes(n - 1, c);
    }
  }

  lemma TimesMonotone(m: nat, n: nat, c: nat)
    requires m <= n
    ensures m * c <= n * c && c * m <= c * n
  {}

  /** With at most 20 flows of less than 2^32/20 bytes each, nothing wraps. */
  lemma SmallCountersDoNotWrap(xs: seq<nat>)
    requires 0 < |xs| <= 20 && forall i | 0 <= i < |xs| :: 20 * xs[i] < 0x1_0000_0000
    ensures NothingWraps(xs)
  {
    var n, c, q := |xs|, 214748364 * 214748364, SumSquares(xs, |xs|);
    SquaresBound(xs, n, 214748364, c);
    TimesMonotone(n, 20, c);
    TimesMonotone(q, 20 * c, n);
    TimesMonotone(n, 20, 20 * c);
    assert n * q < WORD;
    NothingWrapsIff(xs);
  }

  /** Without wrapping the quotient is that of the exact products. */
  lemma ExactFairness(xs: seq<nat>)
    requires NothingWraps(xs)
    ensures WrappedFairness(xs) == Divide(Sum(xs, |xs|) * Sum(xs, |xs|), |xs| * SumSquares(xs, |xs|))
    ensures WrappedFairness(xs).Finite? ==>
      WrappedFairness(xs).value * (|xs| * SumSquares(xs, |xs|)) as real == (Sum(xs, |xs|) * Sum(xs, |xs|)) as real
  {
    var s, q := Sum(xs, |xs|), SumSquares(xs, |xs|);
    FitsInWord(s);
    FitsInWord(q);
    FitsInWord(s * s);
    FitsInWord(|xs| * q);
  }

  lemma FitsInWord(a: nat)
    ensures a < WORD ==> a % WORD == a
  {}

  /** Without wrapping, the computed fairness is Jain's index: between 1/n and 1, one exactly for equal
      counters and 1/n exactly when one flow has everything.  With all counters zero it is no number. */
  lemma FairnessBounds(xs: seq<nat>)
    requires xs != [] && NothingWraps(xs)
    ensures var fairness := WrappedFairness(xs);
      && (fairness == NotANumber <==> forall i | 0 <= i < |xs| :: xs[i] == 0)
      && fairness != Infinite
      && (fairness.Finite? ==>
            && 1.0 / |xs| as real <= fairness.value <= 1.0
            && (fairness.value == 1.0 <==> AllEqual(xs, |xs|))
            && (fairness.value == 1.0 / |xs| as real <==> AtMostOneNonZero(xs, |xs|)))
  {
    var n, s, q := |xs|, Sum(xs, |xs|), SumSquares(xs, |xs|);
    ExactFairness(xs);
    CauchySchwarz(xs, n);
    SquaresBelow(xs, n);
    SumZero(xs, n);
    if q != 0 {
      assert n * q > 0;
      QuotientBounds(n, q, s * s);
    } else {
      assert s * s == 0 && n * q == 0;
    }
  }

  lemma QuotientBounds(n: nat, q: nat, p: nat)
    requires n > 0 && q > 0 && q <= p <= n * q
    ensures var f := p as real / (n * q) as real;
      && 1.0 / n as real <= f <= 1.0 && (f == 1.0 <==> p == n * q) && (f == 1.0 / n as real <==> p == q)
  {
    var rn, rq, rp := n as real, q as real, p as real;
    assert (n * q) as real == rn * rq;
    var f := rp / (rn * rq);
    assert f * (rn * rq) == rp;
    var low := 1.0 / rn;
    assert low * rn == 1.0;
    assert low * (rn * rq) == rq;
    assert (f - low) * (rn * rq) == rp - rq;
    assert (1.0 - f) * (rn * rq) == rn * rq - rp;
    Sign(f - low, rn * rq);
    Sign(1.0 - f, rn * rq);
  }

  lemma Sign(a: real, b: real)
    requires b > 0.0
    ensures a * b >= 0.0 <==> a >= 0.0
    ensures a * b == 0.0 <==> a == 0.0
  {}

  lemma AboveOne(a: nat, b: nat)
    requires 0 < b < a
    ensures Divide(a, b).Finite? && Divide(a, b).value > 1.0
  {
    Sign(a as real / b as real - 1.0, b as real);
  }

  lemma {:induction false} OneFlow(xs: seq<nat>, n: nat)
    requires 0 < n <= |xs| && forall i | 0 < i < n :: xs[i] == 0
    ensures Sum(xs, n) == xs[0] && SumSquares(xs, n) == xs[0] * xs[0]
  {
    if n == 1 {
    } else {
      OneFlow(xs, n - 1);
    }
  }

  /** Past the bound the computed value need not be an index: one flow of some 1.4 GB among ten gives a value above 1,
      because ten times its square wraps. */
  lemma WrappedFairnessAboveOne(xs: seq<nat>)
    requires xs == [1358187914, 0, 0, 0, 0, 0, 0, 0, 0, 0]
    ensures !NothingWraps(xs)
    ensures WrappedFairness(xs).Finite? && WrappedFairness(xs).value > 1.0
  {
    OneFlow(xs, 10);
    NothingWrapsIff(xs);
    AboveOne(1844674409735671396, 23647162344);
  }

  // ----- The throughputs -----

  /** The throughput in Mbps of `bytes` bytes shared by `n` flows. */
  function Throughput(bytes: real, n: real, seconds: real): real
    requires n > 0.0 && seconds > 0.0
  {
    8.0 * bytes / (n * (seconds * 1.0e6))
  }

  /** `printed` is the throughput of all bytes but the last `lost` ones, which are less than one byte a flow. */
  ghost predicate IsTruncated(printed: real, sum: real, lost: real, n: real, seconds: real)
    requires n > 0.0 && seconds > 0.0
  {
    && printed == Throughput(sum - lost, n, seconds)
    && printed <= Throughput(sum, n, seconds) < printed + Throughput(n, n, seconds)
    && (printed == Throughput(sum, n, seconds) <==> lost == 0.0)
  }

  /** If at least 8 flows share a group, only the sum of the bytes can wrap. */
  lemma ThroughputUnwrapped(xs: seq<nat>, seconds: real)
    requires |xs| >= 8 && seconds > 0.0 && Sum(xs, |xs|) < WORD
    ensures WrappedThroughput(xs, seconds) == Finite((Sum(xs, |xs|) / |xs|) as real * 8.0 / seconds / 1.0e6)
  {
    var sum, n := Sum(xs, |xs|), |xs|;
    EightTimesQuotient(sum, n);
    FitsInWord(sum);
    FitsInWord(sum / n * 8);
  }

  /** Then the printed throughput is the mean one less what truncation loses, which is less than one byte a flow, and
      nothing exactly if the bytes divide evenly. */
  lemma ThroughputBounds(xs: seq<nat>, seconds: real)
    requires |xs| >= 8 && seconds > 0.0 && Sum(xs, |xs|) < WORD
    ensures WrappedThroughput(xs, seconds).Finite?
    ensures IsTruncated(WrappedThroughput(xs, seconds).value, Sum(xs, |xs|) as real, (Sum(xs, |xs|) % |xs|) as real, |xs| as real, seconds)
  {
    ThroughputUnwrapped(xs, seconds);
    TruncatedWhole(WrappedThroughput(xs, seconds).value, Sum(xs, |xs|), |xs|, seconds);
  }

  lemma TruncatedWhole(printed: real, sum: nat, n: nat, seconds: real)
    requires n >= 1 && seconds > 0.0 && printed == (sum / n) as real * 8.0 / seconds / 1.0e6
    ensures IsTruncated(printed, sum as real, (sum % n) as real, n as real, seconds)
  {
    WholeAndRest(sum, n);
    Truncated(printed, sum as real, n as real, (sum / n) as real, (sum % n) as real, seconds);
  }

  lemma WholeAndRest(sum: nat, n: nat)
    requires n > 0
    ensures sum as real == n as real * (sum / n) as real + (sum % n) as real && sum % n < n
  {
    assert sum == n * (sum / n) + sum % n;
    Product(n, sum / n);
  }

  lemma Product(n: int, q: int)
    ensures (n * q) as real == n as real * q as real
  {}

  lemma EightTimesQuotient(sum: nat, n: nat)
    requires n >= 8
    ensures sum / n * 8 <= sum
  {
    TimesMonotone(8, n, sum / n);
  }

  lemma Truncated(printed: real, sum: real, n: real, q: real, lost: real, seconds: real)
    requires n >= 1.0 && seconds > 0.0 && sum == n * q + lost && 0.0 <= lost < n
    requires printed == q * 8.0 / seconds / 1.0e6
    ensures IsTruncated(printed, sum, lost, n, seconds)
  {
    var w := seconds * 1.0e6;
    var d := n * w;
    assert d > 0.0;
    assert printed == q * 8.0 / w;
    assert (q * 8.0 / w) * d == q * 8.0 * n;
    assert (8.0 * sum / d) * d == 8.0 * sum;
    assert (8.0 * (sum - lost) / d) * d == 8.0 * (sum - lost);
    assert (8.0 * n / d) * d == 8.0 * n;
  }

  /** What a sum of bytes is printed as, in Gbps. */
  function Gbps(bytes: nat): real {
    (8 * bytes % WORD) as real / 1.0e9
  }

  /** Below 2^61 bytes that is eight bits a byte, in units of 10^9. */
  lemma GbpsExact(bytes: nat)
    requires bytes < 0x2000_0000_0000_0000
    ensures Gbps(bytes) * 1.0e9 == 8.0 * bytes as real
  {
    FitsInWord(8 * bytes);
  }

  lemma EightTimesWrapped(a: nat)
    ensures a % WORD * 8 % WORD == 8 * a % WORD
  {
    var q, r := a / WORD, a % WORD;
    assert 8 * a == 8 * q * WORD + 8 * r;
  }

  /** What is printed of one group, and the two aggregates in Gbps. */
  datatype Group = Group(average: Quotient, fairness: Quotient)

  datatype Report = Report(s1r1: Group, s2r2: Group, s3r1: Group, throughT1: real, toR1: real)

  /** Add the counters of one group to a wrapped sum. */
  method AddGroup(start: nat, xs: seq<nat>) returns (sum: nat)
    requires start < WORD
    ensures sum == (start + Sum(xs, |xs|)) % WORD
  {
    sum := start;
    for i := 0 to |xs|
      invariant sum == (start + Sum(xs, i)) % WORD
    {
      AddWrapped(start + Sum(xs, i), xs[i]);
      sum := (sum + xs[i]) % WORD;
    }
  }

  /** One aggregate: two groups after each other. */
  method Aggregate(xs: seq<nat>, ys: seq<nat>) returns (gbps: real)
    ensures gbps == Gbps(Sum(xs, |xs|) + Sum(ys, |ys|))
  {
    var sum := AddGroup(0, xs);
    AddWrapped(Sum(xs, |xs|), Sum(ys, |ys|));
    sum := AddGroup(sum, ys);
    EightTimesWrapped(Sum(xs, |xs|) + Sum(ys, |ys|));
    gbps := (sum * 8 % WORD) as real / 1.0e9;
  }

  /** The three groups with their sizes, over a window of `seconds`.  With `FairnessBounds` and `ThroughputBounds` each
      index is Jain's and each throughput the truncated mean, unless something wraps. */
  method PrintFairness(s1r1: seq<nat>, s2r2: seq<nat>, s3r1: seq<nat>, seconds: real) returns (r: Report)
    requires |s1r1| == 10 && |s2r2| == 20 && |s3r1| == 10
    ensures r.s1r1 == Group(WrappedThroughput(s1r1, seconds), WrappedFairness(s1r1))
    ensures r.s2r2 == Group(WrappedThroughput(s2r2, seconds), WrappedFairness(s2r2))
    ensures r.s3r1 == Group(WrappedThroughput(s3r1, seconds), WrappedFairness(s3r1))
    ensures r.throughT1 == Gbps(Sum(s1r1, 10) + Sum(s2r2, 20))
    ensures r.toR1 == Gbps(Sum(s3r1, 10) + Sum(s1r1, 10))
  {
    var average1, fairness1 := GroupFairness(s1r1, seconds);
    var average2, fairness2 := GroupFairness(s2r2, seconds);
    var average3, fairness3 := GroupFairness(s3r1, seconds);
    var throughT1 := Aggregate(s1r1, s2r2);
    var toR1 := Aggregate(s3r1, s1r1);
    r := Report(Group(average1, fairness1), Group(average2, fairness2), Group(average3, fairness3), throughT1, toR1);
  }
}
