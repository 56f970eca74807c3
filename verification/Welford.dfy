/** Streaming statistics of tools/tvla.py over exact reals: the running accumulator
    against the definitions of mean and variance, the per-point accumulators of a
    trace matrix, and the degenerate case of Welch's statistic. */
module Welford {

  function Sum(xs: seq<real>): real {
    if xs == [] then 0.0 else Sum(xs[..|xs| - 1]) + xs[|xs| - 1]
  }

  function Times(x: real, y: real): real {
    x * y
  }

  function Sq(x: real): real {
    Times(x, x)
  }

  function SumOfSquares(xs: seq<real>): real {
    if xs == [] then 0.0 else SumOfSquares(xs[..|xs| - 1]) + Sq(xs[|xs| - 1])
  }

  /** The sum of squared deviations from c. */
  function Deviations(xs: seq<real>, c: real): real {
    if xs == [] then 0.0 else Deviations(xs[..|xs| - 1], c) + Sq(xs[|xs| - 1] - c)
  }

  function Mean(xs: seq<real>): real {
    if xs == [] then 0.0 else Sum(xs) / |xs| as real
  }

  /** The unbiased sample variance, zero for fewer than two observations. */
  function Variance(xs: seq<real>): real {
    if |xs| < 2 then 0.0 else Deviations(xs, Mean(xs)) / (|xs| - 1) as real
  }

  datatype Stats = Stats(count: nat, mean: real, m2: real)

  const NO_STATS := Stats(0, 0.0, 0.0)

  /** Welford.update (tools/tvla.py:70-74). */
  function Updated(s: Stats, value: real): Stats {
    var count := s.count + 1;
    var delta := value - s.mean;
    var mean := s.mean + delta / count as real;
    Stats(count, mean, s.m2 + delta * (value - mean))
  }

  function StatsOf(xs: seq<real>): Stats {
    if xs == [] then NO_STATS else Updated(StatsOf(xs[..|xs| - 1]), xs[|xs| - 1])
  }

  /** Deviations from any point, by the parallel-axis identity. */
  lemma {:induction false} DeviationsExpand(xs: seq<real>, c: real)
    ensures Deviations(xs, c) == Expanded(SumOfSquares(xs), Sum(xs), |xs| as real, c)
  {
    hide Sq, Expanded;
    if xs == [] {
      ExpandNothing(c);
    } else {
      var ys, x := xs[..|xs| - 1], xs[|xs| - 1];
      DeviationsExpand(ys, c);
      ExpandOneMore(SumOfSquares(ys), Sum(ys), |ys| as real, x, c);
      assert |xs| as real == |ys| as real + 1.0;
    }
  }

  /** The sum of squared deviations from c in terms of the sums q and s of n values. */
  function Expanded(q: real, s: real, n: real, c: real): real {
    q - 2.0 * c * s + n * (c * c)
  }

  lemma ExpandNothing(c: real)
    ensures Expanded(0.0, 0.0, 0.0, c) == 0.0
  {
  }

  lemma ExpandOneMore(q: real, s: real, n: real, x: real, c: real)
    ensures Expanded(q, s, n, c) + Sq(x - c) == Expanded(q + Sq(x), s + x, n + 1.0, c)
  {
    assert (x - c) * (x - c) == x * x - 2.0 * c * x + c * c;
    assert 2.0 * c * (s + x) == 2.0 * c * s + 2.0 * c * x;
    assert (n + 1.0) * (c * c) == n * (c * c) + c * c;
  }

  /** The algebra of one update: n observations with mean m become k = n + 1, moving
      the mean by e. */
  lemma UpdateAlgebra(q: real, s: real, n: real, k: real, m: real, e: real, x: real)
    requires k == n + 1.0 && x - m == k * e && n * m == s
    ensures k * (m + e) == s + x
    ensures Expanded(q + Sq(x), s + x, k, m + e) == Expanded(q, s, n, m) + (x - m) * (x - (m + e))
  {
    var mean := m + e;
    assert k * mean == k * m + k * e == n * m + m + (x - m);
    assert k * (mean * mean) == mean * (s + x) by {
      assert k * (mean * mean) == (k * mean) * mean;
    }
    assert n * (m * m) == m * s by {
      assert n * (m * m) == (n * m) * m;
    }
    assert mean * (s + x) == m * (s + x) + e * (s + x);
    assert e * (s + x) == e * (k * mean) == (k * e) * mean == (x - m) * mean;
    assert m * (s + x) == m * s + m * x;
    assert (x - m) * (x - mean) == (x - m) * x - (x - m) * mean;
    assert (x - m) * x == x * x - m * x;
  }

  /** s holds what n values with sum and sum of squares q determine. */
  ghost predicate Holds(s: Stats, n: nat, q: real, sum: real) {
    && s.count == n
    && n as real * s.mean == sum
    && s.m2 == Expanded(q, sum, n as real, s.mean)
  }

  lemma UpdateKeeps(s: Stats, n: nat, q: real, sum: real, x: real)
    requires Holds(s, n, q, sum)
    ensures Holds(Updated(s, x), n + 1, q + Sq(x), sum + x)
  {
    hide Expanded, Sq;
    var k := (n + 1) as real;
    var e := (x - s.mean) / k;
    Cancel(x - s.mean, k);
    UpdateAlgebra(q, sum, n as real, k, s.mean, e, x);
    assert Updated(s, x) == Stats(n + 1, s.mean + e, s.m2 + (x - s.mean) * (x - (s.mean + e)));
  }

  lemma Cancel(a: real, k: real)
    requires k > 0.0
    ensures k * (a / k) == a
  {
  }

  lemma HoldsNothing()
    ensures Holds(NO_STATS, 0, 0.0, 0.0)
  {
  }

  lemma {:induction false} StatsAreSums(xs: seq<real>)
    ensures Holds(StatsOf(xs), |xs|, SumOfSquares(xs), Sum(xs))
  {
    hide Updated, Holds, Sq;
    if xs == [] {
      HoldsNothing();
    } else {
      var ys := xs[..|xs| - 1];
      StatsAreSums(ys);
      UpdateKeeps(StatsOf(ys), |ys|, SumOfSquares(ys), Sum(ys), xs[|xs| - 1]);
    }
  }

  lemma MeanIs(xs: seq<real>, m: real)
    requires |xs| as real * m == Sum(xs) && (xs == [] ==> m == 0.0)
    ensures m == Mean(xs)
  {
    hide Sum;
    if xs != [] {
      QuotientOf(|xs| as real, m, Sum(xs));
    }
  }

  /** After any sequence of updates the accumulator holds the count, the mean and the
      sum of squared deviations from that mean. */
  lemma StatsAreDefinitions(xs: seq<real>)
    ensures StatsOf(xs) == Stats(|xs|, Mean(xs), Deviations(xs, Mean(xs)))
  {
    StatsAreSums(xs);
    EmptyStats();
    hide StatsOf, Mean, Sum, SumOfSquares, Deviations, Expanded;
    MeanIs(xs, StatsOf(xs).mean);
    DeviationsExpand(xs, Mean(xs));
  }

  lemma QuotientOf(k: real, m: real, s: real)
    requires k > 0.0 && k * m == s
    ensures m == s / k && m * k == s
  {
  }

  /** Welford.variance (tools/tvla.py:76-81). */
  function VarianceOf(s: Stats): real {
    if s.count < 2 then 0.0 else s.m2 / (s.count - 1) as real
  }

  lemma VarianceIsUnbiased(xs: seq<real>)
    ensures VarianceOf(StatsOf(xs)) == Variance(xs)
  {
    StatsAreDefinitions(xs);
  }

  /** The squared differences of all pairs of observations. */
  function PairSum(xs: seq<real>): real {
    if xs == [] then 0.0 else PairSum(xs[..|xs| - 1]) + Deviations(xs[..|xs| - 1], xs[|xs| - 1])
  }

  function PairForm(n: real, q: real, s: real): real {
    n * q - Sq(s)
  }

  lemma {:induction false} PairSumExpands(xs: seq<real>)
    ensures PairSum(xs) == PairForm(|xs| as real, SumOfSquares(xs), Sum(xs))
  {
    hide PairForm, Expanded, Sq;
    if xs == [] {
      NoPairs();
    } else {
      var ys, x := xs[..|xs| - 1], xs[|xs| - 1];
      PairSumExpands(ys);
      DeviationsExpand(ys, x);
      assert |xs| as real == |ys| as real + 1.0;
      PairStep(|ys| as real, SumOfSquares(ys), Sum(ys), x);
    }
  }

  lemma NoPairs()
    ensures PairForm(0.0, 0.0, 0.0) == 0.0
  {
  }

  lemma PairStep(n: real, q: real, s: real, x: real)
    ensures PairForm(n, q, s) + Expanded(q, s, n, x) == PairForm(n + 1.0, q + Sq(x), s + x)
  {
    assert (s + x) * (s + x) == s * s + 2.0 * x * s + x * x;
    assert (n + 1.0) * (q + x * x) == n * q + n * (x * x) + q + x * x;
  }

  lemma MeanAlgebra(n: real, q: real, s: real, m: real)
    requires Times(n, m) == s
    ensures Times(n, Expanded(q, s, n, m)) == PairForm(n, q, s)
  {
    assert n * (m * m) == s * m by {
      assert n * (m * m) == (n * m) * m;
    }
    assert Expanded(q, s, n, m) == q - m * s;
    assert n * (m * s) == s * s by {
      assert n * (m * s) == (n * m) * s;
    }
    assert n * (q - m * s) == n * q - n * (m * s);
  }

  /** The variance without the mean: the squared differences of all pairs over n and n - 1. */
  lemma VarianceIsPairwise(xs: seq<real>)
    requires |xs| >= 2
    ensures Variance(xs) == PairSum(xs) / |xs| as real / (|xs| - 1) as real
  {
    hide Deviations, Times, Mean, PairSum;
    PairsAreDeviations(xs);
    SameQuotient(|xs| as real, Deviations(xs, Mean(xs)), PairSum(xs));
  }

  lemma PairsAreDeviations(xs: seq<real>)
    requires xs != []
    ensures Times(|xs| as real, Deviations(xs, Mean(xs))) == PairSum(xs)
  {
    hide PairSum, SumOfSquares, Sum, Deviations, Mean, Expanded, PairForm, Times;
    PairSumExpands(xs);
    DeviationsExpand(xs, Mean(xs));
    MeanTimesCount(xs);
    MeanAlgebra(|xs| as real, SumOfSquares(xs), Sum(xs), Mean(xs));
  }

  lemma SameQuotient(k: real, m: real, s: real)
    requires k > 0.0 && Times(k, m) == s
    ensures m == s / k
  {
    QuotientOf(k, m, s);
  }

  lemma MeanTimesCount(xs: seq<real>)
    requires xs != []
    ensures Times(|xs| as real, Mean(xs)) == Sum(xs)
  {
    hide Sum;
    Cancel(Sum(xs), |xs| as real);
  }

  // ----- order does not matter

  lemma {:induction false} SumsWithout(xs: seq<real>, i: nat)
    requires i < |xs|
    ensures Sum(xs) == Sum(xs[..i] + xs[i + 1..]) + xs[i]
    ensures SumOfSquares(xs) == SumOfSquares(xs[..i] + xs[i + 1..]) + Sq(xs[i])
    decreases |xs|
  {
    hide Sq;
    var last := |xs| - 1;
    var rest := xs[..i] + xs[i + 1..];
    if i == last {
      assert rest == xs[..last];
    } else {
      var ys := xs[..last];
      SumsWithout(ys, i);
      assert rest[..|rest| - 1] == ys[..i] + ys[i + 1..];
      assert rest[|rest| - 1] == xs[last];
    }
  }

  lemma MultisetWithout(xs: seq<real>, i: nat)
    requires i < |xs|
    ensures multiset(xs) == multiset(xs[..i] + xs[i + 1..]) + multiset{xs[i]}
  {
    assert xs == xs[..i] + [xs[i]] + xs[i + 1..];
  }

  lemma Find(x: real, ys: seq<real>) returns (i: nat)
    requires x in multiset(ys)
    ensures i < |ys| && ys[i] == x
  {
    i :| 0 <= i < |ys| && ys[i] == x;
  }

  lemma MultisetCancel(a: multiset<real>, b: multiset<real>, x: real)
    requires a + multiset{x} == b + multiset{x}
    ensures a == b
  {
    assert a == a + multiset{x} - multiset{x};
    assert b == b + multiset{x} - multiset{x};
  }

  lemma SameLength(xs: seq<real>, ys: seq<real>)
    requires multiset(xs) == multiset(ys)
    ensures |xs| == |ys|
  {
    assert |multiset(xs)| == |xs| && |multiset(ys)| == |ys|;
  }

  lemma {:induction false} SumsPermute(xs: seq<real>, ys: seq<real>)
    requires multiset(xs) == multiset(ys)
    ensures |xs| == |ys| && Sum(xs) == Sum(ys) && SumOfSquares(xs) == SumOfSquares(ys)
    decreases |xs|
  {
    hide Sum, SumOfSquares, Sq;
    SameLength(xs, ys);
    if xs == [] {
      assert ys == [];
    } else {
      MultisetWithout(xs, 0);
      var i := Find(xs[0], ys);
      MultisetWithout(ys, i);
      var xs', ys' := xs[..0] + xs[1..], ys[..i] + ys[i + 1..];
      MultisetCancel(multiset(xs'), multiset(ys'), xs[0]);
      SumsPermute(xs', ys');
      SumsWithout(xs, 0);
      SumsWithout(ys, i);
    }
  }

  lemma StatsFromSums(xs: seq<real>, ys: seq<real>)
    requires |xs| == |ys| && Sum(xs) == Sum(ys) && SumOfSquares(xs) == SumOfSquares(ys)
    ensures StatsOf(xs) == StatsOf(ys)
  {
    hide StatsOf, Sum, SumOfSquares, Deviations;
    StatsAreDefinitions(xs);
    StatsAreDefinitions(ys);
    DeviationsExpand(xs, Mean(xs));
    DeviationsExpand(ys, Mean(ys));
  }

  /** The accumulator does not depend on the order of the observations. */
  lemma OrderDoesNotMatter(xs: seq<real>, ys: seq<real>)
    requires multiset(xs) == multiset(ys)
    ensures StatsOf(xs) == StatsOf(ys)
  {
    hide StatsOf, Sum, SumOfSquares;
    SumsPermute(xs, ys);
    StatsFromSums(xs, ys);
  }

  // ----- the class and the accumulators of assess

  class Accumulator {
    var count: nat
    var mean: real
    var m2: real

    ghost function State(): Stats
      reads this
    {
      Stats(count, mean, m2)
    }

    constructor ()
      ensures State() == NO_STATS
    {
      count, mean, m2 := 0, 0.0, 0.0;
    }

    method Update(value: real)
      modifies this
      ensures State() == Updated(old(State()), value)
    {
      count := count + 1;
      var delta := value - mean;
      mean := mean + delta / count as real;
      m2 := m2 + delta * (value - mean);
    }

    method GetVariance() returns (v: real)
      ensures v == VarianceOf(State())
    {
      if count < 2 {
        return 0.0;
      }
      return m2 / (count - 1) as real;
    }
  }

  ghost predicate AtLeast(traces: seq<seq<real>>, length: nat) {
    forall k :: 0 <= k < |traces| ==> |traces[k]| >= length
  }

  /** Sample point i over the first n traces. */
  function Column(traces: seq<seq<real>>, i: nat, n: nat): (c: seq<real>)
    requires n <= |traces| && forall k :: 0 <= k < n ==> i < |traces[k]|
    ensures |c| == n
  {
    seq(n, k requires 0 <= k < n => traces[k][i])
  }

  lemma ColumnGrows(traces: seq<seq<real>>, i: nat, n: nat)
    requires n < |traces| && forall k :: 0 <= k <= n ==> i < |traces[k]|
    ensures StatsOf(Column(traces, i, n + 1)) == Updated(StatsOf(Column(traces, i, n)), traces[n][i])
  {
    var c := Column(traces, i, n + 1);
    assert c[..n] == Column(traces, i, n);
  }

  ghost predicate Distinct(stats: seq<Accumulator>) {
    forall i, j :: 0 <= i < j < |stats| ==> stats[i] != stats[j]
  }

  /** The inner loop of assess: one trace fed to the per-point accumulators. */
  method FeedTrace(stats: seq<Accumulator>, series: seq<real>)
    requires Distinct(stats) && |stats| <= |series|
    modifies stats
    ensures forall i :: 0 <= i < |stats| ==> stats[i].State() == Updated(old(stats[i].State()), series[i])
  {
    for index := 0 to |stats|
      invariant forall i :: 0 <= i < index ==> stats[i].State() == Updated(old(stats[i].State()), series[i])
      invariant forall i :: index <= i < |stats| ==> stats[i].State() == old(stats[i].State())
    {
      stats[index].Update(series[index]);
    }
  }

  /** The accumulation loops of assess (tools/tvla.py:258-265): accumulator i ends up
      with the statistics of column i of the trace matrix. */
  method Accumulate(traces: seq<seq<real>>, length: nat) returns (stats: seq<Accumulator>)
    requires AtLeast(traces, length)
    ensures |stats| == length && fresh(stats)
    ensures forall i :: 0 <= i < length ==> stats[i].State() == StatsOf(Column(traces, i, |traces|))
  {
    hide StatsOf, Updated;
    stats := [];
    for i := 0 to length
      invariant |stats| == i && fresh(stats) && Distinct(stats)
      invariant forall k :: 0 <= k < i ==> stats[k].State() == NO_STATS
    {
      var s := new Accumulator();
      stats := stats + [s];
    }
    forall i | 0 <= i < length
      ensures stats[i].State() == StatsOf(Column(traces, i, 0))
    {
      EmptyStats();
    }
    for n := 0 to |traces|
      invariant forall i :: 0 <= i < length ==> stats[i].State() == StatsOf(Column(traces, i, n))
    {
      FeedTrace(stats, traces[n]);
      forall i | 0 <= i < length
        ensures stats[i].State() == StatsOf(Column(traces, i, n + 1))
      {
        ColumnGrows(traces, i, n);
      }
    }
  }

  lemma EmptyStats()
    ensures StatsOf([]) == NO_STATS
  {
  }

  // ----- Welch's statistic

  /** The squared denominator and the numerator of the statistic, or why there is none. */
  datatype Welch = TooFew | NoDifference | Degenerate | Statistic(difference: real, squaredDenominator: real)

  /** welch_t (tools/tvla.py:166-182), with the square root left unevaluated: it is
      zero exactly when its argument is. */
  function WelchT(fixed: Stats, random: Stats): Welch {
    if fixed.count < 2 || random.count < 2 then TooFew
    else
      var squared := VarianceOf(fixed) / fixed.count as real + VarianceOf(random) / random.count as real;
      var difference := fixed.mean - random.mean;
      if squared == 0.0 then
        if difference == 0.0 then NoDifference else Degenerate
      else Statistic(difference, squared)
  }

  predicate Constant(xs: seq<real>, c: real) {
    forall i :: 0 <= i < |xs| ==> xs[i] == c
  }

  lemma {:induction false} DeviationsVanish(xs: seq<real>, c: real)
    ensures Deviations(xs, c) >= 0.0
    ensures Deviations(xs, c) == 0.0 <==> Constant(xs, c)
  {
    hide Sq;
    if xs != [] {
      var ys, x := xs[..|xs| - 1], xs[|xs| - 1];
      DeviationsVanish(ys, c);
      Square(x - c);
      assert forall i :: 0 <= i < |ys| ==> ys[i] == xs[i];
      if Deviations(xs, c) == 0.0 {
        assert x == c;
      }
    }
  }

  lemma Square(d: real)
    ensures d == 0.0 || Sq(d) > 0.0
    ensures d == 0.0 ==> Sq(d) == 0.0
  {
    hide Sq;
    if d > 0.0 {
      PositiveSquare(d);
    } else if d < 0.0 {
      NegativeSquare(d);
    } else {
      ZeroSquare();
    }
  }

  lemma PositiveSquare(d: real)
    requires d > 0.0
    ensures Sq(d) > 0.0
  {
    hide Times;
    PositiveProduct(d, d);
  }

  lemma PositiveProduct(a: real, b: real)
    requires a > 0.0 && b > 0.0
    ensures Times(a, b) > 0.0
  {
  }

  lemma NegativeSquare(d: real)
    requires d < 0.0
    ensures Sq(d) > 0.0
  {
    hide Sq;
    PositiveSquare(-d);
    MirroredSquare(d);
  }

  lemma MirroredSquare(d: real)
    ensures Sq(-d) == Sq(d)
  {
  }

  lemma ZeroSquare()
    ensures Sq(0.0) == 0.0
  {
  }

  lemma {:induction false} SumOfConstant(xs: seq<real>, c: real)
    requires Constant(xs, c)
    ensures Sum(xs) == |xs| as real * c
  {
    if xs != [] {
      SumOfConstant(xs[..|xs| - 1], c);
    }
  }

  lemma MeanOfConstant(xs: seq<real>, c: real)
    requires xs != [] && Constant(xs, c)
    ensures Mean(xs) == c
  {
    SumOfConstant(xs, c);
    QuotientOf(|xs| as real, c, Sum(xs));
  }

  lemma VarianceVanishes(xs: seq<real>)
    requires |xs| >= 2
    ensures Variance(xs) >= 0.0
    ensures Variance(xs) == 0.0 <==> Constant(xs, xs[0])
  {
    DeviationsVanish(xs, Mean(xs));
    Quotient(Deviations(xs, Mean(xs)), (|xs| - 1) as real);
    if Constant(xs, xs[0]) {
      MeanOfConstant(xs, xs[0]);
    }
  }

  lemma Quotient(a: real, b: real)
    requires a >= 0.0 && b > 0.0
    ensures a / b >= 0.0 && (a / b == 0.0 <==> a == 0.0)
  {
  }

  /** Every case of the statistic. It is refused exactly when a set has fewer than two
      traces and zero exactly when both are constant at one value; its value is the
      difference of the means over the root of the variances, each over its count. */
  lemma WelchExactly(xs: seq<real>, ys: seq<real>)
    ensures WelchT(StatsOf(xs), StatsOf(ys)).TooFew? <==> |xs| < 2 || |ys| < 2
    ensures |xs| >= 2 && |ys| >= 2 ==>
              (WelchT(StatsOf(xs), StatsOf(ys)).NoDifference? <==>
               Constant(xs, xs[0]) && Constant(ys, ys[0]) && xs[0] == ys[0])
    ensures var t := WelchT(StatsOf(xs), StatsOf(ys));
            t.Statistic? ==>
              && t.difference == Mean(xs) - Mean(ys)
              && t.squaredDenominator == Variance(xs) / |xs| as real + Variance(ys) / |ys| as real
  {
    hide StatsOf, Variance, Mean;
    StatsAreDefinitions(xs);
    StatsAreDefinitions(ys);
    VarianceIsUnbiased(xs);
    VarianceIsUnbiased(ys);
    if |xs| >= 2 && |ys| >= 2 {
      VarianceVanishes(xs);
      VarianceVanishes(ys);
      Quotient(Variance(xs), |xs| as real);
      Quotient(Variance(ys), |ys| as real);
      if Constant(xs, xs[0]) && Constant(ys, ys[0]) {
        MeanOfConstant(xs, xs[0]);
        MeanOfConstant(ys, ys[0]);
      }
    }
  }

  /** The statistic is flagged degenerate exactly when both sets are constant at the
      point, at different values. */
  lemma DegenerateExactly(xs: seq<real>, ys: seq<real>)
    requires |xs| >= 2 && |ys| >= 2
    ensures WelchT(StatsOf(xs), StatsOf(ys)).Degenerate? <==>
            Constant(xs, xs[0]) && Constant(ys, ys[0]) && xs[0] != ys[0]
    ensures WelchT(StatsOf(xs), StatsOf(ys)).Statistic? ==> WelchT(StatsOf(xs), StatsOf(ys)).squaredDenominator > 0.0
  {
    hide StatsOf, Variance, Mean;
    StatsAreDefinitions(xs);
    StatsAreDefinitions(ys);
    VarianceIsUnbiased(xs);
    VarianceIsUnbiased(ys);
    VarianceVanishes(xs);
    VarianceVanishes(ys);
    Quotient(Variance(xs), |xs| as real);
    Quotient(Variance(ys), |ys| as real);
    if Constant(xs, xs[0]) && Constant(ys, ys[0]) {
      MeanOfConstant(xs, xs[0]);
      MeanOfConstant(ys, ys[0]);
    }
  }
}
