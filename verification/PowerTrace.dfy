/** The trace contract (model/power_contract.py) and the trace built from computed
    activity (tools/power_trace_from_vcd.py:582-689). */
module PowerTrace {
  import opened Numbers
  import opened Outcomes
  import opened VcdBlocks
  import opened StateLabels
  import opened VcdActivity

  datatype TraceSample = TraceSample(
    timestampNs: int,
    state: string,
    activeLanes: int,
    clockHz: int,
    estimatedWatts: Option<real>,
    measuredWatts: Option<real>
  )

  predicate AllowedState(state: string) {
    state == "idle" || state == "kem" || state == "dsa" || state == "dma" || state == "zeroize" || state == "fault"
  }

  predicate SampleIsValid(s: TraceSample) {
    && s.timestampNs >= 0 && AllowedState(s.state) && s.activeLanes >= 0 && s.clockHz > 0
    && (s.estimatedWatts.Some? ==> s.estimatedWatts.value >= 0.0)
    && (s.measuredWatts.Some? ==> s.measuredWatts.value >= 0.0)
  }

  /** PowerTrace.validate (model/power_contract.py:48-56). */
  method Validate(source: string, hardwareId: string, operation: string, samples: seq<TraceSample>) returns (ok: bool)
    ensures ok <==>
              && source != "" && hardwareId != "" && operation != ""
              && (forall i :: 0 <= i < |samples| ==>
                    && samples[i].timestampNs >= 0
                    && samples[i].state in {"idle", "kem", "dsa", "dma", "zeroize", "fault"}
                    && samples[i].activeLanes >= 0 && samples[i].clockHz > 0
                    && (samples[i].estimatedWatts.Some? ==> samples[i].estimatedWatts.value >= 0.0)
                    && (samples[i].measuredWatts.Some? ==> samples[i].measuredWatts.value >= 0.0))
              && (forall i, j :: 0 <= i < j < |samples| ==> samples[i].timestampNs < samples[j].timestampNs)
  {
    if source == "" || hardwareId == "" || operation == "" {
      return false;
    }
    var previous := -1;
    for n := 0 to |samples|
      invariant previous == if n == 0 then -1 else samples[n - 1].timestampNs
      invariant forall i :: 0 <= i < n ==> SampleIsValid(samples[i])
      invariant forall i, j :: 0 <= i < j < n ==> samples[i].timestampNs < samples[j].timestampNs
    {
      if !SampleIsValid(samples[n]) {
        return false;
      }
      if samples[n].timestampNs <= previous {
        assert n > 0 ==> !(samples[n - 1].timestampNs < samples[n].timestampNs);
        return false;
      }
      previous := samples[n].timestampNs;
    }
    return true;
  }

  // ----- the clock rate of a trace

  /** Python's round of a quotient: to the nearest integer, ties to the even one. */
  function RoundedQuotient(n: int, d: int): int
    requires d > 0
  {
    var q, r := n / d, n % d;
    if 2 * r < d || (2 * r == d && q % 2 == 0) then q else q + 1
  }

  /** The nearest integer, the even one of two. */
  lemma RoundedIsNearest(n: int, d: int)
    requires d > 0
    ensures var r := RoundedQuotient(n, d); -d <= 2 * (n - r * d) <= d
    ensures var r := RoundedQuotient(n, d); 2 * (n - r * d) == d || 2 * (n - r * d) == -d ==> r % 2 == 0
  {
    var q := n / d;
    assert n == q * d + n % d;
    assert (q + 1) * d == q * d + d;
  }

  function Interval(samples: seq<Sample>, k: nat): int
    requires k + 1 < |samples|
  {
    samples[k + 1].timestampNs - samples[k].timestampNs
  }

  function IntervalSum(samples: seq<Sample>, n: nat): int
    requires n < |samples|
  {
    if n == 0 then 0 else IntervalSum(samples, n - 1) + Interval(samples, n - 1)
  }

  predicate Uniform(samples: seq<Sample>)
    requires |samples| >= 2
  {
    forall k :: 0 <= k < |samples| - 1 ==> Interval(samples, k) == Interval(samples, 0)
  }

  /** The sampling interval: the common one, or the rounded mean. */
  function IntervalNs(samples: seq<Sample>): int
    requires |samples| >= 2
  {
    if Uniform(samples) then Interval(samples, 0)
    else RoundedQuotient(IntervalSum(samples, |samples| - 1), |samples| - 1)
  }

  lemma {:induction false} SumTelescopes(samples: seq<Sample>, n: nat)
    requires n < |samples|
    ensures IntervalSum(samples, n) == samples[n].timestampNs - samples[0].timestampNs
    decreases n
  {
    if n > 0 {
      SumTelescopes(samples, n - 1);
    }
  }

  lemma {:induction false} UniformSum(samples: seq<Sample>, n: nat)
    requires |samples| >= 2 && Uniform(samples) && n < |samples|
    ensures IntervalSum(samples, n) == n * Interval(samples, 0)
    decreases n
  {
    if n > 0 {
      UniformSum(samples, n - 1);
      assert Interval(samples, n - 1) == Interval(samples, 0);
      assert n * Interval(samples, 0) == (n - 1) * Interval(samples, 0) + Interval(samples, 0);
    }
  }

  /** Both cases are one formula: the span over the number of intervals, rounded. */
  lemma IntervalIsMean(samples: seq<Sample>)
    requires |samples| >= 2
    ensures var last := |samples| - 1;
            IntervalNs(samples) == RoundedQuotient(samples[last].timestampNs - samples[0].timestampNs, last)
  {
    hide IntervalSum, Interval;
    var last := |samples| - 1;
    SumTelescopes(samples, last);
    if Uniform(samples) {
      UniformSum(samples, last);
      ModUniqueInt(IntervalSum(samples, last), last, Interval(samples, 0), 0);
    }
  }

  ghost predicate IncreasingStamps(samples: seq<Sample>) {
    forall i, j :: 0 <= i < j < |samples| ==> samples[i].timestampNs < samples[j].timestampNs
  }

  lemma {:induction false} SpanAtLeast(samples: seq<Sample>, n: nat)
    requires IncreasingStamps(samples) && n < |samples|
    ensures samples[n].timestampNs - samples[0].timestampNs >= n
    decreases n
  {
    if n > 0 {
      SpanAtLeast(samples, n - 1);
      assert samples[n - 1].timestampNs < samples[n].timestampNs;
    }
  }

  /** The check for a positive interval never fires on increasing timestamps. */
  lemma IntervalIsPositive(samples: seq<Sample>)
    requires |samples| >= 2 && IncreasingStamps(samples)
    ensures IntervalNs(samples) > 0
  {
    hide IntervalNs;
    var last := |samples| - 1;
    SpanAtLeast(samples, last);
    IntervalIsMean(samples);
    QuotientAtLeastOne(samples[last].timestampNs - samples[0].timestampNs, last);
  }

  lemma QuotientAtLeastOne(n: int, d: int)
    requires 0 < d <= n
    ensures n / d >= 1
  {
    QuotientRemainder(n, d);
    ModRange(n, d);
    ProductAtLeast(d, n / d);
  }

  const NS_PER_SECOND := 1_000_000_000

  /** A clock rate rounds to zero exactly from a period of two seconds on. */
  lemma RatePositive(interval: int)
    requires interval > 0
    ensures RoundedQuotient(NS_PER_SECOND, interval) > 0 <==> interval < 2_000_000_000
  {
    if interval <= NS_PER_SECOND {
      QuotientAtLeastOne(NS_PER_SECOND, interval);
    } else {
      ModUniqueInt(NS_PER_SECOND, interval, 0, NS_PER_SECOND);
    }
  }

  // ----- building the trace

  /** The trace of the samples at one clock rate: stamp, label and lanes as they are, no
      watts of either kind. */
  function ToTrace(samples: seq<Sample>, clockHz: int): (t: seq<TraceSample>)
    ensures |t| == |samples|
    ensures forall i :: 0 <= i < |t| ==>
              && t[i].timestampNs == samples[i].timestampNs && t[i].state == samples[i].state
              && t[i].activeLanes == samples[i].activeLanes && t[i].clockHz == clockHz
              && t[i].estimatedWatts.None? && t[i].measuredWatts.None?
  {
    seq(|samples|, i requires 0 <= i < |samples| =>
      TraceSample(samples[i].timestampNs, samples[i].state, samples[i].activeLanes, clockHz, None, None))
  }

  ghost predicate StatesAllowed(samples: seq<Sample>) {
    forall i :: 0 <= i < |samples| ==> AllowedState(samples[i].state)
  }

  /** What the contract asks of a trace, in terms of its samples. */
  lemma TraceIsValid(samples: seq<Sample>, clockHz: int)
    requires samples != []
    ensures var trace := ToTrace(samples, clockHz);
            (forall i :: 0 <= i < |trace| ==> SampleIsValid(trace[i]))
            && (forall i, j :: 0 <= i < j < |trace| ==> trace[i].timestampNs < trace[j].timestampNs)
            <==> clockHz > 0 && StatesAllowed(samples) && IncreasingStamps(samples) && samples[0].timestampNs >= 0
  {
    hide AllowedState;
    var trace := ToTrace(samples, clockHz);
    if (forall i :: 0 <= i < |trace| ==> SampleIsValid(trace[i]))
       && (forall i, j :: 0 <= i < j < |trace| ==> trace[i].timestampNs < trace[j].timestampNs)
    {
      assert SampleIsValid(trace[0]);
      forall i | 0 <= i < |samples|
        ensures AllowedState(samples[i].state)
      {
        assert SampleIsValid(trace[i]);
      }
      forall i, j | 0 <= i < j < |samples|
        ensures samples[i].timestampNs < samples[j].timestampNs
      {
        assert trace[i].timestampNs < trace[j].timestampNs;
      }
    }
  }

  /** build_trace (tools/power_trace_from_vcd.py:582-689): what it returns and exactly
      when it raises. The mean of no intervals is a division by zero. */
  method BuildTrace(samples: seq<Sample>, hardwareId: string, operation: string) returns (r: Result<seq<TraceSample>>)
    ensures r.Ok? <==>
              && |samples| >= 2
              && 0 < IntervalNs(samples) < 2_000_000_000 && hardwareId != "" && operation != ""
              && IncreasingStamps(samples) && samples[0].timestampNs >= 0 && StatesAllowed(samples)
    ensures r.Ok? ==> r.value == ToTrace(samples, RoundedQuotient(1_000_000_000, IntervalNs(samples)))
  {
    hide IntervalNs, RoundedQuotient;
    if |samples| < 2 {
      return Raised;
    }
    var interval := IntervalNs(samples);
    if interval <= 0 {
      return Raised;
    }
    var clockHz := RoundedQuotient(NS_PER_SECOND, interval);
    RatePositive(interval);
    var trace := ToTrace(samples, clockHz);
    var ok := Validate("simulator", hardwareId, operation, trace);
    TraceIsValid(samples, clockHz);
    return if ok then Ok(trace) else Raised;
  }

  lemma ClassifyAllowed(rules: Rules, values: map<string, string>)
    requires AllowedState(rules.defaultActive)
    ensures AllowedState(Classify(rules, values))
  {
  }

  /** Computed activity always has increasing, nonnegative timestamps, and its labels
      are allowed when the default label is. */
  lemma ActivityIsTraceable(blocks: seq<Block>, tracked: seq<Signal>, clock: string, rules: Rules, scale: Scale,
                            samples: seq<Sample>)
    requires PositiveScale(scale) && |blocks| > 0 && blocks[0].time == 0 && IncreasingTimes(blocks)
    requires |samples| == |Edges(blocks, clock, |blocks|)| && samples != []
    requires forall k :: 0 <= k < |samples| ==>
               SampleMeans(blocks, tracked, rules, scale, Edges(blocks, clock, |blocks|), k, samples[k])
    ensures IncreasingStamps(samples) && samples[0].timestampNs >= 0
    ensures AllowedState(rules.defaultActive) ==> StatesAllowed(samples)
  {
    hide Classify, StateValues, Toggles, TimeToNs, AllowedState, ValuesAfter, ReferenceValues;
    forall i, j | 0 <= i < j < |samples|
      ensures samples[i].timestampNs < samples[j].timestampNs
    {
      TimestampsIncrease(blocks, tracked, clock, rules, scale, samples, i, j);
    }
    TimestampsIncrease(blocks, tracked, clock, rules, scale, samples, 0, 0);
    if AllowedState(rules.defaultActive) {
      var edges := Edges(blocks, clock, |blocks|);
      forall i | 0 <= i < |samples|
        ensures AllowedState(samples[i].state)
      {
        assert SampleMeans(blocks, tracked, rules, scale, edges, i, samples[i]);
        ClassifyAllowed(rules, StateValues(rules, ValuesAfter(blocks, edges[i])));
      }
    }
  }

  /** Records to trace. Once the activity is computed the trace is accepted exactly when
      its names are set and the clock period is below two seconds. */
  method TraceFromRecords(records: seq<Record>, widths: map<string, int>, tracked: seq<Signal>, clock: string,
                          rules: Rules,
                          scale: Scale, hardwareId: string, operation: string)
    returns (activity: Result<seq<Sample>>, trace: Result<seq<TraceSample>>)
    requires PositiveScale(scale) && AllowedState(rules.defaultActive)
    ensures activity.Ok? ==> StampsMonotone(records, 0) && tracked != [] && |activity.value| >= 2
    ensures trace.Ok? <==>
              activity.Ok? && hardwareId != "" && operation != "" && IntervalNs(activity.value) < 2_000_000_000
    ensures activity.Ok? ==> IntervalNs(activity.value) > 0
    ensures trace.Ok? ==>
              trace.value == ToTrace(activity.value, RoundedQuotient(1_000_000_000, IntervalNs(activity.value)))
  {
    hide IntervalNs, RoundedQuotient, AllowedState;
    var b := BuildBlocks(records, widths);
    if b.Raised? {
      return Raised, Raised;
    }
    activity := ComputeCycleActivity(b.value, tracked, clock, rules, scale);
    if activity.Raised? {
      return activity, Raised;
    }
    ActivityIsTraceable(b.value, tracked, clock, rules, scale, activity.value);
    IntervalIsPositive(activity.value);
    trace := BuildTrace(activity.value, hardwareId, operation);
  }
}
