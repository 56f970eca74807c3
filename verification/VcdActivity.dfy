/** Per-cycle switching activity sampled at rising clock edges
    (tools/power_trace_from_vcd.py:440-520). */
module VcdActivity {
  import opened Numbers
  import opened Outcomes
  import opened VcdValues
  import opened VcdBlocks
  import opened StateLabels

  // ----- sampling at rising edges

  datatype Signal = Signal(id: string, width: int, weight: real)

  datatype Sample = Sample(timestampNs: int, toggles: real, state: string, activeLanes: nat)

  /** A timescale in nanoseconds, as a fraction. */
  datatype Scale = Scale(num: int, den: int)

  predicate PositiveScale(s: Scale) {
    s.num > 0 && s.den > 0
  }

  /** _time_to_ns (tools/power_trace_from_vcd.py:440-447). */
  function TimeToNs(time: int, scale: Scale): Result<int>
    requires PositiveScale(scale)
  {
    if time * scale.num % scale.den != 0 then Raised else Ok(time * scale.num / scale.den)
  }

  /** v nanoseconds are time units of the scale. */
  predicate Nanoseconds(time: int, scale: Scale, v: int) {
    v * scale.den == time * scale.num
  }

  /** A stamp converts to the whole number of nanoseconds it is, and is refused when it
      is none. */
  lemma TimeToNsExactly(time: int, scale: Scale)
    requires PositiveScale(scale)
    ensures TimeToNs(time, scale).Ok? ==> Nanoseconds(time, scale, TimeToNs(time, scale).value)
    ensures TimeToNs(time, scale).Raised? ==> forall v :: !Nanoseconds(time, scale, v)
  {
    var t := time * scale.num;
    if t % scale.den == 0 {
      ExactQuotient(t, scale.den);
    }
    forall v | Nanoseconds(time, scale, v)
      ensures TimeToNs(time, scale).Ok?
    {
      ModUniqueInt(t, scale.den, v, 0);
    }
  }

  /** The width an identifier gets when several tracked signals carry it: the last one's. */
  function WidthOf(tracked: seq<Signal>, id: string): int {
    if tracked == [] then 0
    else
      var last := |tracked| - 1;
      if tracked[last].id == id then tracked[last].width else WidthOf(tracked[..last], id)
  }

  /** The value of a tracked identifier, unknown digits before its first change. */
  function TrackedValue(tracked: seq<Signal>, values: map<string, string>, id: string): string {
    Lookup(values, id, Repeat('x', WidthOf(tracked, id)))
  }

  /** The weighted Hamming distance over the first n tracked signals. */
  function Toggles(tracked: seq<Signal>, before: map<string, string>, after: map<string, string>, n: nat): real
    requires n <= |tracked|
  {
    if n == 0 then 0.0
    else
      var id := tracked[n - 1].id;
      Toggles(tracked, before, after, n - 1)
      + tracked[n - 1].weight
        * HammingDistance(TrackedValue(tracked, before, id), TrackedValue(tracked, after, id)) as real
  }

  /** The last signal with an identifier decides its width. */
  lemma {:induction false} WidthOfLast(tracked: seq<Signal>, i: nat)
    requires i < |tracked| && forall j :: i < j < |tracked| ==> tracked[j].id != tracked[i].id
    ensures WidthOf(tracked, tracked[i].id) == tracked[i].width
    decreases |tracked|
  {
    if i < |tracked| - 1 {
      WidthOfLast(tracked[..|tracked| - 1], i);
    }
  }

  /** A register that has no value yet counts with every bit when it is first driven to
      known digits of its declared width. */
  lemma FirstDriveCounts(tracked: seq<Signal>, before: map<string, string>, after: map<string, string>, i: nat)
    requires i < |tracked| && forall j :: i < j < |tracked| ==> tracked[j].id != tracked[i].id
    requires tracked[i].id !in before && tracked[i].id in after && |after[tracked[i].id]| == tracked[i].width
    requires AllBinary(after[tracked[i].id])
    ensures HammingDistance(TrackedValue(tracked, before, tracked[i].id), TrackedValue(tracked, after, tracked[i].id))
            == tracked[i].width
  {
    var undriven, driven := TrackedValue(tracked, before, tracked[i].id), after[tracked[i].id];
    WidthOfLast(tracked, i);
    AllDiffer(undriven, driven);
  }

  lemma {:induction false} AllDiffer(a: string, b: string)
    requires |a| == |b| && forall k :: 0 <= k < |a| ==> a[k] != b[k]
    ensures Differing(a, b) == |a|
    decreases |a|
  {
    if a != [] {
      AllDiffer(a[1..], b[1..]);
    }
  }

  /** The places at which signal i changed, after extension if its width did. */
  ghost function ChangedPlaces(tracked: seq<Signal>, before: map<string, string>, after: map<string, string>, i: nat)
    : (places: set<int>)
    requires i < |tracked|
  {
    var a, b := TrackedValue(tracked, before, tracked[i].id), TrackedValue(tracked, after, tracked[i].id);
    if |a| == |b| then DifferentPlaces(a, b)
    else DifferentPlaces(NormaliseVector(a, Wider(a, b)), NormaliseVector(b, Wider(a, b)))
  }

  /** Signal and place of every change among the first n tracked signals. */
  ghost function Changes(tracked: seq<Signal>, before: map<string, string>, after: map<string, string>, n: nat)
    : (changes: set<(int, int)>)
    requires n <= |tracked|
  {
    set i, k | 0 <= i < n && k in ChangedPlaces(tracked, before, after, i) :: (i, k)
  }

  /** The places of one signal as pairs. */
  ghost function Tagged<T>(tag: int, places: set<T>): (pairs: set<(int, T)>) {
    set k | k in places :: (tag, k)
  }

  lemma {:induction false} TaggedCount<T>(tag: int, places: set<T>)
    ensures |Tagged(tag, places)| == |places|
    decreases |places|
  {
    if |places| > 0 {
      var one :| one in places;
      var rest := places - {one};
      TaggedCount(tag, rest);
      assert Tagged(tag, places) == Tagged(tag, rest) + {(tag, one)};
    } else {
      assert Tagged(tag, places) == {};
    }
  }

  /** With one weight for all signals the activity is that weight times the number of
      changed places of all signals together. */
  lemma {:induction false} TogglesCount(tracked: seq<Signal>, before: map<string, string>, after: map<string, string>,
                                        n: nat, weight: real)
    requires n <= |tracked| && forall i :: 0 <= i < n ==> tracked[i].weight == weight
    ensures Toggles(tracked, before, after, n) == weight * |Changes(tracked, before, after, n)| as real
    decreases n
  {
    hide HammingDistance, ChangedPlaces, TrackedValue, Changes;
    if n == 0 {
      NoChanges(tracked, before, after);
    } else {
      var last := n - 1;
      TogglesCount(tracked, before, after, last, weight);
      DistanceIsPlaces(tracked, before, after, last);
      MoreChanges(tracked, before, after, last);
      Distributed(weight, |Changes(tracked, before, after, last)|, |ChangedPlaces(tracked, before, after, last)|);
    }
  }

  lemma NoChanges(tracked: seq<Signal>, before: map<string, string>, after: map<string, string>)
    ensures |Changes(tracked, before, after, 0)| == 0
  {
    assert Changes(tracked, before, after, 0) == {};
  }

  lemma MoreChanges(tracked: seq<Signal>, before: map<string, string>, after: map<string, string>, n: nat)
    requires n < |tracked|
    ensures |Changes(tracked, before, after, n + 1)|
            == |Changes(tracked, before, after, n)| + |ChangedPlaces(tracked, before, after, n)|
  {
    hide ChangedPlaces;
    var earlier, places := Changes(tracked, before, after, n), ChangedPlaces(tracked, before, after, n);
    var added := Tagged(n, places);
    TaggedCount(n, places);
    var changes := Changes(tracked, before, after, n + 1);
    forall i: int, k: int
      ensures (i, k) in changes <==> (i, k) in earlier || (i, k) in added
      ensures !((i, k) in earlier && (i, k) in added)
    {
    }
    assert changes == earlier + added by {
      forall p: (int, int)
        ensures p in changes <==> p in earlier + added
      {
        assert p == (p.0, p.1);
      }
    }
    assert earlier !! added;
  }

  lemma DistanceIsPlaces(tracked: seq<Signal>, before: map<string, string>, after: map<string, string>, i: nat)
    requires i < |tracked|
    ensures HammingDistance(TrackedValue(tracked, before, tracked[i].id), TrackedValue(tracked, after, tracked[i].id))
            == |ChangedPlaces(tracked, before, after, i)|
  {
    HammingDistanceCounts(TrackedValue(tracked, before, tracked[i].id), TrackedValue(tracked, after, tracked[i].id));
    hide HammingDistance, TrackedValue, NormaliseVector, DifferentPlaces;
  }

  lemma Distributed(weight: real, m: nat, n: nat)
    ensures weight * (m + n) as real == weight * m as real + weight * n as real
  {
  }

  /** The clock is 1 after block n and was not after the block before. */
  predicate RisesAt(blocks: seq<Block>, clock: string, n: nat)
    requires n < |blocks|
  {
    Lookup(ValuesAfter(blocks, n + 1), clock, "x") == "1" && Lookup(ValuesAfter(blocks, n), clock, "x") != "1"
  }

  /** The blocks with rising edges, among the first n. */
  function Edges(blocks: seq<Block>, clock: string, n: nat): (e: seq<nat>)
    requires n <= |blocks|
    ensures forall i :: 0 <= i < |e| ==> e[i] < n
  {
    if n == 0 then []
    else Edges(blocks, clock, n - 1) + (if RisesAt(blocks, clock, n - 1) then [n - 1] else [])
  }

  /** They are exactly the rising blocks, in order. */
  lemma {:induction false} EdgesAreRises(blocks: seq<Block>, clock: string, n: nat)
    requires n <= |blocks|
    ensures var e := Edges(blocks, clock, n);
            && (forall i, j :: 0 <= i < j < |e| ==> e[i] < e[j])
            && (forall i :: 0 <= i < |e| ==> RisesAt(blocks, clock, e[i]))
            && (forall k :: 0 <= k < n && RisesAt(blocks, clock, k) ==> k in e)
    decreases n
  {
    hide RisesAt;
    if n > 0 {
      EdgesAreRises(blocks, clock, n - 1);
      var before, e := Edges(blocks, clock, n - 1), Edges(blocks, clock, n);
      assert forall k :: 0 <= k < n - 1 && RisesAt(blocks, clock, k) ==> k in before;
      if RisesAt(blocks, clock, n - 1) {
        assert e == before + [n - 1];
        assert e[|before|] == n - 1;
        assert forall k :: k in before ==> k in e;
      } else {
        assert e == before;
      }
    }
  }

  /** The values the activity of edge i is measured from: those of the edge before,
      or for the first edge those in force just before it. */
  function ReferenceValues(blocks: seq<Block>, edges: seq<nat>, i: nat): map<string, string>
    requires i < |edges| && EdgesIn(blocks, edges)
  {
    if i == 0 then ValuesAfter(blocks, edges[0]) else ValuesAfter(blocks, edges[i - 1] + 1)
  }

  /** A sample of the rising edge in block n, its activity measured from reference to
      the values after the block. The state label comes from the values in force just
      before the block. */
  ghost predicate TakenAt(blocks: seq<Block>, tracked: seq<Signal>, rules: Rules, scale: Scale, n: nat,
                          reference: map<string, string>, s: Sample)
    requires PositiveScale(scale) && n < |blocks|
  {
    && TimeToNs(blocks[n].time, scale) == Ok(s.timestampNs)
    && s.toggles == Toggles(tracked, reference, ValuesAfter(blocks, n + 1), |tracked|)
    && s.state == Classify(rules, StateValues(rules, ValuesAfter(blocks, n)))
    && s.activeLanes == (if s.state == "kem" || s.state == "dsa" then 1 else 0)
  }

  /** The sample of edge i, defined by replaying the blocks. */
  ghost predicate SampleMeans(blocks: seq<Block>, tracked: seq<Signal>, rules: Rules, scale: Scale,
                              edges: seq<nat>, i: nat, s: Sample)
    requires PositiveScale(scale)
    requires i < |edges| && EdgesIn(blocks, edges)
  {
    TakenAt(blocks, tracked, rules, scale, edges[i], ReferenceValues(blocks, edges, i), s)
  }

  /** The loop over tracked signals: a zero distance adds nothing. */
  method CountToggles(tracked: seq<Signal>, before: map<string, string>, after: map<string, string>)
    returns (toggles: real)
    ensures toggles == Toggles(tracked, before, after, |tracked|)
  {
    hide HammingDistance;
    toggles := 0.0;
    for n := 0 to |tracked|
      invariant toggles == Toggles(tracked, before, after, n)
    {
      var distance := HammingDistance(TrackedValue(tracked, before, tracked[n].id), TrackedValue(tracked, after, tracked[n].id));
      if distance != 0 {
        toggles := toggles + tracked[n].weight * distance as real;
      } else {
        NothingAdded(tracked[n].weight, distance);
      }
    }
  }

  lemma NothingAdded(weight: real, distance: nat)
    requires distance == 0
    ensures weight * distance as real == 0.0
  {
  }

  /** Every rising edge is at a whole nanosecond. */
  ghost predicate WholeNanoseconds(blocks: seq<Block>, clock: string, scale: Scale)
    requires PositiveScale(scale)
  {
    forall n :: 0 <= n < |blocks| && RisesAt(blocks, clock, n) ==> TimeToNs(blocks[n].time, scale).Ok?
  }

  /** The samples of the first n blocks. */
  ghost predicate Sampled(blocks: seq<Block>, tracked: seq<Signal>, clock: string, rules: Rules, scale: Scale,
                          n: nat, samples: seq<Sample>)
    requires PositiveScale(scale) && n <= |blocks|
  {
    var edges := Edges(blocks, clock, n);
    && |samples| == |edges|
    && (forall k :: 0 <= k < n && RisesAt(blocks, clock, k) ==> TimeToNs(blocks[k].time, scale).Ok?)
    && forall i :: 0 <= i < |samples| ==> SampleMeans(blocks, tracked, rules, scale, edges, i, samples[i])
  }

  /** The values the next sample is measured from, after n blocks. */
  function NextReference(blocks: seq<Block>, clock: string, n: nat): map<string, string>
    requires n <= |blocks|
  {
    var edges := Edges(blocks, clock, n);
    if edges == [] then ValuesAfter(blocks, n) else ValuesAfter(blocks, edges[|edges| - 1] + 1)
  }

  lemma NothingSampled(blocks: seq<Block>, tracked: seq<Signal>, clock: string, rules: Rules, scale: Scale)
    requires PositiveScale(scale)
    ensures Sampled(blocks, tracked, clock, rules, scale, 0, [])
  {
  }

  lemma NoEdgeSampled(blocks: seq<Block>, tracked: seq<Signal>, clock: string, rules: Rules, scale: Scale, n: nat,
                      samples: seq<Sample>)
    requires PositiveScale(scale) && n < |blocks| && !RisesAt(blocks, clock, n)
    requires Sampled(blocks, tracked, clock, rules, scale, n, samples)
    ensures Sampled(blocks, tracked, clock, rules, scale, n + 1, samples)
    ensures samples != [] ==> NextReference(blocks, clock, n + 1) == NextReference(blocks, clock, n)
  {
    hide TimeToNs, SampleMeans, RisesAt, ValuesAfter;
    EdgesNext(blocks, clock, n);
  }

  lemma EdgeSampled(blocks: seq<Block>, tracked: seq<Signal>, clock: string, rules: Rules, scale: Scale, n: nat,
                    samples: seq<Sample>, s: Sample)
    requires PositiveScale(scale) && n < |blocks| && RisesAt(blocks, clock, n)
    requires Sampled(blocks, tracked, clock, rules, scale, n, samples)
    requires TakenAt(blocks, tracked, rules, scale, n, NextReference(blocks, clock, n), s)
    ensures Sampled(blocks, tracked, clock, rules, scale, n + 1, samples + [s])
  {
    hide TimeToNs, ValuesAfter, SampleMeans, RisesAt, TakenAt, GrownBy;
    var reference := NextReference(blocks, clock, n);
    TakenInTime(blocks, tracked, rules, scale, n, reference, s);
    var edges, grown := Edges(blocks, clock, n), Edges(blocks, clock, n + 1);
    EdgesGrow(blocks, clock, n);
    hide Edges, NextReference, Last;
    SamplesGrow(blocks, tracked, rules, scale, edges, grown, n, reference, samples, s);
  }

  lemma EdgesGrow(blocks: seq<Block>, clock: string, n: nat)
    requires n < |blocks| && RisesAt(blocks, clock, n)
    ensures var edges, grown := Edges(blocks, clock, n), Edges(blocks, clock, n + 1);
            && |grown| == |edges| + 1 && EdgesIn(blocks, edges) && EdgesIn(blocks, grown) && GrownBy(edges, grown, n)
            && NextReference(blocks, clock, n) == if edges == [] then ValuesAfter(blocks, n)
                                                  else ValuesAfter(blocks, Last(edges) + 1)
  {
    hide RisesAt, ValuesAfter;
    EdgesNext(blocks, clock, n);
    hide Edges;
  }

  lemma SamplesGrow(blocks: seq<Block>, tracked: seq<Signal>, rules: Rules, scale: Scale, edges: seq<nat>,
                    grown: seq<nat>,
                    n: nat, reference: map<string, string>, samples: seq<Sample>, s: Sample)
    requires PositiveScale(scale) && n < |blocks| && EdgesIn(blocks, edges) && EdgesIn(blocks, grown)
    requires GrownBy(edges, grown, n) && |samples| == |edges|
    requires forall i :: 0 <= i < |samples| ==> SampleMeans(blocks, tracked, rules, scale, edges, i, samples[i])
    requires reference == if edges == [] then ValuesAfter(blocks, n) else ValuesAfter(blocks, Last(edges) + 1)
    requires TakenAt(blocks, tracked, rules, scale, n, reference, s)
    ensures forall i :: 0 <= i < |samples + [s]| ==> SampleMeans(blocks, tracked, rules, scale, grown, i, (samples + [s])[i])
  {
    hide ValuesAfter, SampleMeans, TakenAt;
    SamplesExtend(blocks, tracked, rules, scale, edges, grown, samples);
    NewSample(blocks, tracked, rules, scale, edges, grown, n, reference, s);
    forall i | 0 <= i < |samples + [s]|
      ensures SampleMeans(blocks, tracked, rules, scale, grown, i, (samples + [s])[i])
    {
      if i < |samples| {
        assert (samples + [s])[i] == samples[i];
      }
    }
  }

  lemma TakenInTime(blocks: seq<Block>, tracked: seq<Signal>, rules: Rules, scale: Scale, n: nat,
                    reference: map<string, string>, s: Sample)
    requires PositiveScale(scale) && n < |blocks| && TakenAt(blocks, tracked, rules, scale, n, reference, s)
    ensures TimeToNs(blocks[n].time, scale) == Ok(s.timestampNs)
  {
    hide TimeToNs, Toggles, Classify, StateValues, ValuesAfter;
  }

  lemma EdgeReference(blocks: seq<Block>, clock: string, n: nat)
    requires n < |blocks| && RisesAt(blocks, clock, n)
    ensures NextReference(blocks, clock, n + 1) == ValuesAfter(blocks, n + 1)
  {
    hide RisesAt, ValuesAfter;
    EdgesNext(blocks, clock, n);
  }

  /** compute_cycle_activity (tools/power_trace_from_vcd.py:450-520): one sample per
      rising edge, each the weighted Hamming distance between the replayed values,
      and exactly when it raises. */
  method ComputeCycleActivity(blocks: seq<Block>, tracked: seq<Signal>, clock: string, rules: Rules, scale: Scale)
    returns (r: Result<seq<Sample>>)
    requires PositiveScale(scale)
    ensures r.Ok? <==> tracked != [] && WholeNanoseconds(blocks, clock, scale) && |Edges(blocks, clock, |blocks|)| >= 2
    ensures r.Ok? ==> |r.value| == |Edges(blocks, clock, |blocks|)|
    ensures r.Ok? ==> forall i :: 0 <= i < |r.value| ==>
              SampleMeans(blocks, tracked, rules, scale, Edges(blocks, clock, |blocks|), i, r.value[i])
  {
    if tracked == [] {
      return Raised;
    }
    var samples, whole := SampleBlocks(blocks, tracked, clock, rules, scale);
    if !whole || |samples| < 2 {
      return Raised;
    }
    return Ok(samples);
  }

  /** The block loop of compute_cycle_activity. */
  method SampleBlocks(blocks: seq<Block>, tracked: seq<Signal>, clock: string, rules: Rules, scale: Scale)
    returns (samples: seq<Sample>, whole: bool)
    requires PositiveScale(scale)
    ensures whole <==> WholeNanoseconds(blocks, clock, scale)
    ensures whole ==> Sampled(blocks, tracked, clock, rules, scale, |blocks|, samples)
  {
    hide TimeToNs, Toggles, Classify, StateValues, ValuesAfter, SampleMeans, Sampled, NextReference;
    var values: map<string, string> := map[];
    var previousClock := "x";
    var preBlock: map<string, string> := map[];
    var previousSnapshot: Option<map<string, string>> := None;
    samples := [];
    NoValuesYet(blocks);
    NothingSampled(blocks, tracked, clock, rules, scale);
    for n := 0 to |blocks|
      invariant values == ValuesAfter(blocks, n)
      invariant previousClock == Lookup(values, clock, "x")
      invariant Sampled(blocks, tracked, clock, rules, scale, n, samples)
      invariant previousSnapshot.None? <==> samples == []
      invariant previousSnapshot.Some? ==> previousSnapshot.value == NextReference(blocks, clock, n)
    {
      ghost var before := values;
      var stateValues := StateValues(rules, values);
      if previousSnapshot.None? {
        preBlock := values;
        FirstReference(blocks, tracked, clock, rules, scale, n, samples);
      }
      NextValues(blocks, n);
      values := values + blocks[n].changes;
      var now := Lookup(values, clock, "x");
      var rising := now == "1" && previousClock != "1";
      previousClock := now;
      if !rising {
        NoEdgeSampled(blocks, tracked, clock, rules, scale, n, samples);
      } else {
        var reference := if previousSnapshot.None? then preBlock else previousSnapshot.value;
        var toggles := CountToggles(tracked, reference, values);
        var state := Classify(rules, stateValues);
        var time := TimeToNs(blocks[n].time, scale);
        if time.Raised? {
          return samples, false;
        }
        var s := Sample(time.value, toggles, state, if state == "kem" || state == "dsa" then 1 else 0);
        EdgeSampled(blocks, tracked, clock, rules, scale, n, samples, s);
        EdgeReference(blocks, clock, n);
        samples := samples + [s];
        previousSnapshot := Some(values);
      }
    }
    SampledIsWhole(blocks, tracked, clock, rules, scale, samples);
    whole := true;
  }

  lemma FirstReference(blocks: seq<Block>, tracked: seq<Signal>, clock: string, rules: Rules, scale: Scale, n: nat,
                       samples: seq<Sample>)
    requires PositiveScale(scale) && n <= |blocks| && Sampled(blocks, tracked, clock, rules, scale, n, samples)
    ensures samples == [] ==> NextReference(blocks, clock, n) == ValuesAfter(blocks, n)
  {
  }

  lemma SampledIsWhole(blocks: seq<Block>, tracked: seq<Signal>, clock: string, rules: Rules, scale: Scale,
                       samples: seq<Sample>)
    requires PositiveScale(scale) && Sampled(blocks, tracked, clock, rules, scale, |blocks|, samples)
    ensures WholeNanoseconds(blocks, clock, scale)
  {
  }

  lemma EdgesNext(blocks: seq<Block>, clock: string, n: nat)
    requires n < |blocks|
    ensures Edges(blocks, clock, n + 1)
            == if RisesAt(blocks, clock, n) then Edges(blocks, clock, n) + [n] else Edges(blocks, clock, n)
  {
    hide RisesAt;
  }

  /** One more edge was found, in block n. */
  ghost predicate GrownBy(edges: seq<nat>, grown: seq<nat>, n: nat) {
    |grown| == |edges| + 1 && grown[|edges|] == n && forall i :: 0 <= i < |edges| ==> grown[i] == edges[i]
  }

  ghost predicate EdgesIn(blocks: seq<Block>, edges: seq<nat>) {
    forall k :: 0 <= k < |edges| ==> edges[k] < |blocks|
  }

  /** The sample taken at a new edge means what it should. */
  lemma NewSample(blocks: seq<Block>, tracked: seq<Signal>, rules: Rules, scale: Scale, edges: seq<nat>, grown: seq<nat>,
                  n: nat, reference: map<string, string>, s: Sample)
    requires PositiveScale(scale) && n < |blocks| && EdgesIn(blocks, edges) && EdgesIn(blocks, grown)
    requires GrownBy(edges, grown, n)
    requires reference == if edges == [] then ValuesAfter(blocks, n) else ValuesAfter(blocks, Last(edges) + 1)
    requires TakenAt(blocks, tracked, rules, scale, n, reference, s)
    ensures SampleMeans(blocks, tracked, rules, scale, grown, |edges|, s)
  {
    hide TakenAt, ValuesAfter;
  }

  function Last(e: seq<nat>): nat {
    if e == [] then 0 else e[|e| - 1]
  }

  lemma SamplesExtend(blocks: seq<Block>, tracked: seq<Signal>, rules: Rules, scale: Scale, edges: seq<nat>,
                      grown: seq<nat>, samples: seq<Sample>)
    requires PositiveScale(scale) && |samples| == |edges| < |grown| && EdgesIn(blocks, edges) && EdgesIn(blocks, grown)
    requires GrownBy(edges, grown, grown[|edges|])
    requires forall i :: 0 <= i < |samples| ==> SampleMeans(blocks, tracked, rules, scale, edges, i, samples[i])
    ensures forall i :: 0 <= i < |samples| ==> SampleMeans(blocks, tracked, rules, scale, grown, i, samples[i])
  {
    hide TakenAt, ValuesAfter;
    forall i | 0 <= i < |samples|
      ensures SampleMeans(blocks, tracked, rules, scale, grown, i, samples[i])
    {
      assert SampleMeans(blocks, tracked, rules, scale, edges, i, samples[i]);
    }
  }

  // ----- the state label

  /** The source documents the label of an edge as that of the values latched at the
      edge before. The code takes the values in force just before the edge. The two
      agree for every rule set over ids exactly when those values read the same. */
  lemma LatchedExactly(blocks: seq<Block>, edges: seq<nat>, i: nat, ids: set<string>)
    requires EdgesIn(blocks, edges) && 0 < i < |edges|
    ensures var latched, before := ValuesAfter(blocks, edges[i - 1] + 1), ValuesAfter(blocks, edges[i]);
            LabelsAgree(ids, latched, before) <==> SameReadings(ids, latched, before)
  {
    LabelsAgreeExactly(ids, ValuesAfter(blocks, edges[i - 1] + 1), ValuesAfter(blocks, edges[i]));
  }

  /** So a sample has the documented label whenever they read the same for its rules. */
  lemma LabelIsLatched(blocks: seq<Block>, tracked: seq<Signal>, rules: Rules, scale: Scale, edges: seq<nat>,
                       i: nat, s: Sample)
    requires PositiveScale(scale) && EdgesIn(blocks, edges) && 0 < i < |edges|
    requires SampleMeans(blocks, tracked, rules, scale, edges, i, s)
    requires SameReadings(RuleIds(rules), ValuesAfter(blocks, edges[i - 1] + 1), ValuesAfter(blocks, edges[i]))
    ensures s.state == Classify(rules, StateValues(rules, ValuesAfter(blocks, edges[i - 1] + 1)))
  {
    SameReadingsAgree(RuleIds(rules), ValuesAfter(blocks, edges[i - 1] + 1), ValuesAfter(blocks, edges[i]), rules);
    hide Classify, StateValues, TimeToNs, Toggles, ValuesAfter;
  }

  lemma {:induction false} QuietKeepsReading(blocks: seq<Block>, id: string, lo: nat, hi: nat)
    requires lo <= hi <= |blocks|
    requires forall k :: lo <= k < hi ==> id !in blocks[k].changes
    ensures Reading(ValuesAfter(blocks, hi), id) == Reading(ValuesAfter(blocks, lo), id)
    decreases hi
  {
    hide ValuesAfter;
    if hi > lo {
      QuietKeepsReading(blocks, id, lo, hi - 1);
      NextValues(blocks, hi - 1);
    }
  }

  /** In particular when no block between the two edges touches a state signal. */
  lemma QuietLabelIsLatched(blocks: seq<Block>, tracked: seq<Signal>, rules: Rules, scale: Scale, edges: seq<nat>,
                            i: nat, s: Sample)
    requires PositiveScale(scale) && EdgesIn(blocks, edges) && 0 < i < |edges| && edges[i - 1] < edges[i]
    requires SampleMeans(blocks, tracked, rules, scale, edges, i, s)
    requires forall k :: edges[i - 1] < k < edges[i] ==> blocks[k].changes.Keys !! RuleIds(rules)
    ensures s.state == Classify(rules, StateValues(rules, ValuesAfter(blocks, edges[i - 1] + 1)))
  {
    hide Classify, StateValues, TimeToNs, Toggles, ValuesAfter, Reading, Number, RuleIds, SampleMeans;
    forall id | id in RuleIds(rules)
      ensures Reading(ValuesAfter(blocks, edges[i]), id) == Reading(ValuesAfter(blocks, edges[i - 1] + 1), id)
    {
      QuietKeepsReading(blocks, id, edges[i - 1] + 1, edges[i]);
    }
    LabelIsLatched(blocks, tracked, rules, scale, edges, i, s);
  }

  /** Busy rises between two edges. */
  const BUSY_BETWEEN_EDGES := [
    Block(0, map["c" := "0", "b" := "0"]), Block(1, map["c" := "1"]),
    Block(2, map["c" := "0", "b" := "1"]), Block(3, map["c" := "1"])]

  lemma BetweenValues()
    ensures ValuesAfter(BUSY_BETWEEN_EDGES, 0) == map[]
    ensures ValuesAfter(BUSY_BETWEEN_EDGES, 1) == map["c" := "0", "b" := "0"]
    ensures ValuesAfter(BUSY_BETWEEN_EDGES, 2) == map["c" := "1", "b" := "0"]
    ensures ValuesAfter(BUSY_BETWEEN_EDGES, 3) == map["c" := "0", "b" := "1"]
    ensures ValuesAfter(BUSY_BETWEEN_EDGES, 4) == map["c" := "1", "b" := "1"]
  {
    var blocks := BUSY_BETWEEN_EDGES;
    NoValuesYet(blocks);
    NextValues(blocks, 0);
    NextValues(blocks, 1);
    NextValues(blocks, 2);
    NextValues(blocks, 3);
    hide ValuesAfter;
    ClockChanges("0", "0", "1");
    BothChange("1", "0", "0", "1");
    ClockChanges("0", "1", "1");
  }

  lemma ClockChanges(c: string, b: string, c': string)
    ensures map["c" := c, "b" := b] + map["c" := c'] == map["c" := c', "b" := b]
  {
  }

  lemma BothChange(c: string, b: string, c': string, b': string)
    ensures map["c" := c, "b" := b] + map["c" := c', "b" := b'] == map["c" := c', "b" := b']
  {
  }

  lemma BetweenEdges()
    ensures Edges(BUSY_BETWEEN_EDGES, "c", 4) == [1, 3]
  {
    var blocks := BUSY_BETWEEN_EDGES;
    BetweenValues();
    hide ValuesAfter;
    assert !RisesAt(blocks, "c", 0) && RisesAt(blocks, "c", 1) && !RisesAt(blocks, "c", 2) && RisesAt(blocks, "c", 3);
    hide RisesAt;
    assert Edges(blocks, "c", 0) == [];
    EdgesNext(blocks, "c", 0);
    EdgesNext(blocks, "c", 1);
    EdgesNext(blocks, "c", 2);
    EdgesNext(blocks, "c", 3);
    hide Edges;
    assert [] + [1] + [3] == [1, 3];
  }

  /** Without that condition it need not: a request that raises busy between two
      edges labels the second one, although nothing was busy at the first. */
  lemma LabelNotAlwaysLatched()
    ensures var blocks, rules := BUSY_BETWEEN_EDGES, Rules(None, true, Some("b"), None, None, 3329, 8380417, "kem");
            && Edges(blocks, "c", 4) == [1, 3]
            && Classify(rules, StateValues(rules, ValuesAfter(blocks, 3))) == "kem"
            && Classify(rules, StateValues(rules, ValuesAfter(blocks, 1 + 1))) == "idle"
  {
    BetweenValues();
    BetweenEdges();
    hide ValuesAfter, Edges;
  }

  // ----- timestamps

  lemma LaterIsLarger(t: int, u: int, scale: Scale)
    requires PositiveScale(scale) && t < u && TimeToNs(t, scale).Ok? && TimeToNs(u, scale).Ok?
    ensures TimeToNs(t, scale).value < TimeToNs(u, scale).value
  {
    var a, b := t * scale.num, u * scale.num;
    ProductAtLeast(scale.num, u - t);
    assert scale.num * (u - t) == b - a;
    ExactQuotient(a, scale.den);
    ExactQuotient(b, scale.den);
    StrictQuotient(scale.den, a / scale.den, b / scale.den);
  }

  lemma StrictQuotient(d: int, x: int, y: int)
    requires d > 0 && d * x < d * y
    ensures x < y
  {
    ProductAtLeast(d, y - x);
    assert d * (y - x) == d * y - d * x;
  }

  lemma ExactQuotient(a: int, d: int)
    requires d > 0 && a % d == 0
    ensures a == d * (a / d)
  {
  }

  lemma NotNegative(t: int, scale: Scale)
    requires PositiveScale(scale) && t >= 0 && TimeToNs(t, scale).Ok?
    ensures TimeToNs(t, scale).value >= 0
  {
    var a := t * scale.num;
    ProductAtLeast(scale.num, t);
    ExactQuotient(a, scale.den);
    ProductAtLeast(scale.den, a / scale.den);
  }

  /** Samples computed from blocks whose times increase from 0 always satisfy the
      contract's timestamp check: not negative and strictly increasing. */
  lemma TimestampsIncrease(blocks: seq<Block>, tracked: seq<Signal>, clock: string, rules: Rules, scale: Scale,
                           samples: seq<Sample>, i: nat, j: nat)
    requires PositiveScale(scale) && |blocks| > 0 && blocks[0].time == 0 && IncreasingTimes(blocks)
    requires |samples| == |Edges(blocks, clock, |blocks|)| && i < |samples|
    requires forall k :: 0 <= k < |samples| ==>
               SampleMeans(blocks, tracked, rules, scale, Edges(blocks, clock, |blocks|), k, samples[k])
    ensures samples[i].timestampNs >= 0
    ensures i < j < |samples| ==> samples[i].timestampNs < samples[j].timestampNs
  {
    hide TimeToNs, Toggles, Classify, StateValues;
    var edges := Edges(blocks, clock, |blocks|);
    EdgesAreRises(blocks, clock, |blocks|);
    var n := edges[i];
    assert blocks[n].time >= 0;
    assert SampleMeans(blocks, tracked, rules, scale, edges, i, samples[i]);
    NotNegative(blocks[n].time, scale);
    if i < j < |samples| {
      assert SampleMeans(blocks, tracked, rules, scale, edges, j, samples[j]);
      LaterIsLarger(blocks[n].time, blocks[edges[j]].time, scale);
    }
  }
}
