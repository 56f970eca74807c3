/** The activity state of a design, read off its signal values
    (tools/power_trace_from_vcd.py:337-371), and when two value maps give every rule
    set the same label. */
module StateLabels {
  import opened Outcomes
  import opened VcdValues

  datatype Rules = Rules(
    resetId: Option<string>,
    resetActiveLow: bool,
    busyId: Option<string>,
    modulusId: Option<string>,
    faultId: Option<string>,
    kemModulus: int,
    dsaModulus: int,
    defaultActive: string
  )

  function Lookup(values: map<string, string>, id: string, default: string): string {
    if id in values then values[id] else default
  }

  /** StateRules.classify (tools/power_trace_from_vcd.py:351-371). */
  function Classify(rules: Rules, values: map<string, string>): string {
    if rules.resetId.Some? && Lookup(values, rules.resetId.value, "x") == (if rules.resetActiveLow then "0" else "1") then
      "zeroize"
    else if rules.faultId.Some? && Lookup(values, rules.faultId.value, "") == "1" then "fault"
    else if rules.busyId.Some? && Lookup(values, rules.busyId.value, "") == "1" then
      var raw := if rules.modulusId.Some? then Lookup(values, rules.modulusId.value, "") else "";
      if raw != "" && AllBinary(raw) && Binary(raw) == rules.kemModulus then "kem"
      else if raw != "" && AllBinary(raw) && Binary(raw) == rules.dsaModulus then "dsa"
      else rules.defaultActive
    else "idle"
  }

  ghost predicate Carries(id: Option<string>, values: map<string, string>, value: string) {
    id.Some? && id.value in values && values[id.value] == value
  }

  /** The modulus signal has known digits only, and they stand for n. */
  ghost predicate CarriesNumber(id: Option<string>, values: map<string, string>, n: int) {
    id.Some? && id.value in values && Number(values[id.value]).Some? && Number(values[id.value]).value == n
  }

  /** The label of every value map: an asserted reset comes first, then a fault, then a
      busy design by its modulus; a signal without a value asserts nothing. */
  lemma ClassifyExactly(rules: Rules, values: map<string, string>)
    ensures var reset := Carries(rules.resetId, values, if rules.resetActiveLow then "0" else "1");
            var fault, busy := Carries(rules.faultId, values, "1"), Carries(rules.busyId, values, "1");
            var kem := CarriesNumber(rules.modulusId, values, rules.kemModulus);
            var dsa := CarriesNumber(rules.modulusId, values, rules.dsaModulus);
            && (reset ==> Classify(rules, values) == "zeroize")
            && (!reset && fault ==> Classify(rules, values) == "fault")
            && (!reset && !fault && busy && kem ==> Classify(rules, values) == "kem")
            && (!reset && !fault && busy && !kem && dsa ==> Classify(rules, values) == "dsa")
            && (!reset && !fault && busy && !kem && !dsa ==> Classify(rules, values) == rules.defaultActive)
            && (!reset && !fault && !busy ==> Classify(rules, values) == "idle")
  {
    hide Binary, AllBinary;
  }

  /** The identifiers a rule set looks at, each with the value in force or x. */
  function StateValues(rules: Rules, values: map<string, string>): map<string, string> {
    OneValue(rules.resetId, values) + OneValue(rules.busyId, values) + OneValue(rules.modulusId, values)
    + OneValue(rules.faultId, values)
  }

  function OneValue(id: Option<string>, values: map<string, string>): map<string, string> {
    if id.Some? then map[id.value := Lookup(values, id.value, "x")] else map[]
  }

  /** The identifiers a rule set looks at. */
  function RuleIds(rules: Rules): set<string> {
    OneId(rules.resetId) + OneId(rules.busyId) + OneId(rules.modulusId) + OneId(rules.faultId)
  }

  function OneId(id: Option<string>): set<string> {
    if id.Some? then {id.value} else {}
  }

  /** What is in force for id, unknown before its first change. */
  function Reading(values: map<string, string>, id: string): string {
    Lookup(values, id, "x")
  }

  /** Every rule set over ids gives v and w the same label. */
  ghost predicate LabelsAgree(ids: set<string>, v: map<string, string>, w: map<string, string>) {
    forall rules :: RuleIds(rules) <= ids ==> LabelAgrees(rules, v, w)
  }

  predicate LabelAgrees(rules: Rules, v: map<string, string>, w: map<string, string>) {
    Classify(rules, StateValues(rules, v)) == Classify(rules, StateValues(rules, w))
  }

  /** The same signals read 1 and the same read 0. */
  ghost predicate SameBits(ids: set<string>, v: map<string, string>, w: map<string, string>) {
    forall id :: id in ids ==>
      && (Reading(v, id) == "1" <==> Reading(w, id) == "1")
      && (Reading(v, id) == "0" <==> Reading(w, id) == "0")
  }

  ghost predicate SameNumbers(ids: set<string>, v: map<string, string>, w: map<string, string>) {
    forall id :: id in ids ==> Number(Reading(v, id)) == Number(Reading(w, id))
  }

  ghost predicate SomeBusy(ids: set<string>, v: map<string, string>) {
    exists id :: id in ids && Reading(v, id) == "1"
  }

  /** The same bits, and the same numbers if anything could be busy. */
  ghost predicate SameReadings(ids: set<string>, v: map<string, string>, w: map<string, string>) {
    SameBits(ids, v, w) && (SomeBusy(ids, v) ==> SameNumbers(ids, v, w))
  }

  ghost predicate Mirrors(m: map<string, string>, v: map<string, string>) {
    forall id :: id in m ==> m[id] == Reading(v, id)
  }

  lemma MirrorsUnion(a: map<string, string>, b: map<string, string>, v: map<string, string>)
    requires Mirrors(a, v) && Mirrors(b, v)
    ensures Mirrors(a + b, v) && (a + b).Keys == a.Keys + b.Keys
  {
    hide Reading;
  }

  lemma OneMirrors(id: Option<string>, v: map<string, string>)
    ensures Mirrors(OneValue(id, v), v) && OneValue(id, v).Keys == OneId(id)
  {
  }

  /** Classification sees the values in force. */
  lemma StateValueIs(rules: Rules, v: map<string, string>, id: string, default: string)
    requires id in RuleIds(rules)
    ensures Lookup(StateValues(rules, v), id, default) == Reading(v, id)
  {
    var a, b, c, d := OneValue(rules.resetId, v), OneValue(rules.busyId, v), OneValue(rules.modulusId, v),
      OneValue(rules.faultId, v);
    OneMirrors(rules.resetId, v);
    OneMirrors(rules.busyId, v);
    OneMirrors(rules.modulusId, v);
    OneMirrors(rules.faultId, v);
    hide OneValue, OneId, Reading, Mirrors;
    MirrorsUnion(a, b, v);
    MirrorsUnion(a + b, c, v);
    MirrorsUnion(a + b + c, d, v);
    MirrorAt(StateValues(rules, v), v, id, default);
  }

  lemma MirrorAt(m: map<string, string>, v: map<string, string>, id: string, default: string)
    requires Mirrors(m, v) && id in m
    ensures Lookup(m, id, default) == Reading(v, id)
  {
    hide Reading;
  }

  /** Classify with its readings named. */
  function Label(rules: Rules, v: map<string, string>): string {
    if rules.resetId.Some? && Reading(v, rules.resetId.value) == (if rules.resetActiveLow then "0" else "1") then "zeroize"
    else if rules.faultId.Some? && Reading(v, rules.faultId.value) == "1" then "fault"
    else if rules.busyId.Some? && Reading(v, rules.busyId.value) == "1" then
      BusyLabel(rules, if rules.modulusId.Some? then Number(Reading(v, rules.modulusId.value)) else None)
    else "idle"
  }

  function BusyLabel(rules: Rules, number: Option<nat>): string {
    if number.Some? && number.value == rules.kemModulus then "kem"
    else if number.Some? && number.value == rules.dsaModulus then "dsa"
    else rules.defaultActive
  }

  lemma LabelIsClassify(rules: Rules, v: map<string, string>)
    ensures Classify(rules, StateValues(rules, v)) == Label(rules, v)
  {
    hide StateValues, Reading, Lookup, Binary, AllBinary;
    if rules.resetId.Some? {
      StateValueIs(rules, v, rules.resetId.value, "x");
    }
    if rules.faultId.Some? {
      StateValueIs(rules, v, rules.faultId.value, "");
    }
    if rules.busyId.Some? {
      StateValueIs(rules, v, rules.busyId.value, "");
    }
    if rules.modulusId.Some? {
      StateValueIs(rules, v, rules.modulusId.value, "");
    }
  }

  /** The values collected for a sample, with x for signals not seen yet, are labelled like
      the values in force themselves. */
  lemma CollectedLabel(rules: Rules, v: map<string, string>)
    ensures Classify(rules, StateValues(rules, v)) == Classify(rules, v)
    ensures StateValues(rules, v).Keys == RuleIds(rules)
  {
    hide StateValues, RuleIds, Classify, Label;
    LabelIsClassify(rules, v);
    LabelOfValues(rules, v);
    CollectedIds(rules, v);
  }

  lemma LabelOfValues(rules: Rules, v: map<string, string>)
    ensures Label(rules, v) == Classify(rules, v)
  {
    assert !AllBinary("x") by {
      assert "x"[0] == 'x';
    }
    hide Binary, AllBinary;
  }

  lemma CollectedIds(rules: Rules, v: map<string, string>)
    ensures StateValues(rules, v).Keys == RuleIds(rules)
  {
    var a, b, c, d := OneValue(rules.resetId, v), OneValue(rules.busyId, v), OneValue(rules.modulusId, v),
      OneValue(rules.faultId, v);
    OneMirrors(rules.resetId, v);
    OneMirrors(rules.busyId, v);
    OneMirrors(rules.modulusId, v);
    OneMirrors(rules.faultId, v);
    hide OneValue, OneId, Reading, Mirrors;
    MirrorsUnion(a, b, v);
    MirrorsUnion(a + b, c, v);
    MirrorsUnion(a + b + c, d, v);
  }

  lemma SameReadingsAgree(ids: set<string>, v: map<string, string>, w: map<string, string>, rules: Rules)
    requires SameReadings(ids, v, w) && RuleIds(rules) <= ids
    ensures LabelAgrees(rules, v, w)
  {
    LabelIsClassify(rules, v);
    LabelIsClassify(rules, w);
    hide Classify, StateValues, Reading, Number, BusyLabel;
    if rules.resetId.Some? {
      assert rules.resetId.value in ids;
    }
    if rules.faultId.Some? {
      assert rules.faultId.value in ids;
    }
    if rules.busyId.Some? {
      assert rules.busyId.value in ids;
    }
    if rules.modulusId.Some? {
      assert rules.modulusId.value in ids;
    }
  }

  /** A reset rule tells a 0 or a 1 from everything else. */
  lemma AgreeingBits(ids: set<string>, v: map<string, string>, w: map<string, string>, id: string)
    requires LabelsAgree(ids, v, w) && id in ids
    ensures Reading(v, id) == "1" <==> Reading(w, id) == "1"
    ensures Reading(v, id) == "0" <==> Reading(w, id) == "0"
  {
    var high := Rules(Some(id), false, None, None, None, 0, 0, "idle");
    var low := high.(resetActiveLow := true);
    assert RuleIds(high) <= ids && RuleIds(low) <= ids;
    assert LabelAgrees(high, v, w) && LabelAgrees(low, v, w);
    LabelIsClassify(high, v);
    LabelIsClassify(high, w);
    LabelIsClassify(low, v);
    LabelIsClassify(low, w);
    hide Classify, StateValues, Reading;
  }

  /** A modulus rule tells one number from everything else while busy. */
  lemma AgreeingNumbers(ids: set<string>, v: map<string, string>, w: map<string, string>, busy: string, id: string)
    requires LabelsAgree(ids, v, w) && busy in ids && id in ids
    requires Reading(v, busy) == "1" && Reading(w, busy) == "1"
    ensures Number(Reading(v, id)) == Number(Reading(w, id))
  {
    hide Classify, StateValues, Reading, Number;
    var x, y := Number(Reading(v, id)), Number(Reading(w, id));
    if x != y {
      var k := if x.Some? then x.value else y.value;
      var rules := Rules(None, true, Some(busy), Some(id), None, k, -1, "idle");
      assert RuleIds(rules) <= ids;
      assert LabelAgrees(rules, v, w);
      hide LabelsAgree, RuleIds;
      LabelIsClassify(rules, v);
      LabelIsClassify(rules, w);
      assert false;
    }
  }

  /** Two value maps get the same label from every rule set over ids exactly when they
      agree on which signals read 1 and which read 0 and, if some signal reads 1 and so
      could mean busy, on every signal's number. */
  lemma LabelsAgreeExactly(ids: set<string>, v: map<string, string>, w: map<string, string>)
    ensures LabelsAgree(ids, v, w) <==> SameReadings(ids, v, w)
  {
    hide Reading, Number, LabelAgrees, RuleIds;
    if SameReadings(ids, v, w) {
      forall rules | RuleIds(rules) <= ids
        ensures LabelAgrees(rules, v, w)
      {
        SameReadingsAgree(ids, v, w, rules);
      }
    }
    if LabelsAgree(ids, v, w) {
      forall id | id in ids
        ensures Reading(v, id) == "1" <==> Reading(w, id) == "1"
        ensures Reading(v, id) == "0" <==> Reading(w, id) == "0"
      {
        AgreeingBits(ids, v, w, id);
      }
      if SomeBusy(ids, v) {
        var busy :| busy in ids && Reading(v, busy) == "1";
        forall id | id in ids
          ensures Number(Reading(v, id)) == Number(Reading(w, id))
        {
          AgreeingNumbers(ids, v, w, busy, id);
        }
      }
    }
  }
}
