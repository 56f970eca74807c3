/** The pipelined modular multiplier rtl/lca_modmul_fast.sv: its combinational stages at
    their hardware widths, its registers, and what holds over every run. */
module ModmulFast {
  import opened Numbers
  import opened Outcomes
  import opened ShiftAdd
  import opened FastMod

  const TWO_23 := 0x80_0000
  const TWO_24 := 0x100_0000
  const TWO_31 := 0x8000_0000
  const TWO_32 := 0x1_0000_0000
  const TWO_47 := 0x8000_0000_0000
  const TWO_48 := 0x1_0000_0000_0000

  // ----- reduction primitives (rtl/lca_modmul_fast.sv:86-149)

  /** The low 32 bits as a signed number. */
  function Signed32(x: int): (y: int)
    ensures -TWO_31 <= y < TWO_31
  {
    (x + TWO_31) % TWO_32 - TWO_31
  }

  lemma FitsSigned32(x: int)
    requires -TWO_31 <= x < TWO_31
    ensures Signed32(x) == x
  {
    SmallMod(x + TWO_31, TWO_32);
  }

  function HwKRed(value: int): int {
    Signed32(13 * (value % 256) - value / 256)
  }

  function HwNormalize(value: int): int {
    var shifted := Signed32(value + 3329);
    var once := HwSubtract(shifted);
    HwSubtract(once)
  }

  /** One subtractor with its sign bit as the select. */
  function HwSubtract(value: int): int {
    var difference := Signed32(value - 3329);
    if difference < 0 then value else difference
  }

  function HwKRed2Norm(value: int): int {
    HwNormalize(HwKRed(HwKRed(value)))
  }

  /** One Solinas fold on 48-bit words. */
  function HwFold(value: int): int {
    (value % TWO_23 + value / TWO_23 * 8192 - value / TWO_23) % TWO_48
  }

  function HwFinal(value: int): int {
    var difference := (value - Q_DSA) % TWO_48;
    if difference >= TWO_47 then value else difference
  }

  /** The folds of the ML-KEM path never leave 32 bits, for any 32-bit input. */
  lemma HwKRedIsKRed(value: int)
    requires -TWO_31 <= value < TWO_31
    ensures HwKRed(value) == KRed(value)
  {
    FitsSigned32(13 * (value % 256) - value / 256);
  }

  lemma HwNormalizeReduces(value: int)
    requires -3329 <= value < 2 * 3329
    ensures HwNormalize(value) == value % 3329
  {
    hide Signed32;
    var shifted := value + 3329;
    FitsSigned32(shifted);
    FitsSigned32(shifted - 3329);
    var once := if shifted < 3329 then shifted else shifted - 3329;
    FitsSigned32(once - 3329);
    if value < 0 {
      ModUniqueInt(value, 3329, -1, value + 3329);
    } else if value < 3329 {
      ModUniqueInt(value, 3329, 0, value);
    } else {
      ModUniqueInt(value, 3329, 1, value - 3329);
    }
  }

  /** Every 24-bit word is reduced and scaled by 169. */
  lemma HwKRed2NormScales(value: int)
    requires 0 <= value < TWO_24
    ensures HwKRed2Norm(value) == 169 * value % 3329
  {
    hide HwKRed, HwNormalize, KRed;
    KRedRanges(value);
    KRedRanges(KRed(value));
    HwKRedIsKRed(value);
    HwKRedIsKRed(KRed(value));
    HwNormalizeReduces(K2Red(value));
    KRed2NormScales(value);
    KemNormalizeReduces(K2Red(value));
  }

  /** A fold of any 48-bit word stays below 2^48. */
  lemma HwFoldIsFold(value: int)
    requires 0 <= value < TWO_48
    ensures HwFold(value) == DsaFold(value)
    ensures 0 <= DsaFold(value) <= 274852732928
  {
    var low, high := value % TWO_23, value / TWO_23;
    SmallMod(low + high * 8192 - high, TWO_48);
  }

  /** The final subtraction is canonical exactly below twice the modulus. */
  lemma HwFinalCanonical(value: int)
    requires 0 <= value < TWO_47
    ensures Canonical(HwFinal(value), Q_DSA) <==> value < 2 * Q_DSA
    ensures value < 2 * Q_DSA ==> HwFinal(value) == value % Q_DSA
  {
    if value < Q_DSA {
      ModUniqueInt(value - Q_DSA, TWO_48, -1, value - Q_DSA + TWO_48);
      ModUniqueInt(value, Q_DSA, 0, value);
    } else {
      ModUniqueInt(value - Q_DSA, TWO_48, 0, value - Q_DSA);
      if value < 2 * Q_DSA {
        ModUniqueInt(value, Q_DSA, 1, value - Q_DSA);
      }
    }
  }

  // ----- the three stages

  function StageB(kem: bool, product: int): int {
    if kem then HwKRed2Norm(product % TWO_24) % 4096 else HwFold(HwFold(product))
  }

  function StageC(kem: bool, data: int): int {
    if kem then HwKRed2Norm(data % 4096 * 1353 % TWO_24) % 4096
    else HwFinal(HwFold(HwFold(data))) % TWO_24
  }

  /** Both ML-KEM rounds reduce every 24-bit product modulo 3329. */
  lemma KemStages(product: int)
    requires 0 <= product < TWO_24
    ensures StageC(true, StageB(true, product)) == product % 3329
  {
    hide HwKRed2Norm;
    var x := 169 * product % 3329;
    SmallMod(product, TWO_24);
    HwKRed2NormScales(product);
    SmallMod(x, 4096);
    SmallMod(x * 1353, TWO_24);
    HwKRed2NormScales(x * 1353);
    SmallMod(169 * (x * 1353) % 3329, 4096);
    ReduceKemIsMod(product);
    KRed2NormScales(product);
    KRed2NormScales(x * 1353);
  }

  /** The bound chain from an unconstrained 48-bit word. */
  lemma WideFoldBounds(value: int)
    ensures 0 <= value <= 274852732928 ==> 0 <= DsaFold(value) <= 276755912
    ensures 0 <= value <= 276755912 ==> 0 <= DsaFold(value) <= 8642528
    ensures 0 <= value <= 8642528 ==> 0 <= DsaFold(value) <= 8388607
  {
  }

  /** The four folds and the subtraction reduce every 48-bit product modulo 8380417. */
  lemma DsaStages(product: int)
    requires 0 <= product < TWO_48
    ensures StageC(false, StageB(false, product)) == product % Q_DSA
  {
    hide HwFold, HwFinal, DsaFold;
    var f1 := DsaFold(product);
    var f2 := DsaFold(f1);
    var f3 := DsaFold(f2);
    var f4 := DsaFold(f3);
    HwFoldIsFold(product);
    WideFoldBounds(f1);
    HwFoldIsFold(f1);
    WideFoldBounds(f2);
    HwFoldIsFold(f2);
    WideFoldBounds(f3);
    HwFoldIsFold(f3);
    HwFinalCanonical(f4);
    DsaFoldIdentity(product);
    DsaFoldIdentity(f1);
    DsaFoldIdentity(f2);
    DsaFoldIdentity(f3);
    var k := product / TWO_23 + f1 / TWO_23 + f2 / TWO_23 + f3 / TWO_23;
    assert product == f4 + Q_DSA * k;
    SameRemainder(product, f4, k, Q_DSA);
    ModRange(f4, Q_DSA);
    SmallMod(f4 % Q_DSA, TWO_24);
  }

  /** Stage C alone, before its result is cut to 24 bits, is canonical exactly for the
      payloads whose two folds are below twice the modulus. */
  lemma StageCCanonicalExactly(data: int)
    requires 0 <= data < TWO_48
    ensures Canonical(HwFinal(HwFold(HwFold(data))), Q_DSA) <==> HwFold(HwFold(data)) < 2 * Q_DSA
  {
    hide HwFold, HwFinal, DsaFold;
    HwFoldIsFold(data);
    HwFoldIsFold(DsaFold(data));
    HwFinalCanonical(DsaFold(DsaFold(data)));
  }

  /** So not for every 48-bit payload. */
  lemma StageCNotAlwaysCanonical()
    ensures !Canonical(HwFinal(HwFold(HwFold(TWO_48 - 1))), Q_DSA)
  {
    hide HwFold, HwFinal, DsaFold;
    var d := TWO_48 - 1;
    StageCCanonicalExactly(d);
    HwFoldIsFold(d);
    DsaFoldAt(d, 33554431, 8388607);
    HwFoldIsFold(DsaFold(d));
    DsaFoldAt(DsaFold(d), 32764, 8380416);
  }

  // ----- registers and one clock edge

  /** A pipeline stage; data is the product in the first and the half-reduced value in
      the second. */
  datatype Stage = Stage(valid: bool, fault: bool, kem: bool, data: int)

  datatype Output = Output(valid: bool, fault: bool, product: int)

  datatype Regs = Regs(one: Stage, two: Stage, rsp: Output)

  datatype Request = Request(modulusId: nat, a: nat, b: nat)

  datatype Input = Input(rstN: bool, reqValid: bool, req: Request, rspReady: bool)

  const EMPTY_STAGE := Stage(false, false, false, 0)
  const RESET := Regs(EMPTY_STAGE, EMPTY_STAGE, Output(false, false, 0))

  function SelectedModulus(modulusId: nat): nat {
    if modulusId == 0 then 3329 else if modulusId == 1 then 8380417 else 0
  }

  predicate RequestOk(r: Request) {
    r.modulusId <= 1 && r.a < SelectedModulus(r.modulusId) && r.b < SelectedModulus(r.modulusId)
  }

  /** The operands are forced to zero on a bad request. */
  function StageA(r: Request): int {
    var a, b := if RequestOk(r) then r.a else 0, if RequestOk(r) then r.b else 0;
    a * b % TWO_48
  }

  predicate Advance(s: Regs, i: Input) {
    !s.rsp.valid || i.rspReady
  }

  /** One rising clock edge (rtl/lca_modmul_fast.sv:242-269). */
  function Step(s: Regs, i: Input): Regs {
    if !i.rstN then RESET
    else if Advance(s, i) then
      Regs(Stage(i.reqValid, !RequestOk(i.req), i.req.modulusId == 0, StageA(i.req)),
           Stage(s.one.valid, s.one.fault, s.one.kem, StageB(s.one.kem, s.one.data)),
           Output(s.two.valid, s.two.fault, if s.two.fault then 0 else StageC(s.two.kem, s.two.data)))
    else s
  }

  /** The module as stage registers updated in place. */
  class Pipeline {
    var stage1: Stage
    var stage2: Stage
    var rsp: Output

    ghost function State(): Regs
      reads this
    {
      Regs(stage1, stage2, rsp)
    }

    constructor ()
      ensures State() == RESET
    {
      stage1, stage2, rsp := EMPTY_STAGE, EMPTY_STAGE, Output(false, false, 0);
    }

    method Clock(i: Input)
      modifies this
      ensures State() == Step(old(State()), i)
    {
      hide StageA, StageB, StageC, RequestOk;
      var pipelineAdvance := !rsp.valid || i.rspReady;
      if !i.rstN {
        stage1, stage2, rsp := EMPTY_STAGE, EMPTY_STAGE, Output(false, false, 0);
      } else if pipelineAdvance {
        rsp := Output(stage2.valid, stage2.fault, if stage2.fault then 0 else StageC(stage2.kem, stage2.data));
        stage2 := Stage(stage1.valid, stage1.fault, stage1.kem, StageB(stage1.kem, stage1.data));
        stage1 := Stage(i.reqValid, !RequestOk(i.req), i.req.modulusId == 0, StageA(i.req));
      }
    }
  }

  // ----- runs

  predicate WordRequest(r: Request) {
    r.modulusId < 4 && r.a < TWO_24 && r.b < TWO_24
  }

  ghost predicate WordInputs(ins: seq<Input>) {
    forall t :: 0 <= t < |ins| ==> WordRequest(ins[t].req)
  }

  /** The registers before edge t of a run that starts out of reset. */
  function StateAt(ins: seq<Input>, t: nat): Regs
    requires t <= |ins|
  {
    if t == 0 then RESET else Step(StateAt(ins, t - 1), ins[t - 1])
  }

  predicate Accepts(s: Regs, i: Input) {
    i.rstN && i.reqValid && Advance(s, i)
  }

  predicate Responds(s: Regs, i: Input) {
    i.rstN && s.rsp.valid && i.rspReady
  }

  /** The requests accepted before edge t and since the last reset, in order. */
  function Accepted(ins: seq<Input>, t: nat): seq<Request>
    requires t <= |ins|
  {
    if t == 0 || !ins[t - 1].rstN then []
    else Accepted(ins, t - 1) + (if Accepts(StateAt(ins, t - 1), ins[t - 1]) then [ins[t - 1].req] else [])
  }

  datatype Response = Response(product: int, fault: bool)

  /** The responses taken before edge t and since the last reset, in order. */
  function Responses(ins: seq<Input>, t: nat): seq<Response>
    requires t <= |ins|
  {
    if t == 0 || !ins[t - 1].rstN then []
    else
      var s := StateAt(ins, t - 1);
      Responses(ins, t - 1) + (if Responds(s, ins[t - 1]) then [Response(s.rsp.product, s.rsp.fault)] else [])
  }

  /** The product modulo 3329 or 8380417 of operands below it, a fault on anything else. */
  function Answer(r: Request): Response {
    if r.modulusId == 0 && r.a < 3329 && r.b < 3329 then Response(r.a * r.b % 3329, false)
    else if r.modulusId == 1 && r.a < 8380417 && r.b < 8380417 then Response(r.a * r.b % 8380417, false)
    else Response(0, true)
  }

  /** It is what the integer model answers. */
  lemma AnswerIsExecute(r: Request)
    ensures Execute(r.modulusId, r.a, r.b) == Ok((Answer(r).product, Answer(r).fault))
  {
    ExecuteFaultsExactly(r.modulusId, r.a, r.b);
    hide Execute;
  }

  // ----- what the stages hold

  /** The requests in stage 1, stage 2 and the output register. */
  datatype Slots = Slots(one: Option<Request>, two: Option<Request>, out: Option<Request>)

  const NO_REQUESTS := Slots(None, None, None)

  function NextSlots(s: Regs, q: Slots, i: Input): Slots {
    if !i.rstN then NO_REQUESTS
    else if Advance(s, i) then Slots(if i.reqValid then Some(i.req) else None, q.one, q.two)
    else q
  }

  ghost predicate HoldsOne(s: Regs, r: Request) {
    WordRequest(r) && s.one.fault == !RequestOk(r) && s.one.kem == (r.modulusId == 0) && s.one.data == StageA(r)
  }

  ghost predicate HoldsTwo(s: Regs, r: Request) {
    && WordRequest(r) && s.two.fault == !RequestOk(r) && s.two.kem == (r.modulusId == 0)
    && s.two.data == StageB(r.modulusId == 0, StageA(r))
  }

  ghost predicate HoldsOut(s: Regs, r: Request) {
    Response(s.rsp.product, s.rsp.fault) == Answer(r)
  }

  ghost predicate Holds(s: Regs, q: Slots) {
    && (s.one.valid <==> q.one.Some?) && (q.one.Some? ==> HoldsOne(s, q.one.value))
    && (s.two.valid <==> q.two.Some?) && (q.two.Some? ==> HoldsTwo(s, q.two.value))
    && (s.rsp.valid <==> q.out.Some?) && (q.out.Some? ==> HoldsOut(s, q.out.value))
  }

  lemma CanonicalProductFits(a: int, b: int, q: int)
    requires Canonical(a, q) && Canonical(b, q) && 0 < q
    ensures q == Q_KEM ==> 0 <= a * b < TWO_24
    ensures q == Q_DSA ==> 0 <= a * b < TWO_48
  {
    CanonicalProduct(a, b, q);
  }

  /** A request that has gone through all stages is answered like the integer model. */
  lemma StagesAnswer(r: Request)
    requires WordRequest(r)
    ensures RequestOk(r) <==>
            || (r.modulusId == 0 && r.a < 3329 && r.b < 3329)
            || (r.modulusId == 1 && r.a < 8380417 && r.b < 8380417)
    ensures RequestOk(r) ==> Answer(r) == Response(StageC(r.modulusId == 0, StageB(r.modulusId == 0, StageA(r))), false)
    ensures !RequestOk(r) ==> Answer(r) == Response(0, true)
  {
    hide StageB, StageC;
    if RequestOk(r) {
      CanonicalProductFits(r.a, r.b, SelectedModulus(r.modulusId));
      SmallMod(r.a * r.b, TWO_48);
      if r.modulusId == 0 {
        KemStages(r.a * r.b);
      } else {
        DsaStages(r.a * r.b);
      }
    }
  }

  lemma StepHolds(s: Regs, q: Slots, i: Input)
    requires Holds(s, q) && WordRequest(i.req)
    ensures Holds(Step(s, i), NextSlots(s, q, i))
  {
    hide StageA, StageB, StageC, RequestOk, Answer;
    if i.rstN && Advance(s, i) && q.two.Some? {
      StagesAnswer(q.two.value);
    }
  }

  function SlotsAt(ins: seq<Input>, t: nat): Slots
    requires t <= |ins|
  {
    if t == 0 then NO_REQUESTS else NextSlots(StateAt(ins, t - 1), SlotsAt(ins, t - 1), ins[t - 1])
  }

  lemma {:induction false} RunHolds(ins: seq<Input>, t: nat)
    requires t <= |ins| && WordInputs(ins)
    ensures Holds(StateAt(ins, t), SlotsAt(ins, t))
    decreases t
  {
    hide Step, NextSlots;
    if t == 0 {
      NothingHeld();
    } else {
      RunHolds(ins, t - 1);
      hide Holds;
      StepHolds(StateAt(ins, t - 1), SlotsAt(ins, t - 1), ins[t - 1]);
    }
  }

  lemma NothingHeld()
    ensures Holds(RESET, NO_REQUESTS)
  {
  }

  // ----- responses in order

  function Held(slot: Option<Request>): seq<Request> {
    if slot.Some? then [slot.value] else []
  }

  /** The requests in flight, oldest first. */
  function InFlight(q: Slots): seq<Request> {
    Held(q.out) + Held(q.two) + Held(q.one)
  }

  /** The responses so far answer the oldest requests and the rest are in flight. */
  ghost predicate InOrder(accepted: seq<Request>, responses: seq<Response>, q: Slots) {
    && |accepted| == |responses| + |InFlight(q)|
    && accepted[|responses|..] == InFlight(q)
    && forall k :: 0 <= k < |responses| ==> responses[k] == Answer(accepted[k])
  }

  lemma InOrderStep(s: Regs, q: Slots, i: Input, accepted: seq<Request>, responses: seq<Response>)
    requires Holds(s, q) && InOrder(accepted, responses, q) && i.rstN
    ensures InOrder(accepted + (if Accepts(s, i) then [i.req] else []),
                    responses + (if Responds(s, i) then [Response(s.rsp.product, s.rsp.fault)] else []), NextSlots(s, q, i))
  {
    hide StageA, StageB, StageC, RequestOk, Answer, HoldsOne, HoldsTwo;
    if Advance(s, i) {
      var taken := Held(q.out);
      var rest := Held(q.two) + Held(q.one);
      var arrived := if i.reqValid then [i.req] else [];
      var q' := NextSlots(s, q, i);
      assert InFlight(q) == taken + rest;
      assert InFlight(q') == rest + arrived;
      Shift(accepted, responses, taken, rest, arrived,
            if Responds(s, i) then [Response(s.rsp.product, s.rsp.fault)] else []);
    } else {
      assert accepted + [] == accepted && responses + [] == responses;
    }
  }

  lemma Shift(accepted: seq<Request>, responses: seq<Response>, taken: seq<Request>, rest: seq<Request>,
              arrived: seq<Request>, answers: seq<Response>)
    requires |accepted| >= |responses| && accepted[|responses|..] == taken + rest
    requires |answers| == |taken| && forall k :: 0 <= k < |taken| ==> answers[k] == Answer(taken[k])
    requires forall k :: 0 <= k < |responses| ==> responses[k] == Answer(accepted[k])
    ensures var a, r := accepted + arrived, responses + answers;
            && |a| == |r| + |rest + arrived| && a[|r|..] == rest + arrived
            && forall k :: 0 <= k < |r| ==> r[k] == Answer(a[k])
  {
    hide Answer;
    var a, r, n := accepted + arrived, responses + answers, |responses|;
    assert accepted == accepted[..n] + (taken + rest);
    assert a == accepted[..n] + taken + (rest + arrived);
    forall k | 0 <= k < |r|
      ensures r[k] == Answer(a[k])
    {
      if k >= n {
        assert a[k] == taken[k - n];
      }
    }
  }

  /** Over every run, stalls and bubbles included, the k-th response since the last reset
      answers the k-th accepted request since then: a fault with zero exactly on an
      invalid request, otherwise a * b mod q. What is not answered yet is in flight, at
      most three requests. */
  lemma {:induction false} ResponsesInOrder(ins: seq<Input>, t: nat)
    requires t <= |ins| && WordInputs(ins)
    ensures InOrder(Accepted(ins, t), Responses(ins, t), SlotsAt(ins, t))
    ensures |Responses(ins, t)| <= |Accepted(ins, t)| <= |Responses(ins, t)| + 3
    decreases t
  {
    hide Step, NextSlots, Accepts, Responds, Holds, Answer;
    if t > 0 {
      var s, q, i := StateAt(ins, t - 1), SlotsAt(ins, t - 1), ins[t - 1];
      ResponsesInOrder(ins, t - 1);
      RunHolds(ins, t - 1);
      if i.rstN {
        hide InOrder;
        InOrderStep(s, q, i, Accepted(ins, t - 1), Responses(ins, t - 1));
        FewInFlight(Accepted(ins, t), Responses(ins, t), SlotsAt(ins, t));
      } else {
        NextAfterReset(s, q, i);
      }
    }
  }

  /** The responses, spelled out: the k-th has its fault flag clear exactly when the k-th
      request selects a modulus and both operands are below it, and then carries the
      product modulo it; otherwise it carries zero. */
  lemma ResponsesExactly(ins: seq<Input>, t: nat, k: nat)
    requires t <= |ins| && WordInputs(ins) && k < |Responses(ins, t)|
    ensures k < |Accepted(ins, t)|
    ensures var r, answer := Accepted(ins, t)[k], Responses(ins, t)[k];
            !answer.fault <==>
            || (r.modulusId == 0 && r.a < 3329 && r.b < 3329)
            || (r.modulusId == 1 && r.a < 8380417 && r.b < 8380417)
    ensures var r, answer := Accepted(ins, t)[k], Responses(ins, t)[k];
            answer.product == if answer.fault then 0 else if r.modulusId == 0 then r.a * r.b % 3329 else r.a * r.b % 8380417
  {
    ResponsesInOrder(ins, t);
    hide Accepted, Responses, SlotsAt, InFlight;
  }

  lemma FewInFlight(accepted: seq<Request>, responses: seq<Response>, q: Slots)
    requires InOrder(accepted, responses, q)
    ensures |responses| <= |accepted| <= |responses| + 3
  {
    hide Answer;
  }

  lemma NextAfterReset(s: Regs, q: Slots, i: Input)
    requires !i.rstN
    ensures NextSlots(s, q, i) == NO_REQUESTS
  {
  }

  // ----- latency

  /** The number of edges from lo to hi at which the pipeline advances. */
  function Advances(ins: seq<Input>, lo: nat, hi: nat): nat
    requires lo <= hi <= |ins|
    decreases hi
  {
    if hi == lo then 0
    else Advances(ins, lo, hi - 1) + (if Advance(StateAt(ins, hi - 1), ins[hi - 1]) then 1 else 0)
  }

  ghost predicate NoReset(ins: seq<Input>, lo: nat, hi: nat)
    requires hi <= |ins|
  {
    forall u :: lo <= u < hi ==> ins[u].rstN
  }

  /** The slot a request accepted just before edge t + 1 sits in by edge u. */
  lemma {:induction false} SlotAfter(ins: seq<Input>, t: nat, u: nat)
    requires t < u <= |ins| && Accepts(StateAt(ins, t), ins[t]) && NoReset(ins, t, u)
    ensures Advances(ins, t + 1, u) == 0 ==> SlotsAt(ins, u).one == Some(ins[t].req)
    ensures Advances(ins, t + 1, u) == 1 ==> SlotsAt(ins, u).two == Some(ins[t].req)
    ensures Advances(ins, t + 1, u) == 2 ==> SlotsAt(ins, u).out == Some(ins[t].req)
    decreases u
  {
    hide Step, Advance;
    if u > t + 1 {
      SlotAfter(ins, t, u - 1);
    }
  }

  /** A request accepted at edge t is answered in the output register exactly when the
      pipeline has advanced twice since, and the answer stays there while it stalls. */
  lemma AnsweredAfterTwo(ins: seq<Input>, t: nat, u: nat)
    requires t < u <= |ins| && WordInputs(ins) && Accepts(StateAt(ins, t), ins[t]) && NoReset(ins, t, u)
    requires Advances(ins, t + 1, u) == 2
    ensures var s := StateAt(ins, u);
            s.rsp.valid && Response(s.rsp.product, s.rsp.fault) == Answer(ins[t].req)
  {
    SlotAfter(ins, t, u);
    RunHolds(ins, u);
    hide Answer, StateAt, SlotsAt, HoldsOne, HoldsTwo;
  }

  /** Without back-pressure the latency is fixed: a request offered at edge t, with no
      response left waiting at the edges t to t + 2, is answered before edge t + 3. */
  lemma AnsweredInThree(ins: seq<Input>, t: nat)
    requires t + 3 <= |ins| && WordInputs(ins) && ins[t].reqValid && NoReset(ins, t, t + 3)
    requires forall u :: t <= u < t + 3 ==> !StateAt(ins, u).rsp.valid || ins[u].rspReady
    ensures var s := StateAt(ins, t + 3);
            s.rsp.valid && Response(s.rsp.product, s.rsp.fault) == Answer(ins[t].req)
  {
    hide StateAt, Answer;
    assert Advances(ins, t + 1, t + 1) == 0;
    assert Advances(ins, t + 1, t + 2) == 1;
    AnsweredAfterTwo(ins, t, t + 3);
  }

  /** Back-pressure freezes every register. */
  lemma StallFreezes(s: Regs, i: Input)
    requires i.rstN && s.rsp.valid && !i.rspReady
    ensures Step(s, i) == s && !Accepts(s, i)
  {
  }

  /** A faulting output register always holds zero, bubbles included. */
  lemma {:induction false} FaultIsZero(ins: seq<Input>, t: nat)
    requires t <= |ins|
    ensures StateAt(ins, t).rsp.fault ==> StateAt(ins, t).rsp.product == 0
    decreases t
  {
    hide StageA, StageB, StageC, RequestOk;
    if t > 0 {
      FaultIsZero(ins, t - 1);
    }
  }
}
