/** The clocked modular multiplier rtl/lca_modmul.sv: its registers, what one clock
    edge does to them, and what holds over every run. */
module LcaModmul {
  import opened Numbers
  import opened ShiftAdd

  datatype Regs = Regs(
    busy: bool,
    count: nat,
    product: nat,
    multiplicand: nat,
    multiplier: nat,
    modulus: nat,
    rspValid: bool,
    rspProduct: nat
  )

  datatype Input = Input(rstN: bool, reqValid: bool, reqA: nat, reqB: nat, reqModulus: nat, rspReady: bool)

  /** $clog2. */
  function Clog2(n: nat): (k: nat)
    requires n > 0
    ensures n <= Pow2(k)
  {
    if n == 1 then 0 else 1 + Clog2((n + 1) / 2)
  }

  /** add_mod on W-bit words with a W+1-bit sum (rtl/lca_modmul.sv:32-45). */
  function AddMod(W: nat, x: nat, y: nat, q: nat): (r: nat)
    ensures r < Pow2(W)
  {
    var sum := x + y;
    if sum >= q then
      ModRange(sum - q, Pow2(W));
      (sum - q) % Pow2(W)
    else
      ModRange(sum, Pow2(W));
      sum % Pow2(W)
  }

  predicate ReqReady(s: Regs) {
    !s.busy && !s.rspValid
  }

  const RESET := Regs(false, 0, 0, 0, 0, 0, false, 0)

  function ProductNext(W: nat, s: Regs): nat {
    if s.multiplier % 2 == 1 then AddMod(W, s.product, s.multiplicand, s.modulus) else s.product
  }

  /** One rising clock edge (rtl/lca_modmul.sv:56-90). */
  function Step(W: nat, s: Regs, i: Input): Regs
    requires 2 <= W
  {
    if !i.rstN then RESET
    else
      var rspValid := if s.rspValid && i.rspReady then false else s.rspValid;
      if i.reqValid && ReqReady(s) then
        Regs(true, 0, 0, i.reqA, i.reqB, i.reqModulus, rspValid, s.rspProduct)
      else if s.busy then
        var product := ProductNext(W, s);
        var last := s.count == W - 1;
        Regs(!last, if last then s.count else (s.count + 1) % Pow2(Clog2(W)), product,
             AddMod(W, s.multiplicand, s.multiplicand, s.modulus), s.multiplier / 2, s.modulus,
             last || rspValid, if last then product else s.rspProduct)
      else s.(rspValid := rspValid)
  }

  /** The module as registers updated in place, all from their values before the edge. */
  class Multiplier {
    const W: nat
    var busy: bool
    var count: nat
    var product: nat
    var multiplicand: nat
    var multiplier: nat
    var modulus: nat
    var rspValid: bool
    var rspProduct: nat

    ghost function State(): Regs
      reads this
    {
      Regs(busy, count, product, multiplicand, multiplier, modulus, rspValid, rspProduct)
    }

    constructor (wordBits: nat)
      requires 2 <= wordBits
      ensures W == wordBits && State() == RESET
    {
      W := wordBits;
      busy, count, product, multiplicand := false, 0, 0, 0;
      multiplier, modulus, rspValid, rspProduct := 0, 0, false, 0;
    }

    method Clock(i: Input)
      requires 2 <= W
      modifies this
      ensures State() == Step(W, old(State()), i)
    {
      var productNext := product;
      if multiplier % 2 == 1 {
        productNext := AddMod(W, product, multiplicand, modulus);
      }
      var multiplicandNext := AddMod(W, multiplicand, multiplicand, modulus);
      var reqReady := !busy && !rspValid;
      if !i.rstN {
        busy, count, product, multiplicand := false, 0, 0, 0;
        multiplier, modulus, rspValid, rspProduct := 0, 0, false, 0;
      } else {
        if rspValid && i.rspReady {
          rspValid := false;
        }
        if i.reqValid && reqReady {
          busy, count, product := true, 0, 0;
          multiplicand, multiplier, modulus := i.reqA, i.reqB, i.reqModulus;
        } else if busy {
          product, multiplicand, multiplier := productNext, multiplicandNext, multiplier / 2;
          if count == W - 1 {
            busy, rspValid, rspProduct := false, true, productNext;
          } else {
            ModRange(count + 1, Pow2(Clog2(W)));
            count := (count + 1) % Pow2(Clog2(W));
          }
        }
      }
    }
  }

  // ----- runs and their events

  datatype Event = Accepted(a: nat, b: nat, q: nat) | Responded(p: nat) | Cancelled

  /** What happens at an edge, seen from outside. A reset that finds work pending
      cancels it. */
  function EventsAt(s: Regs, i: Input): seq<Event> {
    if !i.rstN then (if s.busy || s.rspValid then [Cancelled] else [])
    else if s.rspValid && i.rspReady then [Responded(s.rspProduct)]
    else if i.reqValid && ReqReady(s) then [Accepted(i.reqA, i.reqB, i.reqModulus)]
    else []
  }

  ghost predicate WordInputs(W: nat, ins: seq<Input>) {
    forall t :: 0 <= t < |ins| ==> ins[t].reqA < Pow2(W) && ins[t].reqB < Pow2(W) && ins[t].reqModulus < Pow2(W)
  }

  /** The registers before edge t of a run that starts out of reset. */
  function StateAt(W: nat, ins: seq<Input>, t: nat): Regs
    requires 2 <= W && t <= |ins|
  {
    if t == 0 then RESET else Step(W, StateAt(W, ins, t - 1), ins[t - 1])
  }

  /** The events of the first t edges. */
  function Log(W: nat, ins: seq<Input>, t: nat): seq<Event>
    requires 2 <= W && t <= |ins|
  {
    if t == 0 then [] else Log(W, ins, t - 1) + EventsAt(StateAt(W, ins, t - 1), ins[t - 1])
  }

  /** A request the hardware promises to answer correctly. */
  predicate Proper(e: Event) {
    e.Accepted? && 1 <= e.q && e.a < e.q
  }

  /** Requests and their outcomes alternate, and the outcome of a proper request, if
      it is not a cancellation, is the product modulo q. */
  ghost predicate Matched(log: seq<Event>) {
    forall j {:trigger log[j]} :: 0 <= j < |log| ==>
      if log[j].Accepted? then j == 0 || !log[j - 1].Accepted?
      else
        && j > 0 && log[j - 1].Accepted?
        && (log[j].Responded? && Proper(log[j - 1]) ==> log[j].p == log[j - 1].a * log[j - 1].b % log[j - 1].q)
  }

  ghost predicate Open(log: seq<Event>) {
    log != [] && log[|log| - 1].Accepted?
  }

  /** What the registers say about the request e being worked on. */
  ghost predicate Working(W: nat, s: Regs, e: Event)
    requires e.Accepted?
  {
    && s.count < W && s.modulus == e.q && s.multiplier < Pow2(W - s.count)
    && (Proper(e) ==>
          && s.product < e.q && s.multiplicand < e.q
          && Outstanding(e.q, s.product, s.multiplicand, s.multiplier, e.a * e.b % e.q))
  }

  /** The invariant of every reachable state. */
  ghost predicate Inv(W: nat, s: Regs, log: seq<Event>) {
    && Matched(log)
    && !(s.busy && s.rspValid)
    && (s.busy || s.rspValid <==> Open(log))
    && (s.busy ==> Working(W, s, log[|log| - 1]))
    && (s.rspValid && Proper(log[|log| - 1]) ==>
          s.rspProduct == log[|log| - 1].a * log[|log| - 1].b % log[|log| - 1].q)
  }

  // ----- one edge

  /** On canonical operands the truncated hardware adder adds modulo q. */
  lemma AddModIsReduction(W: nat, x: nat, y: nat, q: nat)
    requires x < q && y < q && q < Pow2(W)
    ensures AddMod(W, x, y, q) == AddOnce(x, y, q)
  {
    if x + y >= q {
      SmallMod(x + y - q, Pow2(W));
    } else {
      SmallMod(x + y, Pow2(W));
    }
  }

  /** On any words, canonical or not, the adder takes the modulus off at most once and keeps
      W bits. */
  lemma AddModOnWords(W: nat, x: nat, y: nat, q: nat)
    ensures var r := AddMod(W, x, y, q);
            && 0 <= r < Pow2(W)
            && (x + y < q ==> r == (x + y) % Pow2(W))
            && (x + y >= q ==> (r + q) % Pow2(W) == (x + y) % Pow2(W))
  {
    if x + y >= q {
      var d := x + y - q;
      QuotientRemainder(d, Pow2(W));
      SameRemainder(x + y, d % Pow2(W) + q, d / Pow2(W), Pow2(W));
    }
  }

  lemma CounterDoesNotWrap(W: nat, count: nat)
    requires 0 < W && count < W - 1
    ensures (count + 1) % Pow2(Clog2(W)) == count + 1
  {
    SmallMod(count + 1, Pow2(Clog2(W)));
  }

  /** A busy edge keeps the product invariant. */
  lemma WorkingStep(W: nat, s: Regs, e: Event)
    requires 2 <= W && s.busy && e.Accepted? && e.q < Pow2(W) && Working(W, s, e)
    ensures s.multiplier / 2 < Pow2(W - s.count - 1)
    ensures Proper(e) ==>
              var p, m := ProductNext(W, s), AddMod(W, s.multiplicand, s.multiplicand, s.modulus);
              p < e.q && m < e.q && Outstanding(e.q, p, m, s.multiplier / 2, e.a * e.b % e.q)
  {
    Pow2Step(W - s.count - 1);
    hide Pow2, AddMod, Outstanding;
    if Proper(e) {
      var q := e.q;
      AddModIsReduction(W, s.product, s.multiplicand, q);
      AddModIsReduction(W, s.multiplicand, s.multiplicand, q);
      OutstandingStep(q, s.product, s.multiplicand, s.multiplier, e.a * e.b % q);
    }
  }

  lemma MatchedGrows(log: seq<Event>, e: Event)
    requires Matched(log)
    requires if e.Accepted? then !Open(log)
             else Open(log) && (e.Responded? && Proper(log[|log| - 1]) ==>
                                  e.p == log[|log| - 1].a * log[|log| - 1].b % log[|log| - 1].q)
    ensures Matched(log + [e])
  {
    var l := log + [e];
    forall j {:trigger l[j]} | 0 <= j < |l|
      ensures if l[j].Accepted? then j == 0 || !l[j - 1].Accepted?
              else
                && j > 0 && l[j - 1].Accepted?
                && (l[j].Responded? && Proper(l[j - 1]) ==> l[j].p == l[j - 1].a * l[j - 1].b % l[j - 1].q)
    {
      if j < |log| {
        assert l[j] == log[j];
      }
    }
  }

  lemma AcceptedIsWorking(W: nat, i: Input, s: Regs)
    requires 2 <= W && i.reqA < Pow2(W) && i.reqB < Pow2(W) && i.reqModulus < Pow2(W)
    requires i.rstN && i.reqValid && ReqReady(s)
    ensures Working(W, Step(W, s, i), Accepted(i.reqA, i.reqB, i.reqModulus))
  {
    hide Pow2;
  }

  /** The last of the W steps leaves no multiplier bits, so the product is complete. */
  lemma LastStep(W: nat, s: Regs, e: Event)
    requires 2 <= W && s.busy && e.Accepted? && e.q < Pow2(W) && Working(W, s, e) && s.count == W - 1
    ensures Proper(e) ==> ProductNext(W, s) == e.a * e.b % e.q
  {
    WorkingStep(W, s, e);
    Pow2Zero();
    hide Pow2, AddMod, Outstanding, Working;
    if Proper(e) {
      var m := AddMod(W, s.multiplicand, s.multiplicand, s.modulus);
      OutstandingAtEnd(e.q, ProductNext(W, s), m, s.multiplier / 2, e.a * e.b % e.q);
    }
  }

  lemma StepKeepsInv(W: nat, s: Regs, i: Input, log: seq<Event>)
    requires 2 <= W && Inv(W, s, log)
    requires Open(log) ==> log[|log| - 1].q < Pow2(W)
    requires i.reqA < Pow2(W) && i.reqB < Pow2(W) && i.reqModulus < Pow2(W)
    ensures Inv(W, Step(W, s, i), log + EventsAt(s, i))
  {
    hide Pow2, Clog2, AddMod, Working, Matched, ProductNext;
    var events := EventsAt(s, i);
    assert log + [] == log;
    if !i.rstN {
      if s.busy || s.rspValid {
        MatchedGrows(log, Cancelled);
      }
    } else if s.rspValid {
      if i.rspReady {
        MatchedGrows(log, Responded(s.rspProduct));
      }
    } else if s.busy {
      var e := log[|log| - 1];
      if s.count == W - 1 {
        LastStep(W, s, e);
      } else {
        BusyStepWorks(W, s, i, e);
      }
    } else if i.reqValid {
      MatchedGrows(log, Accepted(i.reqA, i.reqB, i.reqModulus));
      AcceptedIsWorking(W, i, s);
    }
  }

  lemma BusyStepWorks(W: nat, s: Regs, i: Input, e: Event)
    requires 2 <= W && s.busy && !s.rspValid && i.rstN && e.Accepted? && e.q < Pow2(W)
    requires Working(W, s, e) && s.count != W - 1
    ensures Working(W, Step(W, s, i), e)
    ensures Step(W, s, i).count == s.count + 1
  {
    hide Pow2, Clog2, AddMod, ProductNext, Outstanding;
    WorkingStep(W, s, e);
    CounterDoesNotWrap(W, s.count);
  }

  // ----- whole runs

  ghost predicate WordEvents(W: nat, log: seq<Event>) {
    forall j :: 0 <= j < |log| ==> log[j].Accepted? ==> log[j].q < Pow2(W)
  }

  lemma {:induction false} RunKeepsInv(W: nat, ins: seq<Input>, t: nat)
    requires 2 <= W && t <= |ins| && WordInputs(W, ins)
    ensures Inv(W, StateAt(W, ins, t), Log(W, ins, t))
    ensures WordEvents(W, Log(W, ins, t))
    decreases t
  {
    hide Pow2, Step, Inv, EventsAt, WordEvents;
    if t == 0 {
      NothingLogged(W);
    } else {
      RunKeepsInv(W, ins, t - 1);
      var s, log := StateAt(W, ins, t - 1), Log(W, ins, t - 1);
      WordEventsGrow(W, s, ins[t - 1], log);
      StepKeepsInv(W, s, ins[t - 1], log);
    }
  }

  lemma NothingLogged(W: nat)
    ensures Inv(W, RESET, []) && WordEvents(W, [])
  {
  }

  lemma WordEventsGrow(W: nat, s: Regs, i: Input, log: seq<Event>)
    requires WordEvents(W, log) && i.reqModulus < Pow2(W)
    ensures WordEvents(W, log + EventsAt(s, i))
    ensures Open(log) ==> log[|log| - 1].q < Pow2(W)
  {
    hide Pow2;
  }

  /** In every run requests and responses match one for one and in order, apart from
      those a reset cancels; every response to a proper request is the product; and
      the machine is never busy and answering at once. */
  lemma ResponsesMatchRequests(W: nat, ins: seq<Input>, t: nat)
    requires 2 <= W && t <= |ins| && WordInputs(W, ins)
    ensures Matched(Log(W, ins, t))
    ensures !(StateAt(W, ins, t).busy && StateAt(W, ins, t).rspValid)
    ensures ReqReady(StateAt(W, ins, t)) <==> !Open(Log(W, ins, t))
    ensures StateAt(W, ins, t).busy ==> StateAt(W, ins, t).count < W
  {
    hide Matched;
    RunKeepsInv(W, ins, t);
  }

  predicate AcceptsAt(W: nat, ins: seq<Input>, t: nat)
    requires 2 <= W && t < |ins|
  {
    ins[t].rstN && ins[t].reqValid && ReqReady(StateAt(W, ins, t))
  }

  ghost predicate NoReset(ins: seq<Input>, from: nat, to: nat)
    requires to <= |ins|
  {
    forall u :: from <= u < to ==> ins[u].rstN
  }

  /** While a request is being worked on, whatever the other inputs do. */
  lemma {:induction false} BusyCount(W: nat, ins: seq<Input>, t: nat, m: nat)
    requires 2 <= W && 1 <= m <= W && t + m <= |ins| && WordInputs(W, ins)
    requires AcceptsAt(W, ins, t) && NoReset(ins, t + 1, t + m)
    ensures var s := StateAt(W, ins, t + m);
            s.busy && !s.rspValid && s.count == m - 1 &&
            Working(W, s, Accepted(ins[t].reqA, ins[t].reqB, ins[t].reqModulus))
    decreases m
  {
    hide Pow2, Working;
    if m == 1 {
      AcceptedIsWorking(W, ins[t], StateAt(W, ins, t));
    } else {
      hide Clog2;
      BusyCount(W, ins, t, m - 1);
      var s := StateAt(W, ins, t + m - 1);
      BusyStepWorks(W, s, ins[t + m - 1], Accepted(ins[t].reqA, ins[t].reqB, ins[t].reqModulus));
    }
  }

  /** The edge that completes the count raises the response. */
  lemma LastEdge(W: nat, s: Regs, i: Input, e: Event)
    requires 2 <= W && s.busy && i.rstN && e.Accepted? && e.q < Pow2(W) && Working(W, s, e) && s.count == W - 1
    ensures Step(W, s, i).rspValid && !Step(W, s, i).busy
    ensures Proper(e) ==> Step(W, s, i).rspProduct == e.a * e.b % e.q
  {
    LastStep(W, s, e);
    hide Pow2, Working, Clog2, AddMod, ProductNext;
  }

  /** A request accepted at edge t and not reset is answered by exactly the W-th edge
      after it: not earlier, and with a * b mod q. */
  lemma AnsweredAfterW(W: nat, ins: seq<Input>, t: nat)
    requires 2 <= W && t + W < |ins| && WordInputs(W, ins)
    requires AcceptsAt(W, ins, t) && NoReset(ins, t + 1, t + W + 1)
    ensures forall u :: t < u <= t + W ==> StateAt(W, ins, u).busy && !StateAt(W, ins, u).rspValid
    ensures StateAt(W, ins, t + W + 1).rspValid && !StateAt(W, ins, t + W + 1).busy
    ensures 1 <= ins[t].reqModulus && ins[t].reqA < ins[t].reqModulus ==>
              StateAt(W, ins, t + W + 1).rspProduct == ins[t].reqA * ins[t].reqB % ins[t].reqModulus
  {
    hide Pow2, Working, Step;
    forall u | t < u <= t + W
      ensures StateAt(W, ins, u).busy && !StateAt(W, ins, u).rspValid
    {
      BusyCount(W, ins, t, u - t);
    }
    BusyCount(W, ins, t, W);
    LastEdge(W, StateAt(W, ins, t + W), ins[t + W], Accepted(ins[t].reqA, ins[t].reqB, ins[t].reqModulus));
  }

  /** A response that is not taken stays, with the same data, until a reset. */
  lemma {:induction false} ResponseHolds(W: nat, ins: seq<Input>, t: nat, u: nat)
    requires 2 <= W && t <= u <= |ins| && WordInputs(W, ins)
    requires StateAt(W, ins, t).rspValid
    requires forall v :: t <= v < u ==> ins[v].rstN && !ins[v].rspReady
    ensures StateAt(W, ins, u).rspValid && StateAt(W, ins, u).rspProduct == StateAt(W, ins, t).rspProduct
    decreases u
  {
    hide Step;
    if u > t {
      ResponseHolds(W, ins, t, u - 1);
      ResponsesMatchRequests(W, ins, u - 1);
      EdgeHolds(W, StateAt(W, ins, u - 1), ins[u - 1]);
    }
  }

  lemma EdgeHolds(W: nat, s: Regs, i: Input)
    requires 2 <= W && s.rspValid && !s.busy && i.rstN && !i.rspReady
    ensures Step(W, s, i).rspValid && Step(W, s, i).rspProduct == s.rspProduct
  {
    hide Pow2, Clog2, AddMod;
  }
}
