/** Runs of the transform engine: from an accepted command to done, what each of the four
    commands leaves in memory, and a scrub. */
module AccelRuns {
  import opened Numbers
  import opened Field
  import opened Twiddles
  import opened KemTwiddles
  import opened NttLayers
  import opened NttInverse
  import opened Butterflies
  import opened AccelLayers
  import opened DsaField
  import opened DsaLayers
  import opened NttAccel

  /** The registers after the edges ins. */
  function Run(s: Regs, ins: seq<Input>): Regs
    decreases |ins|
  {
    if ins == [] then s else Run(Step(s, ins[0]), ins[1..])
  }

  /** Busy exactly outside the idle phase, and done only inside it. */
  ghost predicate BusyMatchesPhase(c: Control) {
    (c.busy <==> c.phase != Idle) && (c.done ==> c.phase == Idle)
  }

  /** Kept by every edge; so a host write never meets a butterfly, a scaling or a scrub. */
  lemma StepKeepsBusy(s: Regs, i: Input)
    requires BusyMatchesPhase(s.c)
    ensures BusyMatchesPhase(Step(s, i).c)
    ensures s.c.phase != Idle ==> HostStep(s, i) == s
  {
    hide Parity, ButterflyOutputs, Merged, ScaledWord, Twiddle, WriteBank0, WriteBank1, Read;
  }

  lemma {:induction false} RunKeepsBusy(s: Regs, ins: seq<Input>)
    requires BusyMatchesPhase(s.c)
    ensures BusyMatchesPhase(Run(s, ins).c)
    decreases |ins|
  {
    hide Step;
    if ins != [] {
      StepKeepsBusy(s, ins[0]);
      RunKeepsBusy(Step(s, ins[0]), ins[1..]);
    }
  }

  /** Neither reset nor scrub interferes; the host may do anything else. */
  ghost predicate Quiet(ins: seq<Input>) {
    forall n :: 0 <= n < |ins| ==> ins[n].rstN && !ins[n].zeroize
  }

  // ----- a layer in progress

  /** The pair of index i was processed before the one at offset o of block k. */
  predicate Processed(l: nat, k: nat, o: nat, i: nat)
    requires l <= 7
  {
    || BlockOf(l, i) < k
    || (BlockOf(l, i) == k && (if Offset(l, i) < Len(l) then Offset(l, i) else Offset(l, i) - Len(l)) < o)
  }

  /** Memory halfway through layer l. */
  function Partial(command: nat, g: seq<int>, l: nat, k: nat, o: nat): (m: seq<int>)
    requires |g| == 256 && l <= 7
    ensures |m| == 256
  {
    seq(256, i requires 0 <= i < 256 => if Processed(l, k, o, i) then Layer(command, g, l)[i] else g[i])
  }

  lemma NothingProcessed(command: nat, g: seq<int>, l: nat)
    requires |g| == 256 && l <= 7
    ensures Partial(command, g, l, 0, 0) == g
  {
    hide BlockOf, Offset, Len, Layer;
  }

  lemma BlockProcessed(command: nat, g: seq<int>, l: nat, k: nat)
    requires |g| == 256 && l <= 7
    ensures Partial(command, g, l, k, Len(l)) == Partial(command, g, l, k + 1, 0)
  {
    hide BlockOf, Offset, Len, Layer, Pow2;
    forall i | 0 <= i < 256
      ensures Processed(l, k, Len(l), i) <==> Processed(l, k + 1, 0, i)
    {
      Block(l, i);
    }
  }

  lemma LayerProcessed(command: nat, g: seq<int>, l: nat)
    requires |g| == 256 && l <= 7
    ensures Partial(command, g, l, Pow2(l), 0) == Layer(command, g, l)
  {
    hide BlockOf, Offset, Len, Layer, Pow2;
    forall i | 0 <= i < 256
      ensures Processed(l, Pow2(l), 0, i)
    {
      Block(l, i);
    }
  }

  /** 2^l blocks of twice the length fill the memory. */
  lemma BlockSpan(l: nat)
    requires l <= 7
    ensures Pow2(8 - l) == 2 * Len(l) && Pow2(8 - l) * Pow2(l) == 256 && 0 < Len(l) <= 128 && 0 < Pow2(l)
  {
    Pow2Step(7 - l);
    Pow2Adds(8 - l, l);
    Pow2Values();
    Pow2Small();
    Pow2Grows(7 - l, 7);
  }

  /** The pair at offset o of block k. */
  lemma PairAt(l: nat, k: nat, o: nat, j: nat)
    requires l <= 7 && k < Pow2(l) && o < Len(l) && j == 2 * Len(l) * k + o
    ensures j + Len(l) < 256 && Pair(l, j, j + Len(l), k)
    ensures Offset(l, j) == o && Offset(l, j + Len(l)) == o + Len(l)
  {
    hide Pow2, BlockOf, Offset, Len;
    BlockSpan(l);
    BlockRoom(Pow2(8 - l), Pow2(l), k);
    Placed(l, j, k, o);
    Placed(l, j + Len(l), k, o + Len(l));
  }

  lemma BlockRoom(n: int, blocks: int, k: int)
    requires 0 < n && n * blocks == 256 && 0 <= k < blocks
    ensures 0 <= n * k && n * k + n <= 256
  {
    ProductNonNegative(n, k);
    ProductNonNegative(n, blocks - (k + 1));
    assert n * (blocks - (k + 1)) == n * blocks - n * k - n;
  }

  /** Writing both outputs of the pair moves the boundary by one. */
  lemma PairProcessed(command: nat, g: seq<int>, l: nat, k: nat, o: nat, j: nat)
    requires |g| == 256 && l <= 7 && k < Pow2(l) && o < Len(l) && j == 2 * Len(l) * k + o
    ensures j + Len(l) < 256
    ensures var m, p := Partial(command, g, l, k, o), j + Len(l);
            var out := ButterflyOutputs(command, LayerZeta(command, l, k), m[j], m[p]);
            Partial(command, g, l, k, o + 1) == m[j := out.0][p := out.1]
  {
    hide Layer, ButterflyOutputs, LayerZeta, Len, BlockOf, Offset, Pow2;
    PairAt(l, k, o, j);
    var p := j + Len(l);
    LayerPair(command, g, l, j, p, k);
    var m := Partial(command, g, l, k, o);
    assert m[j] == g[j] && m[p] == g[p];
    forall i | 0 <= i < 256 && i != j && i != p
      ensures Processed(l, k, o + 1, i) <==> Processed(l, k, o, i)
    {
      Elsewhere(l, k, o, j, i);
    }
  }

  /** No other index sits at offset o of block k. */
  lemma Elsewhere(l: nat, k: nat, o: nat, j: nat, i: nat)
    requires l <= 7 && k < Pow2(l) && o < Len(l) && j == 2 * Len(l) * k + o
    requires i < 256 && i != j && i != j + Len(l)
    ensures Processed(l, k, o + 1, i) <==> Processed(l, k, o, i)
  {
    hide Pow2, BlockOf, Offset, Len;
    Block(l, i);
    if BlockOf(l, i) == k {
      assert i == 2 * Len(l) * k + Offset(l, i);
    }
  }

  // ----- the schedule

  /** The registers stand before the butterfly at offset o of block k of layer l. */
  ghost predicate Positioned(command: nat, c: Control, l: nat, k: nat, o: nat)
    requires l <= 7 && k < Pow2(l)
  {
    && command < 4 && l < LayerCount(command)
    && c.phase == Butterfly && c.command == command && c.busy && !c.done
    && c.len == Len(l) && c.start == 2 * Len(l) * k && c.j == c.start + o
    && c.k == TwiddleIndex(Inverts(command), l, k) && c.zeta == LayerZeta(command, l, k)
  }

  /** And the memory is that of the transform of m, halfway through its stage. */
  ghost predicate InStage(command: nat, m: seq<int>, s: Regs, stage: nat, k: nat, o: nat) {
    && |m| == 256 && stage < LayerCount(command)
    && var l := LayerOf(command, stage);
       && k < Pow2(l) && o < Len(l)
       && Positioned(command, s.c, l, k, o)
       && Memory(s.bank0, s.bank1) == Partial(command, Stages(command, m, stage), l, k, o)
  }

  /** The number of butterflies before this one. */
  function Position(command: nat, stage: nat, k: nat, o: nat): nat
    requires stage < LayerCount(command)
  {
    128 * stage + k * Len(LayerOf(command, stage)) + o
  }

  /** The butterflies are over. */
  ghost predicate Transformed(command: nat, m: seq<int>, s: Regs) {
    && |m| == 256 && Memory(s.bank0, s.bank1) == Stages(command, m, LayerCount(command))
    && if Inverts(command) then s.c.phase == Scale && s.c.command == command && s.c.scaleIndex == 0 && s.c.busy && !s.c.done
       else s.c.phase == Idle && !s.c.busy && s.c.done
  }

  /** A quiet edge in the butterfly phase is a butterfly, whatever the host does. */
  lemma QuietButterfly(s: Regs, i: Input)
    requires s.c.phase == Butterfly && s.c.busy && i.rstN && !i.zeroize
    ensures Step(s, i) == ButterflyStep(s.(c := s.c.(zeroizeSeen := false)))
  {
    hide ButterflyStep, Merged;
  }

  /** What a butterfly edge does to the logical memory. */
  lemma ButterflyWrites(s: Regs, j: nat, p: nat)
    requires s.c.j == j < p == j + s.c.len < 256 && Parity(j) != Parity(p)
    ensures var m, s' := Memory(s.bank0, s.bank1), ButterflyStep(s);
            var out := ButterflyOutputs(s.c.command, s.c.zeta, m[j], m[p]);
            Memory(s'.bank0, s'.bank1) == m[j := out.0][p := out.1] && s'.c == NextPosition(s.c)
  {
    hide Parity, NextPosition, ButterflyOutputs, Read, Memory;
    ReadIsMemory(s.bank0, s.bank1, j);
    ReadIsMemory(s.bank0, s.bank1, p);
    ButterflyStepIs(s, j, p);
    hide ButterflyStep;
    var m := Memory(s.bank0, s.bank1);
    var out := ButterflyOutputs(s.c.command, s.c.zeta, m[j], m[p]);
    ButterflyIsUpdate(s.bank0, s.bank1, j, p, out.0, out.1);
  }

  lemma ButterflyStepIs(s: Regs, j: nat, p: nat)
    requires s.c.j == j < p == j + s.c.len < 256
    ensures var out := ButterflyOutputs(s.c.command, s.c.zeta, Read(s.bank0, s.bank1, j), Read(s.bank0, s.bank1, p));
            var c := NextPosition(s.c);
            ButterflyStep(s) ==
            if Parity(j) == 1 then Regs(c, s.bank0[p % 128 := out.1], s.bank1[j % 128 := out.0])
            else Regs(c, s.bank0[j % 128 := out.0], s.bank1[p % 128 := out.1])
  {
    hide Parity, NextPosition, ButterflyOutputs, Read;
    SmallMod(j, 256);
    SmallMod(p, 256);
  }

  lemma ReadIsMemory(bank0: Bank, bank1: Bank, a: nat)
    requires a < 256
    ensures Memory(bank0, bank1)[a] == Read(bank0, bank1, a)
  {
    hide Read;
  }

  /** The memory after one butterfly of a transform. */
  lemma ButterflyMemory(command: nat, m: seq<int>, s: Regs, stage: nat, k: nat, o: nat)
    requires InStage(command, m, s, stage, k, o)
    ensures var s' := ButterflyStep(s);
            Memory(s'.bank0, s'.bank1)
            == Partial(command, Stages(command, m, stage), LayerOf(command, stage), k, o + 1)
    ensures ButterflyStep(s).c == NextPosition(s.c)
  {
    hide Parity, Partial, NextPosition, LayerZeta, Len, Pow2, Stages, Memory, ButterflyStep, ButterflyOutputs;
    var l := LayerOf(command, stage);
    var g := Stages(command, m, stage);
    var j := s.c.j;
    var p := j + Len(l);
    BlockSpan(l);
    PairAt(l, k, o, j);
    PairProcessed(command, g, l, k, o, j);
    PeerParity(l, k, o, j);
    ButterflyWrites(s, j, p);
  }

  lemma LenIs(l: nat)
    requires l <= 7
    ensures Len(l) == Pow2(7 - l)
  {
  }

  lemma SameProduct(x: int, y: int, k: int)
    requires x == y
    ensures x * k == y * k
  {
  }

  /** A butterfly pair always lies in opposite banks. */
  lemma PeerParity(l: nat, k: nat, o: nat, j: nat)
    requires l <= 7 && k < Pow2(l) && o < Len(l) && j == 2 * Len(l) * k + o
    ensures Parity(j) != Parity(j + Len(l))
  {
    hide Parity, Pow2, Len;
    BlockSpan(l);
    LenIs(l);
    ParityFlips(7 - l, k, o);
    assert Pow2(7 - l + 1) == Pow2(8 - l);
    SameProduct(Pow2(8 - l), 2 * Len(l), k);
  }

  // ----- the schedule visits every block of every layer

  lemma GroupEnd(l: nat, k: nat)
    requires l <= 7 && k < Pow2(l)
    ensures 0 <= 2 * Len(l) * k && 2 * Len(l) * (k + 1) == 2 * Len(l) * k + 2 * Len(l) <= 256
    ensures 2 * Len(l) * (k + 1) < 256 <==> k + 1 < Pow2(l)
  {
    BlockSpan(l);
    var n, blocks := 2 * Len(l), Pow2(l);
    hide Pow2, Len;
    BlockRoom(n, blocks, k);
    assert n * (k + 1) == n * k + n;
    if k + 1 < blocks {
      BlockRoom(n, blocks, k + 1);
    } else {
      SameProduct(k + 1, blocks, n);
    }
  }

  lemma NextInBlock(command: nat, c: Control, l: nat, k: nat, o: nat)
    requires l <= 7 && k < Pow2(l) && o + 1 < Len(l) && Positioned(command, c, l, k, o)
    ensures Positioned(command, NextPosition(c), l, k, o + 1)
  {
    hide Pow2, Len, TwiddleIndex, LayerZeta, NextTwiddle;
    GroupEnd(l, k);
    SmallMod(c.j + 1, 512);
    SmallMod(c.start + c.len, 512);
  }

  /** Moving the twiddle index by one in the transform's direction. */
  lemma TwiddleMoves(command: nat, c: Control)
    requires command < 4 && c.command == command && (if Inverts(command) then 1 < c.k < 256 else c.k < 255)
    ensures var k := if Inverts(command) then c.k - 1 else c.k + 1;
            NextTwiddle(c) == c.(k := k, zeta := Twiddle(command, k))
  {
    hide Twiddle;
    SmallMod(c.k, 256);
    var k := if Inverts(command) then c.k - 1 else c.k + 1;
    SmallMod(k, 256);
    SmallMod(k, 512);
  }

  lemma NextIndexInLayer(command: nat, l: nat, k: nat)
    requires l <= 7 && k + 1 < Pow2(l)
    ensures var inverse := Inverts(command);
            TwiddleIndex(inverse, l, k + 1) == TwiddleIndex(inverse, l, k) + (if inverse then -1 else 1)
  {
    hide Pow2;
  }

  lemma NextBlock(command: nat, c: Control, l: nat, k: nat, o: nat)
    requires l <= 7 && k + 1 < Pow2(l) && o + 1 == Len(l) && Positioned(command, c, l, k, o)
    ensures Positioned(command, NextPosition(c), l, k + 1, 0)
  {
    hide Pow2, Len, TwiddleIndex, Twiddle, NextTwiddle;
    GroupEnd(l, k);
    SmallMod(c.j + 1, 512);
    SmallMod(c.start + c.len, 512);
    SmallMod(c.start + 2 * c.len, 512);
    NextIndexInLayer(command, l, k);
    TwiddleMoves(command, c);
  }

  /** The last block of one layer and the first of the next have neighbouring indices. */
  lemma NextIndexAcrossLayers(command: nat, l: nat)
    requires l <= 7 && (if Inverts(command) then l > 0 else l < 7)
    ensures 0 < Pow2(l)
    ensures var inverse, l' := Inverts(command), if Inverts(command) then l - 1 else l + 1;
            && 0 < Pow2(l')
            && TwiddleIndex(inverse, l', 0) == TwiddleIndex(inverse, l, Pow2(l) - 1) + (if inverse then -1 else 1)
  {
    Pow2Step(l);
    if Inverts(command) {
      Pow2Step(l - 1);
    } else {
      Pow2Step(l + 1);
    }
    hide Pow2;
  }

  lemma LenSteps(l: nat)
    requires l <= 7
    ensures Len(0) == 128 && Len(6) == 2 && Len(7) == 1
    ensures (Len(l) == 1 <==> l == 7) && (Len(l) == 2 <==> l == 6) && (Len(l) == 128 <==> l == 0)
    ensures l < 7 ==> Len(l) / 2 == Len(l + 1)
    ensures l > 0 ==> 2 * Len(l) % 256 == Len(l - 1)
  {
    PowersOfTwo();
    Pow2Small();
    match l
    case 0 =>
    case 1 =>
    case 2 =>
    case 3 =>
    case 4 =>
    case 5 =>
    case 6 =>
    case 7 =>
  }

  lemma NextLayer(command: nat, c: Control, l: nat, k: nat, o: nat)
    requires l <= 7 && k < Pow2(l) && k + 1 == Pow2(l) && o + 1 == Len(l) && Positioned(command, c, l, k, o)
    requires if Inverts(command) then l > 0 else l < LayerCount(command) - 1
    ensures var l' := if Inverts(command) then l - 1 else l + 1;
            0 < Pow2(l') && Positioned(command, NextPosition(c), l', 0, 0)
  {
    hide Pow2, Len, TwiddleIndex, Twiddle, NextTwiddle;
    GroupEnd(l, k);
    SmallMod(c.j + 1, 512);
    SmallMod(c.start + c.len, 512);
    SmallMod(c.start + 2 * c.len, 512);
    NextIndexAcrossLayers(command, l);
    LenSteps(l);
    TwiddleMoves(command, c);
  }

  lemma LastButterfly(command: nat, c: Control, l: nat, k: nat, o: nat)
    requires l <= 7 && k < Pow2(l) && k + 1 == Pow2(l) && o + 1 == Len(l) && Positioned(command, c, l, k, o)
    requires if Inverts(command) then l == 0 else l == LayerCount(command) - 1
    ensures var c' := NextPosition(c);
            if Inverts(command) then c'.phase == Scale && c'.command == command && c'.scaleIndex == 0 && c'.busy && !c'.done
            else c'.phase == Idle && !c'.busy && c'.done
  {
    hide Pow2, Len, TwiddleIndex, Twiddle, NextTwiddle;
    GroupEnd(l, k);
    SmallMod(c.j + 1, 512);
    SmallMod(c.start + c.len, 512);
    SmallMod(c.start + 2 * c.len, 512);
    LenSteps(l);
  }

  // ----- one edge and whole runs

  /** A quiet edge during a transform: on to the next butterfly, block or layer, or done. */
  lemma StageStep(command: nat, m: seq<int>, s: Regs, i: Input, stage: nat, k: nat, o: nat)
    requires InStage(command, m, s, stage, k, o) && i.rstN && !i.zeroize
    ensures var s', l := Step(s, i), LayerOf(command, stage);
            if o + 1 < Len(l) then InStage(command, m, s', stage, k, o + 1)
            else if k + 1 < Pow2(l) then InStage(command, m, s', stage, k + 1, 0)
            else if stage < LayerCount(command) - 1 then InStage(command, m, s', stage + 1, 0, 0)
            else Transformed(command, m, s')
  {
    hide Pow2, Len, Partial, NextPosition, ButterflyStep, TwiddleIndex, LayerZeta, Layer, Memory;
    var l := LayerOf(command, stage);
    var seen := s.(c := s.c.(zeroizeSeen := false));
    QuietButterfly(s, i);
    ButterflyMemory(command, m, seen, stage, k, o);
    BlockSpan(l);
    if o + 1 < Len(l) {
      NextInBlock(command, seen.c, l, k, o);
    } else {
      BlockProcessed(command, Stages(command, m, stage), l, k);
      if k + 1 < Pow2(l) {
        NextBlock(command, seen.c, l, k, o);
      } else {
        LayerProcessed(command, Stages(command, m, stage), l);
        if stage < LayerCount(command) - 1 {
          NextLayer(command, seen.c, l, k, o);
          var l' := LayerOf(command, stage + 1);
          BlockSpan(l');
          NothingProcessed(command, Stages(command, m, stage + 1), l');
        } else {
          LastButterfly(command, seen.c, l, k, o);
        }
      }
    }
  }

  lemma PositionInRange(command: nat, stage: nat, k: nat, o: nat)
    requires stage < LayerCount(command) && k < Pow2(LayerOf(command, stage)) && o < Len(LayerOf(command, stage))
    ensures var l := LayerOf(command, stage);
            && 128 * stage <= Position(command, stage, k, o) < 128 * stage + 128
            && Position(command, stage, k, o + 1) == Position(command, stage, k, o) + 1
            && (o + 1 == Len(l) ==> Position(command, stage, k + 1, 0) == Position(command, stage, k, o) + 1)
            && (o + 1 == Len(l) && k + 1 == Pow2(l) ==> Position(command, stage, k, o) == 128 * stage + 127)
            && Position(command, stage, 0, 0) == 128 * stage
  {
    var l := LayerOf(command, stage);
    BlockSpan(l);
    hide Pow2, Len;
    BlockRoom(2 * Len(l), Pow2(l), k);
    HalfRoom(Len(l), k, Pow2(l));
    assert (k + 1) * Len(l) == k * Len(l) + Len(l);
    assert 0 * Len(l) == 0;
  }

  lemma HalfRoom(len: nat, k: nat, blocks: nat)
    requires 2 * len * k + 2 * len <= 256 && 2 * len * blocks == 256
    ensures 0 <= k * len && k * len + len <= 128 && (k + 1 == blocks ==> k * len + len == 128)
  {
    ProductNonNegative(k, len);
    assert 2 * len * k == 2 * (k * len);
    if k + 1 == blocks {
      assert 2 * len * blocks == 2 * len * k + 2 * len;
    }
  }

  /** From any butterfly on, exactly the remaining butterflies are left: busy until the
      last of the 896 or 1024, then transformed. */
  lemma {:induction false} ButterfliesRun(command: nat, m: seq<int>, s: Regs, ins: seq<Input>,
                                          stage: nat, k: nat, o: nat)
    requires stage < LayerCount(command) && InStage(command, m, s, stage, k, o) && Quiet(ins)
    requires |ins| == 128 * LayerCount(command) - Position(command, stage, k, o)
    ensures Transformed(command, m, Run(s, ins))
    ensures forall n :: 0 <= n < |ins| ==> BusyAfter(s, ins, n)
    decreases |ins|
  {
    hide InStage, Step, Pow2, Len, Position, Transformed, BusyAfter;
    var l := LayerOf(command, stage);
    StageIsBusy(command, m, s, stage, k, o);
    PositionInRange(command, stage, k, o);
    StageStep(command, m, s, ins[0], stage, k, o);
    var s', rest := Step(s, ins[0]), ins[1..];
    if o + 1 < Len(l) {
      ButterfliesRun(command, m, s', rest, stage, k, o + 1);
    } else if k + 1 < Pow2(l) {
      ButterfliesRun(command, m, s', rest, stage, k + 1, 0);
    } else if stage < LayerCount(command) - 1 {
      BlockSpan(LayerOf(command, stage + 1));
      PositionInRange(command, stage + 1, 0, 0);
      ButterfliesRun(command, m, s', rest, stage + 1, 0, 0);
    } else {
      assert rest == [];
    }
    BusyFromTail(s, ins);
  }

  lemma StageIsBusy(command: nat, m: seq<int>, s: Regs, stage: nat, k: nat, o: nat)
    requires InStage(command, m, s, stage, k, o)
    ensures s.c.busy && !s.c.done
    ensures |m| == 256 && stage < LayerCount(command)
    ensures k < Pow2(LayerOf(command, stage)) && o < Len(LayerOf(command, stage))
  {
    hide Partial, Memory, Pow2, Len;
  }

  /** The engine is busy and not done before edge n. */
  ghost predicate BusyAfter(s: Regs, ins: seq<Input>, n: nat)
    requires n <= |ins|
  {
    Run(s, ins[..n]).c.busy && !Run(s, ins[..n]).c.done
  }

  lemma BusyFromTail(s: Regs, ins: seq<Input>)
    requires ins != [] && s.c.busy && !s.c.done
    requires forall n :: 0 <= n < |ins| - 1 ==> BusyAfter(Step(s, ins[0]), ins[1..], n)
    ensures forall n :: 0 <= n < |ins| ==> BusyAfter(s, ins, n)
  {
    hide Step;
    forall n | 0 <= n < |ins|
      ensures BusyAfter(s, ins, n)
    {
      if n > 0 {
        assert ins[..n][0] == ins[0] && ins[..n][1..] == ins[1..][..n - 1];
        assert BusyAfter(Step(s, ins[0]), ins[1..], n - 1);
      }
    }
  }

  // ----- scaling

  /** The first n words are scaled. */
  function PartlyScaled(command: nat, g: seq<int>, n: nat): (m: seq<int>)
    requires |g| == 256
    ensures |m| == 256
  {
    seq(256, i requires 0 <= i < 256 => if i < n then ScaledWord(command, g[i]) else g[i])
  }

  ghost predicate InScale(command: nat, g: seq<int>, s: Regs, n: nat) {
    && |g| == 256 && n < 256 && s.c.phase == Scale && s.c.command == command && s.c.scaleIndex == n
    && s.c.busy && !s.c.done && Memory(s.bank0, s.bank1) == PartlyScaled(command, g, n)
  }

  lemma ScaleOne(command: nat, g: seq<int>, n: nat)
    requires |g| == 256 && n < 256
    ensures PartlyScaled(command, g, n)[n] == g[n]
    ensures PartlyScaled(command, g, n)[n := ScaledWord(command, g[n])] == PartlyScaled(command, g, n + 1)
  {
    hide ScaledWord;
  }

  lemma ScaleEdge(command: nat, g: seq<int>, s: Regs, i: Input, n: nat)
    requires InScale(command, g, s, n) && i.rstN && !i.zeroize
    ensures var s' := Step(s, i);
            if n < 255 then InScale(command, g, s', n + 1)
            else s'.c.phase == Idle && !s'.c.busy && s'.c.done && Memory(s'.bank0, s'.bank1) == Scaled256(command, g)
  {
    hide ScaledWord, Merged, WriteBank0, WriteBank1, Read, Memory;
    ScaleOne(command, g, n);
    ReadIsMemory(s.bank0, s.bank1, n);
    WriteIsUpdate(s.bank0, s.bank1, n, ScaledWord(command, g[n]));
    if n == 255 {
      AllScaled(command, g);
    }
    hide PartlyScaled, Scaled256;
  }

  lemma AllScaled(command: nat, g: seq<int>)
    requires |g| == 256
    ensures PartlyScaled(command, g, 256) == Scaled256(command, g)
  {
    hide ScaledWord;
  }

  lemma NothingScaled(command: nat, g: seq<int>)
    requires |g| == 256
    ensures PartlyScaled(command, g, 0) == g
  {
    hide ScaledWord;
  }

  ghost predicate Finished(m: seq<int>, s: Regs) {
    s.c.phase == Idle && !s.c.busy && s.c.done && Memory(s.bank0, s.bank1) == m
  }

  lemma {:induction false} ScalingRun(command: nat, g: seq<int>, s: Regs, ins: seq<Input>, n: nat)
    requires InScale(command, g, s, n) && Quiet(ins) && |ins| == 256 - n
    ensures Finished(Scaled256(command, g), Run(s, ins))
    ensures forall k :: 0 <= k < |ins| ==> BusyAfter(s, ins, k)
    decreases |ins|
  {
    hide Step, Memory, PartlyScaled, Scaled256, BusyAfter;
    ScaleEdge(command, g, s, ins[0], n);
    var s', rest := Step(s, ins[0]), ins[1..];
    if n < 255 {
      ScalingRun(command, g, s', rest, n + 1);
    } else {
      assert rest == [];
    }
    BusyFromTail(s, ins);
  }

  // ----- whole commands

  lemma {:induction false} RunAppend(s: Regs, a: seq<Input>, b: seq<Input>)
    ensures Run(s, a + b) == Run(Run(s, a), b)
    decreases |a|
  {
    hide Step;
    if a == [] {
      assert a + b == b;
    } else {
      assert (a + b)[0] == a[0] && (a + b)[1..] == a[1..] + b;
      RunAppend(Step(s, a[0]), a[1..], b);
    }
  }

  /** An accepted start puts the engine before the first butterfly. */
  lemma StartEdge(command: nat, s: Regs, i: Input)
    requires s.c.phase == Idle && i.rstN && i.start && !i.zeroize && i.command == command < 4
    ensures var s' := Step(s, i);
            InStage(command, Memory(s'.bank0, s'.bank1), s', 0, 0, 0)
    ensures !i.coeffWe ==> Memory(Step(s, i).bank0, Step(s, i).bank1) == Memory(s.bank0, s.bank1)
  {
    var l := LayerOf(command, 0);
    BlockSpan(l);
    LenSteps(l);
    PowersOfTwo();
    Pow2Small();
    Pow2Step(6);
    Pow2Step(7);
    hide Pow2, Len, Memory, HostStep, Twiddle;
    var s' := Step(s, i);
    var first := if !Inverts(command) then 1 else if command == MLDSA_INTT then 255 else 127;
    assert TwiddleIndex(Inverts(command), l, 0) == first;
    hide TwiddleIndex;
    NothingProcessed(command, Memory(s'.bank0, s'.bank1), l);
    hide Partial;
    assert !i.coeffWe ==> HostStep(s, i) == s by {
      HostIdle(s, i);
    }
  }

  lemma HostIdle(s: Regs, i: Input)
    ensures !i.coeffWe ==> HostStep(s, i) == s
  {
    hide Merged;
  }

  function CommandResult(command: nat, m: seq<int>): seq<int>
    requires |m| == 256
  {
    var transformed := Stages(command, m, LayerCount(command));
    if Inverts(command) then Scaled256(command, transformed) else transformed
  }

  /** From an accepted start of any command the engine is busy for exactly 1024, 1280, 896
      or 1152 edges, whatever the host does meanwhile, and then done with the transform of
      the memory it started from. */
  lemma CommandCompletes(command: nat, s: Regs, first: Input, ins: seq<Input>)
    requires s.c.phase == Idle && first.rstN && first.start && !first.zeroize && first.command == command < 4
    requires Quiet(ins)
    requires |ins| == if command == 0 then 1024 else if command == 1 then 1280 else if command == 2 then 896 else 1152
    ensures var s' := Step(s, first);
            && Finished(CommandResult(command, Memory(s'.bank0, s'.bank1)), Run(s', ins))
            && forall n :: 0 <= n < |ins| ==> BusyAfter(s', ins, n)
  {
    hide Step, InStage, Memory, Position, BusyAfter, Scaled256, Stages, Pow2, Len;
    var s' := Step(s, first);
    var m := Memory(s'.bank0, s'.bank1);
    StartEdge(command, s, first);
    StartPosition(command);
    if Inverts(command) {
      var n := 128 * LayerCount(command);
      var a, b := ins[..n], ins[n..];
      ButterfliesRun(command, m, s', a, 0, 0, 0);
      var t := Run(s', a);
      var g := Stages(command, m, LayerCount(command));
      NothingScaled(command, g);
      hide PartlyScaled;
      ScalingRun(command, g, t, b, 0);
      assert ins == a + b;
      RunAppend(s', a, b);
      BusyInBoth(s', a, b);
    } else {
      ButterfliesRun(command, m, s', ins, 0, 0, 0);
    }
  }

  lemma StartPosition(command: nat)
    ensures Position(command, 0, 0, 0) == 0
  {
    assert 0 * Len(LayerOf(command, 0)) == 0;
  }

  lemma BusyInBoth(s: Regs, a: seq<Input>, b: seq<Input>)
    requires forall n :: 0 <= n < |a| ==> BusyAfter(s, a, n)
    requires forall n :: 0 <= n < |b| ==> BusyAfter(Run(s, a), b, n)
    ensures forall n :: 0 <= n < |a + b| ==> BusyAfter(s, a + b, n)
  {
    hide Step;
    forall n | 0 <= n < |a + b|
      ensures BusyAfter(s, a + b, n)
    {
      if n < |a| {
        assert (a + b)[..n] == a[..n];
        assert BusyAfter(s, a, n);
      } else {
        assert (a + b)[..n] == a + b[..n - |a|];
        RunAppend(s, a, b[..n - |a|]);
        assert BusyAfter(Run(s, a), b, n - |a|);
      }
    }
  }

  /** The forward ML-KEM command leaves the transform of section 4.3 of FIPS 203, modulo
      3329, for every polynomial up to 9471 in magnitude; nothing wraps on the way. */
  lemma ForwardCommand(s: Regs, first: Input, ins: seq<Input>)
    requires s.c.phase == Idle && first.rstN && first.start && !first.zeroize && first.command == 2
    requires Quiet(ins) && |ins| == 896
    requires var s' := Step(s, first);
             forall i :: 0 <= i < 256 ==> Within(Memory(s'.bank0, s'.bank1)[i], 9471)
    ensures var s' := Step(s, first);
            var end := Run(s', ins);
            && end.c.done && !end.c.busy
            && Tracks(Memory(end.bank0, end.bank1), Ntt(Memory(s'.bank0, s'.bank1)), 32767)
  {
    hide Step, Memory, Stages, Ntt, Tracks;
    CommandCompletes(MLKEM_NTT, s, first, ins);
    var s' := Step(s, first);
    ForwardIsNtt(Memory(s'.bank0, s'.bank1));
  }

  /** The command ML-KEM command leaves the command transform times 2^16, for every input
      up to 16383 in magnitude. */
  lemma InverseCommand(s: Regs, first: Input, ins: seq<Input>, i: nat)
    requires s.c.phase == Idle && first.rstN && first.start && !first.zeroize && first.command == 3
    requires Quiet(ins) && |ins| == 1152 && i < 256
    requires var s' := Step(s, first);
             forall i :: 0 <= i < 256 ==> Within(Memory(s'.bank0, s'.bank1)[i], 16383)
    ensures var s' := Step(s, first);
            var end := Run(s', ins);
            && end.c.done && !end.c.busy
            && Within(Memory(end.bank0, end.bank1)[i], 3328)
            && Cong(Memory(end.bank0, end.bank1)[i], InverseNtt(Memory(s'.bank0, s'.bank1))[i] * 65536)
  {
    hide Step, Memory, Stages, InverseNtt, Cong, Scaled256;
    CommandCompletes(MLKEM_INTT, s, first, ins);
    var s' := Step(s, first);
    InverseIsMontgomeryNtt(Memory(s'.bank0, s'.bank1), i);
  }

  /** The forward ML-DSA command leaves the polynomial's values at the 256 roots of section
      7.5 of FIPS 204, modulo 8380417, for every polynomial up to 2080440319 in magnitude. */
  lemma DsaForwardCommand(s: Regs, first: Input, ins: seq<Input>, i: nat)
    requires s.c.phase == Idle && first.rstN && first.start && !first.zeroize && first.command == 0
    requires Quiet(ins) && |ins| == 1024 && i < 256
    requires var s' := Step(s, first);
             forall k :: 0 <= k < 256 ==> Within(Memory(s'.bank0, s'.bank1)[k], 2080440319)
    ensures var f, end := Memory(Step(s, first).bank0, Step(s, first).bank1), Run(Step(s, first), ins);
            && end.c.done && !end.c.busy
            && Within(Memory(end.bank0, end.bank1)[i], 0x7FFF_FFFF)
            && DsaCong(Memory(end.bank0, end.bank1)[i], PowerSum(f, 0, 1, 256, DsaRoot(i)))
  {
    hide Step, Memory, Stages, PowerSum, DsaCong, DsaRoot;
    CommandCompletes(MLDSA_NTT, s, first, ins);
    DsaForwardMeaning(Memory(Step(s, first).bank0, Step(s, first).bank1), i);
  }

  /** The inverse ML-DSA command takes the values of f at the roots, up to 8388607 in
      magnitude, to f times 2^32. */
  lemma DsaInverseCommand(f: seq<int>, s: Regs, first: Input, ins: seq<Input>, i: nat)
    requires s.c.phase == Idle && first.rstN && first.start && !first.zeroize && first.command == 1
    requires |f| == 256 && Quiet(ins) && |ins| == 1280 && i < 256
    requires var m := Memory(Step(s, first).bank0, Step(s, first).bank1);
             forall k :: 0 <= k < 256 ==> Within(m[k], 8388607) && DsaCong(m[k], PowerSum(f, 0, 1, 256, DsaRoot(k)))
    ensures var end := Run(Step(s, first), ins);
            && end.c.done && !end.c.busy
            && Within(Memory(end.bank0, end.bank1)[i], 8380416)
            && DsaCong(Memory(end.bank0, end.bank1)[i], f[i] * 0x1_0000_0000)
  {
    hide Step, Memory, Stages, PowerSum, DsaCong, DsaRoot, Scaled256;
    CommandCompletes(MLDSA_INTT, s, first, ins);
    DsaInverseMeaning(f, Memory(Step(s, first).bank0, Step(s, first).bank1), i);
  }

  // ----- scrubbing

  ghost predicate InScrub(s: Regs, n: nat) {
    && n < 256 && s.c.phase == Zeroize && s.c.zeroizeIndex == n && s.c.busy && !s.c.done
    && forall a :: 0 <= a < n ==> Memory(s.bank0, s.bank1)[a] == 0
  }

  /** The zeroize level may stay or fall but does not rise again. */
  ghost predicate NoRise(seen: bool, ins: seq<Input>) {
    && (forall n :: 0 <= n < |ins| ==> ins[n].rstN)
    && (ins != [] && ins[0].zeroize ==> seen)
    && forall n :: 0 < n < |ins| && ins[n].zeroize ==> ins[n - 1].zeroize
  }

  lemma ScrubEdge(s: Regs, i: Input, n: nat)
    requires InScrub(s, n) && i.rstN && (i.zeroize ==> s.c.zeroizeSeen)
    ensures var s' := Step(s, i);
            && s'.c.zeroizeSeen == (i.zeroize && s.c.zeroizeSeen)
            && if n < 255 then InScrub(s', n + 1)
               else s'.c.phase == Idle && !s'.c.busy && !s'.c.done
                    && forall a :: 0 <= a < 256 ==> Memory(s'.bank0, s'.bank1)[a] == 0
  {
    hide Merged, WriteBank0, WriteBank1, Read, Memory;
    WriteIsUpdate(s.bank0, s.bank1, n, 0);
  }

  /** A scrub launched in any state, mid-transform included, leaves all 256 words zero
      after exactly 256 edges, with the engine idle and not done. */
  lemma {:induction false} ScrubRun(s: Regs, ins: seq<Input>, n: nat)
    requires InScrub(s, n) && |ins| == 256 - n && NoRise(s.c.zeroizeSeen, ins)
    ensures var end := Run(s, ins);
            && end.c.phase == Idle && !end.c.busy && !end.c.done
            && forall a :: 0 <= a < 256 ==> Memory(end.bank0, end.bank1)[a] == 0
    decreases |ins|
  {
    hide Step, Memory;
    ScrubEdge(s, ins[0], n);
    var s', rest := Step(s, ins[0]), ins[1..];
    if n < 255 {
      ScrubRun(s', rest, n + 1);
    } else {
      assert rest == [];
    }
  }

  lemma ScrubCommand(s: Regs, first: Input, ins: seq<Input>)
    requires first.rstN && Launches(s.c, first) && |ins| == 256 && NoRise(true, ins)
    ensures var end := Run(Step(s, first), ins);
            && end.c.phase == Idle && !end.c.busy && !end.c.done
            && forall a :: 0 <= a < 256 ==> Memory(end.bank0, end.bank1)[a] == 0
  {
    hide Memory;
    var s' := Step(s, first);
    assert InScrub(s', 0) && s'.c.zeroizeSeen;
    hide Step;
    ScrubRun(s', ins, 0);
  }
}
