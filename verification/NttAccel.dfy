/** The transform engine rtl/lca_ntt_accel.sv: two parity-indexed banks of 128 words, one
    butterfly a clock, scaling and scrubbing, host writes under byte strobes. */
module NttAccel {
  import opened Numbers
  import opened Montgomery
  import opened Twiddles
  import opened KemTwiddles
  import opened NttLayers
  import opened NttInverse
  import opened Butterflies

  // ----- the banks

  /** XOR of the address bits. */
  function Parity(a: nat): (p: nat)
    ensures p < 2
  {
    if a == 0 then 0 else if a % 2 == 0 then Parity(a / 2) else 1 - Parity(a / 2)
  }

  type Bank = b: seq<int> | |b| == 128 witness seq(128, i => 0)

  function Read(bank0: Bank, bank1: Bank, address: nat): int {
    if Parity(address) == 1 then bank1[address % 128] else bank0[address % 128]
  }

  /** The 256 words by logical address. */
  function Memory(bank0: Bank, bank1: Bank): (m: seq<int>)
    ensures |m| == 256
  {
    seq(256, a requires 0 <= a < 256 => Read(bank0, bank1, a))
  }

  /** Setting a clear bit flips the parity. */
  lemma {:induction false} ParityFlips(n: nat, q: nat, o: nat)
    requires o < Pow2(n)
    ensures 0 <= Pow2(n + 1) * q
    ensures Parity(Pow2(n + 1) * q + o + Pow2(n)) == 1 - Parity(Pow2(n + 1) * q + o)
    decreases n
  {
    hide Pow2, Parity;
    ProductNonNegative(Pow2(n + 1), q);
    var a, b := Pow2(n + 1) * q + o, Pow2(n + 1) * q + o + Pow2(n);
    ParityUnfolds(a);
    ParityUnfolds(b);
    Pow2Step(n);
    if n == 0 {
      Pow2Zero();
      EvenHalves(a, q);
    } else {
      Pow2Step(n - 1);
      ParityFlips(n - 1, q, o / 2);
      Halved(Pow2(n - 1), q, o, a, b);
    }
  }

  lemma ParityUnfolds(a: nat)
    ensures Parity(a) == if a % 2 == 0 then Parity(a / 2) else 1 - Parity(a / 2)
  {
  }

  lemma EvenHalves(a: nat, q: nat)
    requires a == 2 * q
    ensures a % 2 == 0 && a / 2 == q && (a + 1) % 2 == 1 && (a + 1) / 2 == q
  {
  }

  lemma Halved(p: nat, q: nat, o: nat, a: nat, b: nat)
    requires a == 2 * (2 * p) * q + o && b == a + 2 * p
    ensures a % 2 == b % 2 && a / 2 == (2 * p) * q + o / 2 && b / 2 == (2 * p) * q + o / 2 + p
  {
    assert 2 * (2 * p) * q == 2 * ((2 * p) * q);
    var h := (2 * p) * q;
    ModUniqueInt(a, 2, h + o / 2, o % 2);
    ModUniqueInt(b, 2, h + o / 2 + p, o % 2);
  }

  /** Parity and row together determine the address. */
  lemma AddressDetermined(a: nat, b: nat)
    requires a < 256 && b < 256 && Parity(a) == Parity(b) && a % 128 == b % 128
    ensures a == b
  {
    Pow2Small();
    hide Parity, Pow2;
    var r := a % 128;
    ParityFlips(7, 0, r);
    assert Pow2(8) * 0 == 0;
  }

  /** One logical word written in its bank. */
  function WriteBank0(bank0: Bank, address: nat, value: int): Bank {
    if Parity(address) == 1 then bank0 else bank0[address % 128 := value]
  }

  function WriteBank1(bank1: Bank, address: nat, value: int): Bank {
    if Parity(address) == 1 then bank1[address % 128 := value] else bank1
  }

  lemma WriteIsUpdate(bank0: Bank, bank1: Bank, address: nat, value: int)
    requires address < 256
    ensures Memory(WriteBank0(bank0, address, value), WriteBank1(bank1, address, value))
            == Memory(bank0, bank1)[address := value]
  {
    hide Parity;
    forall a | 0 <= a < 256
      ensures Read(WriteBank0(bank0, address, value), WriteBank1(bank1, address, value), a)
              == Memory(bank0, bank1)[address := value][a]
    {
      if Parity(a) == Parity(address) && a % 128 == address % 128 {
        AddressDetermined(a, address);
      }
    }
  }

  /** A butterfly writes its two results into opposite banks, each at its own row. */
  lemma ButterflyIsUpdate(bank0: Bank, bank1: Bank, j: nat, peer: nat, x: int, y: int)
    requires j < 256 && peer < 256 && Parity(j) != Parity(peer)
    ensures (if Parity(j) == 1 then Memory(bank0[peer % 128 := y], bank1[j % 128 := x])
             else Memory(bank0[j % 128 := x], bank1[peer % 128 := y]))
            == Memory(bank0, bank1)[j := x][peer := y]
  {
    WriteIsUpdate(bank0, bank1, j, x);
    WriteIsUpdate(WriteBank0(bank0, j, x), WriteBank1(bank1, j, x), peer, y);
    hide Parity, Memory;
  }

  // ----- registers and one clock edge

  datatype Phase = Idle | Butterfly | Scale | Zeroize

  datatype Control = Control(
    phase: Phase,
    command: nat,
    busy: bool,
    done: bool,
    len: nat,
    start: nat,
    j: nat,
    k: nat,
    scaleIndex: nat,
    zeroizeIndex: nat,
    zeroizeSeen: bool,
    zeta: int
  )

  datatype Regs = Regs(c: Control, bank0: Bank, bank1: Bank)

  datatype Strobes = Strobes(b0: bool, b1: bool, b2: bool, b3: bool)

  datatype Input = Input(
    rstN: bool,
    zeroize: bool,
    start: bool,
    command: nat,
    coeffWe: bool,
    coeffAddr: nat,
    coeffWdata: nat,
    coeffWstrb: Strobes
  )

  const RESET := Control(Idle, MLDSA_NTT, false, false, 0, 0, 0, 0, 0, 0, false, 0)

  /** Byte lane n of a word. */
  function Lane8(word: int, n: nat): int
    requires n < 4
  {
    word / (if n == 0 then 1 else if n == 1 then 0x100 else if n == 2 then 0x1_0000 else 0x100_0000) % 256
  }

  /** A host write under its byte strobes. */
  function Merged(old': int, data: int, s: Strobes): int {
    ToInt32(
      (if s.b0 then Lane8(data, 0) else Lane8(old', 0))
      + 0x100 * (if s.b1 then Lane8(data, 1) else Lane8(old', 1))
      + 0x1_0000 * (if s.b2 then Lane8(data, 2) else Lane8(old', 2))
      + 0x100_0000 * (if s.b3 then Lane8(data, 3) else Lane8(old', 3)))
  }

  /** The four byte lanes are the base-256 digits of the word. */
  lemma LanesMakeWord(word: int)
    ensures word % 0x1_0000_0000 ==
            Lane8(word, 0) + 0x100 * Lane8(word, 1) + 0x1_0000 * Lane8(word, 2) + 0x100_0000 * Lane8(word, 3)
    ensures forall n :: 0 <= n < 4 ==> 0 <= Lane8(word, n) < 256
  {
    var q0, q1, q2, q3 := word / 0x100, word / 0x1_0000, word / 0x100_0000, word / 0x1_0000_0000;
    assert q0 / 0x100 == q1 && q1 / 0x100 == q2 && q2 / 0x100 == q3;
  }

  lemma DigitsOf(word: int, k: int, b0: int, b1: int, b2: int, b3: int)
    requires 0 <= b0 < 256 && 0 <= b1 < 256 && 0 <= b2 < 256 && 0 <= b3 < 256
    requires word == b0 + 0x100 * b1 + 0x1_0000 * b2 + 0x100_0000 * b3 + 0x1_0000_0000 * k
    ensures Lane8(word, 0) == b0 && Lane8(word, 1) == b1 && Lane8(word, 2) == b2 && Lane8(word, 3) == b3
  {
    ModUniqueInt(word, 0x100, b1 + 0x100 * b2 + 0x1_0000 * b3 + 0x100_0000 * k, b0);
    ModUniqueInt(word, 0x1_0000, b2 + 0x100 * b3 + 0x1_0000 * k, b0 + 0x100 * b1);
    ModUniqueInt(word, 0x100_0000, b3 + 0x100 * k, b0 + 0x100 * b1 + 0x1_0000 * b2);
    ModUniqueInt(word / 0x100, 0x100, b2 + 0x100 * b3 + 0x1_0000 * k, b1);
    ModUniqueInt(word / 0x1_0000, 0x100, b3 + 0x100 * k, b2);
    ModUniqueInt(word / 0x100_0000, 0x100, k, b3);
  }

  /** Every byte lane of a merged word is the data's where its strobe is set and the old
      word's elsewhere. */
  lemma MergedLanes(old': int, data: int, s: Strobes)
    ensures var m := Merged(old', data, s);
            && Lane8(m, 0) == Lane8(if s.b0 then data else old', 0)
            && Lane8(m, 1) == Lane8(if s.b1 then data else old', 1)
            && Lane8(m, 2) == Lane8(if s.b2 then data else old', 2)
            && Lane8(m, 3) == Lane8(if s.b3 then data else old', 3)
    ensures -0x8000_0000 <= Merged(old', data, s) < 0x8000_0000
  {
    LanesMakeWord(old');
    LanesMakeWord(data);
    hide Lane8;
    var b0 := if s.b0 then Lane8(data, 0) else Lane8(old', 0);
    var b1 := if s.b1 then Lane8(data, 1) else Lane8(old', 1);
    var b2 := if s.b2 then Lane8(data, 2) else Lane8(old', 2);
    var b3 := if s.b3 then Lane8(data, 3) else Lane8(old', 3);
    var word := b0 + 0x100 * b1 + 0x1_0000 * b2 + 0x100_0000 * b3;
    DigitsOf(Merged(old', data, s), -((word + 0x8000_0000) / 0x1_0000_0000), b0, b1, b2, b3);
  }

  /** Accepting a start (rtl/lca_ntt_accel.sv:238-269). */
  function Started(c: Control, command: nat): Control {
    var len := if command == MLDSA_INTT then 1 else if command == MLKEM_INTT then 2 else 128;
    var k := if command == MLDSA_INTT then 255 else if command == MLKEM_INTT then 127 else 1;
    c.(phase := Butterfly, command := command, busy := true, done := false, start := 0, j := 0,
       len := len, k := k, zeta := Twiddle(command, k))
  }

  /** The next twiddle index, in 9 bits, and its twiddle, looked up with 8. */
  function NextTwiddle(c: Control): Control {
    if CountsUp(c.command) then
      c.(k := (c.k + 1) % 512, zeta := Twiddle(c.command, (c.k % 256 + 1) % 256))
    else
      ModRange(c.k - 1, 512);
      ModRange(c.k % 256 - 1, 256);
      c.(k := (c.k - 1) % 512, zeta := Twiddle(c.command, (c.k % 256 - 1) % 256))
  }

  /** The schedule after a butterfly (rtl/lca_ntt_accel.sv:282-327). */
  function NextPosition(c: Control): Control {
    var nextGroup := (c.start + 2 * c.len) % 512;
    if (c.j + 1) % 512 < (c.start + c.len) % 512 then c.(j := (c.j + 1) % 512)
    else if nextGroup < 256 then NextTwiddle(c).(start := nextGroup, j := nextGroup)
    else if (c.command == MLDSA_NTT && c.len == 1) || (c.command == MLKEM_NTT && c.len == 2) then
      c.(start := 0, j := 0, phase := Idle, busy := false, done := true)
    else if (c.command == MLDSA_INTT || c.command == MLKEM_INTT) && c.len == 128 then
      c.(start := 0, j := 0, phase := Scale, scaleIndex := 0)
    else
      NextTwiddle(c).(start := 0, j := 0, len := if CountsUp(c.command) then c.len / 2 else 2 * c.len % 256)
  }

  /** A butterfly edge: both words are read before either is written. */
  function ButterflyStep(s: Regs): Regs {
    var j, peer := s.c.j % 256, (s.c.j + s.c.len) % 256;
    var out := ButterflyOutputs(s.c.command, s.c.zeta, Read(s.bank0, s.bank1, j), Read(s.bank0, s.bank1, peer));
    var c := NextPosition(s.c);
    if Parity(j) == 1 then Regs(c, s.bank0[peer % 128 := out.1], s.bank1[j % 128 := out.0])
    else Regs(c, s.bank0[j % 128 := out.0], s.bank1[peer % 128 := out.1])
  }

  function Put(s: Regs, address: nat, value: int): Regs {
    s.(bank0 := WriteBank0(s.bank0, address, value), bank1 := WriteBank1(s.bank1, address, value))
  }

  function ScaleStep(s: Regs): Regs {
    var i := s.c.scaleIndex;
    var s' := Put(s, i, ScaledWord(s.c.command, Read(s.bank0, s.bank1, i)));
    s'.(c := if i == 255 then s.c.(phase := Idle, busy := false, done := true) else s.c.(scaleIndex := (i + 1) % 256))
  }

  function ZeroizeStep(s: Regs): Regs {
    var i := s.c.zeroizeIndex;
    Put(s, i, 0).(c := if i == 255 then s.c.(phase := Idle, busy := false, done := false, zeroizeIndex := 0)
                       else s.c.(zeroizeIndex := (i + 1) % 256, busy := true, done := false))
  }

  /** A host write, refused while busy or scrubbing. */
  function HostStep(s: Regs, i: Input): Regs {
    if i.coeffWe && !s.c.busy && !i.zeroize then
      Put(s, i.coeffAddr, Merged(Read(s.bank0, s.bank1, i.coeffAddr), i.coeffWdata, i.coeffWstrb))
    else s
  }

  predicate Launches(c: Control, i: Input) {
    i.zeroize && !c.zeroizeSeen
  }

  /** One rising clock edge (rtl/lca_ntt_accel.sv:190-386). A reset is taken at the edge
      and leaves the banks alone. */
  function Step(s: Regs, i: Input): Regs {
    if !i.rstN then s.(c := RESET)
    else if Launches(s.c, i) then
      s.(c := RESET.(phase := Zeroize, command := s.c.command, busy := true, zeroizeSeen := true))
    else
      var s1 := HostStep(s, i).(c := if i.zeroize then s.c else s.c.(zeroizeSeen := false));
      match s.c.phase
      case Idle => if i.start && !i.zeroize then s1.(c := Started(s1.c, i.command)) else s1
      case Butterfly => ButterflyStep(s1)
      case Scale => ScaleStep(s1)
      case Zeroize => ZeroizeStep(s1)
  }

  /** A reset clears every control register, the scrub latch included, and no word; so the
      next zeroize level launches a scrub again. */
  lemma ResetEdge(s: Regs, i: Input, next: Input)
    requires !i.rstN
    ensures Step(s, i).c == Control(Idle, 0, false, false, 0, 0, 0, 0, 0, 0, false, 0)
    ensures Memory(Step(s, i).bank0, Step(s, i).bank1) == Memory(s.bank0, s.bank1)
    ensures next.rstN && next.zeroize ==> Step(Step(s, i), next).c.phase == Zeroize
  {
  }

  /** A host write to the idle engine replaces one logical word by its merge with the data
      and changes nothing else; while busy or scrubbing it changes nothing at all. */
  lemma HostWrite(s: Regs, i: Input)
    requires i.coeffAddr < 256
    ensures var m, m' := Memory(s.bank0, s.bank1), Memory(HostStep(s, i).bank0, HostStep(s, i).bank1);
            m' == if i.coeffWe && !s.c.busy && !i.zeroize
                  then m[i.coeffAddr := Merged(m[i.coeffAddr], i.coeffWdata, i.coeffWstrb)] else m
    ensures HostStep(s, i).c == s.c
    ensures i.rstN && s.c.phase == Idle && !i.start && !i.zeroize ==>
              Memory(Step(s, i).bank0, Step(s, i).bank1) == Memory(HostStep(s, i).bank0, HostStep(s, i).bank1)
  {
    hide Parity, Merged, WriteBank0, WriteBank1;
    var value := Merged(Read(s.bank0, s.bank1, i.coeffAddr), i.coeffWdata, i.coeffWstrb);
    WriteIsUpdate(s.bank0, s.bank1, i.coeffAddr, value);
  }

  /** The engine as registers and banks updated in place. */
  class Engine {
    var c: Control
    const bank0: array<int>
    const bank1: array<int>

    ghost predicate Valid()
    {
      bank0.Length == 128 && bank1.Length == 128 && bank0 != bank1
    }

    ghost function State(): Regs
      requires Valid()
      reads this, bank0, bank1
    {
      Regs(c, bank0[..], bank1[..])
    }

    constructor ()
      ensures Valid() && c == RESET && fresh(bank0) && fresh(bank1)
    {
      c := RESET;
      bank0 := new int[128](_ => 0);
      bank1 := new int[128](_ => 0);
    }

    function Word(address: nat): (v: int)
      requires Valid()
      reads bank0, bank1
      ensures v == Read(bank0[..], bank1[..], address)
    {
      if Parity(address) == 1 then bank1[address % 128] else bank0[address % 128]
    }

    method WriteWord(address: nat, value: int)
      requires Valid()
      modifies bank0, bank1
      ensures bank0[..] == WriteBank0(old(bank0[..]), address, value)
      ensures bank1[..] == WriteBank1(old(bank1[..]), address, value)
    {
      hide Parity;
      if Parity(address) == 1 {
        bank1[address % 128] := value;
      } else {
        bank0[address % 128] := value;
      }
    }

    /** The butterfly state of one edge. */
    method DoButterfly()
      requires Valid()
      modifies this, bank0, bank1
      ensures State() == ButterflyStep(old(State()))
    {
      hide Parity, ButterflyOutputs, NextPosition;
      var j, peer := c.j % 256, (c.j + c.len) % 256;
      var out := ButterflyOutputs(c.command, c.zeta, Word(j), Word(peer));
      if Parity(j) == 1 {
        bank1[j % 128] := out.0;
        bank0[peer % 128] := out.1;
      } else {
        bank0[j % 128] := out.0;
        bank1[peer % 128] := out.1;
      }
      c := NextPosition(c);
    }

    method Clock(i: Input)
      requires Valid()
      modifies this, bank0, bank1
      ensures State() == Step(old(State()), i)
    {
      hide Parity, ButterflyStep, Merged, ScaledWord, Started, WriteBank0, WriteBank1, Read;
      if !i.rstN {
        c := RESET;
        return;
      }
      if Launches(c, i) {
        c := RESET.(phase := Zeroize, command := c.command, busy := true, zeroizeSeen := true);
        return;
      }
      if i.coeffWe && !c.busy && !i.zeroize {
        WriteWord(i.coeffAddr, Merged(Word(i.coeffAddr), i.coeffWdata, i.coeffWstrb));
      }
      if !i.zeroize {
        c := c.(zeroizeSeen := false);
      }
      match c.phase
      case Idle =>
        if i.start && !i.zeroize {
          c := Started(c, i.command);
        }
      case Butterfly =>
        DoButterfly();
      case Scale =>
        WriteWord(c.scaleIndex, ScaledWord(c.command, Word(c.scaleIndex)));
        c := if c.scaleIndex == 255 then c.(phase := Idle, busy := false, done := true)
             else c.(scaleIndex := (c.scaleIndex + 1) % 256);
      case Zeroize =>
        WriteWord(c.zeroizeIndex, 0);
        c := if c.zeroizeIndex == 255 then c.(phase := Idle, busy := false, done := false, zeroizeIndex := 0)
             else c.(zeroizeIndex := (c.zeroizeIndex + 1) % 256, busy := true, done := false);
    }
  }
}
