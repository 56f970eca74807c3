/** Keccak-f[1600] bit by bit, as section 3.2 of FIPS 202 defines it: the step mappings
    on single bits, the offsets of rho from their walk through the lanes, and the round
    constants from their shift register (firmware/fips202_lca.c:23, 58-71). */
module KeccakBits {
  import opened Words
  import opened KeccakF1600
  import opened LaneBits

  /** Bit (x, y, z) of a state (section 3.1.2). */
  function StateBit(s: Lanes, x: nat, y: nat, z: nat): bool
    requires x < 5 && y < 5 && z < 64
  {
    LaneBit(s[x + 5 * y], z)
  }

  /** The parity of five bits. */
  function Odd(a: bool, b: bool, c: bool, d: bool, e: bool): bool {
    a != (b != (c != (d != e)))
  }

  function ColumnBit(s: Lanes, x: nat, z: nat): bool
    requires x < 5 && z < 64
  {
    Odd(StateBit(s, x, 0, z), StateBit(s, x, 1, z), StateBit(s, x, 2, z), StateBit(s, x, 3, z), StateBit(s, x, 4, z))
  }

  lemma ParityBit(s: Lanes, x: nat, z: nat)
    requires x < 5 && z < 64
    ensures LaneBit(Parity(s, x), z) == ColumnBit(s, x, z)
  {
    hide LaneBit, Xor;
    var two := Xor(s[x], s[x + 5]);
    var three := Xor(two, s[x + 10]);
    var four := Xor(three, s[x + 15]);
    Bitwise(s[x], s[x + 5], z);
    Bitwise(two, s[x + 10], z);
    Bitwise(three, s[x + 15], z);
    Bitwise(four, s[x + 20], z);
  }

  lemma ThetaLane(s: Lanes, x: nat, y: nat)
    requires x < 5 && y < 5
    ensures Theta(s)[x + 5 * y] == Xor(s[x + 5 * y], Effect(s, x))
  {
    hide Xor, Effect;
    assert (x + 5 * y) % 5 == x;
  }

  /** The effect of the columns left and right, named so that no proof computes their places. */
  lemma EffectBit(s: Lanes, x: nat, left: nat, right: nat, z: nat)
    requires x < 5 && left == (x + 4) % 5 && right == (x + 1) % 5 && z < 64
    ensures LaneBit(Effect(s, x), z) == (ColumnBit(s, left, z) != ColumnBit(s, right, Below(z, 1)))
  {
    hide LaneBit, Xor, Rotl64, Parity, ColumnBit;
    Bitwise(Parity(s, left), Rotl64(Parity(s, right), 1), z);
    BitOfRotl(Parity(s, right), 1, z);
    ParityBit(s, left, z);
    ParityBit(s, right, Below(z, 1));
  }

  lemma BelowOne(z: nat)
    requires z < 64
    ensures Below(z, 1) == (z + 63) % 64
  {
  }

  /** Theta, Algorithm 1. */
  lemma ThetaBit(s: Lanes, x: nat, y: nat, z: nat)
    requires x < 5 && y < 5 && z < 64
    ensures StateBit(Theta(s), x, y, z) ==
            (StateBit(s, x, y, z) != (ColumnBit(s, (x + 4) % 5, z) != ColumnBit(s, (x + 1) % 5, (z + 63) % 64)))
  {
    hide LaneBit, Xor, Effect, ColumnBit, Theta, Below;
    ThetaLane(s, x, y);
    Bitwise(s[x + 5 * y], Effect(s, x), z);
    EffectBit(s, x, (x + 4) % 5, (x + 1) % 5, z);
    BelowOne(z);
  }

  /** Rho, Algorithm 2, once the offset of a lane is known. */
  lemma RhoBit(s: Lanes, x: nat, y: nat, z: nat)
    requires x < 5 && y < 5 && z < 64
    ensures StateBit(Rho(s), x, y, z) == StateBit(s, x, y, (z + 64 - RhoOffset(x + 5 * y)) % 64)
  {
    hide LaneBit, Rotl64;
    var n := RhoOffset(x + 5 * y);
    OffsetInUse(x + 5 * y);
    hide RhoOffset;
    BitOfRotl(s[x + 5 * y], n, z);
  }

  lemma OffsetInUse(lane: nat)
    requires lane < 25
    ensures RhoOffset(lane) in AMOUNTS
  {
  }

  /** Pi, Algorithm 3. */
  lemma PiBit(s: Lanes, x: nat, y: nat, z: nat)
    requires x < 5 && y < 5 && z < 64
    ensures StateBit(Pi(s), x, y, z) == StateBit(s, (x + 3 * y) % 5, x, z)
  {
    hide LaneBit;
    assert (x + 5 * y) % 5 == x && (x + 5 * y) / 5 == y;
  }

  lemma ChiLaneAt(s: Lanes, x: nat, y: nat)
    requires x < 5 && y < 5
    ensures Chi(s)[x + 5 * y] == Xor(s[x + 5 * y], And(Not(s[(x + 1) % 5 + 5 * y]), s[(x + 2) % 5 + 5 * y]))
  {
    hide Xor, And, Not;
    assert (x + 5 * y) % 5 == x && (x + 5 * y) / 5 == y;
  }

  /** Chi, Algorithm 4. */
  lemma ChiBit(s: Lanes, x: nat, y: nat, z: nat)
    requires x < 5 && y < 5 && z < 64
    ensures StateBit(Chi(s), x, y, z) ==
            (StateBit(s, x, y, z) != (!StateBit(s, (x + 1) % 5, y, z) && StateBit(s, (x + 2) % 5, y, z)))
  {
    hide LaneBit, Xor, And, Not;
    var next, second := s[(x + 1) % 5 + 5 * y], s[(x + 2) % 5 + 5 * y];
    ChiLaneAt(s, x, y);
    hide Chi;
    Bitwise(s[x + 5 * y], And(Not(next), second), z);
    Bitwise(Not(next), second, z);
    Bitwise(next, second, z);
  }

  // ----- the offsets of rho

  /** The lanes rho visits: (1, 0) first, then (y, 2x + 3y) after (x, y). */
  function Walk(t: nat): (p: (nat, nat)) {
    if t == 0 then (1, 0) else (Walk(t - 1).1, (2 * Walk(t - 1).0 + 3 * Walk(t - 1).1) % 5)
  }

  lemma WalkStep(t: nat, x: nat, y: nat)
    requires t > 0 && Walk(t - 1) == (x, y)
    ensures Walk(t) == (y, (2 * x + 3 * y) % 5)
  {
  }

  lemma Walk0To5()
    ensures Walk(0) == (1, 0)
    ensures Walk(1) == (0, 2)
    ensures Walk(2) == (2, 1)
    ensures Walk(3) == (1, 2)
    ensures Walk(4) == (2, 3)
    ensures Walk(5) == (3, 3)
  {
    assert Walk(0) == (1, 0);
    hide Walk;
    WalkStep(1, 1, 0);
    WalkStep(2, 0, 2);
    WalkStep(3, 2, 1);
    WalkStep(4, 1, 2);
    WalkStep(5, 2, 3);
  }

  lemma Walk6To11()
    requires Walk(5) == (3, 3)
    ensures Walk(6) == (3, 0)
    ensures Walk(7) == (0, 1)
    ensures Walk(8) == (1, 3)
    ensures Walk(9) == (3, 1)
    ensures Walk(10) == (1, 4)
    ensures Walk(11) == (4, 4)
  {
    hide Walk;
    WalkStep(6, 3, 3);
    WalkStep(7, 3, 0);
    WalkStep(8, 0, 1);
    WalkStep(9, 1, 3);
    WalkStep(10, 3, 1);
    WalkStep(11, 1, 4);
  }

  lemma Walk12To17()
    requires Walk(11) == (4, 4)
    ensures Walk(12) == (4, 0)
    ensures Walk(13) == (0, 3)
    ensures Walk(14) == (3, 4)
    ensures Walk(15) == (4, 3)
    ensures Walk(16) == (3, 2)
    ensures Walk(17) == (2, 2)
  {
    hide Walk;
    WalkStep(12, 4, 4);
    WalkStep(13, 4, 0);
    WalkStep(14, 0, 3);
    WalkStep(15, 3, 4);
    WalkStep(16, 4, 3);
    WalkStep(17, 3, 2);
  }

  lemma Walk18To23()
    requires Walk(17) == (2, 2)
    ensures Walk(18) == (2, 0)
    ensures Walk(19) == (0, 4)
    ensures Walk(20) == (4, 2)
    ensures Walk(21) == (2, 4)
    ensures Walk(22) == (4, 1)
    ensures Walk(23) == (1, 1)
  {
    hide Walk;
    WalkStep(18, 2, 2);
    WalkStep(19, 2, 0);
    WalkStep(20, 0, 4);
    WalkStep(21, 4, 2);
    WalkStep(22, 2, 4);
    WalkStep(23, 4, 1);
  }

  /** Every lane but (0, 0) is visited, and lane number t of the walk is rotated by
      (t + 1)(t + 2) / 2 modulo 64. */
  lemma RhoIsWalk(lane: nat) returns (t: nat)
    requires 0 < lane < 25
    ensures t < 24 && Walk(t) == (lane % 5, lane / 5)
    ensures RhoOffset(lane) == (t + 1) * (t + 2) / 2 % 64
  {
    hide Walk;
    Walk0To5();
    Walk6To11();
    Walk12To17();
    Walk18To23();
    match lane
    case 1 => t := 0;
    case 2 => t := 18;
    case 3 => t := 6;
    case 4 => t := 12;
    case 5 => t := 7;
    case 6 => t := 23;
    case 7 => t := 2;
    case 8 => t := 9;
    case 9 => t := 22;
    case 10 => t := 1;
    case 11 => t := 3;
    case 12 => t := 17;
    case 13 => t := 16;
    case 14 => t := 20;
    case 15 => t := 13;
    case 16 => t := 8;
    case 17 => t := 4;
    case 18 => t := 5;
    case 19 => t := 15;
    case 20 => t := 19;
    case 21 => t := 10;
    case 22 => t := 21;
    case 23 => t := 14;
    case _ => t := 11;
  }

  // ----- the round constants

  /** The register of Algorithm 5, R[0] first. */
  datatype Register = Register(r0: bool, r1: bool, r2: bool, r3: bool, r4: bool, r5: bool, r6: bool, r7: bool)

  /** Steps 3a to 3f: a zero in front, the last bit added to places 0, 4, 5 and 6. */
  function Clocked(r: Register): Register {
    Register(r.r7, r.r0, r.r1, r.r2, r.r3 != r.r7, r.r4 != r.r7, r.r5 != r.r7, r.r6)
  }

  function RegisterAfter(t: nat): Register {
    if t == 0 then Register(true, false, false, false, false, false, false, false) else Clocked(RegisterAfter(t - 1))
  }

  /** rc(t), Algorithm 5. */
  function Rc(t: nat): bool {
    RegisterAfter(t % 255).r0
  }

  /** Bit z of the constant of a round, Algorithm 6: bit 2^j - 1 is rc(j + 7 * round). */
  function ConstantBit(round: nat, z: nat): bool {
    match z
    case 0 => Rc(7 * round)
    case 1 => Rc(7 * round + 1)
    case 3 => Rc(7 * round + 2)
    case 7 => Rc(7 * round + 3)
    case 15 => Rc(7 * round + 4)
    case 31 => Rc(7 * round + 5)
    case 63 => Rc(7 * round + 6)
    case _ => false
  }

  function Clocks(r: Register, n: nat): Register {
    if n == 0 then r else Clocked(Clocks(r, n - 1))
  }

  lemma {:induction false} ClocksAdd(t: nat, n: nat)
    ensures RegisterAfter(t + n) == Clocks(RegisterAfter(t), n)
    decreases n
  {
    if n > 0 {
      ClocksAdd(t, n - 1);
    }
  }

  /** The register at the start of each round. */
  function RegisterOf(round: nat): Register
    requires round < 24
  {
    match round
    case 0 => Register(true, false, false, false, false, false, false, false)
    case 1 => Register(false, false, false, false, false, false, false, true)
    case 2 => Register(false, false, false, true, true, false, true, true)
    case 3 => Register(false, true, false, true, true, false, false, false)
    case 4 => Register(true, true, true, true, true, false, true, true)
    case 5 => Register(true, false, false, true, false, false, false, false)
    case 6 => Register(true, false, true, false, true, true, false, false)
    case 7 => Register(true, true, true, true, false, false, true, false)
    case 8 => Register(false, true, false, true, false, false, true, true)
    case 9 => Register(false, false, false, false, true, true, true, false)
    case 10 => Register(true, false, false, false, false, false, true, false)
    case 11 => Register(false, false, true, true, false, true, true, true)
    case 12 => Register(true, false, true, false, true, false, true, true)
    case 13 => Register(true, false, true, true, false, false, true, true)
    case 14 => Register(true, true, false, false, false, true, true, false)
    case 15 => Register(true, true, false, true, false, true, false, true)
    case 16 => Register(false, true, false, true, false, true, false, true)
    case 17 => Register(false, true, false, true, false, true, false, false)
    case 18 => Register(false, true, false, false, true, true, true, true)
    case 19 => Register(false, false, false, true, false, true, true, true)
    case 20 => Register(true, true, true, false, true, true, false, false)
    case 21 => Register(false, true, true, true, true, true, false, false)
    case 22 => Register(true, true, false, true, false, false, false, false)
    case _ => Register(false, false, true, false, false, false, true, false)
  }

  lemma ClockMore(r: Register, n: nat)
    requires n > 0
    ensures Clocks(r, n) == Clocked(Clocks(r, n - 1))
  {
  }

  lemma FewClocks(r: Register)
    ensures Clocks(r, 0) == r
    ensures Clocks(r, 1) == Clocked(r)
    ensures Clocks(r, 2) == Clocked(Clocked(r))
    ensures Clocks(r, 3) == Clocked(Clocked(Clocked(r)))
    ensures Clocks(r, 4) == Clocked(Clocked(Clocked(Clocked(r))))
    ensures Clocks(r, 5) == Clocked(Clocked(Clocked(Clocked(Clocked(r)))))
    ensures Clocks(r, 6) == Clocked(Clocked(Clocked(Clocked(Clocked(Clocked(r))))))
    ensures Clocks(r, 7) == Clocked(Clocked(Clocked(Clocked(Clocked(Clocked(Clocked(r)))))))
  {
    assert Clocks(r, 0) == r;
    hide Clocked, Clocks;
    ClockMore(r, 1);
    ClockMore(r, 2);
    ClockMore(r, 3);
    ClockMore(r, 4);
    ClockMore(r, 5);
    ClockMore(r, 6);
    ClockMore(r, 7);
  }

  function Seven(r: Register): Register {
    Clocked(Clocked(Clocked(Clocked(Clocked(Clocked(Clocked(r)))))))
  }

  lemma NextRegister(round: nat)
    requires round < 23
    ensures RegisterOf(round + 1) == Seven(RegisterOf(round))
  {
    match round
    case 0 => case 1 => case 2 => case 3 => case 4 => case 5 => case 6 => case 7 =>
    case 8 => case 9 => case 10 => case 11 => case 12 => case 13 => case 14 => case 15 =>
    case 16 => case 17 => case 18 => case 19 => case 20 => case 21 => case _ =>
  }

  lemma {:induction false} RegisterAtRound(round: nat)
    requires round < 24
    ensures RegisterAfter(7 * round) == RegisterOf(round)
    decreases round
  {
    hide RegisterOf;
    if round == 0 {
      FirstRegister();
    } else {
      RegisterAtRound(round - 1);
      ClocksAdd(7 * (round - 1), 7);
      hide Clocks, RegisterAfter, Clocked;
      FewClocks(RegisterOf(round - 1));
      NextRegister(round - 1);
    }
  }

  lemma FirstRegister()
    ensures RegisterAfter(0) == RegisterOf(0)
  {
  }

  /** The word with the seven bits of Algorithm 6. */
  function Spread(b0: bool, b1: bool, b2: bool, b3: bool, b4: bool, b5: bool, b6: bool): bv64 {
    (if b0 then 0x0000000000000001 else 0) | (if b1 then 0x0000000000000002 else 0) | (if b2 then 0x0000000000000008 else 0)
    | (if b3 then 0x0000000000000080 else 0) | (if b4 then 0x0000000000008000 else 0)
    | (if b5 then 0x0000000080000000 else 0) | (if b6 then 0x8000000000000000 else 0)
  }

  lemma RcOf(round: nat, j: nat)
    requires round < 24 && j < 7
    ensures Rc(7 * round + j) == Clocks(RegisterOf(round), j).r0
  {
    hide RegisterOf, RegisterAfter, Clocks;
    RegisterAtRound(round);
    ClocksAdd(7 * round, j);
    assert (7 * round + j) % 255 == 7 * round + j;
  }

  /** Bit z of a spread word: one of the seven, or clear. */
  function SpreadAt(b0: bool, b1: bool, b2: bool, b3: bool, b4: bool, b5: bool, b6: bool, z: nat): bool {
    match z
    case 0 => b0
    case 1 => b1
    case 3 => b2
    case 7 => b3
    case 15 => b4
    case 31 => b5
    case 63 => b6
    case _ => false
  }

  lemma SpreadByte0(b0: bool, b1: bool, b2: bool, b3: bool, b4: bool, b5: bool, b6: bool, k: nat)
    requires k < 8
    ensures Meets(Spread(b0, b1, b2, b3, b4, b5, b6), Mask0(k)) == SpreadAt(b0, b1, b2, b3, b4, b5, b6, 0 + k)
  {
    match k
    case 0 => case 1 => case 2 => case 3 => case 4 => case 5 => case 6 => case _ =>
  }

  lemma SpreadByte1(b0: bool, b1: bool, b2: bool, b3: bool, b4: bool, b5: bool, b6: bool, k: nat)
    requires k < 8
    ensures Meets(Spread(b0, b1, b2, b3, b4, b5, b6), Mask1(k)) == SpreadAt(b0, b1, b2, b3, b4, b5, b6, 8 + k)
  {
    match k
    case 0 => case 1 => case 2 => case 3 => case 4 => case 5 => case 6 => case _ =>
  }

  lemma SpreadByte2(b0: bool, b1: bool, b2: bool, b3: bool, b4: bool, b5: bool, b6: bool, k: nat)
    requires k < 8
    ensures Meets(Spread(b0, b1, b2, b3, b4, b5, b6), Mask2(k)) == SpreadAt(b0, b1, b2, b3, b4, b5, b6, 16 + k)
  {
    match k
    case 0 => case 1 => case 2 => case 3 => case 4 => case 5 => case 6 => case _ =>
  }

  lemma SpreadByte3(b0: bool, b1: bool, b2: bool, b3: bool, b4: bool, b5: bool, b6: bool, k: nat)
    requires k < 8
    ensures Meets(Spread(b0, b1, b2, b3, b4, b5, b6), Mask3(k)) == SpreadAt(b0, b1, b2, b3, b4, b5, b6, 24 + k)
  {
    match k
    case 0 => case 1 => case 2 => case 3 => case 4 => case 5 => case 6 => case _ =>
  }

  lemma SpreadByte4(b0: bool, b1: bool, b2: bool, b3: bool, b4: bool, b5: bool, b6: bool, k: nat)
    requires k < 8
    ensures Meets(Spread(b0, b1, b2, b3, b4, b5, b6), Mask4(k)) == SpreadAt(b0, b1, b2, b3, b4, b5, b6, 32 + k)
  {
    match k
    case 0 => case 1 => case 2 => case 3 => case 4 => case 5 => case 6 => case _ =>
  }

  lemma SpreadByte5(b0: bool, b1: bool, b2: bool, b3: bool, b4: bool, b5: bool, b6: bool, k: nat)
    requires k < 8
    ensures Meets(Spread(b0, b1, b2, b3, b4, b5, b6), Mask5(k)) == SpreadAt(b0, b1, b2, b3, b4, b5, b6, 40 + k)
  {
    match k
    case 0 => case 1 => case 2 => case 3 => case 4 => case 5 => case 6 => case _ =>
  }

  lemma SpreadByte6(b0: bool, b1: bool, b2: bool, b3: bool, b4: bool, b5: bool, b6: bool, k: nat)
    requires k < 8
    ensures Meets(Spread(b0, b1, b2, b3, b4, b5, b6), Mask6(k)) == SpreadAt(b0, b1, b2, b3, b4, b5, b6, 48 + k)
  {
    match k
    case 0 => case 1 => case 2 => case 3 => case 4 => case 5 => case 6 => case _ =>
  }

  lemma SpreadByte7(b0: bool, b1: bool, b2: bool, b3: bool, b4: bool, b5: bool, b6: bool, k: nat)
    requires k < 8
    ensures Meets(Spread(b0, b1, b2, b3, b4, b5, b6), Mask7(k)) == SpreadAt(b0, b1, b2, b3, b4, b5, b6, 56 + k)
  {
    match k
    case 0 => case 1 => case 2 => case 3 => case 4 => case 5 => case 6 => case _ =>
  }

  lemma SpreadBit(b0: bool, b1: bool, b2: bool, b3: bool, b4: bool, b5: bool, b6: bool, z: nat)
    requires z < 64
    ensures LaneBit(Lane(Spread(b0, b1, b2, b3, b4, b5, b6)), z) == SpreadAt(b0, b1, b2, b3, b4, b5, b6, z)
  {
    hide Spread, SpreadAt, Meets, Mask0, Mask1, Mask2, Mask3, Mask4, Mask5, Mask6, Mask7;
    match z / 8
    case 0 => SpreadByte0(b0, b1, b2, b3, b4, b5, b6, z % 8);
    case 1 => SpreadByte1(b0, b1, b2, b3, b4, b5, b6, z % 8);
    case 2 => SpreadByte2(b0, b1, b2, b3, b4, b5, b6, z % 8);
    case 3 => SpreadByte3(b0, b1, b2, b3, b4, b5, b6, z % 8);
    case 4 => SpreadByte4(b0, b1, b2, b3, b4, b5, b6, z % 8);
    case 5 => SpreadByte5(b0, b1, b2, b3, b4, b5, b6, z % 8);
    case 6 => SpreadByte6(b0, b1, b2, b3, b4, b5, b6, z % 8);
    case _ => SpreadByte7(b0, b1, b2, b3, b4, b5, b6, z % 8);
  }

  /** The word Algorithm 6 builds from the register at the start of a round. */
  function ConstantWord(r: Register): bv64 {
    Spread(r.r0, Clocks(r, 1).r0, Clocks(r, 2).r0, Clocks(r, 3).r0, Clocks(r, 4).r0, Clocks(r, 5).r0, Clocks(r, 6).r0)
  }

  lemma FirstConstants(round: nat)
    requires 0 <= round < 6
    ensures RoundConstant(round).bits == ConstantWord(RegisterOf(round))
  {
    FewClocks(RegisterOf(round));
    hide Clocks;
    match round
    case 0 => case 1 => case 2 => case 3 => case 4 => case _ =>
  }

  lemma SecondConstants(round: nat)
    requires 6 <= round < 12
    ensures RoundConstant(round).bits == ConstantWord(RegisterOf(round))
  {
    FewClocks(RegisterOf(round));
    hide Clocks;
    match round
    case 6 => case 7 => case 8 => case 9 => case 10 => case _ =>
  }

  lemma ThirdConstants(round: nat)
    requires 12 <= round < 18
    ensures RoundConstant(round).bits == ConstantWord(RegisterOf(round))
  {
    FewClocks(RegisterOf(round));
    hide Clocks;
    match round
    case 12 => case 13 => case 14 => case 15 => case 16 => case _ =>
  }

  lemma FourthConstants(round: nat)
    requires 18 <= round < 21
    ensures RoundConstant(round).bits == ConstantWord(RegisterOf(round))
  {
    FewClocks(RegisterOf(round));
    hide Clocks;
    match round
    case 18 => case 19 => case _ =>
  }

  lemma LastConstants(round: nat)
    requires 21 <= round < 24
    ensures RoundConstant(round).bits == ConstantWord(RegisterOf(round))
  {
    FewClocks(RegisterOf(round));
    hide Clocks;
    match round
    case 21 => case 22 => case _ =>
  }

  /** Each table entry is the word of its register. */
  lemma ConstantIsWord(round: nat)
    requires round < 24
    ensures RoundConstant(round).bits == ConstantWord(RegisterOf(round))
  {
    hide RoundConstant, ConstantWord, RegisterOf;
    if round < 6 {
      FirstConstants(round);
    } else if round < 12 {
      SecondConstants(round);
    } else if round < 18 {
      ThirdConstants(round);
    } else if round < 21 {
      FourthConstants(round);
    } else {
      LastConstants(round);
    }
  }

  /** The constant of every round is the one of section 3.2.5: bit 2^j - 1 is rc(j + 7 * round)
      for j from 0 to 6, and every other bit is clear. */
  lemma RoundConstantBits(round: nat, z: nat)
    requires round < 24 && z < 64
    ensures LaneBit(RoundConstant(round), z) == ConstantBit(round, z)
  {
    hide LaneBit, RoundConstant, RegisterOf, Clocks, Spread, Rc;
    var r := RegisterOf(round);
    RcOf(round, 0);
    RcOf(round, 1);
    RcOf(round, 2);
    RcOf(round, 3);
    RcOf(round, 4);
    RcOf(round, 5);
    RcOf(round, 6);
    NoClocks(r);
    ConstantIsWord(round);
    SpreadBit(r.r0, Clocks(r, 1).r0, Clocks(r, 2).r0, Clocks(r, 3).r0, Clocks(r, 4).r0, Clocks(r, 5).r0, Clocks(r, 6).r0, z);
  }

  lemma NoClocks(r: Register)
    ensures Clocks(r, 0) == r
  {
  }

  /** Iota: the constant is added to lane (0, 0) and to no other. */
  lemma IotaBit(s: Lanes, round: nat, x: nat, y: nat, z: nat)
    requires round < 24 && x < 5 && y < 5 && z < 64
    ensures StateBit(Iota(s, RoundConstant(round)), x, y, z) ==
            (StateBit(s, x, y, z) != (x == 0 && y == 0 && ConstantBit(round, z)))
  {
    hide LaneBit, Xor, RoundConstant, ConstantBit;
    RoundConstantBits(round, z);
    Bitwise(s[0], RoundConstant(round), z);
  }
}
