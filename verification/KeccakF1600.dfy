/** The Keccak-f[1600] permutation: the step mappings of section 3.2 of FIPS 202 and
    the unrolled two-rounds-a-pass form (firmware/fips202_lca.c:23-341). */
module KeccakF1600 {
  import opened Words

  // ----- rotations: the firmware's macro and the reference's function

  function ROL(a: Lane, offset: nat): Lane
    requires 0 < offset < 64
  {
    Lane((a.bits << offset) ^ (a.bits >> (64 - offset)))
  }

  function Rotl64(value: Lane, amount: nat): Lane
    requires amount < 64
  {
    if amount == 0 then value else Lane((value.bits << amount) | (value.bits >> (64 - amount)))
  }

  function RhoOffset(lane: nat): (amount: nat)
    requires lane < 25
    ensures amount < 64 && (amount == 0 <==> lane == 0)
  {
    match lane
    case 0 => 0
    case 1 => 1
    case 2 => 62
    case 3 => 28
    case 4 => 27
    case 5 => 36
    case 6 => 44
    case 7 => 6
    case 8 => 55
    case 9 => 20
    case 10 => 3
    case 11 => 10
    case 12 => 43
    case 13 => 25
    case 14 => 39
    case 15 => 41
    case 16 => 45
    case 17 => 15
    case 18 => 21
    case 19 => 8
    case 20 => 18
    case 21 => 2
    case 22 => 61
    case 23 => 56
    case _ => 14
  }

  function RoundConstant(round: nat): Lane
    requires round < 24
  {
    match round
    case 0 => Lane(0x0000000000000001)
    case 1 => Lane(0x0000000000008082)
    case 2 => Lane(0x800000000000808a)
    case 3 => Lane(0x8000000080008000)
    case 4 => Lane(0x000000000000808b)
    case 5 => Lane(0x0000000080000001)
    case 6 => Lane(0x8000000080008081)
    case 7 => Lane(0x8000000000008009)
    case 8 => Lane(0x000000000000008a)
    case 9 => Lane(0x0000000000000088)
    case 10 => Lane(0x0000000080008009)
    case 11 => Lane(0x000000008000000a)
    case 12 => Lane(0x000000008000808b)
    case 13 => Lane(0x800000000000008b)
    case 14 => Lane(0x8000000000008089)
    case 15 => Lane(0x8000000000008003)
    case 16 => Lane(0x8000000000008002)
    case 17 => Lane(0x8000000000000080)
    case 18 => Lane(0x000000000000800a)
    case 19 => Lane(0x800000008000000a)
    case 20 => Lane(0x8000000080008081)
    case 21 => Lane(0x8000000000008080)
    case 22 => Lane(0x0000000080000001)
    case _ => Lane(0x8000000080008008)
  }

  // ----- FIPS 202, sections 3.2.1 to 3.2.5: lane (x, y) is s[x + 5y]

  function Parity(s: Lanes, x: nat): Lane
    requires x < 5
  {
    Xor(Xor(Xor(Xor(s[x], s[x + 5]), s[x + 10]), s[x + 15]), s[x + 20])
  }

  function Effect(s: Lanes, x: nat): Lane
    requires x < 5
  {
    Xor(Parity(s, (x + 4) % 5), Rotl64(Parity(s, (x + 1) % 5), 1))
  }

  function Theta(s: Lanes): Lanes {
    seq(25, i requires 0 <= i < 25 => Xor(s[i], Effect(s, i % 5)))
  }

  function Rho(s: Lanes): Lanes {
    seq(25, i requires 0 <= i < 25 => Rotl64(s[i], RhoOffset(i)))
  }

  function Pi(s: Lanes): Lanes {
    seq(25, i requires 0 <= i < 25 => s[(i % 5 + 3 * (i / 5)) % 5 + 5 * (i % 5)])
  }

  function ChiLane(s: Lanes, x: nat, y: nat): Lane
    requires x < 5 && y < 5
  {
    Xor(s[x + 5 * y], And(Not(s[(x + 1) % 5 + 5 * y]), s[(x + 2) % 5 + 5 * y]))
  }

  function Chi(s: Lanes): Lanes {
    seq(25, i requires 0 <= i < 25 => ChiLane(s, i % 5, i / 5))
  }

  function Iota(s: Lanes, rc: Lane): Lanes {
    s[0 := Xor(s[0], rc)]
  }

  /** Rnd of section 3.3. */
  function Round(s: Lanes, rc: Lane): Lanes {
    Iota(Chi(Pi(Rho(Theta(s)))), rc)
  }

  /** The first n rounds. */
  function Rounds(s: Lanes, n: nat): Lanes
    requires n <= 24
  {
    if n == 0 then s else Round(Rounds(s, n - 1), RoundConstant(n - 1))
  }

  /** Keccak-f[1600], section 3.4: twenty-four rounds. */
  function KeccakF(s: Lanes): Lanes {
    Rounds(s, 24)
  }

  // ----- the macro is the rotation, at every amount the code uses

  lemma RotateBy1(a: Lane)
    ensures ROL(a, 1) == Rotl64(a, 1)
  {
  }

  lemma RotateBy2(a: Lane)
    ensures ROL(a, 2) == Rotl64(a, 2)
  {
  }

  lemma RotateBy3(a: Lane)
    ensures ROL(a, 3) == Rotl64(a, 3)
  {
  }

  lemma RotateBy6(a: Lane)
    ensures ROL(a, 6) == Rotl64(a, 6)
  {
  }

  lemma RotateBy8(a: Lane)
    ensures ROL(a, 8) == Rotl64(a, 8)
  {
  }

  lemma RotateBy10(a: Lane)
    ensures ROL(a, 10) == Rotl64(a, 10)
  {
  }

  lemma RotateBy14(a: Lane)
    ensures ROL(a, 14) == Rotl64(a, 14)
  {
  }

  lemma RotateBy15(a: Lane)
    ensures ROL(a, 15) == Rotl64(a, 15)
  {
  }

  lemma RotateBy18(a: Lane)
    ensures ROL(a, 18) == Rotl64(a, 18)
  {
  }

  lemma RotateBy20(a: Lane)
    ensures ROL(a, 20) == Rotl64(a, 20)
  {
  }

  lemma RotateBy21(a: Lane)
    ensures ROL(a, 21) == Rotl64(a, 21)
  {
  }

  lemma RotateBy25(a: Lane)
    ensures ROL(a, 25) == Rotl64(a, 25)
  {
  }

  lemma RotateBy27(a: Lane)
    ensures ROL(a, 27) == Rotl64(a, 27)
  {
  }

  lemma RotateBy28(a: Lane)
    ensures ROL(a, 28) == Rotl64(a, 28)
  {
  }

  lemma RotateBy36(a: Lane)
    ensures ROL(a, 36) == Rotl64(a, 36)
  {
  }

  lemma RotateBy39(a: Lane)
    ensures ROL(a, 39) == Rotl64(a, 39)
  {
  }

  lemma RotateBy41(a: Lane)
    ensures ROL(a, 41) == Rotl64(a, 41)
  {
  }

  lemma RotateBy43(a: Lane)
    ensures ROL(a, 43) == Rotl64(a, 43)
  {
  }

  lemma RotateBy44(a: Lane)
    ensures ROL(a, 44) == Rotl64(a, 44)
  {
  }

  lemma RotateBy45(a: Lane)
    ensures ROL(a, 45) == Rotl64(a, 45)
  {
  }

  lemma RotateBy55(a: Lane)
    ensures ROL(a, 55) == Rotl64(a, 55)
  {
  }

  lemma RotateBy56(a: Lane)
    ensures ROL(a, 56) == Rotl64(a, 56)
  {
  }

  lemma RotateBy61(a: Lane)
    ensures ROL(a, 61) == Rotl64(a, 61)
  {
  }

  lemma RotateBy62(a: Lane)
    ensures ROL(a, 62) == Rotl64(a, 62)
  {
  }

  lemma MacroIsRotation(a: Lane, lane: nat)
    requires 0 < lane < 25
    ensures ROL(a, RhoOffset(lane)) == Rotl64(a, RhoOffset(lane))
  {
    hide ROL, Rotl64;
    match lane
    case 1 => RotateBy1(a);
    case 2 => RotateBy62(a);
    case 3 => RotateBy28(a);
    case 4 => RotateBy27(a);
    case 5 => RotateBy36(a);
    case 6 => RotateBy44(a);
    case 7 => RotateBy6(a);
    case 8 => RotateBy55(a);
    case 9 => RotateBy20(a);
    case 10 => RotateBy3(a);
    case 11 => RotateBy10(a);
    case 12 => RotateBy43(a);
    case 13 => RotateBy25(a);
    case 14 => RotateBy39(a);
    case 15 => RotateBy41(a);
    case 16 => RotateBy45(a);
    case 17 => RotateBy15(a);
    case 18 => RotateBy21(a);
    case 19 => RotateBy8(a);
    case 20 => RotateBy18(a);
    case 21 => RotateBy2(a);
    case 22 => RotateBy61(a);
    case 23 => RotateBy56(a);
    case 24 => RotateBy14(a);
  }

  // ----- the round, lane by lane, over the firmware's macro

  lemma Parities(s: Lanes)
    ensures Parity(s, 0) == Xor(Xor(Xor(Xor(s[0], s[5]), s[10]), s[15]), s[20])
    ensures Parity(s, 1) == Xor(Xor(Xor(Xor(s[1], s[6]), s[11]), s[16]), s[21])
    ensures Parity(s, 2) == Xor(Xor(Xor(Xor(s[2], s[7]), s[12]), s[17]), s[22])
    ensures Parity(s, 3) == Xor(Xor(Xor(Xor(s[3], s[8]), s[13]), s[18]), s[23])
    ensures Parity(s, 4) == Xor(Xor(Xor(Xor(s[4], s[9]), s[14]), s[19]), s[24])
  {
  }

  lemma Effects(s: Lanes)
    ensures Effect(s, 0) == Xor(Parity(s, 4), ROL(Parity(s, 1), 1))
    ensures Effect(s, 1) == Xor(Parity(s, 0), ROL(Parity(s, 2), 1))
    ensures Effect(s, 2) == Xor(Parity(s, 1), ROL(Parity(s, 3), 1))
    ensures Effect(s, 3) == Xor(Parity(s, 2), ROL(Parity(s, 4), 1))
    ensures Effect(s, 4) == Xor(Parity(s, 3), ROL(Parity(s, 0), 1))
  {
    hide Xor, Parity;
    MacroIsRotation(Parity(s, 0), 1);
    MacroIsRotation(Parity(s, 1), 1);
    MacroIsRotation(Parity(s, 2), 1);
    MacroIsRotation(Parity(s, 3), 1);
    MacroIsRotation(Parity(s, 4), 1);
  }

  lemma ThetaRhoLane(s: Lanes, i: nat)
    requires 0 < i < 25
    ensures Rho(Theta(s))[i] == ROL(Xor(s[i], Effect(s, i % 5)), RhoOffset(i))
  {
    hide Xor, Effect, ROL, Rotl64, RhoOffset;
    MacroIsRotation(Theta(s)[i], i);
  }

  lemma ThetaRhoRow0(s: Lanes)
    ensures Rho(Theta(s))[0] == Xor(s[0], Effect(s, 0))
    ensures Rho(Theta(s))[1] == ROL(Xor(s[1], Effect(s, 1)), 1)
    ensures Rho(Theta(s))[2] == ROL(Xor(s[2], Effect(s, 2)), 62)
    ensures Rho(Theta(s))[3] == ROL(Xor(s[3], Effect(s, 3)), 28)
    ensures Rho(Theta(s))[4] == ROL(Xor(s[4], Effect(s, 4)), 27)
  {
    hide Xor, Effect, ROL;
    ThetaRhoLane(s, 1);
    ThetaRhoLane(s, 2);
    ThetaRhoLane(s, 3);
    ThetaRhoLane(s, 4);
  }

  lemma ThetaRhoRow1(s: Lanes)
    ensures Rho(Theta(s))[5] == ROL(Xor(s[5], Effect(s, 0)), 36)
    ensures Rho(Theta(s))[6] == ROL(Xor(s[6], Effect(s, 1)), 44)
    ensures Rho(Theta(s))[7] == ROL(Xor(s[7], Effect(s, 2)), 6)
    ensures Rho(Theta(s))[8] == ROL(Xor(s[8], Effect(s, 3)), 55)
    ensures Rho(Theta(s))[9] == ROL(Xor(s[9], Effect(s, 4)), 20)
  {
    hide Xor, Effect, ROL, Rho, Theta;
    ThetaRhoLane(s, 5);
    ThetaRhoLane(s, 6);
    ThetaRhoLane(s, 7);
    ThetaRhoLane(s, 8);
    ThetaRhoLane(s, 9);
  }

  lemma ThetaRhoRow2(s: Lanes)
    ensures Rho(Theta(s))[10] == ROL(Xor(s[10], Effect(s, 0)), 3)
    ensures Rho(Theta(s))[11] == ROL(Xor(s[11], Effect(s, 1)), 10)
    ensures Rho(Theta(s))[12] == ROL(Xor(s[12], Effect(s, 2)), 43)
    ensures Rho(Theta(s))[13] == ROL(Xor(s[13], Effect(s, 3)), 25)
    ensures Rho(Theta(s))[14] == ROL(Xor(s[14], Effect(s, 4)), 39)
  {
    hide Xor, Effect, ROL, Rho, Theta;
    ThetaRhoLane(s, 10);
    ThetaRhoLane(s, 11);
    ThetaRhoLane(s, 12);
    ThetaRhoLane(s, 13);
    ThetaRhoLane(s, 14);
  }

  lemma ThetaRhoRow3(s: Lanes)
    ensures Rho(Theta(s))[15] == ROL(Xor(s[15], Effect(s, 0)), 41)
    ensures Rho(Theta(s))[16] == ROL(Xor(s[16], Effect(s, 1)), 45)
    ensures Rho(Theta(s))[17] == ROL(Xor(s[17], Effect(s, 2)), 15)
    ensures Rho(Theta(s))[18] == ROL(Xor(s[18], Effect(s, 3)), 21)
    ensures Rho(Theta(s))[19] == ROL(Xor(s[19], Effect(s, 4)), 8)
  {
    hide Xor, Effect, ROL, Rho, Theta;
    ThetaRhoLane(s, 15);
    ThetaRhoLane(s, 16);
    ThetaRhoLane(s, 17);
    ThetaRhoLane(s, 18);
    ThetaRhoLane(s, 19);
  }

  lemma ThetaRhoRow4(s: Lanes)
    ensures Rho(Theta(s))[20] == ROL(Xor(s[20], Effect(s, 0)), 18)
    ensures Rho(Theta(s))[21] == ROL(Xor(s[21], Effect(s, 1)), 2)
    ensures Rho(Theta(s))[22] == ROL(Xor(s[22], Effect(s, 2)), 61)
    ensures Rho(Theta(s))[23] == ROL(Xor(s[23], Effect(s, 3)), 56)
    ensures Rho(Theta(s))[24] == ROL(Xor(s[24], Effect(s, 4)), 14)
  {
    hide Xor, Effect, ROL, Rho, Theta;
    ThetaRhoLane(s, 20);
    ThetaRhoLane(s, 21);
    ThetaRhoLane(s, 22);
    ThetaRhoLane(s, 23);
    ThetaRhoLane(s, 24);
  }

  lemma PiRow0(b: Lanes)
    ensures Pi(b)[0] == b[0]
    ensures Pi(b)[1] == b[6]
    ensures Pi(b)[2] == b[12]
    ensures Pi(b)[3] == b[18]
    ensures Pi(b)[4] == b[24]
  {
  }

  lemma PiRow1(b: Lanes)
    ensures Pi(b)[5] == b[3]
    ensures Pi(b)[6] == b[9]
    ensures Pi(b)[7] == b[10]
    ensures Pi(b)[8] == b[16]
    ensures Pi(b)[9] == b[22]
  {
  }

  lemma PiRow2(b: Lanes)
    ensures Pi(b)[10] == b[1]
    ensures Pi(b)[11] == b[7]
    ensures Pi(b)[12] == b[13]
    ensures Pi(b)[13] == b[19]
    ensures Pi(b)[14] == b[20]
  {
  }

  lemma PiRow3(b: Lanes)
    ensures Pi(b)[15] == b[4]
    ensures Pi(b)[16] == b[5]
    ensures Pi(b)[17] == b[11]
    ensures Pi(b)[18] == b[17]
    ensures Pi(b)[19] == b[23]
  {
  }

  lemma PiRow4(b: Lanes)
    ensures Pi(b)[20] == b[2]
    ensures Pi(b)[21] == b[8]
    ensures Pi(b)[22] == b[14]
    ensures Pi(b)[23] == b[15]
    ensures Pi(b)[24] == b[21]
  {
  }

  lemma ChiRow(s: Lanes, y: nat)
    requires y < 5
    ensures Chi(s)[0 + 5 * y] == Xor(s[0 + 5 * y], And(Not(s[1 + 5 * y]), s[2 + 5 * y]))
    ensures Chi(s)[1 + 5 * y] == Xor(s[1 + 5 * y], And(Not(s[2 + 5 * y]), s[3 + 5 * y]))
    ensures Chi(s)[2 + 5 * y] == Xor(s[2 + 5 * y], And(Not(s[3 + 5 * y]), s[4 + 5 * y]))
    ensures Chi(s)[3 + 5 * y] == Xor(s[3 + 5 * y], And(Not(s[4 + 5 * y]), s[0 + 5 * y]))
    ensures Chi(s)[4 + 5 * y] == Xor(s[4 + 5 * y], And(Not(s[0 + 5 * y]), s[1 + 5 * y]))
  {
    hide Xor, And, Not;
    assert (0 + 5 * y) / 5 == y;
    assert (1 + 5 * y) / 5 == y;
    assert (2 + 5 * y) / 5 == y;
    assert (3 + 5 * y) / 5 == y;
    assert (4 + 5 * y) / 5 == y;
  }

  lemma RoundRow0(s: Lanes, rc: Lane)
    ensures Round(s, rc)[0] ==
              Xor(Xor(Xor(s[0], Effect(s, 0)), And(Not(ROL(Xor(s[6], Effect(s, 1)), 44)), ROL(Xor(s[12], Effect(s, 2)), 43))), rc)
    ensures Round(s, rc)[1] ==
              Xor(ROL(Xor(s[6], Effect(s, 1)), 44), And(Not(ROL(Xor(s[12], Effect(s, 2)), 43)), ROL(Xor(s[18], Effect(s, 3)), 21)))
    ensures Round(s, rc)[2] ==
              Xor(ROL(Xor(s[12], Effect(s, 2)), 43), And(Not(ROL(Xor(s[18], Effect(s, 3)), 21)), ROL(Xor(s[24], Effect(s, 4)), 14)))
    ensures Round(s, rc)[3] ==
              Xor(ROL(Xor(s[18], Effect(s, 3)), 21), And(Not(ROL(Xor(s[24], Effect(s, 4)), 14)), Xor(s[0], Effect(s, 0))))
    ensures Round(s, rc)[4] ==
              Xor(ROL(Xor(s[24], Effect(s, 4)), 14), And(Not(Xor(s[0], Effect(s, 0))), ROL(Xor(s[6], Effect(s, 1)), 44)))
  {
    hide ROL, Rotl64, Xor, And, Not, Rho, Pi, Chi, Theta, Effect;
    var b := Rho(Theta(s));
    ThetaRhoRow0(s);
    ThetaRhoRow1(s);
    ThetaRhoRow2(s);
    ThetaRhoRow3(s);
    ThetaRhoRow4(s);
    PiRow0(b);
    ChiRow(Pi(b), 0);
  }

  lemma RoundRow1(s: Lanes, rc: Lane)
    ensures Round(s, rc)[5] ==
              Xor(ROL(Xor(s[3], Effect(s, 3)), 28), And(Not(ROL(Xor(s[9], Effect(s, 4)), 20)), ROL(Xor(s[10], Effect(s, 0)), 3)))
    ensures Round(s, rc)[6] ==
              Xor(ROL(Xor(s[9], Effect(s, 4)), 20), And(Not(ROL(Xor(s[10], Effect(s, 0)), 3)), ROL(Xor(s[16], Effect(s, 1)), 45)))
    ensures Round(s, rc)[7] ==
              Xor(ROL(Xor(s[10], Effect(s, 0)), 3), And(Not(ROL(Xor(s[16], Effect(s, 1)), 45)), ROL(Xor(s[22], Effect(s, 2)), 61)))
    ensures Round(s, rc)[8] ==
              Xor(ROL(Xor(s[16], Effect(s, 1)), 45), And(Not(ROL(Xor(s[22], Effect(s, 2)), 61)), ROL(Xor(s[3], Effect(s, 3)), 28)))
    ensures Round(s, rc)[9] ==
              Xor(ROL(Xor(s[22], Effect(s, 2)), 61), And(Not(ROL(Xor(s[3], Effect(s, 3)), 28)), ROL(Xor(s[9], Effect(s, 4)), 20)))
  {
    hide ROL, Rotl64, Xor, And, Not, Rho, Pi, Chi, Theta, Effect;
    var b := Rho(Theta(s));
    ThetaRhoRow0(s);
    ThetaRhoRow1(s);
    ThetaRhoRow2(s);
    ThetaRhoRow3(s);
    ThetaRhoRow4(s);
    PiRow1(b);
    ChiRow(Pi(b), 1);
  }

  lemma RoundRow2(s: Lanes, rc: Lane)
    ensures Round(s, rc)[10] ==
              Xor(ROL(Xor(s[1], Effect(s, 1)), 1), And(Not(ROL(Xor(s[7], Effect(s, 2)), 6)), ROL(Xor(s[13], Effect(s, 3)), 25)))
    ensures Round(s, rc)[11] ==
              Xor(ROL(Xor(s[7], Effect(s, 2)), 6), And(Not(ROL(Xor(s[13], Effect(s, 3)), 25)), ROL(Xor(s[19], Effect(s, 4)), 8)))
    ensures Round(s, rc)[12] ==
              Xor(ROL(Xor(s[13], Effect(s, 3)), 25), And(Not(ROL(Xor(s[19], Effect(s, 4)), 8)), ROL(Xor(s[20], Effect(s, 0)), 18)))
    ensures Round(s, rc)[13] ==
              Xor(ROL(Xor(s[19], Effect(s, 4)), 8), And(Not(ROL(Xor(s[20], Effect(s, 0)), 18)), ROL(Xor(s[1], Effect(s, 1)), 1)))
    ensures Round(s, rc)[14] ==
              Xor(ROL(Xor(s[20], Effect(s, 0)), 18), And(Not(ROL(Xor(s[1], Effect(s, 1)), 1)), ROL(Xor(s[7], Effect(s, 2)), 6)))
  {
    hide ROL, Rotl64, Xor, And, Not, Rho, Pi, Chi, Theta, Effect;
    var b := Rho(Theta(s));
    ThetaRhoRow0(s);
    ThetaRhoRow1(s);
    ThetaRhoRow2(s);
    ThetaRhoRow3(s);
    ThetaRhoRow4(s);
    PiRow2(b);
    ChiRow(Pi(b), 2);
  }

  lemma RoundRow3(s: Lanes, rc: Lane)
    ensures Round(s, rc)[15] ==
              Xor(ROL(Xor(s[4], Effect(s, 4)), 27), And(Not(ROL(Xor(s[5], Effect(s, 0)), 36)), ROL(Xor(s[11], Effect(s, 1)), 10)))
    ensures Round(s, rc)[16] ==
              Xor(ROL(Xor(s[5], Effect(s, 0)), 36), And(Not(ROL(Xor(s[11], Effect(s, 1)), 10)), ROL(Xor(s[17], Effect(s, 2)), 15)))
    ensures Round(s, rc)[17] ==
              Xor(ROL(Xor(s[11], Effect(s, 1)), 10), And(Not(ROL(Xor(s[17], Effect(s, 2)), 15)), ROL(Xor(s[23], Effect(s, 3)), 56)))
    ensures Round(s, rc)[18] ==
              Xor(ROL(Xor(s[17], Effect(s, 2)), 15), And(Not(ROL(Xor(s[23], Effect(s, 3)), 56)), ROL(Xor(s[4], Effect(s, 4)), 27)))
    ensures Round(s, rc)[19] ==
              Xor(ROL(Xor(s[23], Effect(s, 3)), 56), And(Not(ROL(Xor(s[4], Effect(s, 4)), 27)), ROL(Xor(s[5], Effect(s, 0)), 36)))
  {
    hide ROL, Rotl64, Xor, And, Not, Rho, Pi, Chi, Theta, Effect;
    var b := Rho(Theta(s));
    ThetaRhoRow0(s);
    ThetaRhoRow1(s);
    ThetaRhoRow2(s);
    ThetaRhoRow3(s);
    ThetaRhoRow4(s);
    PiRow3(b);
    ChiRow(Pi(b), 3);
  }

  lemma RoundRow4(s: Lanes, rc: Lane)
    ensures Round(s, rc)[20] ==
              Xor(ROL(Xor(s[2], Effect(s, 2)), 62), And(Not(ROL(Xor(s[8], Effect(s, 3)), 55)), ROL(Xor(s[14], Effect(s, 4)), 39)))
    ensures Round(s, rc)[21] ==
              Xor(ROL(Xor(s[8], Effect(s, 3)), 55), And(Not(ROL(Xor(s[14], Effect(s, 4)), 39)), ROL(Xor(s[15], Effect(s, 0)), 41)))
    ensures Round(s, rc)[22] ==
              Xor(ROL(Xor(s[14], Effect(s, 4)), 39), And(Not(ROL(Xor(s[15], Effect(s, 0)), 41)), ROL(Xor(s[21], Effect(s, 1)), 2)))
    ensures Round(s, rc)[23] ==
              Xor(ROL(Xor(s[15], Effect(s, 0)), 41), And(Not(ROL(Xor(s[21], Effect(s, 1)), 2)), ROL(Xor(s[2], Effect(s, 2)), 62)))
    ensures Round(s, rc)[24] ==
              Xor(ROL(Xor(s[21], Effect(s, 1)), 2), And(Not(ROL(Xor(s[2], Effect(s, 2)), 62)), ROL(Xor(s[8], Effect(s, 3)), 55)))
  {
    hide ROL, Rotl64, Xor, And, Not, Rho, Pi, Chi, Theta, Effect;
    var b := Rho(Theta(s));
    ThetaRhoRow0(s);
    ThetaRhoRow1(s);
    ThetaRhoRow2(s);
    ThetaRhoRow3(s);
    ThetaRhoRow4(s);
    PiRow4(b);
    ChiRow(Pi(b), 4);
  }

  lemma RoundsZero(s: Lanes)
    ensures Rounds(s, 0) == s
  {
  }

  lemma RoundsAll(s: Lanes)
    ensures KeccakF(s) == Rounds(s, 24)
  {
    hide Rounds;
  }

  lemma RoundsByTwo(s: Lanes, n: nat)
    requires n + 2 <= 24
    ensures Rounds(s, n + 2) == Round(Round(Rounds(s, n), RoundConstant(n)), RoundConstant(n + 1))
  {
    hide Round, RoundConstant;
  }

  lemma LanesEqual(a: seq<Lane>, b: Lanes)
    requires |a| == 25
    requires a[0] == b[0] && a[1] == b[1] && a[2] == b[2] && a[3] == b[3] && a[4] == b[4]
    requires a[5] == b[5] && a[6] == b[6] && a[7] == b[7] && a[8] == b[8] && a[9] == b[9]
    requires a[10] == b[10] && a[11] == b[11] && a[12] == b[12] && a[13] == b[13] && a[14] == b[14]
    requires a[15] == b[15] && a[16] == b[16] && a[17] == b[17] && a[18] == b[18] && a[19] == b[19]
    requires a[20] == b[20] && a[21] == b[21] && a[22] == b[22] && a[23] == b[23] && a[24] == b[24]
    ensures a == b
  {
    forall i | 0 <= i < 25
      ensures a[i] == b[i]
    {
      match i
      case 0 =>
      case 1 =>
      case 2 =>
      case 3 =>
      case 4 =>
      case 5 =>
      case 6 =>
      case 7 =>
      case 8 =>
      case 9 =>
      case 10 =>
      case 11 =>
      case 12 =>
      case 13 =>
      case 14 =>
      case 15 =>
      case 16 =>
      case 17 =>
      case 18 =>
      case 19 =>
      case 20 =>
      case 21 =>
      case 22 =>
      case 23 =>
      case _ =>
    }
  }

  /** One pass of the unrolled loop (firmware/fips202_lca.c:125-312): two rounds
      of straight-line code over shared temporaries. The first round leaves its
      result in the E names and spoils the A names; the second reads the E names
      and writes the A names back. */
  method Pass(ghost s: Lanes, round: nat,
              sba: Lane, sbe: Lane, sbi: Lane, sbo: Lane, sbu: Lane,
              sga: Lane, sge: Lane, sgi: Lane, sgo: Lane, sgu: Lane,
              ska: Lane, ske: Lane, ski: Lane, sko: Lane, sku: Lane,
              sma: Lane, sme: Lane, smi: Lane, smo: Lane, smu: Lane,
              ssa: Lane, sse: Lane, ssi: Lane, sso: Lane, ssu: Lane)
    returns (Aba: Lane, Abe: Lane, Abi: Lane, Abo: Lane, Abu: Lane,
             Aga: Lane, Age: Lane, Agi: Lane, Ago: Lane, Agu: Lane,
             Aka: Lane, Ake: Lane, Aki: Lane, Ako: Lane, Aku: Lane,
             Ama: Lane, Ame: Lane, Ami: Lane, Amo: Lane, Amu: Lane,
             Asa: Lane, Ase: Lane, Asi: Lane, Aso: Lane, Asu: Lane)
    requires round + 1 < 24
    requires sba == s[0] && sbe == s[1] && sbi == s[2] && sbo == s[3] && sbu == s[4]
    requires sga == s[5] && sge == s[6] && sgi == s[7] && sgo == s[8] && sgu == s[9]
    requires ska == s[10] && ske == s[11] && ski == s[12] && sko == s[13] && sku == s[14]
    requires sma == s[15] && sme == s[16] && smi == s[17] && smo == s[18] && smu == s[19]
    requires ssa == s[20] && sse == s[21] && ssi == s[22] && sso == s[23] && ssu == s[24]
    ensures var t := Round(Round(s, RoundConstant(round)), RoundConstant(round + 1));
            Aba == t[0] && Abe == t[1] && Abi == t[2] && Abo == t[3] && Abu == t[4]
    ensures var t := Round(Round(s, RoundConstant(round)), RoundConstant(round + 1));
            Aga == t[5] && Age == t[6] && Agi == t[7] && Ago == t[8] && Agu == t[9]
    ensures var t := Round(Round(s, RoundConstant(round)), RoundConstant(round + 1));
            Aka == t[10] && Ake == t[11] && Aki == t[12] && Ako == t[13] && Aku == t[14]
    ensures var t := Round(Round(s, RoundConstant(round)), RoundConstant(round + 1));
            Ama == t[15] && Ame == t[16] && Ami == t[17] && Amo == t[18] && Amu == t[19]
    ensures var t := Round(Round(s, RoundConstant(round)), RoundConstant(round + 1));
            Asa == t[20] && Ase == t[21] && Asi == t[22] && Aso == t[23] && Asu == t[24]
  {
    hide ROL, Rotl64, Xor, And, Not, Round, Effect, Parity, RoundConstant;
    var BCa: Lane, BCe: Lane, BCi: Lane, BCo: Lane, BCu: Lane;
    var Da: Lane, De: Lane, Di: Lane, Do: Lane, Du: Lane;
    var Eba: Lane, Ebe: Lane, Ebi: Lane, Ebo: Lane, Ebu: Lane;
    var Ega: Lane, Ege: Lane, Egi: Lane, Ego: Lane, Egu: Lane;
    var Eka: Lane, Eke: Lane, Eki: Lane, Eko: Lane, Eku: Lane;
    var Ema: Lane, Eme: Lane, Emi: Lane, Emo: Lane, Emu: Lane;
    var Esa: Lane, Ese: Lane, Esi: Lane, Eso: Lane, Esu: Lane;
    Aba, Abe, Abi, Abo, Abu := sba, sbe, sbi, sbo, sbu;
    Aga, Age, Agi, Ago, Agu := sga, sge, sgi, sgo, sgu;
    Aka, Ake, Aki, Ako, Aku := ska, ske, ski, sko, sku;
    Ama, Ame, Ami, Amo, Amu := sma, sme, smi, smo, smu;
    Asa, Ase, Asi, Aso, Asu := ssa, sse, ssi, sso, ssu;

    BCa := Xor(Xor(Xor(Xor(Aba, Aga), Aka), Ama), Asa);
    BCe := Xor(Xor(Xor(Xor(Abe, Age), Ake), Ame), Ase);
    BCi := Xor(Xor(Xor(Xor(Abi, Agi), Aki), Ami), Asi);
    BCo := Xor(Xor(Xor(Xor(Abo, Ago), Ako), Amo), Aso);
    BCu := Xor(Xor(Xor(Xor(Abu, Agu), Aku), Amu), Asu);

    Da := Xor(BCu, ROL(BCe, 1));
    De := Xor(BCa, ROL(BCi, 1));
    Di := Xor(BCe, ROL(BCo, 1));
    Do := Xor(BCi, ROL(BCu, 1));
    Du := Xor(BCo, ROL(BCa, 1));
    Parities(s);
    Effects(s);
    assert Da == Effect(s, 0) && De == Effect(s, 1) && Di == Effect(s, 2) && Do == Effect(s, 3) && Du == Effect(s, 4);

    Aba := Xor(Aba, Da);
    BCa := Aba;
    Age := Xor(Age, De);
    BCe := ROL(Age, 44);
    Aki := Xor(Aki, Di);
    BCi := ROL(Aki, 43);
    Amo := Xor(Amo, Do);
    BCo := ROL(Amo, 21);
    Asu := Xor(Asu, Du);
    BCu := ROL(Asu, 14);
    Eba := Xor(BCa, And(Not(BCe), BCi));
    Eba := Xor(Eba, RoundConstant(round));
    Ebe := Xor(BCe, And(Not(BCi), BCo));
    Ebi := Xor(BCi, And(Not(BCo), BCu));
    Ebo := Xor(BCo, And(Not(BCu), BCa));
    Ebu := Xor(BCu, And(Not(BCa), BCe));

    Abo := Xor(Abo, Do);
    BCa := ROL(Abo, 28);
    Agu := Xor(Agu, Du);
    BCe := ROL(Agu, 20);
    Aka := Xor(Aka, Da);
    BCi := ROL(Aka, 3);
    Ame := Xor(Ame, De);
    BCo := ROL(Ame, 45);
    Asi := Xor(Asi, Di);
    BCu := ROL(Asi, 61);
    Ega := Xor(BCa, And(Not(BCe), BCi));
    Ege := Xor(BCe, And(Not(BCi), BCo));
    Egi := Xor(BCi, And(Not(BCo), BCu));
    Ego := Xor(BCo, And(Not(BCu), BCa));
    Egu := Xor(BCu, And(Not(BCa), BCe));

    Abe := Xor(Abe, De);
    BCa := ROL(Abe, 1);
    Agi := Xor(Agi, Di);
    BCe := ROL(Agi, 6);
    Ako := Xor(Ako, Do);
    BCi := ROL(Ako, 25);
    Amu := Xor(Amu, Du);
    BCo := ROL(Amu, 8);
    Asa := Xor(Asa, Da);
    BCu := ROL(Asa, 18);
    Eka := Xor(BCa, And(Not(BCe), BCi));
    Eke := Xor(BCe, And(Not(BCi), BCo));
    Eki := Xor(BCi, And(Not(BCo), BCu));
    Eko := Xor(BCo, And(Not(BCu), BCa));
    Eku := Xor(BCu, And(Not(BCa), BCe));

    Abu := Xor(Abu, Du);
    BCa := ROL(Abu, 27);
    Aga := Xor(Aga, Da);
    BCe := ROL(Aga, 36);
    Ake := Xor(Ake, De);
    BCi := ROL(Ake, 10);
    Ami := Xor(Ami, Di);
    BCo := ROL(Ami, 15);
    Aso := Xor(Aso, Do);
    BCu := ROL(Aso, 56);
    Ema := Xor(BCa, And(Not(BCe), BCi));
    Eme := Xor(BCe, And(Not(BCi), BCo));
    Emi := Xor(BCi, And(Not(BCo), BCu));
    Emo := Xor(BCo, And(Not(BCu), BCa));
    Emu := Xor(BCu, And(Not(BCa), BCe));

    Abi := Xor(Abi, Di);
    BCa := ROL(Abi, 62);
    Ago := Xor(Ago, Do);
    BCe := ROL(Ago, 55);
    Aku := Xor(Aku, Du);
    BCi := ROL(Aku, 39);
    Ama := Xor(Ama, Da);
    BCo := ROL(Ama, 41);
    Ase := Xor(Ase, De);
    BCu := ROL(Ase, 2);
    Esa := Xor(BCa, And(Not(BCe), BCi));
    Ese := Xor(BCe, And(Not(BCi), BCo));
    Esi := Xor(BCi, And(Not(BCo), BCu));
    Eso := Xor(BCo, And(Not(BCu), BCa));
    Esu := Xor(BCu, And(Not(BCa), BCe));
    ghost var mid := Round(s, RoundConstant(round));
    RoundRow0(s, RoundConstant(round));
    assert Eba == mid[0] && Ebe == mid[1] && Ebi == mid[2] && Ebo == mid[3] && Ebu == mid[4];
    RoundRow1(s, RoundConstant(round));
    assert Ega == mid[5] && Ege == mid[6] && Egi == mid[7] && Ego == mid[8] && Egu == mid[9];
    RoundRow2(s, RoundConstant(round));
    assert Eka == mid[10] && Eke == mid[11] && Eki == mid[12] && Eko == mid[13] && Eku == mid[14];
    RoundRow3(s, RoundConstant(round));
    assert Ema == mid[15] && Eme == mid[16] && Emi == mid[17] && Emo == mid[18] && Emu == mid[19];
    RoundRow4(s, RoundConstant(round));
    assert Esa == mid[20] && Ese == mid[21] && Esi == mid[22] && Eso == mid[23] && Esu == mid[24];

    BCa := Xor(Xor(Xor(Xor(Eba, Ega), Eka), Ema), Esa);
    BCe := Xor(Xor(Xor(Xor(Ebe, Ege), Eke), Eme), Ese);
    BCi := Xor(Xor(Xor(Xor(Ebi, Egi), Eki), Emi), Esi);
    BCo := Xor(Xor(Xor(Xor(Ebo, Ego), Eko), Emo), Eso);
    BCu := Xor(Xor(Xor(Xor(Ebu, Egu), Eku), Emu), Esu);

    Da := Xor(BCu, ROL(BCe, 1));
    De := Xor(BCa, ROL(BCi, 1));
    Di := Xor(BCe, ROL(BCo, 1));
    Do := Xor(BCi, ROL(BCu, 1));
    Du := Xor(BCo, ROL(BCa, 1));
    Parities(mid);
    Effects(mid);
    assert Da == Effect(mid, 0) && De == Effect(mid, 1) && Di == Effect(mid, 2) && Do == Effect(mid, 3) && Du == Effect(mid, 4);

    Eba := Xor(Eba, Da);
    BCa := Eba;
    Ege := Xor(Ege, De);
    BCe := ROL(Ege, 44);
    Eki := Xor(Eki, Di);
    BCi := ROL(Eki, 43);
    Emo := Xor(Emo, Do);
    BCo := ROL(Emo, 21);
    Esu := Xor(Esu, Du);
    BCu := ROL(Esu, 14);
    Aba := Xor(BCa, And(Not(BCe), BCi));
    Aba := Xor(Aba, RoundConstant(round + 1));
    Abe := Xor(BCe, And(Not(BCi), BCo));
    Abi := Xor(BCi, And(Not(BCo), BCu));
    Abo := Xor(BCo, And(Not(BCu), BCa));
    Abu := Xor(BCu, And(Not(BCa), BCe));

    Ebo := Xor(Ebo, Do);
    BCa := ROL(Ebo, 28);
    Egu := Xor(Egu, Du);
    BCe := ROL(Egu, 20);
    Eka := Xor(Eka, Da);
    BCi := ROL(Eka, 3);
    Eme := Xor(Eme, De);
    BCo := ROL(Eme, 45);
    Esi := Xor(Esi, Di);
    BCu := ROL(Esi, 61);
    Aga := Xor(BCa, And(Not(BCe), BCi));
    Age := Xor(BCe, And(Not(BCi), BCo));
    Agi := Xor(BCi, And(Not(BCo), BCu));
    Ago := Xor(BCo, And(Not(BCu), BCa));
    Agu := Xor(BCu, And(Not(BCa), BCe));

    Ebe := Xor(Ebe, De);
    BCa := ROL(Ebe, 1);
    Egi := Xor(Egi, Di);
    BCe := ROL(Egi, 6);
    Eko := Xor(Eko, Do);
    BCi := ROL(Eko, 25);
    Emu := Xor(Emu, Du);
    BCo := ROL(Emu, 8);
    Esa := Xor(Esa, Da);
    BCu := ROL(Esa, 18);
    Aka := Xor(BCa, And(Not(BCe), BCi));
    Ake := Xor(BCe, And(Not(BCi), BCo));
    Aki := Xor(BCi, And(Not(BCo), BCu));
    Ako := Xor(BCo, And(Not(BCu), BCa));
    Aku := Xor(BCu, And(Not(BCa), BCe));

    Ebu := Xor(Ebu, Du);
    BCa := ROL(Ebu, 27);
    Ega := Xor(Ega, Da);
    BCe := ROL(Ega, 36);
    Eke := Xor(Eke, De);
    BCi := ROL(Eke, 10);
    Emi := Xor(Emi, Di);
    BCo := ROL(Emi, 15);
    Eso := Xor(Eso, Do);
    BCu := ROL(Eso, 56);
    Ama := Xor(BCa, And(Not(BCe), BCi));
    Ame := Xor(BCe, And(Not(BCi), BCo));
    Ami := Xor(BCi, And(Not(BCo), BCu));
    Amo := Xor(BCo, And(Not(BCu), BCa));
    Amu := Xor(BCu, And(Not(BCa), BCe));

    Ebi := Xor(Ebi, Di);
    BCa := ROL(Ebi, 62);
    Ego := Xor(Ego, Do);
    BCe := ROL(Ego, 55);
    Eku := Xor(Eku, Du);
    BCi := ROL(Eku, 39);
    Ema := Xor(Ema, Da);
    BCo := ROL(Ema, 41);
    Ese := Xor(Ese, De);
    BCu := ROL(Ese, 2);
    Asa := Xor(BCa, And(Not(BCe), BCi));
    Ase := Xor(BCe, And(Not(BCi), BCo));
    Asi := Xor(BCi, And(Not(BCo), BCu));
    Aso := Xor(BCo, And(Not(BCu), BCa));
    Asu := Xor(BCu, And(Not(BCa), BCe));
    ghost var next := Round(mid, RoundConstant(round + 1));
    RoundRow0(mid, RoundConstant(round + 1));
    assert Aba == next[0] && Abe == next[1] && Abi == next[2] && Abo == next[3] && Abu == next[4];
    RoundRow1(mid, RoundConstant(round + 1));
    assert Aga == next[5] && Age == next[6] && Agi == next[7] && Ago == next[8] && Agu == next[9];
    RoundRow2(mid, RoundConstant(round + 1));
    assert Aka == next[10] && Ake == next[11] && Aki == next[12] && Ako == next[13] && Aku == next[14];
    RoundRow3(mid, RoundConstant(round + 1));
    assert Ama == next[15] && Ame == next[16] && Ami == next[17] && Amo == next[18] && Amu == next[19];
    RoundRow4(mid, RoundConstant(round + 1));
    assert Asa == next[20] && Ase == next[21] && Asi == next[22] && Aso == next[23] && Asu == next[24];
  }

  /** The unrolled software permutation (firmware/fips202_lca.c:80-341). */
  method StatePermuteSw(state: array<Lane>)
    requires state.Length == 25
    modifies state
    ensures state[..] == KeccakF(old(state[..]))
  {
    hide Round, RoundConstant, Rounds;
    ghost var start: Lanes := state[..];
    ghost var cur := start;
    RoundsZero(start);
    var Aba, Abe, Abi, Abo, Abu := state[0], state[1], state[2], state[3], state[4];
    var Aga, Age, Agi, Ago, Agu := state[5], state[6], state[7], state[8], state[9];
    var Aka, Ake, Aki, Ako, Aku := state[10], state[11], state[12], state[13], state[14];
    var Ama, Ame, Ami, Amo, Amu := state[15], state[16], state[17], state[18], state[19];
    var Asa, Ase, Asi, Aso, Asu := state[20], state[21], state[22], state[23], state[24];

    var round := 0;
    ghost var pass := 0;
    while round < 24
      invariant 0 <= pass <= 12 && round == 2 * pass
      invariant cur == Rounds(start, round)
      invariant Aba == cur[0] && Abe == cur[1] && Abi == cur[2] && Abo == cur[3] && Abu == cur[4]
      invariant Aga == cur[5] && Age == cur[6] && Agi == cur[7] && Ago == cur[8] && Agu == cur[9]
      invariant Aka == cur[10] && Ake == cur[11] && Aki == cur[12] && Ako == cur[13] && Aku == cur[14]
      invariant Ama == cur[15] && Ame == cur[16] && Ami == cur[17] && Amo == cur[18] && Amu == cur[19]
      invariant Asa == cur[20] && Ase == cur[21] && Asi == cur[22] && Aso == cur[23] && Asu == cur[24]
    {
      Aba, Abe, Abi, Abo, Abu,
      Aga, Age, Agi, Ago, Agu,
      Aka, Ake, Aki, Ako, Aku,
      Ama, Ame, Ami, Amo, Amu,
      Asa, Ase, Asi, Aso, Asu :=
        Pass(cur, round,
             Aba, Abe, Abi, Abo, Abu,
             Aga, Age, Agi, Ago, Agu,
             Aka, Ake, Aki, Ako, Aku,
             Ama, Ame, Ami, Amo, Amu,
             Asa, Ase, Asi, Aso, Asu);
      RoundsByTwo(start, round);
      cur := Round(Round(cur, RoundConstant(round)), RoundConstant(round + 1));
      round := round + 2;
      pass := pass + 1;
    }

    state[0], state[1], state[2], state[3], state[4] := Aba, Abe, Abi, Abo, Abu;
    state[5], state[6], state[7], state[8], state[9] := Aga, Age, Agi, Ago, Agu;
    state[10], state[11], state[12], state[13], state[14] := Aka, Ake, Aki, Ako, Aku;
    state[15], state[16], state[17], state[18], state[19] := Ama, Ame, Ami, Amo, Amu;
    state[20], state[21], state[22], state[23], state[24] := Asa, Ase, Asi, Aso, Asu;
    LanesEqual(state[..], cur);
    RoundsAll(start);
  }
}
