/** Single bits of lanes: which bit of a lane is which bit of its bytes, what the
    lane operations do to each bit, and where a rotation moves it
    (firmware/fips202_lca.c:23-54). */
module LaneBits {
  import opened Words
  import opened SpongeSpec
  import opened KeccakF1600

  /** The one-bit words of byte 0. */
  function Mask0(k: nat): bv64
    requires k < 8
  {
    match k
    case 0 => 0x0000000000000001
    case 1 => 0x0000000000000002
    case 2 => 0x0000000000000004
    case 3 => 0x0000000000000008
    case 4 => 0x0000000000000010
    case 5 => 0x0000000000000020
    case 6 => 0x0000000000000040
    case _ => 0x0000000000000080
  }

  /** The one-bit words of byte 1. */
  function Mask1(k: nat): bv64
    requires k < 8
  {
    match k
    case 0 => 0x0000000000000100
    case 1 => 0x0000000000000200
    case 2 => 0x0000000000000400
    case 3 => 0x0000000000000800
    case 4 => 0x0000000000001000
    case 5 => 0x0000000000002000
    case 6 => 0x0000000000004000
    case _ => 0x0000000000008000
  }

  /** The one-bit words of byte 2. */
  function Mask2(k: nat): bv64
    requires k < 8
  {
    match k
    case 0 => 0x0000000000010000
    case 1 => 0x0000000000020000
    case 2 => 0x0000000000040000
    case 3 => 0x0000000000080000
    case 4 => 0x0000000000100000
    case 5 => 0x0000000000200000
    case 6 => 0x0000000000400000
    case _ => 0x0000000000800000
  }

  /** The one-bit words of byte 3. */
  function Mask3(k: nat): bv64
    requires k < 8
  {
    match k
    case 0 => 0x0000000001000000
    case 1 => 0x0000000002000000
    case 2 => 0x0000000004000000
    case 3 => 0x0000000008000000
    case 4 => 0x0000000010000000
    case 5 => 0x0000000020000000
    case 6 => 0x0000000040000000
    case _ => 0x0000000080000000
  }

  /** The one-bit words of byte 4. */
  function Mask4(k: nat): bv64
    requires k < 8
  {
    match k
    case 0 => 0x0000000100000000
    case 1 => 0x0000000200000000
    case 2 => 0x0000000400000000
    case 3 => 0x0000000800000000
    case 4 => 0x0000001000000000
    case 5 => 0x0000002000000000
    case 6 => 0x0000004000000000
    case _ => 0x0000008000000000
  }

  /** The one-bit words of byte 5. */
  function Mask5(k: nat): bv64
    requires k < 8
  {
    match k
    case 0 => 0x0000010000000000
    case 1 => 0x0000020000000000
    case 2 => 0x0000040000000000
    case 3 => 0x0000080000000000
    case 4 => 0x0000100000000000
    case 5 => 0x0000200000000000
    case 6 => 0x0000400000000000
    case _ => 0x0000800000000000
  }

  /** The one-bit words of byte 6. */
  function Mask6(k: nat): bv64
    requires k < 8
  {
    match k
    case 0 => 0x0001000000000000
    case 1 => 0x0002000000000000
    case 2 => 0x0004000000000000
    case 3 => 0x0008000000000000
    case 4 => 0x0010000000000000
    case 5 => 0x0020000000000000
    case 6 => 0x0040000000000000
    case _ => 0x0080000000000000
  }

  /** The one-bit words of byte 7. */
  function Mask7(k: nat): bv64
    requires k < 8
  {
    match k
    case 0 => 0x0100000000000000
    case 1 => 0x0200000000000000
    case 2 => 0x0400000000000000
    case 3 => 0x0800000000000000
    case 4 => 0x1000000000000000
    case 5 => 0x2000000000000000
    case 6 => 0x4000000000000000
    case _ => 0x8000000000000000
  }

  function LaneMask(k: nat): bv64
    requires k < 64
  {
    match k / 8
    case 0 => Mask0(k % 8)
    case 1 => Mask1(k % 8)
    case 2 => Mask2(k % 8)
    case 3 => Mask3(k % 8)
    case 4 => Mask4(k % 8)
    case 5 => Mask5(k % 8)
    case 6 => Mask6(k % 8)
    case _ => Mask7(k % 8)
  }

  /** Bit k of a lane, least significant first. */
  function LaneBit(w: Lane, k: nat): bool
    requires k < 64
  {
    Meets(w.bits, LaneMask(k))
  }

  predicate Meets(w: bv64, m: bv64) {
    w & m != 0
  }

  // ----- byte order

  lemma BitsOfByte0(w: Lane, k: nat)
    requires k < 8
    ensures Bit(ByteOf(w, 0), k) == Meets(w.bits, Mask0(k))
  {
    match k
    case 0 => case 1 => case 2 => case 3 => case 4 => case 5 => case 6 => case _ =>
  }

  lemma BitsOfByte1(w: Lane, k: nat)
    requires k < 8
    ensures Bit(ByteOf(w, 1), k) == Meets(w.bits, Mask1(k))
  {
    match k
    case 0 => case 1 => case 2 => case 3 => case 4 => case 5 => case 6 => case _ =>
  }

  lemma BitsOfByte2(w: Lane, k: nat)
    requires k < 8
    ensures Bit(ByteOf(w, 2), k) == Meets(w.bits, Mask2(k))
  {
    match k
    case 0 => case 1 => case 2 => case 3 => case 4 => case 5 => case 6 => case _ =>
  }

  lemma BitsOfByte3(w: Lane, k: nat)
    requires k < 8
    ensures Bit(ByteOf(w, 3), k) == Meets(w.bits, Mask3(k))
  {
    match k
    case 0 => case 1 => case 2 => case 3 => case 4 => case 5 => case 6 => case _ =>
  }

  lemma BitsOfByte4(w: Lane, k: nat)
    requires k < 8
    ensures Bit(ByteOf(w, 4), k) == Meets(w.bits, Mask4(k))
  {
    match k
    case 0 => case 1 => case 2 => case 3 => case 4 => case 5 => case 6 => case _ =>
  }

  lemma BitsOfByte5(w: Lane, k: nat)
    requires k < 8
    ensures Bit(ByteOf(w, 5), k) == Meets(w.bits, Mask5(k))
  {
    match k
    case 0 => case 1 => case 2 => case 3 => case 4 => case 5 => case 6 => case _ =>
  }

  lemma BitsOfByte6(w: Lane, k: nat)
    requires k < 8
    ensures Bit(ByteOf(w, 6), k) == Meets(w.bits, Mask6(k))
  {
    match k
    case 0 => case 1 => case 2 => case 3 => case 4 => case 5 => case 6 => case _ =>
  }

  lemma BitsOfByte7(w: Lane, k: nat)
    requires k < 8
    ensures Bit(ByteOf(w, 7), k) == Meets(w.bits, Mask7(k))
  {
    match k
    case 0 => case 1 => case 2 => case 3 => case 4 => case 5 => case 6 => case _ =>
  }

  /** Byte j of a lane is its bits 8j to 8j + 7, least significant first. */
  lemma BitOfByteOf(w: Lane, j: nat, k: nat)
    requires j < 8 && k < 8
    ensures Bit(ByteOf(w, j), k) == LaneBit(w, 8 * j + k)
  {
    hide Bit, ByteOf, Meets, Mask0, Mask1, Mask2, Mask3, Mask4, Mask5, Mask6, Mask7;
    match j
    case 0 => BitsOfByte0(w, k);
    case 1 => BitsOfByte1(w, k);
    case 2 => BitsOfByte2(w, k);
    case 3 => BitsOfByte3(w, k);
    case 4 => BitsOfByte4(w, k);
    case 5 => BitsOfByte5(w, k);
    case 6 => BitsOfByte6(w, k);
    case _ => BitsOfByte7(w, k);
  }

  /** Bit 8j + k of a loaded word is bit k of the j-th byte in memory. */
  lemma BitOfLoad64(x: seq<Byte>, j: nat, k: nat)
    requires |x| == 8 && j < 8 && k < 8
    ensures LaneBit(Load64(x), 8 * j + k) == Bit(x[j], k)
  {
    hide Bit, ByteOf, LaneBit, LoadPrefix;
    LoadPrefixBytes(x, 8, j);
    BitOfByteOf(Load64(x), j, k);
  }

  /** A byte shifted into place fills exactly bits 8j to 8j + 7. */
  lemma BitOfByteInLane(b: Byte, j: nat, i: nat)
    requires j < 8 && i < 64
    ensures LaneBit(ByteInLane(b, j), i) <==> i / 8 == j && Bit(b, i % 8)
  {
    hide ByteOf, LaneBit, ByteInLane;
    ByteOfPlaced(b, j, i / 8);
    BitOfByteOf(ByteInLane(b, j), i / 8, i % 8);
  }

  // ----- bitwise operations

  predicate OneBit(m: bv64) {
    m != 0 && m & (m - 1) == 0
  }

  lemma OneBit0(k: nat)
    requires k < 8
    ensures OneBit(Mask0(k))
  {
    match k
    case 0 => case 1 => case 2 => case 3 => case 4 => case 5 => case 6 => case _ =>
  }

  lemma OneBit1(k: nat)
    requires k < 8
    ensures OneBit(Mask1(k))
  {
    match k
    case 0 => case 1 => case 2 => case 3 => case 4 => case 5 => case 6 => case _ =>
  }

  lemma OneBit2(k: nat)
    requires k < 8
    ensures OneBit(Mask2(k))
  {
    match k
    case 0 => case 1 => case 2 => case 3 => case 4 => case 5 => case 6 => case _ =>
  }

  lemma OneBit3(k: nat)
    requires k < 8
    ensures OneBit(Mask3(k))
  {
    match k
    case 0 => case 1 => case 2 => case 3 => case 4 => case 5 => case 6 => case _ =>
  }

  lemma OneBit4(k: nat)
    requires k < 8
    ensures OneBit(Mask4(k))
  {
    match k
    case 0 => case 1 => case 2 => case 3 => case 4 => case 5 => case 6 => case _ =>
  }

  lemma OneBit5(k: nat)
    requires k < 8
    ensures OneBit(Mask5(k))
  {
    match k
    case 0 => case 1 => case 2 => case 3 => case 4 => case 5 => case 6 => case _ =>
  }

  lemma OneBit6(k: nat)
    requires k < 8
    ensures OneBit(Mask6(k))
  {
    match k
    case 0 => case 1 => case 2 => case 3 => case 4 => case 5 => case 6 => case _ =>
  }

  lemma OneBit7(k: nat)
    requires k < 8
    ensures OneBit(Mask7(k))
  {
    match k
    case 0 => case 1 => case 2 => case 3 => case 4 => case 5 => case 6 => case _ =>
  }

  lemma MaskIsOneBit(k: nat)
    requires k < 64
    ensures OneBit(LaneMask(k))
  {
    hide OneBit, Mask0, Mask1, Mask2, Mask3, Mask4, Mask5, Mask6, Mask7;
    match k / 8
    case 0 => OneBit0(k % 8);
    case 1 => OneBit1(k % 8);
    case 2 => OneBit2(k % 8);
    case 3 => OneBit3(k % 8);
    case 4 => OneBit4(k % 8);
    case 5 => OneBit5(k % 8);
    case 6 => OneBit6(k % 8);
    case _ => OneBit7(k % 8);
  }

  lemma NoneOrAll(w: bv64, m: bv64)
    requires m != 0 && m & (m - 1) == 0
    ensures w & m == 0 || w & m == m
  {
  }

  lemma XorBits(w: bv64, v: bv64, m: bv64)
    requires m != 0 && m & (m - 1) == 0
    ensures (w ^ v) & m != 0 <==> (w & m != 0) != (v & m != 0)
  {
    NoneOrAll(w, m);
    NoneOrAll(v, m);
    assert (w ^ v) & m == (w & m) ^ (v & m);
  }

  lemma RawBitwiseXor(w: bv64, v: bv64, m: bv64)
    requires OneBit(m)
    ensures Meets(Xor64(w, v), m) <==> Meets(w, m) != Meets(v, m)
  {
    XorBits(w, v, m);
  }

  lemma AndBits(w: bv64, v: bv64, m: bv64)
    requires m != 0 && m & (m - 1) == 0
    ensures (w & v) & m != 0 <==> w & m != 0 && v & m != 0
  {
    NoneOrAll(w, m);
    NoneOrAll(v, m);
    assert (w & v) & m == (w & m) & (v & m);
  }

  lemma RawBitwiseAnd(w: bv64, v: bv64, m: bv64)
    requires OneBit(m)
    ensures Meets(And64(w, v), m) <==> Meets(w, m) && Meets(v, m)
  {
    AndBits(w, v, m);
  }

  lemma NotBits(w: bv64, m: bv64)
    requires m != 0 && m & (m - 1) == 0
    ensures !w & m != 0 <==> w & m == 0
  {
  }

  lemma RawBitwiseNot(w: bv64, m: bv64)
    requires OneBit(m)
    ensures Meets(Not64(w), m) <==> !Meets(w, m)
  {
    NotBits(w, m);
  }

  lemma OrBits(w: bv64, v: bv64, m: bv64)
    requires m != 0 && m & (m - 1) == 0
    ensures (w | v) & m != 0 <==> w & m != 0 || v & m != 0
  {
    NoneOrAll(w, m);
    NoneOrAll(v, m);
    assert (w | v) & m == (w & m) | (v & m);
  }

  lemma RawBitwiseOr(w: bv64, v: bv64, m: bv64)
    requires OneBit(m)
    ensures Meets(Or64(w, v), m) <==> Meets(w, m) || Meets(v, m)
  {
    OrBits(w, v, m);
  }

  /** The lane operations act on each bit alone. */
  lemma Bitwise(a: Lane, b: Lane, i: nat)
    requires i < 64
    ensures LaneBit(Xor(a, b), i) <==> LaneBit(a, i) != LaneBit(b, i)
    ensures LaneBit(Or(a, b), i) <==> LaneBit(a, i) || LaneBit(b, i)
    ensures LaneBit(And(a, b), i) <==> LaneBit(a, i) && LaneBit(b, i)
    ensures LaneBit(Not(a), i) <==> !LaneBit(a, i)
  {
    hide OneBit, LaneMask, Meets, Xor64, Or64, And64, Not64;
    MaskIsOneBit(i);
    RawBitwiseXor(a.bits, b.bits, LaneMask(i));
    RawBitwiseAnd(a.bits, b.bits, LaneMask(i));
    RawBitwiseNot(a.bits, LaneMask(i));
    RawBitwiseOr(a.bits, b.bits, LaneMask(i));
  }

  // ----- rotations

  /** A byte after a rotation by one: shifted up, with the top bit of the byte below. */
  function ShiftedIn(b: bv8, below: bv8): bv8 {
    (b << 1) | (below >> 7)
  }

  function Rotated(w: Lane): Lane {
    Lane((w.bits << 1) | (w.bits >> 63))
  }

  lemma LowRotatedByte(w: bv64, j: nat)
    requires 0 <= j < 4
    ensures RawByte(Rotated(Lane(w)).bits, j) == ShiftedIn(RawByte(w, j), RawByte(w, (j + 7) % 8))
  {
    match j
    case 0 => case 1 => case 2 => case _ =>
  }

  lemma HighRotatedByte(w: bv64, j: nat)
    requires 4 <= j < 8
    ensures RawByte(Rotated(Lane(w)).bits, j) == ShiftedIn(RawByte(w, j), RawByte(w, j - 1))
  {
    match j
    case 4 => case 5 => case 6 => case _ =>
  }

  lemma RawRotatedByte(w: bv64, j: nat)
    requires j < 8
    ensures RawByte(Rotated(Lane(w)).bits, j) == ShiftedIn(RawByte(w, j), RawByte(w, (j + 7) % 8))
  {
    hide RawByte, Rotated, ShiftedIn;
    if j < 4 {
      LowRotatedByte(w, j);
    } else {
      HighRotatedByte(w, j);
    }
  }

  lemma BitOfShiftedIn(b: bv8, below: bv8, k: nat)
    requires k < 8
    ensures Bit(Byte(ShiftedIn(b, below)), k) == if k == 0 then Bit(Byte(below), 7) else Bit(Byte(b), k - 1)
  {
    match k
    case 0 => case 1 => case 2 => case 3 => case 4 => case 5 => case 6 => case _ =>
  }

  lemma RotatedIsRaw(w: Lane)
    ensures Rotl64(w, 1) == Rotated(w)
  {
  }

  /** The place n below i, modulo 64. */
  function Below(i: nat, n: nat): (k: nat)
    requires i < 64 && n < 64
    ensures k < 64
  {
    if i >= n then i - n else i + 64 - n
  }

  /** Rotating by one moves every bit up by one and the last to the front. */
  lemma BitOfRotated(w: Lane, i: nat)
    requires i < 64
    ensures LaneBit(Rotl64(w, 1), i) == LaneBit(w, Below(i, 1))
  {
    hide Bit, LaneBit, Rotl64, RawByte, Rotated, ShiftedIn;
    var j, k := i / 8, i % 8;
    RotatedIsRaw(w);
    RawRotatedByte(w.bits, j);
    BitOfShiftedIn(RawByte(w.bits, j), RawByte(w.bits, (j + 7) % 8), k);
    BitOfByteOf(Rotl64(w, 1), j, k);
    if k == 0 {
      BitOfByteOf(w, (j + 7) % 8, 7);
    } else {
      BitOfByteOf(w, j, k - 1);
    }
  }

  // Each amount in use is the sum of two smaller ones.

  lemma Rotate2(w: Lane)
    ensures Rotl64(w, 2) == Rotl64(Rotl64(w, 1), 1)
  {
  }

  lemma Rotate3(w: Lane)
    ensures Rotl64(w, 3) == Rotl64(Rotl64(w, 2), 1)
  {
  }

  lemma Rotate6(w: Lane)
    ensures Rotl64(w, 6) == Rotl64(Rotl64(w, 3), 3)
  {
  }

  lemma Rotate8(w: Lane)
    ensures Rotl64(w, 8) == Rotl64(Rotl64(w, 6), 2)
  {
  }

  lemma Rotate10(w: Lane)
    ensures Rotl64(w, 10) == Rotl64(Rotl64(w, 8), 2)
  {
  }

  lemma Rotate14(w: Lane)
    ensures Rotl64(w, 14) == Rotl64(Rotl64(w, 8), 6)
  {
  }

  lemma Rotate15(w: Lane)
    ensures Rotl64(w, 15) == Rotl64(Rotl64(w, 14), 1)
  {
  }

  lemma Rotate18(w: Lane)
    ensures Rotl64(w, 18) == Rotl64(Rotl64(w, 15), 3)
  {
  }

  lemma Rotate20(w: Lane)
    ensures Rotl64(w, 20) == Rotl64(Rotl64(w, 18), 2)
  {
  }

  lemma Rotate21(w: Lane)
    ensures Rotl64(w, 21) == Rotl64(Rotl64(w, 20), 1)
  {
  }

  lemma Rotate25(w: Lane)
    ensures Rotl64(w, 25) == Rotl64(Rotl64(w, 15), 10)
  {
  }

  lemma Rotate27(w: Lane)
    ensures Rotl64(w, 27) == Rotl64(Rotl64(w, 25), 2)
  {
  }

  lemma Rotate28(w: Lane)
    ensures Rotl64(w, 28) == Rotl64(Rotl64(w, 27), 1)
  {
  }

  lemma Rotate36(w: Lane)
    ensures Rotl64(w, 36) == Rotl64(Rotl64(w, 28), 8)
  {
  }

  lemma Rotate39(w: Lane)
    ensures Rotl64(w, 39) == Rotl64(Rotl64(w, 36), 3)
  {
  }

  lemma Rotate41(w: Lane)
    ensures Rotl64(w, 41) == Rotl64(Rotl64(w, 39), 2)
  {
  }

  lemma Rotate43(w: Lane)
    ensures Rotl64(w, 43) == Rotl64(Rotl64(w, 41), 2)
  {
  }

  lemma Rotate44(w: Lane)
    ensures Rotl64(w, 44) == Rotl64(Rotl64(w, 43), 1)
  {
  }

  lemma Rotate45(w: Lane)
    ensures Rotl64(w, 45) == Rotl64(Rotl64(w, 44), 1)
  {
  }

  lemma Rotate55(w: Lane)
    ensures Rotl64(w, 55) == Rotl64(Rotl64(w, 45), 10)
  {
  }

  lemma Rotate56(w: Lane)
    ensures Rotl64(w, 56) == Rotl64(Rotl64(w, 55), 1)
  {
  }

  lemma Rotate61(w: Lane)
    ensures Rotl64(w, 61) == Rotl64(Rotl64(w, 55), 6)
  {
  }

  lemma Rotate62(w: Lane)
    ensures Rotl64(w, 62) == Rotl64(Rotl64(w, 61), 1)
  {
  }

  /** The amounts the permutation rotates by. */
  const AMOUNTS: set<nat> := {0, 1, 2, 3, 6, 8, 10, 14, 15, 18, 20, 21, 25, 27, 28, 36, 39, 41, 43, 44, 45, 55, 56, 61, 62}

  lemma BitOfTwoRotations(w: Lane, m: nat, d: nat, i: nat)
    requires m in AMOUNTS && d in AMOUNTS && 0 < m && 0 < d && m + d < 64 && i < 64
    requires Rotl64(w, m + d) == Rotl64(Rotl64(w, m), d)
    ensures LaneBit(Rotl64(w, m + d), i) == LaneBit(w, Below(i, m + d))
    decreases m + d, 0
  {
    hide LaneBit, Rotl64;
    BitOfRotl(Rotl64(w, m), d, i);
    BitOfRotl(w, m, Below(i, d));
  }

  /** Rotating by n: bit i comes from n places below it, modulo 64. */
  lemma {:induction false} BitOfRotl(w: Lane, n: nat, i: nat)
    requires n in AMOUNTS && n < 64 && i < 64
    ensures LaneBit(Rotl64(w, n), i) == LaneBit(w, Below(i, n))
    decreases n, 1
  {
    hide LaneBit, Rotl64;
    match n
    case 0 => NotRotated(w);
    case 1 => BitOfRotated(w, i);
    case 2 =>
      Rotate2(w);
      BitOfTwoRotations(w, 1, 1, i);
    case 3 =>
      Rotate3(w);
      BitOfTwoRotations(w, 2, 1, i);
    case 6 =>
      Rotate6(w);
      BitOfTwoRotations(w, 3, 3, i);
    case 8 =>
      Rotate8(w);
      BitOfTwoRotations(w, 6, 2, i);
    case 10 =>
      Rotate10(w);
      BitOfTwoRotations(w, 8, 2, i);
    case 14 =>
      Rotate14(w);
      BitOfTwoRotations(w, 8, 6, i);
    case 15 =>
      Rotate15(w);
      BitOfTwoRotations(w, 14, 1, i);
    case 18 =>
      Rotate18(w);
      BitOfTwoRotations(w, 15, 3, i);
    case 20 =>
      Rotate20(w);
      BitOfTwoRotations(w, 18, 2, i);
    case 21 =>
      Rotate21(w);
      BitOfTwoRotations(w, 20, 1, i);
    case 25 =>
      Rotate25(w);
      BitOfTwoRotations(w, 15, 10, i);
    case 27 =>
      Rotate27(w);
      BitOfTwoRotations(w, 25, 2, i);
    case 28 =>
      Rotate28(w);
      BitOfTwoRotations(w, 27, 1, i);
    case 36 =>
      Rotate36(w);
      BitOfTwoRotations(w, 28, 8, i);
    case 39 =>
      Rotate39(w);
      BitOfTwoRotations(w, 36, 3, i);
    case 41 =>
      Rotate41(w);
      BitOfTwoRotations(w, 39, 2, i);
    case 43 =>
      Rotate43(w);
      BitOfTwoRotations(w, 41, 2, i);
    case 44 =>
      Rotate44(w);
      BitOfTwoRotations(w, 43, 1, i);
    case 45 =>
      Rotate45(w);
      BitOfTwoRotations(w, 44, 1, i);
    case 55 =>
      Rotate55(w);
      BitOfTwoRotations(w, 45, 10, i);
    case 56 =>
      Rotate56(w);
      BitOfTwoRotations(w, 55, 1, i);
    case 61 =>
      Rotate61(w);
      BitOfTwoRotations(w, 55, 6, i);
    case 62 =>
      Rotate62(w);
      BitOfTwoRotations(w, 61, 1, i);
  }

  lemma NotRotated(w: Lane)
    ensures Rotl64(w, 0) == w
  {
  }
}
