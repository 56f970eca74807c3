/** 64-bit lanes and the bytes inside them (firmware/fips202_lca.c:23, 34-54).

    Lanes and bytes are machine words wrapped in a datatype, so that proofs
    which only move them around never look at the bits inside; the bit-level
    facts are settled here once, at the eight constant shift amounts. */
module Words {

  datatype Byte = Byte(bits: bv8)

  datatype Lane = Lane(bits: bv64)

  const ZERO_BYTE := Byte(0)
  const ZERO_LANE := Lane(0)

  /** The 25 lanes of a Keccak state; lane (x, y) sits at index x + 5y. */
  type Lanes = s: seq<Lane> | |s| == 25 witness seq(25, i => Lane(0))

  /** The same 1600 bits as 200 bytes: lane after lane, each lane little-endian. */
  type ByteState = s: seq<Byte> | |s| == 200 witness seq(200, i => Byte(0))

  function Xor(a: Lane, b: Lane): Lane {
    Lane(Xor64(a.bits, b.bits))
  }

  function And(a: Lane, b: Lane): Lane {
    Lane(And64(a.bits, b.bits))
  }

  function Or(a: Lane, b: Lane): Lane {
    Lane(Or64(a.bits, b.bits))
  }

  function Not(a: Lane): Lane {
    Lane(Not64(a.bits))
  }

  function XorByte(a: Byte, b: Byte): Byte {
    Byte(Xor8(a.bits, b.bits))
  }

  function OrByte(a: Byte, b: Byte): Byte {
    Byte(Or8(a.bits, b.bits))
  }

  /** The C expression (uint8_t)(w >> 8 * j). */
  function ByteOf(w: Lane, j: nat): Byte
    requires j < 8
  {
    Byte(RawByte(w.bits, j))
  }

  /** The C expression (uint64_t)b << 8 * j. */
  function ByteInLane(b: Byte, j: nat): Lane
    requires j < 8
  {
    Lane(RawPlaced(b.bits, j))
  }

  /** Bit k of a byte, least significant first. */
  function Bit(b: Byte, k: nat): bool
    requires k < 8
  {
    match k
    case 0 => b.bits & 0x01 != 0
    case 1 => b.bits & 0x02 != 0
    case 2 => b.bits & 0x04 != 0
    case 3 => b.bits & 0x08 != 0
    case 4 => b.bits & 0x10 != 0
    case 5 => b.bits & 0x20 != 0
    case 6 => b.bits & 0x40 != 0
    case _ => b.bits & 0x80 != 0
  }

  // ----- the machine words themselves

  function Xor64(w: bv64, v: bv64): bv64 {
    w ^ v
  }

  function Or64(w: bv64, v: bv64): bv64 {
    w | v
  }

  function And64(w: bv64, v: bv64): bv64 {
    w & v
  }

  function Not64(w: bv64): bv64 {
    !w
  }

  function Xor8(a: bv8, b: bv8): bv8 {
    a ^ b
  }

  function Or8(a: bv8, b: bv8): bv8 {
    a | b
  }

  function RawByte(w: bv64, j: nat): bv8
    requires j < 8
  {
    match j
    case 0 => (w & 0xFF) as bv8
    case 1 => ((w >> 8) & 0xFF) as bv8
    case 2 => ((w >> 16) & 0xFF) as bv8
    case 3 => ((w >> 24) & 0xFF) as bv8
    case 4 => ((w >> 32) & 0xFF) as bv8
    case 5 => ((w >> 40) & 0xFF) as bv8
    case 6 => ((w >> 48) & 0xFF) as bv8
    case _ => ((w >> 56) & 0xFF) as bv8
  }

  function RawPlaced(b: bv8, j: nat): bv64
    requires j < 8
  {
    match j
    case 0 => b as bv64
    case 1 => b as bv64 << 8
    case 2 => b as bv64 << 16
    case 3 => b as bv64 << 24
    case 4 => b as bv64 << 32
    case 5 => b as bv64 << 40
    case 6 => b as bv64 << 48
    case _ => b as bv64 << 56
  }

  lemma RawXor(w: bv64, v: bv64, k: nat)
    requires k < 8
    ensures RawByte(Xor64(w, v), k) == Xor8(RawByte(w, k), RawByte(v, k))
  {
    match k
    case 0 => case 1 => case 2 => case 3 => case 4 => case 5 => case 6 => case _ =>
  }

  lemma RawOr(w: bv64, v: bv64, k: nat)
    requires k < 8
    ensures RawByte(Or64(w, v), k) == Or8(RawByte(w, k), RawByte(v, k))
  {
    match k
    case 0 => case 1 => case 2 => case 3 => case 4 => case 5 => case 6 => case _ =>
  }

  lemma RawPlacedByte(b: bv8, j: nat, k: nat)
    requires j < 8 && k < 8
    ensures RawByte(RawPlaced(b, j), k) == if k == j then b else 0
  {
    match k
    case 0 => case 1 => case 2 => case 3 => case 4 => case 5 => case 6 => case _ =>
  }

  lemma RawExtensional(w: bv64, v: bv64)
    requires forall k :: 0 <= k < 8 ==> RawByte(w, k) == RawByte(v, k)
    ensures w == v
  {
    assert RawByte(w, 0) == RawByte(v, 0);
    assert RawByte(w, 1) == RawByte(v, 1);
    assert RawByte(w, 2) == RawByte(v, 2);
    assert RawByte(w, 3) == RawByte(v, 3);
    assert RawByte(w, 4) == RawByte(v, 4);
    assert RawByte(w, 5) == RawByte(v, 5);
    assert RawByte(w, 6) == RawByte(v, 6);
    assert RawByte(w, 7) == RawByte(v, 7);
  }

  // ----- the facts the sponge uses

  lemma ByteOfXor(w: Lane, v: Lane, k: nat)
    requires k < 8
    ensures ByteOf(Xor(w, v), k) == XorByte(ByteOf(w, k), ByteOf(v, k))
  {
    hide RawByte, Xor64, Xor8;
    RawXor(w.bits, v.bits, k);
  }

  lemma ByteOfOr(w: Lane, v: Lane, k: nat)
    requires k < 8
    ensures ByteOf(Or(w, v), k) == OrByte(ByteOf(w, k), ByteOf(v, k))
  {
    hide RawByte, Or64, Or8;
    RawOr(w.bits, v.bits, k);
  }

  lemma ByteOfPlaced(b: Byte, j: nat, k: nat)
    requires j < 8 && k < 8
    ensures ByteOf(ByteInLane(b, j), k) == if k == j then b else ZERO_BYTE
  {
    hide RawByte, RawPlaced;
    RawPlacedByte(b.bits, j, k);
  }

  lemma ByteOfZero(k: nat)
    requires k < 8
    ensures ByteOf(ZERO_LANE, k) == ZERO_BYTE
  {
  }

  /** A lane is determined by its eight bytes. */
  lemma LaneExtensional(w: Lane, v: Lane)
    requires forall k :: 0 <= k < 8 ==> ByteOf(w, k) == ByteOf(v, k)
    ensures w == v
  {
    hide RawByte;
    forall k | 0 <= k < 8
      ensures RawByte(w.bits, k) == RawByte(v.bits, k)
    {
      assert ByteOf(w, k) == ByteOf(v, k);
    }
    RawExtensional(w.bits, v.bits);
  }

  lemma XorZero(a: Byte)
    ensures XorByte(a, ZERO_BYTE) == a
  {
  }

  lemma OrZero(a: Byte)
    ensures OrByte(a, ZERO_BYTE) == a
  {
  }

  lemma ZeroOr(a: Byte)
    ensures OrByte(ZERO_BYTE, a) == a
  {
  }

  lemma XorCommutes(a: Byte, b: Byte)
    ensures XorByte(a, b) == XorByte(b, a)
  {
  }

  lemma XorAssociative(a: Byte, b: Byte, c: Byte)
    ensures XorByte(XorByte(a, b), c) == XorByte(a, XorByte(b, c))
  {
  }

  lemma XorTwice(a: Byte, b: Byte)
    ensures XorByte(XorByte(a, b), b) == a
  {
  }
}
