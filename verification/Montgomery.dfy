/** 16- and 32-bit signed words and the two reductions of the accelerator's ML-KEM path
    (rtl/lca_ntt_accel.sv:106-125). */
module Montgomery {
  import opened Numbers
  import opened Field

  predicate Int16(x: int) {
    -32768 <= x < 32768
  }

  /** Conversion to int16_t keeps the low 16 bits. */
  function ToInt16(x: int): (y: int)
    ensures Int16(y)
  {
    (x + 32768) % 65536 - 32768
  }

  /** The range in which PQClean's montgomery_reduce is specified. */
  predicate Reducible(v: int) {
    -3329 * 32768 <= v < 3329 * 32768
  }

  /** What is assumed of the external montgomery_reduce. */
  ghost predicate MontgomeryContract(mont: int -> int) {
    forall v :: Reducible(v) ==> -Q < mont(v) < Q && Cong(mont(v) * 65536, v)
  }

  /** What the contract says of one value: 2^-16 is 169 modulo 3329. */
  lemma ReductionOf(mont: int -> int, v: int)
    requires MontgomeryContract(mont) && Reducible(v)
    ensures -Q < mont(v) < Q && Cong(mont(v) * 65536, v) && Cong(mont(v), 169 * v)
  {
    var k := CongMultiple(mont(v) * 65536, v);
    CongByMultiple(mont(v), 169 * v, 169 * k - 3327 * mont(v));
  }

  lemma SmallTimesInt16(s: int, zeta: int)
    requires -Q < s < Q && Int16(zeta)
    ensures Reducible(s * zeta)
  {
    var m := if s >= 0 then s else -s;
    ProductNonNegative(m, zeta + 32768);
    ProductNonNegative(m, 32768 - zeta);
    assert m * (zeta + 32768) == m * zeta + m * 32768;
    assert m * (32768 - zeta) == m * 32768 - m * zeta;
    assert s * zeta == m * zeta || s * zeta == -(m * zeta);
  }

  lemma Fits16(x: int)
    requires Int16(x)
    ensures ToInt16(x) == x
  {
    SmallMod(x + 32768, 65536);
  }

  /** The low 32 bits as a signed number. */
  function ToInt32(x: int): (y: int)
    ensures -0x8000_0000 <= y < 0x8000_0000
  {
    (x + 0x8000_0000) % 0x1_0000_0000 - 0x8000_0000
  }

  lemma Fits32(x: int)
    requires -0x8000_0000 <= x < 0x8000_0000
    ensures ToInt32(x) == x
  {
    SmallMod(x + 0x8000_0000, 0x1_0000_0000);
  }

  /** mlkem_montgomery_reduce, every narrowing written out. */
  function MontgomeryReduce(value: int): int {
    var t := ToInt16(ToInt16(value) * -3327);
    var adjusted := ToInt32(value - t * 3329);
    ToInt16(adjusted / 65536)
  }

  /** Narrowing removes a multiple of 2^16. */
  lemma NarrowingDrops(x: int) returns (k: int)
    ensures ToInt16(x) == x - 65536 * k
  {
    k := (x + 32768) / 65536;
  }

  /** The reduction meets the contract assumed of the firmware's: the division is exact,
      nothing wraps, and the result is value * 2^-16 modulo 3329. */
  lemma ReduceIsExact(value: int)
    requires Reducible(value)
    ensures -Q < MontgomeryReduce(value) < Q && Cong(MontgomeryReduce(value) * 65536, value)
  {
    var v' := ToInt16(value);
    var k := NarrowingDrops(value);
    var t := ToInt16(v' * -3327);
    var l := NarrowingDrops(v' * -3327);
    var r := 169 * value - 3329 * (3327 * k - l);
    hide ToInt16, ToInt32;
    assert value - t * 3329 == 65536 * r;
    Fits32(value - t * 3329);
    ModUniqueInt(value - t * 3329, 65536, r, 0);
    Fits16(r);
    CongByMultiple(r * 65536, value, -t);
  }

  /** For every product of two 16-bit words the division is exact and nothing wraps. */
  lemma ReduceOfProduct(value: int)
    requires -0x4000_0000 <= value <= 0x4000_0000
    ensures -18049 <= MontgomeryReduce(value) <= 18049 && Cong(MontgomeryReduce(value) * 65536, value)
  {
    var v' := ToInt16(value);
    var k := NarrowingDrops(value);
    var t := ToInt16(v' * -3327);
    var l := NarrowingDrops(v' * -3327);
    var r := 169 * value - 3329 * (3327 * k - l);
    hide ToInt16, ToInt32;
    assert value - t * 3329 == 65536 * r;
    Fits32(value - t * 3329);
    ModUniqueInt(value - t * 3329, 65536, r, 0);
    Fits16(r);
    CongByMultiple(r * 65536, value, -t);
  }

  lemma ReduceMeetsContract()
    ensures MontgomeryContract(MontgomeryReduce)
  {
    forall v | Reducible(v)
      ensures -Q < MontgomeryReduce(v) < Q && Cong(MontgomeryReduce(v) * 65536, v)
    {
      ReduceIsExact(v);
    }
  }

  /** mlkem_barrett_reduce. */
  function BarrettReduce(value: int): int {
    var t := ToInt32(ToInt32(20159 * value) + 33554432) / 67108864;
    ToInt16(value - t * 3329)
  }

  /** Barrett reduction returns the residue nearest to zero, for every 16-bit value. */
  lemma BarrettIsCentred(value: int)
    requires Int16(value)
    ensures Cong(BarrettReduce(value), value) && -1664 <= BarrettReduce(value) <= 1664
  {
    hide ToInt16, ToInt32;
    Fits32(20159 * value);
    Fits32(20159 * value + 33554432);
    var n := 20159 * value + 33554432;
    var t := n / 67108864;
    QuotientRemainder(n, 67108864);
    ModRange(n, 67108864);
    var r := value - t * 3329;
    assert -1664 <= r <= 1664;
    Fits16(r);
    CongByMultiple(r, value, -t);
  }
}
