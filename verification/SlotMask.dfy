/** The 32-bit occupancy mask of firmware/runtime.c: one bit a slot. */
module SlotMask {

  datatype Mask = Mask(bits: bv32)

  const NO_SLOTS := Mask(0)

  /** (uint32_t)1u << slot, one shift at a time. */
  function SlotBit(slot: nat): bv32 {
    if slot == 0 then 1 else SlotBit(slot - 1) << 1
  }

  function And(x: bv32, y: bv32): bv32 {
    x & y
  }

  predicate Meets(x: bv32, y: bv32) {
    And(x, y) != 0
  }

  function Or(x: bv32, y: bv32): bv32 {
    x | y
  }

  function Clear(x: bv32, y: bv32): bv32 {
    x & !y
  }

  predicate HasSlot(m: Mask, slot: nat) {
    Meets(m.bits, SlotBit(slot))
  }

  function AddSlot(m: Mask, slot: nat): Mask {
    Mask(Or(m.bits, SlotBit(slot)))
  }

  function DropSlot(m: Mask, slot: nat): Mask {
    Mask(Clear(m.bits, SlotBit(slot)))
  }

  lemma LastSlotBit()
    ensures SlotBit(31) == 0x8000_0000
  {
    assert SlotBit(2) == 0x4;
    assert SlotBit(4) == 0x10;
    assert SlotBit(6) == 0x40;
    assert SlotBit(8) == 0x100;
    assert SlotBit(10) == 0x400;
    assert SlotBit(12) == 0x1000;
    assert SlotBit(14) == 0x4000;
    assert SlotBit(16) == 0x1_0000;
    assert SlotBit(18) == 0x4_0000;
    assert SlotBit(20) == 0x10_0000;
    assert SlotBit(22) == 0x40_0000;
    assert SlotBit(24) == 0x100_0000;
    assert SlotBit(26) == 0x400_0000;
    assert SlotBit(28) == 0x1000_0000;
    assert SlotBit(30) == 0x4000_0000;
  }

  lemma {:induction false} SlotBitNonzero(slot: nat)
    requires slot < 32
    ensures SlotBit(slot) != 0
    decreases 32 - slot
  {
    if slot == 31 {
      LastSlotBit();
    } else {
      SlotBitNonzero(slot + 1);
      assert SlotBit(slot + 1) == SlotBit(slot) << 1;
      ShiftedZero(SlotBit(slot));
    }
  }

  lemma ShiftedZero(x: bv32)
    ensures x << 1 != 0 ==> x != 0
  {
  }

  lemma ShiftedDisjoint(x: bv32, y: bv32)
    requires x & y == 0
    ensures (x << 1) & (y << 1) == 0
  {
  }

  lemma OddDisjoint(y: bv32)
    ensures 1 & (y << 1) == 0
  {
  }

  lemma {:induction false} SlotBitsDisjoint(i: nat, j: nat)
    requires i < j
    ensures SlotBit(i) & SlotBit(j) == 0
    decreases i
  {
    if i == 0 {
      OddDisjoint(SlotBit(j - 1));
    } else {
      SlotBitsDisjoint(i - 1, j - 1);
      ShiftedDisjoint(SlotBit(i - 1), SlotBit(j - 1));
    }
  }

  lemma OrKeeps(u: bv32, x: bv32, y: bv32)
    requires !Meets(x, y)
    ensures Meets(Or(u, x), y) == Meets(u, y)
  {
    hide And, Or;
    OrUntouched(u, x, y);
  }

  lemma OrUntouched(u: bv32, x: bv32, y: bv32)
    requires And(x, y) == 0
    ensures And(Or(u, x), y) == And(u, y)
  {
  }

  lemma ClearKeeps(u: bv32, x: bv32, y: bv32)
    requires !Meets(x, y)
    ensures Meets(Clear(u, x), y) == Meets(u, y)
  {
    hide And, Clear;
    ClearUntouched(u, x, y);
  }

  lemma ClearUntouched(u: bv32, x: bv32, y: bv32)
    requires And(x, y) == 0
    ensures And(Clear(u, x), y) == And(u, y)
  {
  }

  lemma OrSets(u: bv32, x: bv32)
    requires x != 0
    ensures Meets(Or(u, x), x)
  {
  }

  lemma ClearClears(u: bv32, x: bv32)
    ensures !Meets(Clear(u, x), x)
  {
  }

  lemma DisjointEitherWay(i: nat, j: nat)
    requires i != j
    ensures !Meets(SlotBit(i), SlotBit(j))
  {
    if i < j {
      SlotBitsDisjoint(i, j);
    } else {
      SlotBitsDisjoint(j, i);
      AndCommutes(SlotBit(i), SlotBit(j));
    }
  }

  lemma AndCommutes(x: bv32, y: bv32)
    ensures x & y == y & x
  {
  }

  /** Marking a slot sets its bit and no other. */
  lemma HasAfterAdd(m: Mask, slot: nat, j: nat)
    requires slot < 32
    ensures HasSlot(AddSlot(m, slot), j) <==> j == slot || HasSlot(m, j)
  {
    hide SlotBit, Meets, Or;
    if j == slot {
      SlotBitNonzero(slot);
      OrSets(m.bits, SlotBit(slot));
    } else {
      DisjointEitherWay(slot, j);
      OrKeeps(m.bits, SlotBit(slot), SlotBit(j));
    }
  }

  /** Clearing a slot clears its bit and no other. */
  lemma HasAfterDrop(m: Mask, slot: nat, j: nat)
    ensures HasSlot(DropSlot(m, slot), j) <==> j != slot && HasSlot(m, j)
  {
    hide SlotBit, Meets, Clear;
    if j == slot {
      ClearClears(m.bits, SlotBit(slot));
    } else {
      DisjointEitherWay(slot, j);
      ClearKeeps(m.bits, SlotBit(slot), SlotBit(j));
    }
  }

  lemma NoneInEmpty(j: nat)
    ensures !HasSlot(NO_SLOTS, j)
  {
    hide SlotBit, Meets;
    ZeroAnd(SlotBit(j));
  }

  lemma ZeroAnd(x: bv32)
    ensures !Meets(0, x)
  {
  }
}
