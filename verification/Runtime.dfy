/** The freestanding allocator and memory moves of firmware/runtime.c, over one
    shared byte memory. */
module Runtime {
  import opened Words
  import opened SlotMask

  const CONTEXT_SLOTS := 32
  const CONTEXT_BYTES := 208

  datatype Pointer = Null | At(addr: nat)

  /** The memory and the mask; the pool of 32 blocks starts at address base. */
  datatype Heap = Heap(mem: seq<Byte>, used: Mask)

  ghost predicate Fits(base: nat, h: Heap) {
    base + CONTEXT_SLOTS * CONTEXT_BYTES <= |h.mem|
  }

  function BlockAt(base: nat, slot: nat): nat {
    base + slot * CONTEXT_BYTES
  }

  /** n bytes from at on replaced by value. */
  function Filled(mem: seq<Byte>, at: nat, n: nat, value: Byte): (m: seq<Byte>)
    requires at + n <= |mem|
    ensures |m| == |mem|
  {
    mem[..at] + seq(n, i => value) + mem[at + n..]
  }

  /** The first free slot from s on, or 32. */
  function FirstFree(m: Mask, s: nat): (f: nat)
    requires s <= CONTEXT_SLOTS
    ensures s <= f <= CONTEXT_SLOTS
    ensures f < CONTEXT_SLOTS ==> !HasSlot(m, f)
    ensures forall i :: s <= i < f ==> HasSlot(m, i)
    decreases CONTEXT_SLOTS - s
  {
    if s == CONTEXT_SLOTS || !HasSlot(m, s) then s else FirstFree(m, s + 1)
  }

  function Allocate(base: nat, h: Heap, size: nat): (r: (Heap, Pointer))
    requires Fits(base, h)
    ensures |r.0.mem| == |h.mem|
  {
    var slot := FirstFree(h.used, 0);
    if size == 0 || size > CONTEXT_BYTES || slot == CONTEXT_SLOTS then (h, Null)
    else (Heap(Filled(h.mem, BlockAt(base, slot), CONTEXT_BYTES, ZERO_BYTE), AddSlot(h.used, slot)),
          At(BlockAt(base, slot)))
  }

  predicate InPool(base: int, addr: int) {
    base <= addr < base + CONTEXT_SLOTS * CONTEXT_BYTES
  }

  lemma SlotInPool(offset: nat)
    requires offset < CONTEXT_SLOTS * CONTEXT_BYTES
    ensures 0 <= offset / CONTEXT_BYTES < CONTEXT_SLOTS
  {
  }

  function Release(base: nat, h: Heap, p: Pointer): (r: Heap)
    requires Fits(base, h)
    ensures |r.mem| == |h.mem|
  {
    if p.Null? || !InPool(base, p.addr) then h
    else
      var slot := (p.addr - base) / CONTEXT_BYTES;
      Heap(Filled(h.mem, BlockAt(base, slot), CONTEXT_BYTES, ZERO_BYTE), DropSlot(h.used, slot))
  }

  /** The globals of the runtime. */
  class Machine {
    const mem: array<Byte>
    const base: nat
    var used: Mask

    ghost predicate Valid()
      reads this
    {
      base + CONTEXT_SLOTS * CONTEXT_BYTES <= mem.Length
    }

    ghost function State(): Heap
      reads this, mem
    {
      Heap(mem[..], used)
    }

    constructor (memory: array<Byte>, pool: nat)
      requires pool + CONTEXT_SLOTS * CONTEXT_BYTES <= memory.Length
      ensures Valid() && mem == memory && base == pool && used == NO_SLOTS
    {
      mem := memory;
      base := pool;
      used := NO_SLOTS;
    }

    /** memset (firmware/runtime.c:41-47). */
    method Memset(dest: nat, value: Byte, count: nat)
      requires dest + count <= mem.Length
      modifies mem
      ensures mem[..] == Filled(old(mem[..]), dest, count, value)
    {
      var d: nat := dest;
      var left: nat := count;
      while left != 0
        invariant d + left == dest + count && dest <= d
        invariant forall i :: 0 <= i < dest || d <= i < mem.Length ==> mem[i] == old(mem[i])
        invariant forall i :: dest <= i < d ==> mem[i] == value
        decreases left
      {
        mem[d] := value;
        d := d + 1;
        left := left - 1;
      }
    }

    /** The ascending loop of memmove, for a destination below the source. */
    method MoveUp(dest: nat, src: nat, count: nat)
      requires dest < src && dest + count <= mem.Length && src + count <= mem.Length
      modifies mem
      ensures forall i :: dest <= i < dest + count ==> mem[i] == old(mem[i - dest + src])
      ensures forall i :: 0 <= i < dest || dest + count <= i < mem.Length ==> mem[i] == old(mem[i])
    {
      var d: nat, s: nat, left: nat := dest, src, count;
      while left != 0
        invariant d + left == dest + count && s + left == src + count && dest <= d
        invariant forall i :: dest <= i < d ==> mem[i] == old(mem[i - dest + src])
        invariant forall i :: 0 <= i < dest || d <= i < mem.Length ==> mem[i] == old(mem[i])
        decreases left
      {
        mem[d] := mem[s];
        d, s, left := d + 1, s + 1, left - 1;
      }
    }

    /** The descending loop of memmove, for a destination above the source. */
    method MoveDown(dest: nat, src: nat, count: nat)
      requires src < dest && dest + count <= mem.Length && src + count <= mem.Length
      modifies mem
      ensures forall i :: dest <= i < dest + count ==> mem[i] == old(mem[i - dest + src])
      ensures forall i :: 0 <= i < dest || dest + count <= i < mem.Length ==> mem[i] == old(mem[i])
    {
      var d: nat, s: nat, left: nat := dest + count, src + count, count;
      while left != 0
        invariant d == dest + left && s == src + left && left <= count
        invariant forall i :: d <= i < dest + count ==> mem[i] == old(mem[i - dest + src])
        invariant forall i :: 0 <= i < d || dest + count <= i < mem.Length ==> mem[i] == old(mem[i])
        decreases left
      {
        d, s, left := d - 1, s - 1, left - 1;
        mem[d] := mem[s];
      }
    }

    /** memmove (firmware/runtime.c:24-39): the destination range becomes the old
        source range and every other byte stays, however the ranges overlap. */
    method Memmove(dest: nat, src: nat, count: nat)
      requires dest + count <= mem.Length && src + count <= mem.Length
      modifies mem
      ensures mem[dest..dest + count] == old(mem[src..src + count])
      ensures forall i :: 0 <= i < dest || dest + count <= i < mem.Length ==> mem[i] == old(mem[i])
    {
      if dest < src {
        MoveUp(dest, src, count);
      } else if dest > src {
        MoveDown(dest, src, count);
      }
    }

    /** malloc (firmware/runtime.c:62-76). */
    method Malloc(size: nat) returns (p: Pointer)
      requires Valid()
      modifies this, mem
      ensures Valid()
      ensures (State(), p) == Allocate(base, old(State()), size)
    {
      hide HasSlot, AddSlot;
      if size == 0 || size > CONTEXT_BYTES {
        return Null;
      }
      for i := 0 to CONTEXT_SLOTS
        invariant State() == old(State())
        invariant FirstFree(used, 0) == FirstFree(used, i)
      {
        if !HasSlot(used, i) {
          used := AddSlot(used, i);
          Memset(base + i * CONTEXT_BYTES, ZERO_BYTE, CONTEXT_BYTES);
          return At(base + i * CONTEXT_BYTES);
        }
      }
      return Null;
    }

    /** free (firmware/runtime.c:78-93). */
    method Free(pointer: Pointer)
      requires Valid()
      modifies this, mem
      ensures Valid()
      ensures State() == Release(base, old(State()), pointer)
    {
      hide DropSlot, Filled;
      if pointer.Null? {
        return;
      }
      var value := pointer.addr;
      if value < base || value >= base + CONTEXT_SLOTS * CONTEXT_BYTES {
        return;
      }
      SlotInPool(value - base);
      var slot := (value - base) / CONTEXT_BYTES;
      Memset(base + slot * CONTEXT_BYTES, ZERO_BYTE, CONTEXT_BYTES);
      used := DropSlot(used, slot);
    }
  }

  // ----- runs of clients

  datatype Op = Malloc(size: nat) | Free(p: Pointer) | Write(addr: nat, value: Byte)

  /** A heap and the addresses malloc returned and free has not taken back. */
  datatype World = World(heap: Heap, live: set<nat>)

  function Next(base: nat, w: World, op: Op): (w': World)
    requires Fits(base, w.heap)
    ensures |w'.heap.mem| == |w.heap.mem|
  {
    match op
    case Malloc(size) =>
      var (h, p) := Allocate(base, w.heap, size);
      World(h, if p.At? then w.live + {p.addr} else w.live)
    case Free(p) =>
      World(Release(base, w.heap, p), if p.At? then w.live - {p.addr} else w.live)
    case Write(addr, value) =>
      if addr < |w.heap.mem| then World(Heap(w.heap.mem[addr := value], w.heap.used), w.live) else w
  }

  predicate InBlock(block: int, addr: int) {
    block <= addr < block + CONTEXT_BYTES
  }

  /** Clients free what they hold, NULL, or pointers from elsewhere, and write inside
      blocks they hold or outside the pool. */
  ghost predicate WellBehaved(base: nat, w: World, op: Op) {
    match op
    case Malloc(_) => true
    case Free(p) => p.At? ==> p.addr in w.live || !InPool(base, p.addr)
    case Write(addr, _) => !InPool(base, addr) || exists b :: b in w.live && InBlock(b, addr)
  }

  /** The mask is exactly the live blocks, and what is not live is zero. */
  ghost predicate Inv(base: nat, w: World) {
    && Fits(base, w.heap)
    && (forall slot :: 0 <= slot < CONTEXT_SLOTS ==> (HasSlot(w.heap.used, slot) <==> BlockAt(base, slot) in w.live))
    && (forall b :: b in w.live ==> exists slot :: 0 <= slot < CONTEXT_SLOTS && b == BlockAt(base, slot))
    && FreeBlocksZero(base, w.heap)
  }

  /** Blocks of different slots do not overlap. */
  lemma BlocksDisjoint(base: nat, s: nat, t: nat, i: nat)
    requires InBlock(BlockAt(base, s), i) && InBlock(BlockAt(base, t), i)
    ensures s == t
  {
  }

  lemma SlotOfBlock(base: nat, slot: nat)
    requires slot < CONTEXT_SLOTS
    ensures InPool(base, BlockAt(base, slot)) && (BlockAt(base, slot) - base) / CONTEXT_BYTES == slot
    ensures BlockAt(base, slot) + CONTEXT_BYTES <= base + CONTEXT_SLOTS * CONTEXT_BYTES
  {
  }

  /** A byte of a filled memory. */
  lemma FilledAt(mem: seq<Byte>, at: nat, n: nat, value: Byte, i: nat)
    requires at + n <= |mem| && i < |mem|
    ensures Filled(mem, at, n, value)[i] == if at <= i < at + n then value else mem[i]
  {
  }

  /** Every block that is not live is zero. */
  ghost predicate FreeBlocksZero(base: nat, h: Heap)
    requires Fits(base, h)
  {
    forall slot, i :: 0 <= slot < CONTEXT_SLOTS && !HasSlot(h.used, slot) && InBlock(BlockAt(base, slot), i) ==>
      h.mem[i] == ZERO_BYTE
  }

  lemma AllocateKeepsZero(base: nat, h: Heap, slot: nat)
    requires Fits(base, h) && FreeBlocksZero(base, h) && slot < CONTEXT_SLOTS
    ensures var h' := Heap(Filled(h.mem, BlockAt(base, slot), CONTEXT_BYTES, ZERO_BYTE), AddSlot(h.used, slot));
            FreeBlocksZero(base, h')
  {
    hide HasSlot, AddSlot, Filled;
    var h' := Heap(Filled(h.mem, BlockAt(base, slot), CONTEXT_BYTES, ZERO_BYTE), AddSlot(h.used, slot));
    forall s, i | 0 <= s < CONTEXT_SLOTS && !HasSlot(h'.used, s) && InBlock(BlockAt(base, s), i)
      ensures h'.mem[i] == ZERO_BYTE
    {
      HasAfterAdd(h.used, slot, s);
      FilledAt(h.mem, BlockAt(base, slot), CONTEXT_BYTES, ZERO_BYTE, i);
    }
  }

  lemma AllocateKeepsInv(base: nat, w: World, size: nat)
    requires Inv(base, w)
    ensures Inv(base, Next(base, w, Malloc(size)))
  {
    hide HasSlot, AddSlot, InBlock, Filled, FreeBlocksZero;
    var w' := Next(base, w, Malloc(size));
    var slot := FirstFree(w.heap.used, 0);
    if !(size == 0 || size > CONTEXT_BYTES || slot == CONTEXT_SLOTS) {
      SlotOfBlock(base, slot);
      forall s | 0 <= s < CONTEXT_SLOTS
        ensures HasSlot(w'.heap.used, s) <==> BlockAt(base, s) in w'.live
      {
        HasAfterAdd(w.heap.used, slot, s);
      }
      AllocateKeepsZero(base, w.heap, slot);
    }
  }

  lemma ReleaseKeepsZero(base: nat, h: Heap, slot: nat)
    requires Fits(base, h) && FreeBlocksZero(base, h) && slot < CONTEXT_SLOTS
    ensures var h' := Heap(Filled(h.mem, BlockAt(base, slot), CONTEXT_BYTES, ZERO_BYTE), DropSlot(h.used, slot));
            FreeBlocksZero(base, h')
  {
    hide HasSlot, DropSlot, Filled;
    var h' := Heap(Filled(h.mem, BlockAt(base, slot), CONTEXT_BYTES, ZERO_BYTE), DropSlot(h.used, slot));
    forall s, i | 0 <= s < CONTEXT_SLOTS && !HasSlot(h'.used, s) && InBlock(BlockAt(base, s), i)
      ensures h'.mem[i] == ZERO_BYTE
    {
      HasAfterDrop(h.used, slot, s);
      FilledAt(h.mem, BlockAt(base, slot), CONTEXT_BYTES, ZERO_BYTE, i);
    }
  }

  lemma ReleaseKeepsInv(base: nat, w: World, p: Pointer)
    requires Inv(base, w) && WellBehaved(base, w, Free(p))
    ensures Inv(base, Next(base, w, Free(p)))
  {
    hide HasSlot, DropSlot, InBlock, Filled, FreeBlocksZero;
    var w' := Next(base, w, Free(p));
    if p.At? {
      if p.addr in w.live {
        var slot :| 0 <= slot < CONTEXT_SLOTS && p.addr == BlockAt(base, slot);
        SlotOfBlock(base, slot);
        forall s | 0 <= s < CONTEXT_SLOTS
          ensures HasSlot(w'.heap.used, s) <==> BlockAt(base, s) in w'.live
        {
          HasAfterDrop(w.heap.used, slot, s);
        }
        ReleaseKeepsZero(base, w.heap, slot);
      } else {
        assert w'.live == w.live;
      }
    }
  }

  lemma WriteKeepsInv(base: nat, w: World, addr: nat, value: Byte)
    requires Inv(base, w) && WellBehaved(base, w, Write(addr, value))
    ensures Inv(base, Next(base, w, Write(addr, value)))
  {
    hide HasSlot;
    var w' := Next(base, w, Write(addr, value));
    forall s, i | 0 <= s < CONTEXT_SLOTS && !HasSlot(w'.heap.used, s) && InBlock(BlockAt(base, s), i)
      ensures w'.heap.mem[i] == ZERO_BYTE
    {
      SlotOfBlock(base, s);
      if addr == i {
        var b :| b in w.live && InBlock(b, addr);
        var t :| 0 <= t < CONTEXT_SLOTS && b == BlockAt(base, t);
        BlocksDisjoint(base, s, t, i);
        assert false;
      }
    }
  }

  /** One well-behaved step keeps the invariant. */
  lemma StepKeepsInv(base: nat, w: World, op: Op)
    requires Inv(base, w) && WellBehaved(base, w, op)
    ensures Inv(base, Next(base, w, op))
  {
    hide Inv, WellBehaved;
    match op
    case Malloc(size) => AllocateKeepsInv(base, w, size);
    case Free(p) => ReleaseKeepsInv(base, w, p);
    case Write(addr, value) => WriteKeepsInv(base, w, addr, value);
  }

  ghost predicate WellBehavedRun(base: nat, w: World, ops: seq<Op>)
    requires Fits(base, w.heap)
    decreases |ops|
  {
    ops == [] || (WellBehaved(base, w, ops[0]) && WellBehavedRun(base, Next(base, w, ops[0]), ops[1..]))
  }

  function After(base: nat, w: World, ops: seq<Op>): World
    requires Fits(base, w.heap)
    decreases |ops|
  {
    if ops == [] then w else After(base, Next(base, w, ops[0]), ops[1..])
  }

  /** Over every well-behaved run the mask bits are exactly the live blocks and every
      free block is zero. */
  lemma {:induction false} RunKeepsInv(base: nat, w: World, ops: seq<Op>)
    requires Inv(base, w) && WellBehavedRun(base, w, ops)
    ensures Inv(base, After(base, w, ops))
    decreases |ops|
  {
    hide WellBehaved, Next, FreeBlocksZero, HasSlot;
    if ops != [] {
      StepKeepsInv(base, w, ops[0]);
      RunKeepsInv(base, Next(base, w, ops[0]), ops[1..]);
    }
  }

  /** Zeroed memory and an empty mask, as at start-up. */
  lemma StartInv(base: nat, mem: seq<Byte>)
    requires base + CONTEXT_SLOTS * CONTEXT_BYTES <= |mem|
    requires forall i :: base <= i < base + CONTEXT_SLOTS * CONTEXT_BYTES ==> mem[i] == ZERO_BYTE
    ensures Inv(base, World(Heap(mem, NO_SLOTS), {}))
  {
    hide HasSlot;
    forall slot | 0 <= slot < CONTEXT_SLOTS
      ensures !HasSlot(NO_SLOTS, slot)
    {
      NoneInEmpty(slot);
    }
    forall slot, i | 0 <= slot < CONTEXT_SLOTS && InBlock(BlockAt(base, slot), i)
      ensures mem[i] == ZERO_BYTE
    {
      SlotOfBlock(base, slot);
    }
  }

  // ----- what a single call promises

  /** A block malloc returns is new, zeroed, disjoint from every live block, and the
      bytes of the others are as they were. */
  lemma MallocIsFresh(base: nat, w: World, size: nat, i: nat)
    requires Inv(base, w) && Allocate(base, w.heap, size).1.At?
    ensures var (h, p) := Allocate(base, w.heap, size);
            && p.addr !in w.live
            && p.addr + CONTEXT_BYTES <= |h.mem|
            && (InBlock(p.addr, i) ==> h.mem[i] == ZERO_BYTE)
            && (forall b :: b in w.live ==> !(InBlock(b, i) && InBlock(p.addr, i)))
            && (i < |h.mem| && !InBlock(p.addr, i) ==> h.mem[i] == w.heap.mem[i])
  {
    hide HasSlot, AddSlot;
    var slot := FirstFree(w.heap.used, 0);
    SlotOfBlock(base, slot);
    forall b | b in w.live && InBlock(b, i) && InBlock(BlockAt(base, slot), i)
      ensures false
    {
      var t :| 0 <= t < CONTEXT_SLOTS && b == BlockAt(base, t);
      BlocksDisjoint(base, slot, t, i);
    }
  }

  /** Freeing a live block wipes it and leaves every other byte alone. */
  lemma FreeScrubs(base: nat, w: World, b: nat, i: nat)
    requires Inv(base, w) && b in w.live && i < |w.heap.mem|
    ensures Release(base, w.heap, At(b)).mem[i] == if InBlock(b, i) then ZERO_BYTE else w.heap.mem[i]
  {
    hide HasSlot, DropSlot;
    var slot :| 0 <= slot < CONTEXT_SLOTS && b == BlockAt(base, slot);
    SlotOfBlock(base, slot);
  }

  /** malloc hands out the lowest of the 32 blocks of 208 bytes that is not live. */
  lemma MallocTakesLowest(base: nat, w: World, size: nat) returns (slot: nat)
    requires Inv(base, w) && Allocate(base, w.heap, size).1.At?
    ensures slot < 32 && Allocate(base, w.heap, size).1.addr == base + 208 * slot
    ensures base + 208 * slot !in w.live && forall t :: 0 <= t < slot ==> base + 208 * t in w.live
  {
    hide HasSlot, AddSlot, FreeBlocksZero;
    slot := FirstFree(w.heap.used, 0);
    forall t | 0 <= t < slot
      ensures base + 208 * t in w.live
    {
      assert BlockAt(base, t) in w.live;
    }
    assert BlockAt(base, slot) !in w.live;
  }

  /** free of any pointer: outside the pool's 6656 bytes it changes nothing, inside it
      zeroes the 208 bytes of the block the pointer falls in, clears that block's mask bit
      and changes nothing else. */
  lemma FreeExactly(base: nat, h: Heap, p: Pointer, i: nat, slot: nat)
    requires Fits(base, h) && i < |h.mem| && slot < 32
    ensures p.Null? || p.addr < base || p.addr >= base + 6656 ==> Release(base, h, p) == h
    ensures p.At? && base <= p.addr < base + 6656 ==>
              var start := p.addr - (p.addr - base) % 208;
              && Release(base, h, p).mem[i] == (if start <= i < start + 208 then ZERO_BYTE else h.mem[i])
              && (HasSlot(Release(base, h, p).used, slot) <==> HasSlot(h.used, slot) && base + 208 * slot != start)
  {
    hide HasSlot, DropSlot;
    if p.At? && base <= p.addr < base + 6656 {
      HasAfterDrop(h.used, (p.addr - base) / 208, slot);
    }
  }

  // ----- the heap as independent objects

  /** What each live block holds, with no memory shared between them. */
  type Objects = o: map<nat, seq<Byte>> | forall b :: b in o ==> |o[b]| == CONTEXT_BYTES

  function ZeroObject(): seq<Byte> {
    seq(CONTEXT_BYTES, i => ZERO_BYTE)
  }

  /** The same operation on objects: malloc adds a zero object, free removes one, and a
      write changes one byte of the object it falls in. */
  function NextObjects(base: nat, w: World, o: Objects, op: Op): Objects
    requires Fits(base, w.heap)
  {
    match op
    case Malloc(size) =>
      var p := Allocate(base, w.heap, size).1;
      if p.At? then o[p.addr := ZeroObject()] else o
    case Free(p) => if p.At? then o - {p.addr} else o
    case Write(addr, value) => WriteObjects(o, addr, value)
  }

  function WriteObjects(o: Objects, addr: nat, value: Byte): (o': Objects)
    ensures o'.Keys == o.Keys
  {
    map b | b in o :: WriteObject(o[b], b, addr, value)
  }

  function WriteObject(bytes: seq<Byte>, b: nat, addr: nat, value: Byte): (bytes': seq<Byte>)
    requires |bytes| == CONTEXT_BYTES
    ensures |bytes'| == CONTEXT_BYTES
  {
    if InBlock(b, addr) then bytes[addr - b := value] else bytes
  }

  /** The memory holds the objects. */
  ghost predicate HoldsObjects(w: World, o: Objects) {
    o.Keys == w.live && forall b :: b in o ==> HoldsObject(w.heap.mem, b, o[b])
  }

  ghost predicate HoldsObject(mem: seq<Byte>, b: nat, bytes: seq<Byte>) {
    |bytes| == CONTEXT_BYTES && b + CONTEXT_BYTES <= |mem| && mem[b..b + CONTEXT_BYTES] == bytes
  }

  lemma SameBlock(mem: seq<Byte>, mem': seq<Byte>, b: nat, bytes: seq<Byte>)
    requires |mem'| == |mem| && HoldsObject(mem, b, bytes)
    requires forall i :: InBlock(b, i) ==> mem'[i] == mem[i]
    ensures HoldsObject(mem', b, bytes)
  {
  }

  lemma MallocZeroBlock(base: nat, w: World, size: nat)
    requires Inv(base, w) && Allocate(base, w.heap, size).1.At?
    ensures var (h, p) := Allocate(base, w.heap, size);
            p.addr !in w.live && HoldsObject(h.mem, p.addr, ZeroObject())
  {
    assert Fits(base, w.heap);
    hide Inv, Allocate;
    var (h, p) := Allocate(base, w.heap, size);
    MallocIsFresh(base, w, size, p.addr);
    forall i: nat | InBlock(p.addr, i)
      ensures h.mem[i] == ZERO_BYTE
    {
      MallocIsFresh(base, w, size, i);
    }
  }

  lemma MallocOtherBlock(base: nat, w: World, size: nat, b: nat, bytes: seq<Byte>)
    requires Inv(base, w) && Allocate(base, w.heap, size).1.At?
    requires b in w.live && HoldsObject(w.heap.mem, b, bytes)
    ensures HoldsObject(Allocate(base, w.heap, size).0.mem, b, bytes)
  {
    assert Fits(base, w.heap);
    hide Inv, Allocate;
    var (h, p) := Allocate(base, w.heap, size);
    forall i: nat | InBlock(b, i)
      ensures h.mem[i] == w.heap.mem[i]
    {
      MallocIsFresh(base, w, size, i);
    }
    SameBlock(w.heap.mem, h.mem, b, bytes);
  }

  lemma MallocKeepsObjects(base: nat, w: World, o: Objects, size: nat)
    requires Inv(base, w) && HoldsObjects(w, o)
    ensures HoldsObjects(Next(base, w, Malloc(size)), NextObjects(base, w, o, Malloc(size)))
  {
    assert Fits(base, w.heap);
    hide Inv, Allocate, HoldsObject, ZeroObject, InBlock;
    var (h, p) := Allocate(base, w.heap, size);
    MallocMissed(base, w.heap, size);
    if p.At? {
      MallocZeroBlock(base, w, size);
      forall b | b in o
        ensures HoldsObject(h.mem, b, o[b])
      {
        MallocOtherBlock(base, w, size, b, o[b]);
      }
    }
  }

  lemma MallocMissed(base: nat, h: Heap, size: nat)
    requires Fits(base, h)
    ensures Allocate(base, h, size).1.Null? ==> Allocate(base, h, size).0 == h
  {
  }

  lemma FreeKeepsObjects(base: nat, w: World, o: Objects, p: Pointer)
    requires Inv(base, w) && WellBehaved(base, w, Free(p)) && HoldsObjects(w, o)
    ensures HoldsObjects(Next(base, w, Free(p)), NextObjects(base, w, o, Free(p)))
  {
    var w', o' := Next(base, w, Free(p)), NextObjects(base, w, o, Free(p));
    if p.At? && p.addr in w.live {
      forall i: nat | i < |w.heap.mem|
        ensures w'.heap.mem[i] == if InBlock(p.addr, i) then ZERO_BYTE else w.heap.mem[i]
      {
        FreeScrubs(base, w, p.addr, i);
      }
      hide Release, HasSlot;
      forall b | b in o'
        ensures HoldsObject(w'.heap.mem, b, o'[b])
      {
        LiveDisjoint(base, w, b, p.addr);
        SameBlock(w.heap.mem, w'.heap.mem, b, o[b]);
      }
    }
  }

  /** Different live blocks do not overlap. */
  lemma LiveDisjoint(base: nat, w: World, b: nat, c: nat)
    requires Inv(base, w) && b in w.live && c in w.live && b != c
    ensures forall i :: !(InBlock(b, i) && InBlock(c, i))
  {
    hide HasSlot, FreeBlocksZero;
    var s :| 0 <= s < CONTEXT_SLOTS && b == BlockAt(base, s);
    var t :| 0 <= t < CONTEXT_SLOTS && c == BlockAt(base, t);
    forall i | InBlock(b, i) && InBlock(c, i)
      ensures false
    {
      BlocksDisjoint(base, s, t, i);
    }
  }

  lemma WriteKeepsObjects(base: nat, w: World, o: Objects, addr: nat, value: Byte)
    requires Inv(base, w) && HoldsObjects(w, o)
    ensures HoldsObjects(Next(base, w, Write(addr, value)), NextObjects(base, w, o, Write(addr, value)))
  {
    assert Fits(base, w.heap);
    hide Inv;
    var w', o' := Next(base, w, Write(addr, value)), NextObjects(base, w, o, Write(addr, value));
    forall b | b in o'
      ensures HoldsObject(w'.heap.mem, b, o'[b])
    {
      assert HoldsObject(w.heap.mem, b, o[b]);
      WrittenBlock(w.heap.mem, b, o[b], addr, value);
    }
  }

  lemma WrittenBlock(mem: seq<Byte>, b: nat, bytes: seq<Byte>, addr: nat, value: Byte)
    requires HoldsObject(mem, b, bytes)
    ensures HoldsObject(if addr < |mem| then mem[addr := value] else mem, b, WriteObject(bytes, b, addr, value))
  {
  }

  function ObjectsAfter(base: nat, w: World, o: Objects, ops: seq<Op>): Objects
    requires Fits(base, w.heap)
    decreases |ops|
  {
    if ops == [] then o
    else ObjectsAfter(base, Next(base, w, ops[0]), NextObjects(base, w, o, ops[0]), ops[1..])
  }

  /** Over every well-behaved run the blocks are independent objects: each live block
      holds zeros overwritten by the writes to it since its malloc, whatever happened to
      the others. */
  lemma {:induction false} RunKeepsObjects(base: nat, w: World, o: Objects, ops: seq<Op>)
    requires Inv(base, w) && WellBehavedRun(base, w, ops) && HoldsObjects(w, o)
    ensures HoldsObjects(After(base, w, ops), ObjectsAfter(base, w, o, ops))
    decreases |ops|
  {
    assert Fits(base, w.heap);
    hide WellBehaved, Next, NextObjects, Inv, HoldsObjects;
    if ops != [] {
      StepKeepsInv(base, w, ops[0]);
      StepKeepsObjects(base, w, o, ops[0]);
      RunKeepsObjects(base, Next(base, w, ops[0]), NextObjects(base, w, o, ops[0]), ops[1..]);
    }
  }

  lemma StepKeepsObjects(base: nat, w: World, o: Objects, op: Op)
    requires Inv(base, w) && WellBehaved(base, w, op) && HoldsObjects(w, o)
    ensures HoldsObjects(Next(base, w, op), NextObjects(base, w, o, op))
  {
    assert Fits(base, w.heap);
    hide Inv, WellBehaved, HoldsObjects;
    match op
    case Malloc(size) => MallocKeepsObjects(base, w, o, size);
    case Free(p) => FreeKeepsObjects(base, w, o, p);
    case Write(addr, value) => WriteKeepsObjects(base, w, o, addr, value);
  }

  // ----- when malloc fails

  lemma {:induction false} SlotsUpTo(base: nat, n: nat) returns (s: set<nat>)
    requires n <= CONTEXT_SLOTS
    ensures s == set k | 0 <= k < n :: BlockAt(base, k)
    ensures |s| == n
    decreases n
  {
    if n == 0 {
      s := {};
    } else {
      var t := SlotsUpTo(base, n - 1);
      s := t + {BlockAt(base, n - 1)};
    }
  }

  /** malloc fails exactly for a bad size or when all 32 blocks are live. */
  lemma MallocFailsExactly(base: nat, w: World, size: nat)
    requires Inv(base, w)
    ensures Allocate(base, w.heap, size).1.Null? <==> size == 0 || size > 208 || |w.live| == 32
  {
    hide HasSlot, AddSlot;
    var slot := FirstFree(w.heap.used, 0);
    var all := SlotsUpTo(base, CONTEXT_SLOTS);
    assert w.live <= all;
    if slot == CONTEXT_SLOTS {
      assert forall s :: 0 <= s < CONTEXT_SLOTS ==> HasSlot(w.heap.used, s);
      assert w.live == all;
    } else {
      assert BlockAt(base, slot) in all && BlockAt(base, slot) !in w.live;
      SubsetSmaller(w.live, all - {BlockAt(base, slot)});
    }
  }

  lemma SubsetSmaller(a: set<nat>, b: set<nat>)
    requires a <= b
    ensures |a| <= |b|
    decreases |a|
  {
    if a != {} {
      var x :| x in a;
      SubsetSmaller(a - {x}, b - {x});
    }
  }
}
