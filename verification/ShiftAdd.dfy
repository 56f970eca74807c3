/** Shift-and-add modular multiplication as Python integers compute it
    (model/reference.py:24-76, model/modarith.py:18-104). */
module ShiftAdd {
  import opened Numbers
  import opened Outcomes

  const Q_MLDSA := 8380417
  const Q_MLKEM := 3329
  const WORD_BITS := 24

  predicate Canonical(value: int, q: int) {
    0 <= value < q
  }

  // ----- one add-and-double step

  /** The quantity every step keeps: what is accumulated plus what is still to come. */
  lemma StepKeepsProduct(q: int, acc: int, mcand: int, m: int, acc': int, mcand': int)
    requires 0 < q && 0 <= m
    requires acc' % q == (acc + (m % 2) * mcand) % q
    requires mcand' % q == (2 * mcand) % q
    ensures (acc' + mcand' * (m / 2)) % q == (acc + mcand * m) % q
  {
    var k := ModEqualMultiple(acc', acc + (m % 2) * mcand, q);
    var l := ModEqualMultiple(mcand', 2 * mcand, q);
    var h, d := m / 2, m % 2;
    StepAlgebra(q, acc, mcand, m, h, d, acc', mcand', k, l);
    SameRemainder(acc' + mcand' * h, acc + mcand * m, k + l * h, q);
  }

  lemma StepAlgebra(q: int, acc: int, mcand: int, m: int, h: int, d: int, acc': int, mcand': int, k: int, l: int)
    requires m == 2 * h + d && acc' == acc + d * mcand + q * k && mcand' == 2 * mcand + q * l
    ensures acc' + mcand' * h == acc + mcand * m + q * (k + l * h)
  {
    assert mcand' * h == 2 * (mcand * h) + q * (l * h) by {
      assert mcand' * h == (2 * mcand) * h + (q * l) * h;
      assert (q * l) * h == q * (l * h);
      assert (2 * mcand) * h == 2 * (mcand * h);
    }
    assert mcand * m == 2 * (mcand * h) + mcand * d;
    assert q * (k + l * h) == q * k + q * (l * h);
  }

  /** One conditional subtraction reduces a sum of two canonical residues. */
  function AddOnce(x: int, y: int, q: int): int {
    if x + y >= q then x + y - q else x + y
  }

  lemma AddOnceReduces(x: int, y: int, q: int)
    requires Canonical(x, q) && Canonical(y, q)
    ensures Canonical(AddOnce(x, y, q), q)
    ensures AddOnce(x, y, q) == (x + y) % q
  {
    if x + y >= q {
      ModUniqueInt(x + y, q, 1, x + y - q);
    } else {
      SmallMod(x + y, q);
    }
  }

  /** The low n bits of a multiplier, the part the remaining n steps look at. */
  function LowBits(m: int, n: nat): (l: int)
    ensures l >= 0
  {
    ModRange(m, Pow2(n));
    m % Pow2(n)
  }

  lemma LowBitsHalve(m: int, n: nat)
    requires 0 <= m
    ensures LowBits(m, n + 1) % 2 == m % 2
    ensures LowBits(m, n + 1) / 2 == LowBits(m / 2, n)
  {
    Pow2Step(n);
    hide Pow2;
    HalveRemainder(m, Pow2(n));
  }

  lemma HalveRemainder(m: int, p: int)
    requires 0 < p
    ensures m % (2 * p) % 2 == m % 2 && m % (2 * p) / 2 == m / 2 % p
  {
    var h, b := m / 2, m % 2;
    var d, x := h / p, h % p;
    QuotientRemainder(h, p);
    ModRange(h, p);
    Doubled(p, d);
    ModUniqueInt(m, 2 * p, d, 2 * x + b);
    ModUniqueInt(2 * x + b, 2, x, b);
  }

  lemma NoLowBits(m: int)
    ensures LowBits(m, 0) == 0
  {
    Pow2Zero();
    ModUniqueInt(m, 1, m, 0);
  }

  // ----- model/reference.py

  /** What is accumulated plus what is still to come is the target, modulo q. */
  ghost predicate Outstanding(q: int, acc: int, mcand: int, low: int, target: int)
    requires q > 0
  {
    (acc + mcand * low) % q == target
  }

  /** One turn of a shift-and-add loop. */
  lemma OutstandingStep(q: int, acc: int, mcand: int, low: int, target: int)
    requires Canonical(acc, q) && Canonical(mcand, q) && 0 <= low
    requires Outstanding(q, acc, mcand, low, target)
    ensures var acc', mcand' := if low % 2 == 1 then AddOnce(acc, mcand, q) else acc, AddOnce(mcand, mcand, q);
            Canonical(acc', q) && Canonical(mcand', q) && Outstanding(q, acc', mcand', low / 2, target)
  {
    AddOnceReduces(acc, mcand, q);
    AddOnceReduces(mcand, mcand, q);
    var acc', mcand' := if low % 2 == 1 then AddOnce(acc, mcand, q) else acc, AddOnce(mcand, mcand, q);
    SmallMod(acc, q);
    SmallMod(acc', q);
    SmallMod(mcand', q);
    hide AddOnce;
    assert low % 2 == 1 ==> (low % 2) * mcand == mcand;
    assert low % 2 == 0 ==> (low % 2) * mcand == 0;
    StepKeepsProduct(q, acc, mcand, low, acc', mcand');
  }

  lemma OutstandingAtEnd(q: int, acc: int, mcand: int, low: int, target: int)
    requires Canonical(acc, q) && low == 0 && Outstanding(q, acc, mcand, low, target)
    ensures acc == target
  {
    assert mcand * 0 == 0;
    SmallMod(acc, q);
  }

  lemma OutstandingAtStart(q: int, a: int, b: int)
    requires q > 0
    ensures Outstanding(q, 0, a, LowBits(b, 24), a * (b % Pow2(24)) % q)
  {
    hide Pow2;
  }

  /** modmul (model/reference.py:29-46). */
  method ModMul(a: int, b: int, q: int) returns (r: Result<int>)
    ensures r.Ok? <==> 0 <= a < q && 0 <= b < q
    ensures r.Ok? ==> r.value == a * (b % Pow2(24)) % q
  {
    hide Pow2, LowBits, Outstanding;
    if !(0 <= a < q) || !(0 <= b < q) {
      return Raised;
    }
    var accumulator := 0;
    var multiplicand := a;
    var multiplier := b;
    ghost var target := a * (b % Pow2(24)) % q;
    OutstandingAtStart(q, a, b);
    for i := 0 to 24
      invariant Canonical(accumulator, q) && Canonical(multiplicand, q) && 0 <= multiplier
      invariant Outstanding(q, accumulator, multiplicand, LowBits(multiplier, 24 - i), target)
    {
      LowBitsHalve(multiplier, 24 - i - 1);
      OutstandingStep(q, accumulator, multiplicand, LowBits(multiplier, 24 - i), target);
      if multiplier % 2 == 1 {
        accumulator := accumulator + multiplicand;
        if accumulator >= q {
          accumulator := accumulator - q;
        }
      }
      multiplicand := 2 * multiplicand;
      if multiplicand >= q {
        multiplicand := multiplicand - q;
      }
      multiplier := multiplier / 2;
    }
    NoLowBits(multiplier);
    OutstandingAtEnd(q, accumulator, multiplicand, LowBits(multiplier, 0), target);
    return Ok(accumulator);
  }

  /** Twenty-four steps are enough exactly for moduli up to 2^24. */
  lemma StepsSuffice(q: int)
    requires 0 < q
    ensures (forall a, b :: Canonical(a, q) && Canonical(b, q) ==> a * (b % Pow2(24)) % q == a * b % q)
            <==> q <= Pow2(24)
  {
    if q <= Pow2(24) {
      forall a, b | Canonical(a, q) && Canonical(b, q)
        ensures a * (b % Pow2(24)) % q == a * b % q
      {
        SmallMod(b, Pow2(24));
      }
    } else {
      var a, b := 1, Pow2(24);
      ModUniqueInt(b, Pow2(24), 1, 0);
      SmallMod(b, q);
      SmallMod(0, q);
      assert Canonical(a, q) && Canonical(b, q);
      assert a * (b % Pow2(24)) == 0 && a * b == b;
    }
  }

  lemma ReduceInside(a: int, t: int, q: int)
    requires 0 < q
    ensures (a + t % q) % q == (a + t) % q
    ensures (a - t % q) % q == (a - t) % q
  {
    assert t == q * (t / q) + t % q;
    ModPlusMultiple(a + t % q, t / q, q);
    ModPlusMultiple(a - t % q, -(t / q), q);
    assert a - t == a - t % q + q * (-(t / q));
  }

  lemma FactorOut(x: int, q: int, d: int, m: int, z: int)
    requires x == q * d + m
    ensures x * z == m * z + q * (d * z)
  {
    assert (q * d) * z == q * (d * z);
    assert x * z == (q * d) * z + m * z;
  }

  lemma ReduceFactor(x: int, z: int, q: int)
    requires 0 < q
    ensures (x % q) * z % q == x * z % q
  {
    var d, m := x / q, x % q;
    QuotientRemainder(x, q);
    FactorOut(x, q, d, m, z);
    SameRemainder(x * z, m * z, d * z, q);
  }

  /** The Cooley-Tukey pair (a + bz, a - bz) over the field. */
  function CtPair(a: int, b: int, zeta: int, q: int): (int, int)
    requires 0 < q
  {
    ((a + b * zeta) % q, (a - b * zeta) % q)
  }

  /** The Gentleman-Sande pair (a + b, (a - b)z) over the field. */
  function GsPair(a: int, b: int, zeta: int, q: int): (int, int)
    requires 0 < q
  {
    ((a + b) % q, (a - b) * zeta % q)
  }

  /** ct_butterfly (model/reference.py:49-55). */
  method CtButterfly(a: int, b: int, zeta: int, q: int) returns (r: Result<(int, int)>)
    ensures r.Ok? <==> 0 <= a < q && 0 <= b < q && 0 <= zeta < q
    ensures r.Ok? ==> r.value == CtPair(a, b, zeta % Pow2(24), q)
    ensures r.Ok? ==> Canonical(r.value.0, q) && Canonical(r.value.1, q)
    ensures r.Ok? && q <= Pow2(24) ==> r.value == ((a + b * zeta) % q, (a - b * zeta) % q)
  {
    hide Pow2;
    if !(0 <= a < q) || !(0 <= b < q) || !(0 <= zeta < q) {
      return Raised;
    }
    var t := ModMul(b, zeta, q);
    if q <= Pow2(24) {
      SmallMod(zeta, Pow2(24));
    }
    ReduceInside(a, b * (zeta % Pow2(24)), q);
    ModRange(a + t.value, q);
    ModRange(a - t.value, q);
    return Ok(((a + t.value) % q, (a - t.value) % q));
  }

  /** gs_butterfly (model/reference.py:58-63). */
  method GsButterfly(a: int, b: int, zeta: int, q: int) returns (r: Result<(int, int)>)
    ensures r.Ok? <==> 0 <= a < q && 0 <= b < q && 0 <= zeta < q
    ensures r.Ok? ==> r.value == GsPair(a, b, zeta % Pow2(24), q)
    ensures r.Ok? ==> Canonical(r.value.0, q) && Canonical(r.value.1, q)
    ensures r.Ok? && q <= Pow2(24) ==> r.value == ((a + b) % q, (a - b) * zeta % q)
  {
    hide Pow2;
    if !(0 <= a < q) || !(0 <= b < q) || !(0 <= zeta < q) {
      return Raised;
    }
    ModRange(a - b, q);
    var t := ModMul((a - b) % q, zeta, q);
    if q <= Pow2(24) {
      SmallMod(zeta, Pow2(24));
    }
    ReduceFactor(a - b, zeta % Pow2(24), q);
    ModRange(a + b, q);
    ModRange((a - b) % q * (zeta % Pow2(24)), q);
    return Ok(((a + b) % q, t.value));
  }

  // ----- the command interface of model/reference.py

  const OP_MUL := 0
  const OP_CT := 1
  const OP_GS := 2

  function Modulus(modeKem: bool): int {
    if modeKem then Q_MLKEM else Q_MLDSA
  }

  lemma ModulusFits(modeKem: bool)
    ensures 0 < Modulus(modeKem) < Pow2(24)
  {
    Pow2Values();
  }

  /** execute (model/reference.py:66-75): what each opcode computes and exactly
      when it raises. A multiplication ignores zeta, however malformed. */
  method ExecuteReference(op: int, modeKem: bool, a: int, b: int, zeta: int) returns (r: Result<(int, int)>)
    ensures var q := if modeKem then 3329 else 8380417;
            r.Ok? <==> 0 <= op <= 2 && 0 <= a < q && 0 <= b < q && (op == 0 || 0 <= zeta < q)
    ensures var q := if modeKem then 3329 else 8380417;
            r.Ok? ==> r.value == if op == 0 then (a * b % q, 0)
                                 else if op == 1 then ((a + b * zeta) % q, (a - b * zeta) % q)
                                 else ((a + b) % q, (a - b) * zeta % q)
  {
    hide Pow2;
    var q := Modulus(modeKem);
    ModulusFits(modeKem);
    if op == OP_MUL {
      var t := ModMul(a, b, q);
      if t.Ok? {
        SmallMod(b, Pow2(24));
        return Ok((t.value, 0));
      }
      return Raised;
    }
    if op == OP_CT {
      r := CtButterfly(a, b, zeta, q);
      return;
    }
    if op == OP_GS {
      r := GsButterfly(a, b, zeta, q);
      return;
    }
    return Raised;
  }

  // ----- model/modarith.py

  predicate Supported(q: int) {
    q == Q_MLKEM || q == Q_MLDSA
  }

  lemma SupportedFits(q: int)
    requires Supported(q)
    ensures 0 < q < Pow2(24)
  {
    ModulusFits(q == Q_MLKEM);
  }

  /** add_mod (model/modarith.py:32-38). */
  function AddModChecked(a: int, b: int, q: int): (r: Result<int>)
    ensures r.Ok? <==> (q == 3329 || q == 8380417) && 0 <= a < q && 0 <= b < q
    ensures r.Ok? ==> r.value == (a + b) % q
  {
    if !Supported(q) || !Canonical(a, q) || !Canonical(b, q) then Raised
    else
      AddOnceReduces(a, b, q);
      var total := a + b;
      Ok(if total >= q then total - q else total)
  }

  /** sub_mod (model/modarith.py:41-46). */
  function SubModChecked(a: int, b: int, q: int): (r: Result<int>)
    ensures r.Ok? <==> (q == 3329 || q == 8380417) && 0 <= a < q && 0 <= b < q
    ensures r.Ok? ==> r.value == (a - b) % q
  {
    if !Supported(q) || !Canonical(a, q) || !Canonical(b, q) then Raised
    else
      Ok(if a >= b then a - b else a + q - b)
  }

  /** mul_mod_shift_add (model/modarith.py:55-82). The inner additions never raise,
      because every intermediate is canonical. */
  method MulModShiftAdd(a: int, b: int, q: int, wordBits: int) returns (r: Result<(int, int)>)
    ensures r.Ok? <==> (q == 3329 || q == 8380417) && 0 <= a < q && 0 <= b < q && wordBits >= 24
    ensures r.Ok? ==> r.value == (a * b % q, wordBits)
  {
    hide Pow2, Outstanding;
    if !Supported(q) || !Canonical(a, q) || !Canonical(b, q) || wordBits < WORD_BITS {
      return Raised;
    }
    var product := 0;
    var multiplicand := a;
    var multiplier := b;
    ghost var target := a * b % q;
    SupportedFits(q);
    Pow2Grows(WORD_BITS, wordBits);
    WholeOutstanding(q, a, b);
    for i := 0 to wordBits
      invariant Canonical(product, q) && Canonical(multiplicand, q)
      invariant 0 <= multiplier < Pow2(wordBits - i)
      invariant Outstanding(q, product, multiplicand, multiplier, target)
    {
      OutstandingStep(q, product, multiplicand, multiplier, target);
      if multiplier % 2 == 1 {
        var sum := AddModChecked(product, multiplicand, q);
        product := sum.value;
      }
      var double := AddModChecked(multiplicand, multiplicand, q);
      multiplicand := double.value;
      Pow2Step(wordBits - i - 1);
      multiplier := multiplier / 2;
    }
    Pow2Zero();
    OutstandingAtEnd(q, product, multiplicand, multiplier, target);
    return Ok((product, wordBits));
  }

  lemma WholeOutstanding(q: int, a: int, b: int)
    requires q > 0
    ensures Outstanding(q, 0, a, b, a * b % q)
  {
  }

  /** butterfly (model/modarith.py:93-104): out_a, out_b, product, cycles. */
  method Butterfly(a: int, b: int, twiddle: int, q: int) returns (r: Result<(int, int, int, int)>)
    ensures r.Ok? <==> (q == 3329 || q == 8380417) && 0 <= a < q && 0 <= b < q && 0 <= twiddle < q
    ensures r.Ok? ==> (r.value.0, r.value.1) == ((a + b * twiddle) % q, (a - b * twiddle) % q)
    ensures r.Ok? ==> r.value.2 == b * twiddle % q && r.value.3 == 24
  {
    if !Canonical(a, q) || !Canonical(b, q) || !Canonical(twiddle, q) {
      return Raised;
    }
    var product := MulModShiftAdd(b, twiddle, q, WORD_BITS);
    if product.Raised? {
      return Raised;
    }
    var p := product.value.0;
    ModRange(b * twiddle, q);
    ReduceInside(a, b * twiddle, q);
    var outA := AddModChecked(a, p, q);
    var outB := SubModChecked(a, p, q);
    return Ok((outA.value, outB.value, p, product.value.1));
  }
}
