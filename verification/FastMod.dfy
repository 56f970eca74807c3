/** The branch-free reductions for the two production moduli, on Python integers:
    K2-RED for 3329 and Solinas folding for 8380417 (model/fastmod.py). */
module FastMod {
  import opened Numbers
  import opened Outcomes
  import opened ShiftAdd

  const Q_KEM := 3329
  const KEM_K := 13
  const KEM_CORR := 1353
  const Q_DSA := 8380417
  const MODULUS_ID_KEM := 0
  const MODULUS_ID_DSA := 1

  /** The select m & -bit for a bit. */
  function SelectIf(bit: int, m: int): int {
    if bit == 1 then m else 0
  }

  /** _cond_sub (model/fastmod.py:80-92). */
  function CondSub(value: int, modulus: int, width: nat): int {
    var difference := value - modulus;
    var borrow := difference / Pow2(width) % 2;
    difference + SelectIf(borrow, modulus)
  }

  /** kred (model/fastmod.py:100-129); / and % by a positive number floor, as >> and & do. */
  function KRed(value: int): int {
    KEM_K * (value % 256) - value / 256
  }

  function K2Red(value: int): int {
    KRed(KRed(value))
  }

  function KemNormalize(value: int): int {
    CondSub(CondSub(value + Q_KEM, Q_KEM, 13), Q_KEM, 13)
  }

  function KRed2Norm(value: int): int {
    KemNormalize(K2Red(value))
  }

  function ReduceKem(product: int): int {
    KRed2Norm(KRed2Norm(product) * KEM_CORR)
  }

  /** dsa_fold (model/fastmod.py:212-231). */
  function DsaFold(value: int): int {
    var low, high := value % 8388608, value / 8388608;
    low + high * 8192 - high
  }

  function ReduceDsa(product: int): int {
    CondSub(DsaFold(DsaFold(DsaFold(DsaFold(product)))), Q_DSA, 24)
  }

  /** request_is_valid (model/fastmod.py:306-317). */
  predicate RequestIsValid(modulusId: int, a: int, b: int) {
    && (modulusId == MODULUS_ID_KEM || modulusId == MODULUS_ID_DSA)
    && Canonical(a, ModulusForId(modulusId).value) && Canonical(b, ModulusForId(modulusId).value)
  }

  /** mulmod with its raised errors (model/fastmod.py:297-303). */
  function MulMod(a: int, b: int, modulus: int): Result<int> {
    if modulus == Q_KEM then
      if Canonical(a, Q_KEM) && Canonical(b, Q_KEM) then Ok(ReduceKem(a * b)) else Raised
    else if modulus == Q_DSA then
      if Canonical(a, Q_DSA) && Canonical(b, Q_DSA) then Ok(ReduceDsa(a * b)) else Raised
    else Raised
  }

  function ModulusForId(modulusId: int): Result<int> {
    if modulusId == MODULUS_ID_KEM then Ok(Q_KEM)
    else if modulusId == MODULUS_ID_DSA then Ok(Q_DSA)
    else Raised
  }

  /** execute (model/fastmod.py:320-324): product and fault. An exception escaping
      from below would surface as Raised; ExecuteFaultsExactly shows there is none. */
  function Execute(modulusId: int, a: int, b: int): Result<(int, bool)> {
    if !RequestIsValid(modulusId, a, b) then Ok((0, true))
    else
      match ModulusForId(modulusId)
      case Raised => Raised
      case Ok(q) =>
        match MulMod(a, b, q)
        case Raised => Raised
        case Ok(p) => Ok((p, false))
  }

  // ----- conditional subtraction

  /** One conditional subtraction, for any width that holds both operands. */
  lemma CondSubSubtracts(value: int, modulus: int, width: nat)
    requires 0 <= value < Pow2(width) && 0 <= modulus < Pow2(width)
    ensures CondSub(value, modulus, width) == if value >= modulus then value - modulus else value
  {
    hide Pow2;
    var d := value - modulus;
    if d >= 0 {
      ModUniqueInt(d, Pow2(width), 0, d);
    } else {
      ModUniqueInt(d, Pow2(width), -1, d + Pow2(width));
    }
  }

  lemma Widths()
    ensures Pow2(13) == 8192 && Pow2(24) == 16777216
  {
    assert Pow2(5) == 32;
    Pow2Values();
    Pow2Adds(5, 8);
  }

  // ----- ML-KEM

  /** The folding identity, for every integer, negative ones included. */
  lemma KRedIdentity(value: int)
    ensures KRed(value) == 13 * value - 3329 * (value / 256)
  {
  }

  /** One value of kred, from the two parts of its argument. */
  lemma KRedAt(value: int, high: int, low: int)
    requires value == 256 * high + low && 0 <= low < 256
    ensures KRed(value) == 13 * low - high
  {
    ModUniqueInt(value, 256, high, low);
  }

  lemma KRedRanges(value: int)
    ensures 0 <= value < 16777216 ==> -65535 <= KRed(value) <= 3315
    ensures -65535 <= value <= 3315 ==> -12 <= KRed(value) <= 3571
  {
  }

  /** The stated output ranges are attained at both ends. */
  lemma KRedRangesTight()
    ensures KRed(65535 * 256) == -65535 && KRed(255) == 3315
    ensures exists x :: -65535 <= x <= 3315 && KRed(x) == -12
    ensures exists x :: -65535 <= x <= 3315 && KRed(x) == 3571
  {
    KRedAt(16776960, 65535, 0);
    KRedAt(255, 0, 255);
    KRedAt(3072, 12, 0);
    KRedAt(-65281, -256, 255);
  }

  lemma KemNormalizeReduces(value: int)
    requires -3329 <= value < 2 * 3329
    ensures KemNormalize(value) == value % 3329
  {
    hide Pow2, CondSub;
    Widths();
    Twice(value);
  }

  lemma Twice(value: int)
    requires -3329 <= value < 2 * 3329 && Pow2(13) == 8192
    ensures KemNormalize(value) == value % 3329
  {
    hide Pow2, CondSub;
    if value + 3329 < 8192 {
      CondSubSubtracts(value + 3329, 3329, 13);
      var once := if value >= 0 then value else value + 3329;
      CondSubSubtracts(once, 3329, 13);
    } else {
      WideCondSub(value + 3329, 3329, 13);
      CondSubSubtracts(value, 3329, 13);
    }
  }

  /** The subtraction is also right when only the difference fits. */
  lemma WideCondSub(value: int, modulus: int, width: nat)
    requires 0 <= modulus <= value < Pow2(width) + modulus
    ensures CondSub(value, modulus, width) == value - modulus
  {
    hide Pow2;
    ModUniqueInt(value - modulus, Pow2(width), 0, value - modulus);
  }

  /** Scaled by 169, reduced. */
  lemma KRed2NormScales(value: int)
    requires 0 <= value < 16777216
    ensures KRed2Norm(value) == 169 * value % 3329
  {
    hide KRed, KemNormalize;
    KRedIdentity(value);
    KRedIdentity(KRed(value));
    KRedRanges(value);
    KRedRanges(KRed(value));
    KemNormalizeReduces(K2Red(value));
    TwoFolds(value, value / 256, KRed(value), KRed(value) / 256);
    ModPlusMultiple(169 * value, -(13 * (value / 256) + KRed(value) / 256), 3329);
  }

  lemma TwoFolds(v: int, a: int, w: int, b: int)
    requires w == 13 * v - 3329 * a
    ensures 13 * w - 3329 * b == 169 * v + 3329 * -(13 * a + b)
  {
  }

  /** reduce_kem is reduction modulo 3329 on the whole 24-bit domain. */
  lemma ReduceKemIsMod(product: int)
    requires 0 <= product < 16777216
    ensures ReduceKem(product) == product % 3329
  {
    hide KRed2Norm;
    KRed2NormScales(product);
    var x := 169 * product % 3329;
    KRed2NormScales(x * 1353);
    var k := 169 * product / 3329;
    CorrectedProduct(product, x, k);
    ModPlusMultiple(product, 11608 * product - 228657 * k, 3329);
  }

  /** The correction undoes both scalings: 169 * 169 * 1353 = 1 + 3329 * 11608. */
  lemma CorrectedProduct(p: int, x: int, k: int)
    requires x == 169 * p - 3329 * k
    ensures 169 * (x * 1353) == p + 3329 * (11608 * p - 228657 * k)
  {
  }

  // ----- ML-DSA

  /** One fold subtracts a multiple of the modulus, for every integer. */
  lemma DsaFoldIdentity(value: int)
    ensures DsaFold(value) == value - 8380417 * (value / 8388608)
  {
  }

  /** One value of dsa_fold, from the two parts of its argument. */
  lemma DsaFoldAt(value: int, high: int, low: int)
    requires value == 8388608 * high + low && 0 <= low < 8388608
    ensures DsaFold(value) == low + 8191 * high
  {
    ModUniqueInt(value, 8388608, high, low);
  }

  /** The worst-case output of each of the four folds. */
  lemma DsaFoldBounds(value: int)
    ensures 0 <= value < 70368744177664 ==> 0 <= DsaFold(value) <= 68719468544
    ensures 0 <= value <= 68719468544 ==> 0 <= DsaFold(value) <= 75472897
    ensures 0 <= value <= 75472897 ==> 0 <= DsaFold(value) <= 8445944
    ensures 0 <= value <= 8445944 ==> 0 <= DsaFold(value) <= 8388607
  {
  }

  /** Each bound is reached, so no fold can be given a smaller one. */
  lemma DsaFoldBoundsTight()
    ensures exists v :: 0 <= v < 70368744177664 && DsaFold(v) == 68719468544
    ensures exists v :: 0 <= v <= 68719468544 && DsaFold(v) == 75472897
    ensures exists v :: 0 <= v <= 75472897 && DsaFold(v) == 8445944
    ensures exists v :: 0 <= v <= 8445944 && DsaFold(v) == 8388607
  {
    DsaFoldAt(70368744177663, 8388607, 8388607);
    DsaFoldAt(68711088127, 8190, 8388607);
    DsaFoldAt(67108863, 7, 8388607);
    DsaFoldAt(8388607, 0, 8388607);
  }

  /** reduce_dsa is reduction modulo 8380417 on the whole 46-bit domain. */
  lemma ReduceDsaIsMod(product: int)
    requires 0 <= product < 70368744177664
    ensures ReduceDsa(product) == product % 8380417
  {
    hide DsaFold, CondSub, Pow2;
    var f1 := DsaFold(product);
    var f2 := DsaFold(f1);
    var f3 := DsaFold(f2);
    var f4 := DsaFold(f3);
    DsaFoldIdentity(product);
    DsaFoldIdentity(f1);
    DsaFoldIdentity(f2);
    DsaFoldIdentity(f3);
    DsaFoldBounds(product);
    DsaFoldBounds(f1);
    DsaFoldBounds(f2);
    DsaFoldBounds(f3);
    Widths();
    CondSubSubtracts(f4, 8380417, 24);
    var k := product / 8388608 + f1 / 8388608 + f2 / 8388608 + f3 / 8388608;
    assert product == 8380417 * k + f4;
    if f4 >= 8380417 {
      ModUniqueInt(product, 8380417, k + 1, f4 - 8380417);
    } else {
      ModUniqueInt(product, 8380417, k, f4);
    }
  }

  // ----- the command

  lemma CanonicalProduct(a: int, b: int, q: int)
    requires Canonical(a, q) && Canonical(b, q)
    ensures 0 <= a * b <= (q - 1) * (q - 1)
  {
    ProductNonNegative(a, b);
    ProductNonNegative(q - 1, q - 1 - b);
    ProductNonNegative(b, q - 1 - a);
    assert (q - 1) * (q - 1) - a * b == (q - 1) * (q - 1 - b) + b * (q - 1 - a);
  }

  /** For every selector and operand pair: no fault exactly when the selector is 0 and
      both operands are below 3329, or it is 1 and both are below 8380417. A fault comes
      with product zero, no fault with the product modulo q, which is also what the
      24-step shift-add multiplier returns. Nothing is ever raised. */
  lemma ExecuteFaultsExactly(modulusId: int, a: int, b: int)
    ensures Execute(modulusId, a, b).Ok?
    ensures !Execute(modulusId, a, b).value.1 <==>
            || (modulusId == 0 && 0 <= a < 3329 && 0 <= b < 3329)
            || (modulusId == 1 && 0 <= a < 8380417 && 0 <= b < 8380417)
    ensures var (product, fault) := Execute(modulusId, a, b).value;
            product == if fault then 0 else if modulusId == 0 then a * b % 3329 else a * b % 8380417
    ensures var (product, fault) := Execute(modulusId, a, b).value;
            !fault ==> product == a * (b % Pow2(24)) % (if modulusId == 0 then 3329 else 8380417)
  {
    hide ReduceKem, ReduceDsa, Pow2;
    if RequestIsValid(modulusId, a, b) {
      Widths();
      SmallMod(b, Pow2(24));
      if modulusId == 0 {
        CanonicalProduct(a, b, 3329);
        ReduceKemIsMod(a * b);
      } else {
        CanonicalProduct(a, b, 8380417);
        ReduceDsaIsMod(a * b);
      }
    }
  }

  /** A request faults exactly where the integer functions raise: no modulus for the
      selector, or operands mulmod refuses at that modulus. */
  lemma FaultIsRaise(modulusId: int, a: int, b: int)
    ensures Execute(modulusId, a, b).Ok?
    ensures Execute(modulusId, a, b).value.1 <==>
            ModulusForId(modulusId).Raised? || MulMod(a, b, ModulusForId(modulusId).value).Raised?
  {
    hide ReduceKem, ReduceDsa;
  }

  /** mulmod raises exactly on an unsupported modulus or a non-canonical operand. */
  lemma MulModRaisesExactly(a: int, b: int, modulus: int)
    ensures MulMod(a, b, modulus).Ok? <==> (modulus == 3329 || modulus == 8380417) && 0 <= a < modulus && 0 <= b < modulus
    ensures MulMod(a, b, modulus).Ok? ==> MulMod(a, b, modulus).value == a * b % modulus
  {
    hide ReduceKem, ReduceDsa;
    if Supported(modulus) && Canonical(a, modulus) && Canonical(b, modulus) {
      CanonicalProduct(a, b, modulus);
      if modulus == 3329 {
        ReduceKemIsMod(a * b);
      } else {
        ReduceDsaIsMod(a * b);
      }
    }
  }
}
