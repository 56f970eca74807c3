/** The butterflies of the transform engine (rtl/lca_ntt_accel.sv:145-188) with every
    narrowing written out, and what each does modulo 3329 or 8380417. */
module Butterflies {
  import opened Numbers
  import opened Field
  import opened Montgomery
  import opened DsaField
  import opened KemTwiddles
  import opened DsaTwiddles
  import opened NttLayers
  import opened NttInverse

  const MLDSA_NTT := 0
  const MLDSA_INTT := 1
  const MLKEM_NTT := 2
  const MLKEM_INTT := 3

  predicate CountsUp(command: nat) {
    command == MLDSA_NTT || command == MLKEM_NTT
  }

  predicate Inverts(command: nat) {
    command == MLDSA_INTT || command == MLKEM_INTT
  }

  /** ML-DSA splits down to single coefficients, ML-KEM to pairs. */
  function LayerCount(command: nat): (n: nat)
    ensures 7 <= n <= 8
  {
    if command == MLDSA_NTT || command == MLDSA_INTT then 8 else 7
  }

  /** The twiddle of a command at an 8-bit index. */
  function Twiddle(command: nat, index: nat): int {
    if command == MLDSA_NTT then DsaZeta(index)
    else if command == MLDSA_INTT then -DsaZeta(index)
    else KemZeta(index)
  }

  function CtProduct(zeta: int, b: int): int {
    MontgomeryReduce(ToInt16(zeta) * ToInt16(b))
  }

  /** CMD_MLKEM_NTT: (a + t, a - t), each cut to 16 bits. */
  function CtOutputs(zeta: int, a: int, b: int): (int, int) {
    var t := CtProduct(zeta, b);
    (ToInt16(ToInt16(a) + ToInt16(t)), ToInt16(ToInt16(a) - ToInt16(t)))
  }

  /** CMD_MLKEM_INTT: the reduced sum, and the twiddled difference b - a. */
  function GsOutputs(zeta: int, a: int, b: int): (int, int) {
    var difference := ToInt16(ToInt16(b) - ToInt16(a));
    (BarrettReduce(ToInt16(ToInt16(a) + ToInt16(b))), MontgomeryReduce(ToInt16(zeta) * ToInt16(difference)))
  }

  /** The final scaling by 2^32 / 128. */
  function ScaleOutput(v: int): int {
    MontgomeryReduce(1441 * ToInt16(v))
  }

  /** mldsa_montgomery_reduce; no 64-bit intermediate wraps. */
  function DsaReduce(value: int): int {
    var t := ToInt32(ToInt32(value) * 58728449);
    ToInt32((value - t * 8380417) / 0x1_0000_0000)
  }

  /** The two results of a butterfly under each command. */
  function ButterflyOutputs(command: nat, zeta: int, a: int, b: int): (int, int) {
    if command == MLDSA_NTT then
      var t := DsaReduce(zeta * b);
      (ToInt32(a + t), ToInt32(a - t))
    else if command == MLDSA_INTT then (ToInt32(a + b), DsaReduce(zeta * ToInt32(a - b)))
    else if command == MLKEM_NTT then CtOutputs(zeta, a, b)
    else if command == MLKEM_INTT then GsOutputs(zeta, a, b)
    else (a, b)
  }

  function ScaledWord(command: nat, v: int): int {
    if command == MLDSA_INTT then DsaReduce(41978 * v) else ScaleOutput(v)
  }

  // ----- ML-KEM

  predicate Within(x: int, bound: int) {
    -bound <= x <= bound
  }

  lemma SmallTwiddleReducible(zeta: int, b: int)
    requires Within(zeta, 1664) && Int16(b)
    ensures Reducible(zeta * b)
  {
    SmallTimesInt16(zeta, b);
  }

  /** A Montgomery twiddle times a word, reduced, is the plain product. */
  lemma TwiddledProduct(zeta: int, z: int, b: int)
    requires Within(zeta, 1664) && Cong(zeta, z * 65536) && Int16(b)
    ensures -Q < MontgomeryReduce(zeta * b) < Q && Cong(MontgomeryReduce(zeta * b), b * z)
  {
    hide MontgomeryReduce, Cong, Reducible;
    SmallTwiddleReducible(zeta, b);
    ReduceIsExact(zeta * b);
    var t := MontgomeryReduce(zeta * b);
    CongReflexive(b);
    CongMul(zeta, z * 65536, b, b);
    CongTransitive(t * 65536, zeta * b, z * 65536 * b);
    assert z * 65536 * b == b * z * 65536;
    Unscale(t, b * z);
  }

  /** 2^16 can be cancelled: 169 is its inverse. */
  lemma Unscale(x: int, y: int)
    requires Cong(x * 65536, y * 65536)
    ensures Cong(x, y)
  {
    var k := CongMultiple(x * 65536, y * 65536);
    CongByMultiple(x, y, 169 * k - 3327 * (x - y));
  }

  lemma CtIsExact(zeta: int, z: int, a: int, b: int, bound: int)
    requires Within(zeta, 1664) && Cong(zeta, z * 65536)
    requires 0 <= bound <= 29439 && Within(a, bound) && Within(b, bound)
    ensures var out := CtOutputs(zeta, a, b);
            && Within(out.0, bound + 3328) && Within(out.1, bound + 3328)
            && Cong(out.0, a + b * z) && Cong(out.1, a - b * z)
  {
    hide MontgomeryReduce, Cong, ToInt16;
    Fits16(zeta);
    Fits16(a);
    Fits16(b);
    TwiddledProduct(zeta, z, b);
    var t := MontgomeryReduce(zeta * b);
    Fits16(t);
    Fits16(a + t);
    Fits16(a - t);
    CongReflexive(a);
    CongAdd(a, a, t, b * z);
    CongSub(a, a, t, b * z);
  }

  lemma GsIsExact(zeta: int, z: int, a: int, b: int, bound: int)
    requires Within(zeta, 1664) && Cong(zeta, z * 65536)
    requires 0 <= bound <= 16383 && Within(a, bound) && Within(b, bound)
    ensures var out := GsOutputs(zeta, a, b);
            && Within(out.0, 3328) && Within(out.1, 3328)
            && Cong(out.0, a + b) && Cong(out.1, (b - a) * z)
  {
    hide MontgomeryReduce, BarrettReduce, Cong, ToInt16;
    Fits16(zeta);
    Fits16(a);
    Fits16(b);
    Fits16(a + b);
    Fits16(b - a);
    BarrettIsCentred(a + b);
    TwiddledProduct(zeta, z, b - a);
  }

  lemma ScaleIsExact(v: int)
    requires Int16(v)
    ensures Within(ScaleOutput(v), 3328) && Cong(ScaleOutput(v), v * INV_128 * 65536)
  {
    hide MontgomeryReduce, ToInt16, Cong;
    Fits16(v);
    assert Reducible(1441 * v);
    ReduceIsExact(1441 * v);
    var r := MontgomeryReduce(1441 * v);
    var k := CongMultiple(r * 65536, 1441 * v);
    // 3303 * 2^32 = 1441 + 3329 * c
    CongByMultiple(r * 65536, v * INV_128 * 65536 * 65536, k - 4261422943 * v);
    Unscale(r, v * INV_128 * 65536);
  }

  lemma WordProduct(x: int, y: int)
    requires Int16(x) && Int16(y)
    ensures -0x4000_0000 <= x * y <= 0x4000_0000
  {
    var m := if x >= 0 then x else -x;
    ProductNonNegative(m, y + 32768);
    ProductNonNegative(m, 32768 - y);
    assert m * (y + 32768) == m * y + m * 32768;
    assert m * (32768 - y) == m * 32768 - m * y;
    assert x * y == m * y || x * y == -(m * y);
  }

  lemma SameLow16(x: int, y: int, k: int)
    requires x == y + 65536 * k
    ensures ToInt16(x) == ToInt16(y)
  {
    SameRemainder(x + 32768, y + 32768, k, 65536);
  }

  /** What the ML-KEM butterflies do to arbitrary words, however large: only the low 16
      bits count, and every result is cut to 16 bits. */
  lemma KemButterfliesOnWords(zeta: int, a: int, b: int) returns (t: int)
    ensures Within(t, 18049) && Cong(t * 65536, ToInt16(zeta) * ToInt16(b))
    ensures ButterflyOutputs(MLKEM_NTT, zeta, a, b) == (ToInt16(a + t), ToInt16(a - t))
    ensures var (sum, product) := ButterflyOutputs(MLKEM_INTT, zeta, a, b);
            && Within(sum, 1664) && Cong(sum, ToInt16(a + b))
            && Within(product, 18049) && Cong(product * 65536, ToInt16(zeta) * ToInt16(b - a))
  {
    var a', b', z := ToInt16(a), ToInt16(b), ToInt16(zeta);
    var k := NarrowingDrops(a);
    var l := NarrowingDrops(b);
    hide Cong, MontgomeryReduce, BarrettReduce, ToInt16;
    t := CtProduct(zeta, b);
    WordProduct(z, b');
    ReduceOfProduct(z * b');
    Fits16(t);
    SameLow16(a + t, a' + t, k);
    SameLow16(a - t, a' - t, k);
    SameLow16(a + b, a' + b', k + l);
    SameLow16(b - a, b' - a', l - k);
    BarrettIsCentred(ToInt16(a + b));
    Fits16(ToInt16(b - a));
    WordProduct(z, ToInt16(b - a));
    ReduceOfProduct(z * ToInt16(b - a));
  }

  // ----- ML-DSA

  /** Narrowing removes a multiple of 2^32. */
  lemma NarrowingDrops32(x: int) returns (k: int)
    ensures ToInt32(x) == x - 0x1_0000_0000 * k
  {
    k := (x + 0x8000_0000) / 0x1_0000_0000;
  }

  /** The division is exact, nothing wraps, and the result is value * 2^-32 modulo 8380417:
      58728449 * 8380417 = 1 + 114592 * 2^32. */
  lemma DsaReduceIsExact(value: int)
    requires Within(value, 0x8000_0000 * 8380416)
    ensures Within(DsaReduce(value), 8380416) && DsaCong(DsaReduce(value) * 0x1_0000_0000, value)
  {
    var k := NarrowingDrops32(value);
    var l := NarrowingDrops32(ToInt32(value) * 58728449);
    var t := ToInt32(ToInt32(value) * 58728449);
    var r := -114592 * value + 8380417 * (58728449 * k + l);
    hide ToInt32, DsaCong;
    assert value - t * 8380417 == 0x1_0000_0000 * r;
    ModUniqueInt(value - t * 8380417, 0x1_0000_0000, r, 0);
    Fits32(r);
    DsaByMultiple(r * 0x1_0000_0000, value, -t);
  }

  /** For every product of two 32-bit words the division is exact and nothing wraps. */
  lemma DsaReduceOfProduct(value: int)
    requires Within(value, 0x4000_0000_0000_0000)
    ensures Within(DsaReduce(value), 0x4040_0000) && DsaCong(DsaReduce(value) * 0x1_0000_0000, value)
  {
    var k := NarrowingDrops32(value);
    var l := NarrowingDrops32(ToInt32(value) * 58728449);
    var t := ToInt32(ToInt32(value) * 58728449);
    var r := -114592 * value + 8380417 * (58728449 * k + l);
    hide ToInt32, DsaCong;
    assert value - t * 8380417 == 0x1_0000_0000 * r;
    ModUniqueInt(value - t * 8380417, 0x1_0000_0000, r, 0);
    Fits32(r);
    DsaByMultiple(r * 0x1_0000_0000, value, -t);
  }

  predicate Int32(x: int) {
    -0x8000_0000 <= x < 0x8000_0000
  }

  lemma WordProduct32(x: int, y: int)
    requires Int32(x) && Int32(y)
    ensures Within(x * y, 0x4000_0000_0000_0000)
  {
    var m := if x >= 0 then x else -x;
    ProductNonNegative(m, y + 0x8000_0000);
    ProductNonNegative(m, 0x8000_0000 - y);
    assert m * (y + 0x8000_0000) == m * y + m * 0x8000_0000;
    assert m * (0x8000_0000 - y) == m * 0x8000_0000 - m * y;
    assert x * y == m * y || x * y == -(m * y);
  }

  /** What the ML-DSA butterflies and the scaling do to arbitrary 32-bit words: sums and
      differences wrap, products are reduced exactly. */
  lemma DsaButterfliesOnWords(zeta: int, a: int, b: int) returns (t: int)
    requires Int32(zeta) && Int32(a) && Int32(b)
    ensures Within(t, 0x4040_0000) && DsaCong(t * 0x1_0000_0000, zeta * b)
    ensures ButterflyOutputs(MLDSA_NTT, zeta, a, b) == (ToInt32(a + t), ToInt32(a - t))
    ensures var (sum, product) := ButterflyOutputs(MLDSA_INTT, zeta, a, b);
            && sum == ToInt32(a + b)
            && Within(product, 0x4040_0000) && DsaCong(product * 0x1_0000_0000, zeta * ToInt32(a - b))
    ensures DsaCong(ScaledWord(MLDSA_INTT, a) * 0x1_0000_0000, 41978 * a)
  {
    hide DsaCong, DsaReduce, ToInt32;
    t := DsaReduce(zeta * b);
    WordProduct32(zeta, b);
    DsaReduceOfProduct(zeta * b);
    WordProduct32(zeta, ToInt32(a - b));
    DsaReduceOfProduct(zeta * ToInt32(a - b));
    DsaReduceOfProduct(41978 * a);
  }

  /** 2^32 can be cancelled: 8265825 is its inverse. */
  lemma DsaUnscale(x: int, y: int)
    requires DsaCong(x * 0x1_0000_0000, y * 0x1_0000_0000)
    ensures DsaCong(x, y)
  {
    var k := DsaMultiple(x * 0x1_0000_0000, y * 0x1_0000_0000);
    DsaByMultiple(x, y, 8265825 * k - 4236238847 * (x - y));
  }

  lemma SmallTimes32(zeta: int, b: int)
    requires Within(zeta, 4190208) && Within(b, 0x8000_0000)
    ensures Within(zeta * b, 0x8000_0000 * 8380416)
  {
    var m := if zeta >= 0 then zeta else -zeta;
    ProductNonNegative(m, b + 0x8000_0000);
    ProductNonNegative(m, 0x8000_0000 - b);
    assert m * (b + 0x8000_0000) == m * b + m * 0x8000_0000;
    assert m * (0x8000_0000 - b) == m * 0x8000_0000 - m * b;
    assert zeta * b == m * b || zeta * b == -(m * b);
  }

  lemma DsaTwiddledProduct(zeta: int, z: int, b: int)
    requires Within(zeta, 4190208) && DsaCong(zeta, z * 0x1_0000_0000) && Within(b, 0x8000_0000)
    ensures Within(DsaReduce(zeta * b), 8380416) && DsaCong(DsaReduce(zeta * b), b * z)
  {
    hide DsaReduce, DsaCong;
    SmallTimes32(zeta, b);
    DsaReduceIsExact(zeta * b);
    var t := DsaReduce(zeta * b);
    DsaReflexive(b);
    DsaMul(zeta, z * 0x1_0000_0000, b, b);
    DsaTransitive(t * 0x1_0000_0000, zeta * b, z * 0x1_0000_0000 * b);
    assert z * 0x1_0000_0000 * b == b * z * 0x1_0000_0000;
    DsaUnscale(t, b * z);
  }

  /** The forward ML-DSA butterfly is (a + bz, a - bz), growing by at most 8380416. */
  lemma DsaCtIsExact(zeta: int, z: int, a: int, b: int, bound: int)
    requires Within(zeta, 4190208) && DsaCong(zeta, z * 0x1_0000_0000)
    requires 0 <= bound <= 0x7FFF_FFFF - 8380416 && Within(a, bound) && Within(b, bound)
    ensures var out := ButterflyOutputs(MLDSA_NTT, zeta, a, b);
            && Within(out.0, bound + 8380416) && Within(out.1, bound + 8380416)
            && DsaCong(out.0, a + b * z) && DsaCong(out.1, a - b * z)
  {
    hide DsaReduce, DsaCong, ToInt32;
    DsaTwiddledProduct(zeta, z, b);
    var t := DsaReduce(zeta * b);
    Fits32(a + t);
    Fits32(a - t);
    DsaReflexive(a);
    DsaAdd(a, a, t, b * z);
  }

  /** The inverse ML-DSA butterfly is (a + b, (a - b)z), at most doubling. */
  lemma DsaGsIsExact(zeta: int, z: int, a: int, b: int, bound: int)
    requires Within(zeta, 4190208) && DsaCong(zeta, z * 0x1_0000_0000)
    requires 8380416 <= 2 * bound <= 0x7FFF_FFFF && Within(a, bound) && Within(b, bound)
    ensures var out := ButterflyOutputs(MLDSA_INTT, zeta, a, b);
            && Within(out.0, 2 * bound) && Within(out.1, 2 * bound)
            && DsaCong(out.0, a + b) && DsaCong(out.1, (a - b) * z)
  {
    hide DsaReduce, DsaCong, ToInt32;
    Fits32(a + b);
    Fits32(a - b);
    DsaTwiddledProduct(zeta, z, a - b);
    DsaReflexive(a + b);
  }

  /** The scaling is a product with 2^64 / 256 reduced: division by 256, times 2^32. */
  lemma DsaScaleIsExact(v: int, f: int)
    requires Within(v, 0x8000_0000) && DsaCong(v, 256 * f)
    ensures Within(ScaledWord(MLDSA_INTT, v), 8380416) && DsaCong(ScaledWord(MLDSA_INTT, v), f * 0x1_0000_0000)
  {
    hide DsaReduce, DsaCong;
    DsaReduceIsExact(41978 * v);
    var r := DsaReduce(41978 * v);
    DsaScale(41978, v, 256 * f);
    // 41978 * 256 = 2^64 - 8380417 * 2201172575744
    DsaByMultiple(41978 * (256 * f), f * 0x1_0000_0000 * 0x1_0000_0000, -2201172575744 * f);
    DsaTransitive(41978 * v, 41978 * (256 * f), f * 0x1_0000_0000 * 0x1_0000_0000);
    DsaTransitive(r * 0x1_0000_0000, 41978 * v, f * 0x1_0000_0000 * 0x1_0000_0000);
    DsaUnscale(r, f * 0x1_0000_0000);
  }
}
