/** The ML-DSA transforms of the engine: after any number of layers the words hold a
    polynomial modulo the polynomials of their blocks, and nothing wraps. */
module DsaLayers {
  import opened Numbers
  import opened Field
  import opened DsaField
  import opened Twiddles
  import opened DsaTwiddles
  import opened NttLayers
  import opened NttInverse
  import opened Butterflies
  import opened AccelLayers

  /** Coefficient i of block k is coefficient i of f reduced modulo X^n - 1753^RootExponent(8, l, k). */
  ghost function DsaResidue(f: seq<int>, l: nat, i: nat): int
    requires l <= 8 && i < 256
  {
    Eval(f, Offset(l, i), Pow2(8 - l), Pow2(l), Pow(1753, RootExponent(8, l, BlockOf(l, i))))
  }

  /** The words stay within the bound and hold c times f at layer l. */
  ghost predicate HoldsAt(f: seq<int>, c: int, m: seq<int>, l: nat, bound: int)
    requires l <= 8
  {
    |m| == 256 && forall i :: 0 <= i < 256 ==> Within(m[i], bound) && DsaCong(m[i], c * DsaResidue(f, l, i))
  }

  // ----- how the residues of a block split

  lemma {:induction false} DsaEvalCong(f: seq<int>, start: nat, stride: nat, count: nat, x: int, y: int)
    requires DsaCong(x, y)
    ensures DsaCong(Eval(f, start, stride, count, x), Eval(f, start, stride, count, y))
    decreases count
  {
    hide DsaCong, Coefficient;
    DsaReflexive(0);
    if count > 0 {
      DsaEvalCong(f, start + stride, stride, count - 1, x, y);
      var a, b := Eval(f, start + stride, stride, count - 1, x), Eval(f, start + stride, stride, count - 1, y);
      DsaMul(x, y, a, b);
      DsaReflexive(Coefficient(f, start));
      DsaAdd(Coefficient(f, start), Coefficient(f, start), x * a, y * b);
    }
  }

  /** A polynomial at 1753^e and at its negative, from its even and odd parts at the square. */
  lemma SplitEval(f: seq<int>, o: nat, half: nat, count: nat, e: nat)
    ensures var r, even, odd := Pow(1753, e), Eval(f, o, 2 * half, count, Pow(1753, 2 * e)),
                                Eval(f, o + half, 2 * half, count, Pow(1753, 2 * e));
            && DsaCong(Eval(f, o, half, 2 * count, Pow(1753, e)), even + r * odd)
            && DsaCong(Eval(f, o, half, 2 * count, Pow(1753, e + 256)), even - r * odd)
  {
    hide DsaCong, Eval, Pow;
    var r, y := Pow(1753, e), Pow(1753, e + 256);
    PowAdds(1753, e, e);
    PowAdds(1753, e, 256);
    EvalEvenOdd(f, o, half, count, r);
    EvalEvenOdd(f, o, half, count, y);
    DsaReflexive(Eval(f, o, half, 2 * count, r));
    NegativeRoot(r, y);
    DsaEvalCong(f, o, 2 * half, count, y * y, r * r);
    DsaEvalCong(f, o + half, 2 * half, count, y * y, r * r);
    NegatedPart(Eval(f, o, 2 * half, count, y * y), Eval(f, o, 2 * half, count, r * r),
                Eval(f, o + half, 2 * half, count, y * y), Eval(f, o + half, 2 * half, count, r * r), y, r);
  }

  lemma NegativeRoot(r: int, y: int)
    requires y == r * Pow(1753, 256)
    ensures DsaCong(y, -r) && DsaCong(y * y, r * r)
  {
    hide DsaCong, Pow;
    DsaRootPowers();
    DsaScale(r, Pow(1753, 256), -1);
    assert r * -1 == -r;
    DsaMul(y, -r, y, -r);
    assert -r * -r == r * r;
  }

  lemma NegatedPart(even': int, even: int, odd': int, odd: int, y: int, r: int)
    requires DsaCong(even', even) && DsaCong(odd', odd) && DsaCong(y, -r)
    ensures DsaCong(even' + y * odd', even - r * odd)
  {
    hide DsaCong;
    DsaMul(y, -r, odd', odd);
    assert -r * odd == -(r * odd);
    DsaAdd(even', even, y * odd', -(r * odd));
  }

  lemma DsaResidueIs(f: seq<int>, l: nat, i: nat, n: nat, count: nat, k: nat, o: nat)
    requires l <= 8 && i < 256 && n == Pow2(8 - l) && count == Pow2(l) && k == BlockOf(l, i) && o == Offset(l, i)
    ensures DsaResidue(f, l, i) == Eval(f, o, n, count, Pow(1753, RootExponent(8, l, k)))
  {
  }

  lemma DsaChildRoots(l: nat, k: nat)
    ensures RootExponent(8, l + 1, 2 * k) == Exponent(8, l, k)
    ensures RootExponent(8, l + 1, 2 * k + 1) == Exponent(8, l, k) + 256
  {
    hide Exponent, Pow2;
    Pow2Values();
    assert 2 * k / 2 == k && (2 * k + 1) / 2 == k && 2 * k % 2 == 0 && (2 * k + 1) % 2 == 1;
  }

  lemma HalfLen(l: nat)
    requires l <= 7
    ensures Len(l) == Pow2(8 - (l + 1)) && Pow2(l + 1) == 2 * Pow2(l)
  {
  }

  /** The residues of a butterfly pair before and after its layer. */
  lemma PairResidues(f: seq<int>, l: nat, i: nat, j: nat, k: nat) returns (even: int, odd: int)
    requires l <= 7 && Pair(l, i, j, k)
    ensures DsaResidue(f, l, i) == even && DsaResidue(f, l, j) == odd
    ensures DsaCong(DsaResidue(f, l + 1, i), even + Power(Pow2(l) + k) * odd)
    ensures DsaCong(DsaResidue(f, l + 1, j), even - Power(Pow2(l) + k) * odd)
  {
    hide DsaCong, Eval, Pow, DsaResidue, RootExponent, Pow2, BitRev, BlockOf, Offset, Len;
    var n, half, count := Pow2(8 - l), Len(l), Pow2(l);
    Block(l, i);
    HalfLen(l);
    var o, e := Offset(l, i), Exponent(8, l, k);
    HalfBlock(l, i);
    HalfBlock(l, j);
    PartnerBlock(l, i);
    RootIsSquare(8, l, k);
    DsaChildRoots(l, k);
    even, odd := DsaResidue(f, l, i), DsaResidue(f, l, j);
    DsaResidueIs(f, l, i, n, count, k, o);
    DsaResidueIs(f, l, j, n, count, k, o + half);
    DsaResidueIs(f, l + 1, i, half, 2 * count, 2 * k, o);
    DsaResidueIs(f, l + 1, j, half, 2 * count, 2 * k + 1, o);
    SplitEval(f, o, half, count, e);
  }

  // ----- one layer forward

  lemma ForwardValues(out0: int, out1: int, a: int, b: int, z: int, even: int, odd: int, low: int, high: int)
    requires DsaCong(out0, a + b * z) && DsaCong(out1, a - b * z) && DsaCong(a, 1 * even) && DsaCong(b, 1 * odd)
    requires DsaCong(low, even + z * odd) && DsaCong(high, even - z * odd)
    ensures DsaCong(out0, 1 * low) && DsaCong(out1, 1 * high)
  {
    hide DsaCong;
    DsaReflexive(z);
    DsaMul(b, odd, z, z);
    assert odd * z == z * odd;
    DsaAdd(a, even, b * z, z * odd);
    DsaSymmetric(low, even + z * odd);
    DsaSymmetric(high, even - z * odd);
    DsaTransitive(out0, a + b * z, even + z * odd);
    DsaTransitive(out0, even + z * odd, low);
    DsaTransitive(out1, a - b * z, even - z * odd);
    DsaTransitive(out1, even - z * odd, high);
  }

  lemma DsaForwardPair(f: seq<int>, m: seq<int>, l: nat, i: nat, j: nat, k: nat, bound: int)
    requires l <= 7 && HoldsAt(f, 1, m, l, bound) && 0 <= bound <= 0x7FFF_FFFF - 8380416 && Pair(l, i, j, k)
    ensures var m' := Layer(MLDSA_NTT, m, l);
            && Within(m'[i], bound + 8380416) && DsaCong(m'[i], 1 * DsaResidue(f, l + 1, i))
            && Within(m'[j], bound + 8380416) && DsaCong(m'[j], 1 * DsaResidue(f, l + 1, j))
  {
    hide DsaCong, DsaZeta, Power, Pow2, Layer, Len, DsaResidue, ButterflyOutputs, BlockOf, Offset;
    var index := TwiddleIndex(false, l, k);
    LayerPair(MLDSA_NTT, m, l, i, j, k);
    DsaTableIsMontgomery(index);
    DsaZetaSmall(index);
    DsaCtIsExact(DsaZeta(index), Power(index), m[i], m[j], bound);
    var even, odd := PairResidues(f, l, i, j, k);
    var out := ButterflyOutputs(MLDSA_NTT, DsaZeta(index), m[i], m[j]);
    ForwardValues(out.0, out.1, m[i], m[j], Power(index), even, odd, DsaResidue(f, l + 1, i), DsaResidue(f, l + 1, j));
  }

  /** A forward layer takes f modulo the polynomials of layer l to f modulo those of layer
      l + 1, its words growing by at most 8380416. */
  lemma DsaForwardKeeps(f: seq<int>, m: seq<int>, l: nat, bound: int)
    requires l <= 7 && HoldsAt(f, 1, m, l, bound) && 0 <= bound <= 0x7FFF_FFFF - 8380416
    ensures HoldsAt(f, 1, Layer(MLDSA_NTT, m, l), l + 1, bound + 8380416)
  {
    hide DsaCong, Pow2, Layer, Len, Pair, DsaResidue, BlockOf, Offset;
    forall i | 0 <= i < 256
      ensures Within(Layer(MLDSA_NTT, m, l)[i], bound + 8380416)
      ensures DsaCong(Layer(MLDSA_NTT, m, l)[i], 1 * DsaResidue(f, l + 1, i))
    {
      if Offset(l, i) < Len(l) {
        PairFromLow(l, i);
        DsaForwardPair(f, m, l, i, i + Len(l), BlockOf(l, i), bound);
      } else {
        PairFromHigh(l, i);
        DsaForwardPair(f, m, l, i - Len(l), i, BlockOf(l, i), bound);
      }
    }
  }

  // ----- one layer back

  /** The inverse command's twiddle for a block is the inverse of the forward one. */
  lemma DsaTwiddlesCancel(l: nat, k: nat)
    requires l <= 7 && k < Pow2(l)
    ensures Pow2(l + 1) - 1 - k >= 0
    ensures DsaCong(Power(Pow2(l) + k) * -Power(Pow2(l + 1) - 1 - k), 1)
  {
    hide DsaCong, BitRev, Pow2, Pow;
    Pow2Step(l);
    Pow2Values();
    DsaRootPowers();
    MirroredExponents(8, l, k);
    var e, e' := Exponent(8, l, k), Exponent(8, l, Pow2(l) - 1 - k);
    PowAdds(1753, e, e');
    DsaScale(-1, Pow(1753, 256), -1);
    assert Pow(1753, e) * -Pow(1753, e') == -1 * Pow(1753, 256);
  }

  lemma BackwardValues(out0: int, out1: int, u: int, v: int, w: int, c: int, z: int, even: int, odd: int,
                       low: int, high: int)
    requires DsaCong(out0, u + v) && DsaCong(out1, (u - v) * w) && DsaCong(u, c * low) && DsaCong(v, c * high)
    requires DsaCong(low, even + z * odd) && DsaCong(high, even - z * odd) && DsaCong(z * w, 1)
    ensures DsaCong(out0, 2 * c * even) && DsaCong(out1, 2 * c * odd)
  {
    hide DsaCong;
    DsaScale(c, low, even + z * odd);
    DsaScale(c, high, even - z * odd);
    DsaTransitive(u, c * low, c * (even + z * odd));
    DsaTransitive(v, c * high, c * (even - z * odd));
    DsaAdd(u, c * (even + z * odd), v, c * (even - z * odd));
    SumAndDifference(c, even, z, odd);
    DsaTransitive(out0, u + v, 2 * c * even);
    DsaReflexive(w);
    DsaMul(u - v, 2 * c * odd * z, w, w);
    assert 2 * c * odd * z * w == (2 * c * odd) * (z * w);
    DsaScale(2 * c * odd, z * w, 1);
    assert 2 * c * odd * 1 == 2 * c * odd;
    DsaTransitive((u - v) * w, (2 * c * odd) * (z * w), 2 * c * odd);
    DsaTransitive(out1, (u - v) * w, 2 * c * odd);
  }

  lemma SumAndDifference(c: int, even: int, z: int, odd: int)
    ensures c * (even + z * odd) + c * (even - z * odd) == 2 * c * even
    ensures c * (even + z * odd) - c * (even - z * odd) == 2 * c * odd * z
  {
    assert c * (even + z * odd) == c * even + c * (z * odd);
    assert c * (even - z * odd) == c * even - c * (z * odd);
    assert c * (z * odd) == c * odd * z;
  }

  lemma DsaBackwardPair(f: seq<int>, c: int, m: seq<int>, l: nat, i: nat, j: nat, k: nat, bound: int)
    requires l <= 7 && HoldsAt(f, c, m, l + 1, bound) && 8380416 <= 2 * bound <= 0x7FFF_FFFF && Pair(l, i, j, k)
    ensures var m' := Layer(MLDSA_INTT, m, l);
            && Within(m'[i], 2 * bound) && DsaCong(m'[i], 2 * c * DsaResidue(f, l, i))
            && Within(m'[j], 2 * bound) && DsaCong(m'[j], 2 * c * DsaResidue(f, l, j))
  {
    hide DsaCong, DsaZeta, Power, Pow2, Layer, Len, DsaResidue, ButterflyOutputs, BlockOf, Offset;
    var index := TwiddleIndex(true, l, k);
    LayerPair(MLDSA_INTT, m, l, i, j, k);
    DsaTableIsMontgomery(index);
    DsaZetaSmall(index);
    NegatedTwiddle32(DsaZeta(index), Power(index));
    DsaGsIsExact(-DsaZeta(index), -Power(index), m[i], m[j], bound);
    DsaTwiddlesCancel(l, k);
    var even, odd := PairResidues(f, l, i, j, k);
    var out := ButterflyOutputs(MLDSA_INTT, -DsaZeta(index), m[i], m[j]);
    BackwardValues(out.0, out.1, m[i], m[j], -Power(index), c, Power(Pow2(l) + k), even, odd,
                   DsaResidue(f, l + 1, i), DsaResidue(f, l + 1, j));
  }

  lemma NegatedTwiddle32(zeta: int, z: int)
    requires DsaCong(zeta, z * 0x1_0000_0000)
    ensures DsaCong(-zeta, -z * 0x1_0000_0000)
  {
    hide DsaCong;
    DsaScale(-1, zeta, z * 0x1_0000_0000);
  }

  /** An inverse layer takes twice as much of f back to the polynomials of layer l. */
  lemma DsaBackwardUndoes(f: seq<int>, c: int, m: seq<int>, l: nat, bound: int)
    requires l <= 7 && HoldsAt(f, c, m, l + 1, bound) && 8380416 <= 2 * bound <= 0x7FFF_FFFF
    ensures HoldsAt(f, 2 * c, Layer(MLDSA_INTT, m, l), l, 2 * bound)
  {
    hide DsaCong, Pow2, Layer, Len, Pair, DsaResidue, BlockOf, Offset;
    forall i | 0 <= i < 256
      ensures Within(Layer(MLDSA_INTT, m, l)[i], 2 * bound)
      ensures DsaCong(Layer(MLDSA_INTT, m, l)[i], 2 * c * DsaResidue(f, l, i))
    {
      if Offset(l, i) < Len(l) {
        PairFromLow(l, i);
        DsaBackwardPair(f, c, m, l, i, i + Len(l), BlockOf(l, i), bound);
      } else {
        PairFromHigh(l, i);
        DsaBackwardPair(f, c, m, l, i - Len(l), i, BlockOf(l, i), bound);
      }
    }
  }

  // ----- whole transforms

  lemma {:induction false} DsaForwardStages(f: seq<int>, n: nat)
    requires |f| == 256 && n <= 8 && forall i :: 0 <= i < 256 ==> Within(f[i], 2080440319)
    ensures HoldsAt(f, 1, Stages(MLDSA_NTT, f, n), n, 2080440319 + 8380416 * n)
    decreases n
  {
    hide DsaCong, Layer, DsaResidue;
    if n == 0 {
      forall i | 0 <= i < 256
        ensures DsaCong(f[i], 1 * DsaResidue(f, 0, i))
      {
        WholeResidue(f, i);
        DsaReflexive(f[i]);
      }
    } else {
      DsaForwardStages(f, n - 1);
      DsaForwardKeeps(f, Stages(MLDSA_NTT, f, n - 1), n - 1, 2080440319 + 8380416 * (n - 1));
    }
  }

  lemma WholeResidue(f: seq<int>, i: nat)
    requires |f| == 256 && i < 256
    ensures DsaResidue(f, 0, i) == f[i]
  {
    Pow2Values();
    Pow2Zero();
    SmallMod(i, 256);
    hide Pow, RootExponent;
    var x := Pow(1753, RootExponent(8, 0, BlockOf(0, i)));
    assert Eval(f, i + 256, 256, 0, x) == 0;
    assert Eval(f, i, 256, 1, x) == f[i] + x * 0;
  }

  /** The root of section 7.5 of FIPS 204: 1753^(2 BitRev8(i) + 1). */
  function DsaRoot(i: nat): int {
    Pow(1753, 2 * BitRev(i, 8) + 1)
  }

  lemma LastResidue(f: seq<int>, i: nat)
    requires |f| == 256 && i < 256
    ensures DsaResidue(f, 8, i) == PowerSum(f, 0, 1, 256, DsaRoot(i))
  {
    hide Pow, RootExponent, BitRev, Eval, PowerSum, Pow2, DsaResidue;
    Pow2Values();
    Pow2Zero();
    Placed(8, i, i, 0);
    RootsOfLastLayer(8, i);
    DsaResidueIs(f, 8, i, 1, 256, i, 0);
    EvalIsPowerSum(f, 0, 1, 256, DsaRoot(i));
  }

  /** The forward transform evaluates: word i is f at the i-th root, modulo 8380417, for
      every input up to 2080440319 in magnitude, and nothing wraps. */
  lemma DsaForwardMeaning(f: seq<int>, i: nat)
    requires |f| == 256 && i < 256 && forall k :: 0 <= k < 256 ==> Within(f[k], 2080440319)
    ensures Within(Stages(MLDSA_NTT, f, 8)[i], 0x7FFF_FFFF)
    ensures DsaCong(Stages(MLDSA_NTT, f, 8)[i], PowerSum(f, 0, 1, 256, DsaRoot(i)))
  {
    hide DsaCong, Stages, DsaResidue, PowerSum, DsaRoot;
    DsaForwardStages(f, 8);
    LastResidue(f, i);
  }

  lemma {:induction false} DsaInverseStages(f: seq<int>, m: seq<int>, n: nat)
    requires n <= 8 && HoldsAt(f, 1, m, 8, 8388607)
    ensures HoldsAt(f, Pow2(n), Stages(MLDSA_INTT, m, n), 8 - n, Pow2(n) * 8388607)
    decreases n
  {
    hide DsaCong, Layer, DsaResidue;
    if n == 0 {
      Pow2Zero();
    } else {
      DsaInverseStages(f, m, n - 1);
      Pow2Step(n - 1);
      Pow2Grows(0, n - 1);
      Pow2Grows(n, 8);
      Pow2Values();
      Pow2Zero();
      hide Pow2, HoldsAt;
      DsaBackwardUndoes(f, Pow2(n - 1), Stages(MLDSA_INTT, m, n - 1), 8 - n, Pow2(n - 1) * 8388607);
      assert 2 * (Pow2(n - 1) * 8388607) == Pow2(n) * 8388607;
    }
  }

  /** The inverse transform interpolates: from words that are f at the roots, modulo
      8380417 and up to 8388607 in magnitude, it leaves f times 2^32. */
  lemma DsaInverseMeaning(f: seq<int>, m: seq<int>, i: nat)
    requires |f| == |m| == 256 && i < 256
    requires forall k :: 0 <= k < 256 ==> Within(m[k], 8388607) && DsaCong(m[k], PowerSum(f, 0, 1, 256, DsaRoot(k)))
    ensures var out := Scaled256(MLDSA_INTT, Stages(MLDSA_INTT, m, 8))[i];
            Within(out, 8380416) && DsaCong(out, f[i] * 0x1_0000_0000)
  {
    hide DsaCong, Stages, DsaResidue, PowerSum, DsaRoot, ScaledWord;
    forall k | 0 <= k < 256
      ensures DsaCong(m[k], 1 * DsaResidue(f, 8, k))
    {
      LastResidue(f, k);
    }
    DsaInverseStages(f, m, 8);
    Pow2Small();
    Pow2Step(7);
    WholeResidue(f, i);
    DsaScaleIsExact(Stages(MLDSA_INTT, m, 8)[i], f[i]);
  }
}
