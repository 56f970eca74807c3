/** The seven layers of the ML-KEM transform as maps on 256 coefficients, and what
    a partly transformed polynomial represents. */
module NttLayers {
  import opened Numbers
  import opened Field
  import opened Twiddles

  ghost predicate CanonicalPoly(f: seq<int>) {
    |f| == 256 && forall i :: 0 <= i < 256 ==> Reduced(f[i])
  }

  /** The distance between the two inputs of a butterfly in layer l. */
  function Len(l: nat): nat
    requires l <= 7
  {
    Pow2(7 - l)
  }

  /** Layer l works on blocks of 256 / 2^l coefficients: the block of index i and the
      place of i in it. */
  function BlockOf(l: nat, i: nat): nat
    requires l <= 8
  {
    QuotientNonNegative(i, Pow2(8 - l));
    i / Pow2(8 - l)
  }

  function Offset(l: nat, i: nat): nat
    requires l <= 8
  {
    ModRange(i, Pow2(8 - l));
    i % Pow2(8 - l)
  }

  lemma Block(l: nat, i: nat)
    requires l <= 7 && i < 256
    ensures 0 < Pow2(8 - l) && Pow2(8 - l) == 2 * Len(l)
    ensures BlockOf(l, i) < Pow2(l)
    ensures Offset(l, i) < Pow2(8 - l)
    ensures i == Pow2(8 - l) * BlockOf(l, i) + Offset(l, i)
    ensures Offset(l, i) < Len(l) ==> i + Len(l) < 256
    ensures Offset(l, i) >= Len(l) ==> i >= Len(l)
  {
    var n, k, o := Pow2(8 - l), BlockOf(l, i), Offset(l, i);
    QuotientRemainder(i, n);
    ModRange(i, n);
    hide BlockOf, Offset;
    Pow2Adds(8 - l, l);
    Pow2Values();
    Pow2Step(7 - l);
    hide Pow2;
    InBlock(n, Pow2(l), k, o, i);
  }

  lemma InBlock(n: int, blocks: int, k: int, o: int, i: int)
    requires 0 < n && n * blocks == 256 && 0 <= o < n && i == n * k + o && 0 <= i < 256
    ensures 0 <= k < blocks && i - o + n <= 256 && i >= o
  {
    assert n * (k - blocks) == n * k - n * blocks;
    ProductAtLeast(n, k - blocks);
    ProductAtLeast(n, k);
    ProductAtLeast(n, k + 1 - blocks);
    assert n * (k + 1 - blocks) == n * k + n - n * blocks;
  }

  /** Cooley-Tukey layer l (tests/test_external_vectors.py:67-73). */
  function ForwardAt(g: seq<int>, l: nat, i: nat): (v: int)
    requires |g| == 256 && l <= 6 && i < 256
    ensures Reduced(v)
  {
    hide Pow2, Len, Zeta, BlockOf, Offset;
    Block(l, i);
    var k := BlockOf(l, i);
    if Offset(l, i) < Len(l) then (g[i] + g[i + Len(l)] * Zeta(Pow2(l) + k)) % 3329
    else (g[i - Len(l)] - g[i] * Zeta(Pow2(l) + k)) % 3329
  }

  function Forward(g: seq<int>, l: nat): (h: seq<int>)
    requires |g| == 256 && l <= 6
    ensures |h| == 256 && forall i :: 0 <= i < 256 ==> Reduced(h[i])
  {
    seq(256, i requires 0 <= i < 256 => ForwardAt(g, l, i))
  }

  /** The twiddle the inverse uses in block k of layer l: the index counts down. */
  function BackTwiddle(l: nat, k: nat): (z: int)
    requires l <= 6 && k < Pow2(l)
    ensures Reduced(z)
  {
    Pow2Step(l);
    (3329 - Zeta(Pow2(l + 1) - 1 - k)) % 3329
  }

  /** Gentleman-Sande layer l (tests/test_external_vectors.py:87-93). */
  function BackwardAt(g: seq<int>, l: nat, i: nat): (v: int)
    requires |g| == 256 && l <= 6 && i < 256
    ensures Reduced(v)
  {
    hide Pow2, Len, BackTwiddle, BlockOf, Offset;
    Block(l, i);
    var k := BlockOf(l, i);
    if Offset(l, i) < Len(l) then (g[i] + g[i + Len(l)]) % 3329
    else (g[i - Len(l)] - g[i]) * BackTwiddle(l, k) % 3329
  }

  function Backward(g: seq<int>, l: nat): (h: seq<int>)
    requires |g| == 256 && l <= 6
    ensures |h| == 256 && forall i :: 0 <= i < 256 ==> Reduced(h[i])
  {
    seq(256, i requires 0 <= i < 256 => BackwardAt(g, l, i))
  }

  /** The first n forward layers. */
  function ForwardTo(f: seq<int>, n: nat): (h: seq<int>)
    requires |f| == 256 && n <= 7
    ensures |h| == 256
    ensures CanonicalPoly(f) ==> CanonicalPoly(h)
    decreases n
  {
    if n == 0 then f else Forward(ForwardTo(f, n - 1), n - 1)
  }

  /** The inverse layers 6 down to n. */
  function BackwardTo(g: seq<int>, n: nat): (h: seq<int>)
    requires |g| == 256 && n <= 7
    ensures |h| == 256
    ensures CanonicalPoly(g) ==> CanonicalPoly(h)
    decreases 7 - n
  {
    if n == 7 then g else Backward(BackwardTo(g, n + 1), n)
  }

  const INV_128 := 3303

  function Scale(f: seq<int>, c: int): (h: seq<int>)
    ensures |h| == |f| && forall i :: 0 <= i < |f| ==> Reduced(h[i])
  {
    seq(|f|, i requires 0 <= i < |f| => f[i] * c % 3329)
  }

  /** The whole forward transform. */
  function Ntt(f: seq<int>): (h: seq<int>)
    requires |f| == 256
    ensures |h| == 256
    ensures CanonicalPoly(f) ==> CanonicalPoly(h)
  {
    ForwardTo(f, 7)
  }

  /** The whole inverse transform. */
  function InverseNtt(g: seq<int>): (h: seq<int>)
    requires |g| == 256
    ensures CanonicalPoly(h)
  {
    Scale(BackwardTo(g, 0), INV_128)
  }

  // ----- polynomial evaluation

  function Coefficient(f: seq<int>, i: nat): int {
    if i < |f| then f[i] else 0
  }

  /** The sum over t < count of f[start + t * stride] * x^t, by Horner's rule. */
  function Eval(f: seq<int>, start: nat, stride: nat, count: nat, x: int): int
    decreases count
  {
    if count == 0 then 0 else Coefficient(f, start) + x * Eval(f, start + stride, stride, count - 1, x)
  }

  /** The same sum, term by term. */
  function PowerSum(f: seq<int>, start: nat, stride: nat, count: nat, x: int): int
    decreases count
  {
    if count == 0 then 0
    else
      PowerSum(f, start, stride, count - 1, x) + Coefficient(f, start + (count - 1) * stride) * Pow(x, count - 1)
  }

  lemma {:induction false} PowerSumShift(f: seq<int>, start: nat, stride: nat, count: nat, x: int)
    requires count > 0
    ensures PowerSum(f, start, stride, count, x)
            == Coefficient(f, start) + x * PowerSum(f, start + stride, stride, count - 1, x)
    decreases count
  {
    hide Coefficient;
    if count == 1 {
      assert PowerSum(f, start, stride, 0, x) == 0 && PowerSum(f, start + stride, stride, 0, x) == 0;
      assert Pow(x, 0) == 1;
      assert start + 0 * stride == start;
    } else {
      PowerSumShift(f, start, stride, count - 1, x);
      var c := Coefficient(f, start + (count - 1) * stride);
      assert start + stride + (count - 2) * stride == start + (count - 1) * stride;
      assert Pow(x, count - 1) == x * Pow(x, count - 2);
      TermShift(Coefficient(f, start), x, PowerSum(f, start + stride, stride, count - 2, x), c, Pow(x, count - 2));
    }
  }

  lemma TermShift(a: int, x: int, s: int, c: int, p: int)
    ensures a + x * s + c * (x * p) == a + x * (s + c * p)
  {
    assert c * (x * p) == x * (c * p);
  }

  /** Horner's rule computes the power sum. */
  lemma {:induction false} EvalIsPowerSum(f: seq<int>, start: nat, stride: nat, count: nat, x: int)
    ensures Eval(f, start, stride, count, x) == PowerSum(f, start, stride, count, x)
    decreases count
  {
    if count > 0 {
      EvalIsPowerSum(f, start + stride, stride, count - 1, x);
      PowerSumShift(f, start, stride, count, x);
    }
  }

  lemma {:induction false} EvalCong(f: seq<int>, start: nat, stride: nat, count: nat, x: int, y: int)
    requires Cong(x, y)
    ensures Cong(Eval(f, start, stride, count, x), Eval(f, start, stride, count, y))
    decreases count
  {
    hide Cong, Coefficient;
    CongReflexive(0);
    if count > 0 {
      EvalCong(f, start + stride, stride, count - 1, x, y);
      var a, b := Eval(f, start + stride, stride, count - 1, x), Eval(f, start + stride, stride, count - 1, y);
      CongMul(x, y, a, b);
      CongReflexive(Coefficient(f, start));
      CongAdd(Coefficient(f, start), Coefficient(f, start), x * a, y * b);
    }
  }

  /** A polynomial in x is its even part in x^2 plus x times its odd part in x^2. */
  lemma {:induction false} EvalEvenOdd(f: seq<int>, start: nat, stride: nat, count: nat, x: int)
    ensures Eval(f, start, stride, 2 * count, x)
            == Eval(f, start, 2 * stride, count, x * x) + x * Eval(f, start + stride, 2 * stride, count, x * x)
    decreases count
  {
    hide Coefficient;
    if count == 0 {
    } else {
      var s2 := start + 2 * stride;
      EvalEvenOdd(f, s2, stride, count - 1, x);
      var a, b := Eval(f, s2, 2 * stride, count - 1, x * x), Eval(f, s2 + stride, 2 * stride, count - 1, x * x);
      var c0, c1 := Coefficient(f, start), Coefficient(f, start + stride);
      var rest := Eval(f, s2, stride, 2 * (count - 1), x);
      assert Eval(f, start + stride, stride, 2 * count - 1, x) == c1 + x * rest by {
        assert start + stride + stride == s2;
        assert 2 * count - 1 - 1 == 2 * (count - 1);
      }
      assert Eval(f, start, stride, 2 * count, x) == c0 + x * (c1 + x * rest);
      assert Eval(f, start, 2 * stride, count, x * x) == c0 + (x * x) * a;
      assert Eval(f, start + stride, 2 * stride, count, x * x) == c1 + (x * x) * b by {
        assert start + stride + 2 * stride == s2 + stride;
      }
      Interleave(c0, c1, x, a, b);
    }
  }

  lemma Interleave(c0: int, c1: int, x: int, a: int, b: int)
    ensures c0 + x * (c1 + x * (a + x * b)) == c0 + (x * x) * a + x * (c1 + (x * x) * b)
  {
    assert x * (x * (x * b)) == x * ((x * x) * b);
    assert x * (x * (a + x * b)) == (x * x) * a + x * (x * (x * b)) by {
      assert x * (a + x * b) == x * a + x * (x * b);
      assert x * (x * a) == (x * x) * a;
    }
  }

  // ----- what a layer does to the represented residues

  /** Coefficient i of block k is coefficient i of f reduced modulo X^n - 17^RootExponent(7, l, k). */
  ghost function ResidueAt(f: seq<int>, l: nat, i: nat): int
    requires l <= 7 && i < 256
  {
    Eval(f, Offset(l, i), Pow2(8 - l), Pow2(l), Pow(17, RootExponent(7, l, BlockOf(l, i))))
  }

  /** After l layers the coefficients represent f modulo each block's polynomial. */
  ghost predicate Represents(f: seq<int>, g: seq<int>, l: nat)
    requires l <= 7
  {
    |g| == 256 && forall i :: 0 <= i < 256 ==> Cong(g[i], ResidueAt(f, l, i))
  }

  lemma StartRepresents(f: seq<int>)
    requires |f| == 256
    ensures Represents(f, f, 0)
  {
    forall i | 0 <= i < 256
      ensures Cong(f[i], ResidueAt(f, 0, i))
    {
      Pow2Values();
      assert Pow2(0) == 1;
      SmallMod(i, 256);
      assert Eval(f, i + 256, 256, 0, Pow(17, 128)) == 0;
    }
  }

  /** The two children of a block, for one pair of butterfly outputs. */
  lemma ChildResidues(f: seq<int>, o: nat, half: nat, count: nat, e: nat, z: int, a: int, b: int)
    requires z == Pow(17, e) % 3329
    requires Cong(a, Eval(f, o, 2 * half, count, Pow(17, 2 * e)))
    requires Cong(b, Eval(f, o + half, 2 * half, count, Pow(17, 2 * e)))
    ensures Cong(a + b * z, Eval(f, o, half, 2 * count, Pow(17, e)))
    ensures Cong(a - b * z, Eval(f, o, half, 2 * count, Pow(17, e + 128)))
  {
    hide Cong, Eval, Pow;
    var r := Pow(17, e);
    PowAdds(17, e, e);
    assert Pow(17, 2 * e) == r * r;
    var even, odd := Eval(f, o, 2 * half, count, r * r), Eval(f, o + half, 2 * half, count, r * r);
    CongMod(r);
    CongMul(b, odd, z, r);
    assert odd * r == r * odd;
    CongAdd(a, even, b * z, r * odd);
    EvalEvenOdd(f, o, half, count, r);
    var y := Pow(17, e + 128);
    PowAdds(17, e, 128);
    RootHalfway();
    CongReflexive(r);
    CongMul(r, r, Pow(17, 128), -1);
    assert r * -1 == -r;
    CongMul(y, -r, y, -r);
    assert -r * -r == r * r;
    EvalEvenOdd(f, o, half, count, y);
    EvalCong(f, o, 2 * half, count, y * y, r * r);
    EvalCong(f, o + half, 2 * half, count, y * y, r * r);
    var even', odd' := Eval(f, o, 2 * half, count, y * y), Eval(f, o + half, 2 * half, count, y * y);
    CongMul(y, -r, odd', odd);
    assert -r * odd == -(r * odd);
    CongAdd(even', even, y * odd', -(r * odd));
    CongSub(a, even, b * z, r * odd);
    CongSymmetric(even' + y * odd', even - r * odd);
    CongTransitive(a - b * z, even - r * odd, even' + y * odd');
  }

  lemma Halves(n: int, half: int, k: int)
    requires n == 2 * half
    ensures n * k == half * (2 * k) && n * k + half == half * (2 * k + 1)
  {
  }

  /** A block splits into two blocks of the next layer. */
  lemma HalfBlock(l: nat, i: nat)
    requires l <= 7 && i < 256
    ensures Offset(l, i) < Len(l) ==> BlockOf(l + 1, i) == 2 * BlockOf(l, i) && Offset(l + 1, i) == Offset(l, i)
    ensures Offset(l, i) >= Len(l) ==>
              BlockOf(l + 1, i) == 2 * BlockOf(l, i) + 1 && Offset(l + 1, i) == Offset(l, i) - Len(l)
  {
    hide BlockOf, Offset;
    var half, k, o := Len(l), BlockOf(l, i), Offset(l, i);
    assert half == Pow2(8 - (l + 1));
    hide Pow2, Len;
    Block(l, i);
    Halves(Pow2(8 - l), half, k);
    if o < half {
      Placed(l + 1, i, 2 * k, o);
    } else {
      Placed(l + 1, i, 2 * k + 1, o - half);
    }
  }

  /** Block and offset are determined by the index they add up to. */
  lemma Placed(l: nat, i: nat, k: nat, o: nat)
    requires l <= 8 && o < Pow2(8 - l) && i == Pow2(8 - l) * k + o
    ensures BlockOf(l, i) == k && Offset(l, i) == o
  {
    hide Pow2;
    ModUniqueInt(i, Pow2(8 - l), k, o);
  }

  /** The partner of a butterfly input lies in the same block, half a block away. */
  lemma PartnerBlock(l: nat, i: nat)
    requires l <= 7 && i < 256 && Offset(l, i) < Len(l)
    ensures BlockOf(l, i + Len(l)) == BlockOf(l, i)
    ensures Offset(l, i + Len(l)) == Offset(l, i) + Len(l)
  {
    hide Pow2, BlockOf, Offset;
    Block(l, i);
    Placed(l, i + Len(l), BlockOf(l, i), Offset(l, i) + Len(l));
  }

  lemma PartnerBelow(l: nat, i: nat)
    requires l <= 7 && i < 256 && Offset(l, i) >= Len(l)
    ensures i >= Len(l)
    ensures BlockOf(l, i - Len(l)) == BlockOf(l, i)
    ensures Offset(l, i - Len(l)) == Offset(l, i) - Len(l)
  {
    hide Pow2, BlockOf, Offset;
    Block(l, i);
    Placed(l, i - Len(l), BlockOf(l, i), Offset(l, i) - Len(l));
  }

  /** ResidueAt with its parameters named. */
  lemma ResidueIs(f: seq<int>, l: nat, i: nat, n: nat, count: nat, k: nat, o: nat)
    requires l <= 7 && i < 256 && n == Pow2(8 - l) && count == Pow2(l) && k == BlockOf(l, i) && o == Offset(l, i)
    ensures ResidueAt(f, l, i) == Eval(f, o, n, count, Pow(17, RootExponent(7, l, k)))
  {
  }

  /** The two outputs of a butterfly, at their places in the array. */
  lemma ForwardAtLow(g: seq<int>, l: nat, i: nat)
    requires |g| == 256 && l <= 6 && i < 256 && Offset(l, i) < Len(l)
    ensures i + Len(l) < 256
    ensures ForwardAt(g, l, i) == (g[i] + g[i + Len(l)] * Zeta(Pow2(l) + BlockOf(l, i))) % 3329
  {
    hide Zeta, Pow2, Len, BlockOf, Offset;
    Block(l, i);
  }

  lemma ForwardAtHigh(g: seq<int>, l: nat, i: nat)
    requires |g| == 256 && l <= 6 && i < 256 && Offset(l, i) >= Len(l)
    ensures i - Len(l) >= 0
    ensures ForwardAt(g, l, i) == (g[i - Len(l)] - g[i] * Zeta(Pow2(l) + BlockOf(l, i))) % 3329
  {
    hide Zeta, Pow2, Len, BlockOf, Offset;
    Block(l, i);
  }

  lemma ForwardKeepsLow(f: seq<int>, g: seq<int>, l: nat, i: nat)
    requires l <= 6 && Represents(f, g, l) && i < 256 && Offset(l, i) < Len(l)
    ensures Cong(ForwardAt(g, l, i), ResidueAt(f, l + 1, i))
  {
    hide Cong, Eval, Pow, ResidueAt, RootExponent, Zeta, Pow2, Exponent, ForwardAt, BlockOf, Offset;
    ForwardAtLow(g, l, i);
    var n, half, count := Pow2(8 - l), Len(l), Pow2(l);
    var k, o := BlockOf(l, i), Offset(l, i);
    Block(l, i);
    HalfBlock(l, i);
    Pow2Step(l);
    RootIsSquare(7, l, k);
    ChildRoots(l, k);
    ZetaIs(l, k);
    PartnerBlock(l, i);
    ResidueIs(f, l, i, n, count, k, o);
    ResidueIs(f, l, i + half, n, count, k, o + half);
    ChildResidues(f, o, half, count, Exponent(7, l, k), Zeta(count + k), g[i], g[i + half]);
    ResidueIs(f, l + 1, i, half, 2 * count, 2 * k, o);
    ReducedCong(g[i] + g[i + half] * Zeta(count + k), ResidueAt(f, l + 1, i));
  }

  lemma ForwardKeepsHigh(f: seq<int>, g: seq<int>, l: nat, i: nat)
    requires l <= 6 && Represents(f, g, l) && i < 256 && Offset(l, i) >= Len(l)
    ensures Cong(ForwardAt(g, l, i), ResidueAt(f, l + 1, i))
  {
    hide Cong, Eval, Pow, ResidueAt, RootExponent, Zeta, Pow2, Exponent, ForwardAt, BlockOf, Offset;
    ForwardAtHigh(g, l, i);
    var n, half, count := Pow2(8 - l), Len(l), Pow2(l);
    var k, o := BlockOf(l, i), Offset(l, i);
    Block(l, i);
    HalfBlock(l, i);
    Pow2Step(l);
    RootIsSquare(7, l, k);
    ChildRoots(l, k);
    ZetaIs(l, k);
    PartnerBelow(l, i);
    ResidueIs(f, l, i - half, n, count, k, o - half);
    ResidueIs(f, l, i, n, count, k, o);
    ChildResidues(f, o - half, half, count, Exponent(7, l, k), Zeta(count + k), g[i - half], g[i]);
    ResidueIs(f, l + 1, i, half, 2 * count, 2 * k + 1, o - half);
    ReducedCong(g[i - half] - g[i] * Zeta(count + k), ResidueAt(f, l + 1, i));
  }

  /** Layer l takes representatives modulo the blocks of layer l to representatives
      modulo the blocks of layer l + 1. */
  lemma ForwardKeeps(f: seq<int>, g: seq<int>, l: nat, i: nat)
    requires l <= 6 && Represents(f, g, l) && i < 256
    ensures Cong(ForwardAt(g, l, i), ResidueAt(f, l + 1, i))
  {
    hide Cong, ResidueAt, Pow2, ForwardAt, BlockOf, Offset;
    if Offset(l, i) < Len(l) {
      ForwardKeepsLow(f, g, l, i);
    } else {
      ForwardKeepsHigh(f, g, l, i);
    }
  }

  lemma ReducedCong(a: int, b: int)
    requires Cong(a, b)
    ensures Cong(a % 3329, b)
  {
  }

  lemma ZetaIs(l: nat, k: nat)
    ensures Zeta(Pow2(l) + k) == Pow(17, Exponent(7, l, k)) % 3329
  {
    hide Pow, BitRev;
  }

  lemma ChildRoots(l: nat, k: nat)
    ensures RootExponent(7, l + 1, 2 * k) == Exponent(7, l, k)
    ensures RootExponent(7, l + 1, 2 * k + 1) == Exponent(7, l, k) + 128
  {
    hide Exponent;
  }

  lemma {:induction false} ForwardToRepresents(f: seq<int>, l: nat)
    requires |f| == 256 && l <= 7
    ensures Represents(f, ForwardTo(f, l), l)
    decreases l
  {
    hide Cong, ResidueAt, ForwardAt;
    if l == 0 {
      StartRepresents(f);
    } else {
      ForwardToRepresents(f, l - 1);
      forall i | 0 <= i < 256
        ensures Cong(ForwardTo(f, l)[i], ResidueAt(f, l, i))
      {
        ForwardKeeps(f, ForwardTo(f, l - 1), l - 1, i);
      }
    }
  }

  /** The root of section 4.3 of FIPS 203: zeta^(2 BitRev7(i) + 1). */
  function Gamma(i: nat): int {
    Pow(17, 2 * BitRev(i, 7) + 1)
  }

  /** Algorithm 9 of FIPS 203 means what section 4.3 says: slot i of the result is
      f modulo X^2 - Gamma(i), for every polynomial. */
  lemma NttMeaning(f: seq<int>, i: nat)
    requires |f| == 256 && i < 128
    ensures Cong(Ntt(f)[2 * i], PowerSum(f, 0, 2, 128, Gamma(i)))
    ensures Cong(Ntt(f)[2 * i + 1], PowerSum(f, 1, 2, 128, Gamma(i)))
  {
    hide Cong, Eval, Pow, ForwardTo, RootExponent, PowerSum, BitRev;
    ForwardToRepresents(f, 7);
    RootsOfLastLayer(7, i);
    Pow2Values();
    assert Pow2(1) == 2;
    Pow2Small();
    ResidueIs(f, 7, 2 * i, 2, 128, i, 0);
    ResidueIs(f, 7, 2 * i + 1, 2, 128, i, 1);
    EvalIsPowerSum(f, 0, 2, 128, Gamma(i));
    EvalIsPowerSum(f, 1, 2, 128, Gamma(i));
  }
}
