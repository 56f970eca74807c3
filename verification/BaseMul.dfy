/** The two-coefficient product of firmware/ntt_mmio.c:35-46 in 16-bit integers, and
    the whole transform-multiply-transform-back pipeline. */
module BaseMul {
  import opened Numbers
  import opened Field
  import opened Montgomery
  import opened KemTwiddles
  import opened NttLayers
  import opened NttInverse
  import opened Negacyclic
  import opened NttLoops

  /** mlkem_fqmul (firmware/ntt_mmio.c:35-37). */
  function FqMul(mont: int -> int, left: int, right: int): int {
    mont(left * right)
  }

  /** A Montgomery factor and then a plain factor times 2^16: one factor 2^-16 remains. */
  lemma TwiceReduced(s: int, t: int, u: int, v: int, p: int, zeta: int, gamma: int)
    requires Cong(s * 65536, p) && Cong(t * 65536, s * zeta) && Cong(zeta, gamma * 65536) && Cong(u * 65536, v)
    ensures Cong((t + u) * 65536, v + gamma * p)
  {
    hide Cong;
    CongReflexive(s);
    CongMul(s, s, zeta, gamma * 65536);
    assert s * (gamma * 65536) == gamma * (s * 65536);
    CongScale(gamma, s * 65536, p);
    CongTransitive(s * zeta, gamma * (s * 65536), gamma * p);
    CongTransitive(t * 65536, s * zeta, gamma * p);
    CongAdd(u * 65536, v, t * 65536, gamma * p);
    assert (t + u) * 65536 == u * 65536 + t * 65536;
  }

  lemma NoWrap(x: int)
    requires -2 * Q < x < 2 * Q
    ensures ToInt16(x) == x
  {
  }

  // ----- the five statements of basemul, over one memory

  function Set(m: seq<int>, at: nat, value: int): (m': seq<int>)
    requires at < |m|
    ensures |m'| == |m|
    ensures forall i :: 0 <= i < |m| ==> m'[i] == if i == at then value else m[i]
  {
    m[at := value]
  }

  /** The memory after basemul with result at r and factors at a and b. */
  function Steps(mont: int -> int, m: seq<int>, r: nat, a: nat, b: nat, zeta: int): (m': seq<int>)
    requires r + 1 < |m| && a + 1 < |m| && b + 1 < |m|
    ensures |m'| == |m|
  {
    var m1 := Set(m, r, FqMul(mont, m[a + 1], m[b + 1]));
    var m2 := Set(m1, r, FqMul(mont, m1[r], zeta));
    var m3 := Set(m2, r, ToInt16(m2[r] + FqMul(mont, m2[a], m2[b])));
    var m4 := Set(m3, r + 1, FqMul(mont, m3[a], m3[b + 1]));
    Set(m4, r + 1, ToInt16(m4[r + 1] + FqMul(mont, m4[a + 1], m4[b])))
  }

  /** basemul (firmware/ntt_mmio.c:39-46), its pointers as positions in one memory. */
  method BaseMul(mont: int -> int, mem: array<int>, r: nat, a: nat, b: nat, zeta: int)
    requires r + 1 < mem.Length && a + 1 < mem.Length && b + 1 < mem.Length
    modifies mem
    ensures mem[..] == Steps(mont, old(mem[..]), r, a, b, zeta)
  {
    mem[r] := FqMul(mont, mem[a + 1], mem[b + 1]);
    mem[r] := FqMul(mont, mem[r], zeta);
    mem[r] := ToInt16(mem[r] + FqMul(mont, mem[a], mem[b]));
    mem[r + 1] := FqMul(mont, mem[a], mem[b + 1]);
    mem[r + 1] := ToInt16(mem[r + 1] + FqMul(mont, mem[a + 1], mem[b]));
  }

  /** Every product of a coefficient at a and one at b can be reduced. */
  ghost predicate Factors(m: seq<int>, a: nat, b: nat)
    requires a + 1 < |m| && b + 1 < |m|
  {
    && Reducible(m[a] * m[b]) && Reducible(m[a] * m[b + 1])
    && Reducible(m[a + 1] * m[b]) && Reducible(m[a + 1] * m[b + 1])
  }

  /** The result is the product modulo X^2 - gamma times 2^-16, from the old factors. */
  ghost predicate IsProduct(m: seq<int>, m': seq<int>, r: nat, a: nat, b: nat, gamma: int)
    requires |m| == |m'| && r + 1 < |m| && a + 1 < |m| && b + 1 < |m|
  {
    && Cong(m'[r] * 65536, Product0(m[a], m[a + 1], m[b], m[b + 1], gamma))
    && Cong(m'[r + 1] * 65536, Product1(m[a], m[a + 1], m[b], m[b + 1]))
  }

  /** No factor coefficient is overwritten before its last use. The second result may
      lie on the first coefficient of the left factor. */
  predicate OverlapSafe(r: nat, a: nat, b: nat) {
    r != a && r != a + 1 && r != b && r != b + 1 && r + 1 != b
  }

  /** Where no factor is overwritten too early, the 16-bit code computes the product
      without wrapping and changes nothing else. */
  lemma SafeProduct(mont: int -> int, m: seq<int>, r: nat, a: nat, b: nat, zeta: int, gamma: int)
    requires MontgomeryContract(mont) && r + 1 < |m| && a + 1 < |m| && b + 1 < |m|
    requires Factors(m, a, b) && Int16(zeta) && Cong(zeta, gamma * 65536) && OverlapSafe(r, a, b)
    ensures var m' := Steps(mont, m, r, a, b, zeta);
            && IsProduct(m, m', r, a, b, gamma)
            && -2 * Q < m'[r] < 2 * Q && -2 * Q < m'[r + 1] < 2 * Q
            && forall i :: 0 <= i < |m| && i != r && i != r + 1 ==> m'[i] == m[i]
  {
    hide Cong, ToInt16, Steps, Product0, Product1, MontgomeryContract, Reducible;
    SafeSteps(mont, m, r, a, b, zeta);
    SafeParts(mont, m[a], m[a + 1], m[b], m[b + 1], zeta, gamma);
  }

  /** The two results as sums of reductions. */
  lemma SafeParts(mont: int -> int, l0: int, l1: int, r0: int, r1: int, zeta: int, gamma: int)
    requires MontgomeryContract(mont) && Int16(zeta) && Cong(zeta, gamma * 65536)
    requires Reducible(l0 * r0) && Reducible(l0 * r1) && Reducible(l1 * r0) && Reducible(l1 * r1)
    ensures var first := ToInt16(mont(mont(l1 * r1) * zeta) + mont(l0 * r0));
            Cong(first * 65536, Product0(l0, l1, r0, r1, gamma)) && -2 * Q < first < 2 * Q
    ensures var second := ToInt16(mont(l0 * r1) + mont(l1 * r0));
            Cong(second * 65536, Product1(l0, l1, r0, r1)) && -2 * Q < second < 2 * Q
  {
    hide Cong, ToInt16, MontgomeryContract, Reducible, Product0, Product1;
    var s := mont(l1 * r1);
    ReductionOf(mont, l1 * r1);
    SmallTimesInt16(s, zeta);
    ReductionOf(mont, s * zeta);
    ReductionOf(mont, l0 * r0);
    ReductionOf(mont, l0 * r1);
    ReductionOf(mont, l1 * r0);
    var t, u, v, w := mont(s * zeta), mont(l0 * r0), mont(l0 * r1), mont(l1 * r0);
    NoWrap(t + u);
    NoWrap(v + w);
    TwiceReduced(s, t, u, l0 * r0, l1 * r1, zeta, gamma);
    SumReduced(v, w, l0 * r1, l1 * r0);
    assert Product0(l0, l1, r0, r1, gamma) == l0 * r0 + gamma * (l1 * r1) by {
      Product0Is(l0, l1, r0, r1, gamma);
    }
    assert Product1(l0, l1, r0, r1) == l0 * r1 + l1 * r0 by {
      Product1Is(l0, l1, r0, r1);
    }
  }

  lemma SumReduced(v: int, w: int, x: int, y: int)
    requires Cong(v * 65536, x) && Cong(w * 65536, y)
    ensures Cong((v + w) * 65536, x + y)
  {
    hide Cong;
    CongAdd(v * 65536, x, w * 65536, y);
    assert (v + w) * 65536 == v * 65536 + w * 65536;
  }

  lemma Product0Is(a0: int, a1: int, b0: int, b1: int, x: int)
    ensures Product0(a0, a1, b0, b1, x) == a0 * b0 + x * (a1 * b1)
  {
  }

  lemma Product1Is(a0: int, a1: int, b0: int, b1: int)
    ensures Product1(a0, a1, b0, b1) == a0 * b1 + a1 * b0
  {
  }

  lemma SafeSteps(mont: int -> int, m: seq<int>, r: nat, a: nat, b: nat, zeta: int)
    requires r + 1 < |m| && a + 1 < |m| && b + 1 < |m| && OverlapSafe(r, a, b)
    ensures var m' := Steps(mont, m, r, a, b, zeta);
            && m'[r] == ToInt16(mont(mont(m[a + 1] * m[b + 1]) * zeta) + mont(m[a] * m[b]))
            && m'[r + 1] == ToInt16(mont(m[a] * m[b + 1]) + mont(m[a + 1] * m[b]))
            && forall i :: 0 <= i < |m| && i != r && i != r + 1 ==> m'[i] == m[i]
  {
    hide ToInt16, Set;
  }

  // ----- exactly when overlapping buffers are harmless

  /** basemul is right for these positions whatever the memory of n words holds. */
  ghost predicate AlwaysRight(mont: int -> int, n: nat, r: nat, a: nat, b: nat)
    requires r + 1 < n && a + 1 < n && b + 1 < n
  {
    forall m: seq<int>, zeta: int, gamma: int ::
      |m| == n && Factors(m, a, b) && Int16(zeta) && Cong(zeta, gamma * 65536) ==>
        IsProduct(m, Steps(mont, m, r, a, b, zeta), r, a, b, gamma)
  }

  function Ones(n: nat): (m: seq<int>)
    ensures |m| == n && forall i :: 0 <= i < n ==> m[i] == 1
  {
    seq(n, i => 1)
  }

  lemma ReductionOfZero(mont: int -> int)
    requires MontgomeryContract(mont)
    ensures mont(0) == 0
  {
    assert Reducible(0);
    var k := CongMultiple(mont(0) * 65536, 0);
    var z := mont(0);
    assert z * 65536 == 3329 * k;
    assert z == 3329 * (3327 * z * -1 + 169 * k);
  }

  /** On a memory of ones the sum of the two products that make the second result. */
  lemma OnesSecond(mont: int -> int, n: nat, r: nat, a: nat, b: nat)
    requires MontgomeryContract(mont) && r + 1 < n && a + 1 < n && b + 1 < n && r != a && r != b
    ensures var x := mont(1);
            var p, s := if b + 1 == r then x else 1, if a + 1 == r then x else 1;
            var t := if b == r + 1 then mont(p) else 1;
            Steps(mont, Ones(n), r, a, b, 0)[r + 1] == ToInt16(mont(p) + mont(s * t))
  {
    ReductionOfZero(mont);
    assert Reducible(1);
    var x := mont(1);
    assert -Q < x < Q;
    NoWrap(x);
    hide ToInt16, Set, MontgomeryContract;
    assert x * 0 == 0;
    var p, s := if b + 1 == r then x else 1, if a + 1 == r then x else 1;
    var t := if b == r + 1 then mont(p) else 1;
    assert 1 * p == p;
  }

  lemma OnesFirst(mont: int -> int, n: nat, r: nat, a: nat, b: nat)
    requires MontgomeryContract(mont) && r + 1 < n && a + 1 < n && b + 1 < n && (r == a || r == b)
    ensures Steps(mont, Ones(n), r, a, b, 0)[r] == 0
  {
    ReductionOfZero(mont);
    NoWrap(0);
    hide ToInt16, MontgomeryContract;
    var m := Ones(n);
    var x := FqMul(mont, m[a + 1], m[b + 1]);
    var m1 := Set(m, r, x);
    ZeroFactor(x, 0);
    var m2 := Set(m1, r, 0);
    ZeroFactor(m2[a], m2[b]);
    hide FqMul, Ones;
    assert FqMul(mont, m1[r], 0) == 0 && FqMul(mont, m2[a], m2[b]) == 0 by {
      FqMulIs(mont, m1[r], 0);
      FqMulIs(mont, m2[a], m2[b]);
    }
  }

  lemma FqMulIs(mont: int -> int, left: int, right: int)
    ensures FqMul(mont, left, right) == mont(left * right)
  {
  }

  lemma ZeroFactor(x: int, y: int)
    requires x == 0 || y == 0
    ensures x * y == 0
  {
  }

  /** The product of ones that a right result would hold. */
  lemma OnesExpected(n: nat, m': seq<int>, r: nat, a: nat, b: nat)
    requires |m'| == n && r + 1 < n && a + 1 < n && b + 1 < n && IsProduct(Ones(n), m', r, a, b, 0)
    ensures Cong(m'[r] * 65536, 1) && Cong(m'[r + 1] * 65536, 2)
  {
    hide Cong;
    Product0Is(1, 1, 1, 1, 0);
    Product1Is(1, 1, 1, 1);
    hide Product0, Product1;
  }

  lemma UnsafeSecondFails(mont: int -> int, n: nat, r: nat, a: nat, b: nat)
    requires MontgomeryContract(mont) && r + 1 < n && a + 1 < n && b + 1 < n
    requires r != a && r != b && !OverlapSafe(r, a, b)
    ensures !Cong(Steps(mont, Ones(n), r, a, b, 0)[r + 1] * 65536, 2)
  {
    hide Steps, Ones, ToInt16, MontgomeryContract, Cong;
    OnesSecond(mont, n, r, a, b);
    var x := mont(1);
    ReductionOf(mont, 1);
    var p, s := if b + 1 == r then x else 1, if a + 1 == r then x else 1;
    var y := mont(p);
    ReductionOf(mont, p);
    OnesAreWrong(mont, p, s, if b == r + 1 then y else 1);
  }

  /** An unsafe overlap goes wrong on a memory of ones. */
  lemma UnsafeOverlapFails(mont: int -> int, n: nat, r: nat, a: nat, b: nat)
    requires MontgomeryContract(mont) && r + 1 < n && a + 1 < n && b + 1 < n && !OverlapSafe(r, a, b)
    ensures !IsProduct(Ones(n), Steps(mont, Ones(n), r, a, b, 0), r, a, b, 0)
  {
    hide MontgomeryContract, IsProduct, Steps, Ones;
    var m' := Steps(mont, Ones(n), r, a, b, 0);
    if IsProduct(Ones(n), m', r, a, b, 0) {
      OnesExpected(n, m', r, a, b);
      if r == a || r == b {
        OnesFirst(mont, n, r, a, b);
        assert false;
      } else {
        UnsafeSecondFails(mont, n, r, a, b);
        assert false;
      }
    }
  }

  lemma OnesAreWrong(mont: int -> int, p: int, s: int, t: int)
    requires MontgomeryContract(mont) && -Q < p < Q && -Q < s < Q && -Q < t < Q
    requires p == 1 || Cong(p, 169)
    requires s == 1 || Cong(s, 169)
    requires t == 1 || (p == 1 && Cong(t, 169))
    requires !(p == 1 && s == 1 && t == 1)
    ensures !Cong(ToInt16(mont(p) + mont(s * t)) * 65536, 2)
  {
    hide Cong, ToInt16, MontgomeryContract;
    ReductionOf(mont, p);
    SmallProduct(s, t);
    ReductionOf(mont, s * t);
    var f, g := mont(p), mont(s * t);
    NoWrap(f + g);
    NotTwo(f + g, f, g, p, s, t);
  }

  lemma SmallProduct(s: int, t: int)
    requires -Q < s < Q && -Q < t < Q
    ensures Reducible(s * t)
  {
    SmallTimesInt16(s, t);
  }

  lemma NotTwo(second: int, f: int, g: int, p: int, s: int, t: int)
    requires second == f + g && Cong(f * 65536, p) && Cong(g * 65536, s * t)
    requires p == 1 || Cong(p, 169)
    requires s == 1 || Cong(s, 169)
    requires t == 1 || (p == 1 && Cong(t, 169))
    requires !(p == 1 && s == 1 && t == 1)
    ensures !Cong(second * 65536, 2)
  {
    hide Cong;
    CongReflexive(1);
    var p', s', t' := if p == 1 then 1 else 169, if s == 1 then 1 else 169, if t == 1 then 1 else 169;
    CongMul(s, s', t, t');
    CongTransitive(g * 65536, s * t, s' * t');
    CongTransitive(f * 65536, p, p');
    CongAdd(f * 65536, p', g * 65536, s' * t');
    assert second * 65536 == f * 65536 + g * 65536;
    if Cong(second * 65536, 2) {
      CongSymmetric(second * 65536, 2);
      CongTransitive(2, second * 65536, p' + s' * t');
      NotCongruentToTwo(p' + s' * t');
    }
  }

  lemma NotCongruentToTwo(y: int)
    requires y == 338 || y == 170 || y == 1930 || y == 28730
    ensures !Cong(2, y)
  {
  }

  /** basemul is right for every content of the memory exactly where no coefficient is
      overwritten before its last use. */
  lemma OverlapExactly(mont: int -> int, n: nat, r: nat, a: nat, b: nat)
    requires MontgomeryContract(mont) && r + 1 < n && a + 1 < n && b + 1 < n
    ensures AlwaysRight(mont, n, r, a, b) <==> OverlapSafe(r, a, b)
  {
    hide MontgomeryContract, IsProduct, Steps;
    if OverlapSafe(r, a, b) {
      forall m: seq<int>, zeta: int, gamma: int | |m| == n && Factors(m, a, b) && Int16(zeta) && Cong(zeta, gamma * 65536)
        ensures IsProduct(m, Steps(mont, m, r, a, b, zeta), r, a, b, gamma)
      {
        SafeProduct(mont, m, r, a, b, zeta, gamma);
      }
    } else {
      UnsafeOverlapFails(mont, n, r, a, b);
      assert Factors(Ones(n), a, b) && Int16(0) && Cong(0, 0 * 65536);
    }
  }

  /** Slot i of p holds what basemul leaves of slot i of F and G. */
  ghost predicate SlotProduct(F: seq<int>, G: seq<int>, p: seq<int>, i: nat)
    requires 2 * i + 1 < |F| && 2 * i + 1 < |G| && 2 * i + 1 < |p|
  {
    && Cong(p[2 * i] * 65536, Product0(F[2 * i], F[2 * i + 1], G[2 * i], G[2 * i + 1], Gamma(i)))
    && Cong(p[2 * i + 1] * 65536, Product1(F[2 * i], F[2 * i + 1], G[2 * i], G[2 * i + 1]))
  }

  /** p holds, slot by slot, what basemul leaves of the transforms of f and g, reduced. */
  ghost predicate PairwiseProduct(f: seq<int>, g: seq<int>, p: seq<int>)
    requires |f| == |g| == 256
  {
    CanonicalPoly(p) && forall i :: 0 <= i < 128 ==> SlotProduct(Ntt(f), Ntt(g), p, i)
  }

  lemma SlotScaled(f: seq<int>, g: seq<int>, p: seq<int>, j: nat)
    requires |f| == |g| == 256 && PairwiseProduct(f, g, p) && j < 256
    ensures Cong(Ntt(ReducePoly(NegaProduct(f, g)))[j], 65536 * p[j])
  {
    hide Cong, Ntt, Gamma, Product0, Product1, NegaProduct, ReducePoly;
    var i := j / 2;
    var F, G, H := Ntt(f), Ntt(g), Ntt(ReducePoly(NegaProduct(f, g)));
    NttMultiplies(f, g, i);
    assert SlotProduct(F, G, p, i);
    if j == 2 * i {
      var e := Product0(F[2 * i], F[2 * i + 1], G[2 * i], G[2 * i + 1], Gamma(i));
      CongSymmetric(p[j] * 65536, e);
      CongTransitive(H[j], e, p[j] * 65536);
    } else {
      assert j == 2 * i + 1;
      var e := Product1(F[2 * i], F[2 * i + 1], G[2 * i], G[2 * i + 1]);
      CongSymmetric(p[j] * 65536, e);
      CongTransitive(H[j], e, p[j] * 65536);
    }
  }

  /** Transform, multiply pairwise, transform back: negacyclic multiplication, up to
      the Montgomery factor 2^-16, for all canonical polynomials. */
  lemma NttMultiplication(f: seq<int>, g: seq<int>, p: seq<int>, k: nat)
    requires CanonicalPoly(f) && CanonicalPoly(g) && PairwiseProduct(f, g, p) && k < 256
    ensures Cong(InverseNtt(p)[k] * 65536, NegaProduct(f, g)[k])
  {
    hide Cong, Ntt, InverseNtt, NegaProduct;
    var h := ReducePoly(NegaProduct(f, g));
    forall j | 0 <= j < 256
      ensures Cong(Ntt(h)[j], 65536 * p[j])
    {
      SlotScaled(f, g, p, j);
    }
    InverseScales(Ntt(h), 65536, p);
    InverseOfForward(h);
    CongMod(NegaProduct(f, g)[k]);
    CongSymmetric(h[k], 65536 * InverseNtt(p)[k]);
    CongTransitive(InverseNtt(p)[k] * 65536, h[k], NegaProduct(f, g)[k]);
  }

  lemma ReducedSlot(r: int, e: int)
    requires Cong(r * 65536, e)
    ensures Cong(r % 3329 * 65536, e)
  {
    hide Cong;
    CongMod(r);
    CongReflexive(65536);
    CongMul(r % 3329, r, 65536, 65536);
    CongTransitive(r % 3329 * 65536, r * 65536, e);
  }

  lemma ReducedFactors(a: int, b: int)
    requires Reduced(a) && Reduced(b)
    ensures Reducible(a * b)
  {
    ProductBounds(a, b, 3329);
  }

  lemma ProductBounds(a: int, b: int, c: int)
    requires 0 <= a && 0 <= b <= c
    ensures 0 <= a * b <= a * c
  {
  }

  /** Every slot multiplied by basemul and reduced. The caller supplies Gamma(i) in
      Montgomery form for slot i. */
  method MultiplySlots(mont: int -> int, F: seq<int>, G: seq<int>, zetas: seq<int>) returns (p: seq<int>)
    requires MontgomeryContract(mont) && CanonicalPoly(F) && CanonicalPoly(G)
    requires |zetas| == 128 && forall i :: 0 <= i < 128 ==> Int16(zetas[i]) && Cong(zetas[i], Gamma(i) * 65536)
    ensures CanonicalPoly(p)
    ensures forall i :: 0 <= i < 128 ==> SlotProduct(F, G, p, i)
  {
    hide Cong, Gamma, Product0, Product1, MontgomeryContract, Steps;
    p := [];
    var mem := new int[6];
    for i := 0 to 128
      invariant |p| == 2 * i && forall k :: 0 <= k < 2 * i ==> Reduced(p[k])
      invariant forall k :: 0 <= k < i ==> SlotProduct(F, G, p, k)
    {
      mem[0], mem[1], mem[2], mem[3] := F[2 * i], F[2 * i + 1], G[2 * i], G[2 * i + 1];
      ghost var m := mem[..];
      ReducedFactors(m[0], m[2]);
      ReducedFactors(m[0], m[3]);
      ReducedFactors(m[1], m[2]);
      ReducedFactors(m[1], m[3]);
      SafeProduct(mont, m, 4, 0, 2, zetas[i], Gamma(i));
      BaseMul(mont, mem, 4, 0, 2, zetas[i]);
      ReducedSlot(mem[4], Product0(m[0], m[1], m[2], m[3], Gamma(i)));
      ReducedSlot(mem[5], Product1(m[0], m[1], m[2], m[3]));
      CongMod(mem[4]);
      CongMod(mem[5]);
      ghost var before := p;
      p := p + [mem[4] % 3329, mem[5] % 3329];
      forall k | 0 <= k < i
        ensures SlotProduct(F, G, p, k)
      {
        assert SlotProduct(F, G, before, k);
      }
    }
  }

  /** The firmware's table, negated for odd slots, is what MultiplySlots asks for. */
  lemma FirmwareTwiddles(zetas: seq<int>)
    requires |zetas| == 128 && forall i :: 0 <= i < 128 ==> zetas[i] == SlotZeta(i)
    ensures forall i :: 0 <= i < 128 ==> Int16(zetas[i]) && Cong(zetas[i], Gamma(i) * 65536)
  {
    hide Cong, Gamma, KemZeta;
    forall i | 0 <= i < 128
      ensures Int16(zetas[i]) && Cong(zetas[i], Gamma(i) * 65536)
    {
      SlotZetaIsGamma(i);
      KemZetaSmall(64 + i / 2);
    }
  }

  /** The modelled loops composed: two forward transforms, 128 base products and one
      inverse transform multiply modulo X^256 + 1, up to 2^-16. */
  method MultiplyPolynomials(mont: int -> int, f: seq<int>, g: seq<int>, zetas: seq<int>) returns (h: seq<int>)
    requires MontgomeryContract(mont) && CanonicalPoly(f) && CanonicalPoly(g)
    requires |zetas| == 128 && forall i :: 0 <= i < 128 ==> Int16(zetas[i]) && Cong(zetas[i], Gamma(i) * 65536)
    ensures CanonicalPoly(h)
    ensures forall k :: 0 <= k < 256 ==> Cong(h[k] * 65536, NegaProduct(f, g)[k])
  {
    hide Cong, Gamma, Ntt, InverseNtt, NegaProduct, Product0, Product1, MontgomeryContract;
    var F := ForwardNtt(f);
    var G := ForwardNtt(g);
    var p := MultiplySlots(mont, F.value, G.value, zetas);
    var r := InverseNttInPlace(p);
    h := r.value;
    forall k | 0 <= k < 256
      ensures Cong(h[k] * 65536, NegaProduct(f, g)[k])
    {
      NttMultiplication(f, g, p, k);
    }
  }
}
