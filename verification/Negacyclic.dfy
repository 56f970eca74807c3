/** The forward transform turns multiplication modulo X^256 + 1 into 128 products
    modulo X^2 - Gamma(i) (section 4.3.1 of FIPS 203). */
module Negacyclic {
  import opened Field
  import opened Twiddles
  import opened NttLayers
  import opened NttInverse

  // ----- the product modulo X^256 + 1, coefficient by coefficient

  /** Coefficient k of X^d * g modulo X^256 + 1. */
  function Rotated(g: seq<int>, d: nat, k: nat): int
    requires |g| == 256 && d < 256 && k < 256
  {
    if k >= d then g[k - d] else -g[256 + k - d]
  }

  /** The sum over j >= i of f[j] times coefficient k of X^(j - base) * g. */
  function RotatedSum(f: seq<int>, g: seq<int>, base: nat, i: nat, k: nat): int
    requires |f| == |g| == 256 && base <= i <= 256 && k < 256
    decreases 256 - i
  {
    if i == 256 then 0 else f[i] * Rotated(g, i - base, k) + RotatedSum(f, g, base, i + 1, k)
  }

  /** Schoolbook multiplication modulo X^256 + 1. */
  function NegaProduct(f: seq<int>, g: seq<int>): (h: seq<int>)
    requires |f| == |g| == 256
    ensures |h| == 256
  {
    seq(256, k requires 0 <= k < 256 => RotatedSum(f, g, 0, 0, k))
  }

  // ----- the same product by Horner's rule

  function TimesX(h: seq<int>): (s: seq<int>)
    requires |h| == 256
    ensures |s| == 256
  {
    seq(256, k requires 0 <= k < 256 => if k == 0 then -h[255] else h[k - 1])
  }

  function AddScaled(c: int, g: seq<int>, h: seq<int>): (s: seq<int>)
    requires |g| == |h| == 256
    ensures |s| == 256
  {
    seq(256, k requires 0 <= k < 256 => c * g[k] + h[k])
  }

  /** The coefficients of f from i on, times g. */
  function TailProduct(f: seq<int>, g: seq<int>, i: nat): (h: seq<int>)
    requires |f| == |g| == 256 && i <= 256
    ensures |h| == 256
    decreases 256 - i
  {
    if i == 256 then seq(256, k => 0) else AddScaled(f[i], g, TimesX(TailProduct(f, g, i + 1)))
  }

  lemma RotateOnce(g: seq<int>, d: nat, k: nat)
    requires |g| == 256 && d < 255 && k < 256
    ensures Rotated(g, d + 1, k) == if k == 0 then -Rotated(g, d, 255) else Rotated(g, d, k - 1)
  {
  }

  lemma {:induction false} SumRotatesOnce(f: seq<int>, g: seq<int>, base: nat, i: nat, k: nat)
    requires |f| == |g| == 256 && base < i <= 256 && k < 256
    ensures RotatedSum(f, g, base, i, k)
            == if k == 0 then -RotatedSum(f, g, base + 1, i, 255) else RotatedSum(f, g, base + 1, i, k - 1)
    decreases 256 - i
  {
    hide Rotated;
    if i < 256 {
      SumRotatesOnce(f, g, base, i + 1, k);
      RotateOnce(g, i - base - 1, k);
      if k == 0 {
        assert f[i] * -Rotated(g, i - base - 1, 255) == -(f[i] * Rotated(g, i - base - 1, 255));
      }
    }
  }

  /** Horner's rule computes the schoolbook product. */
  lemma {:induction false} TailIsSum(f: seq<int>, g: seq<int>, i: nat, k: nat)
    requires |f| == |g| == 256 && i <= 256 && k < 256
    ensures TailProduct(f, g, i)[k] == RotatedSum(f, g, i, i, k)
    decreases 256 - i
  {
    if i < 256 {
      TailIsSum(f, g, i + 1, if k == 0 then 255 else k - 1);
      SumRotatesOnce(f, g, i, i + 1, k);
      assert Rotated(g, 0, k) == g[k];
    }
  }

  // ----- evaluation of the pieces

  lemma {:induction false} EvalSame(f: seq<int>, g: seq<int>, s: nat, s': nat, count: nat, x: int)
    requires forall t {:trigger Coefficient(f, s + 2 * t)} :: 0 <= t < count ==> Coefficient(f, s + 2 * t) == Coefficient(g, s' + 2 * t)
    ensures Eval(f, s, 2, count, x) == Eval(g, s', 2, count, x)
    decreases count
  {
    hide Coefficient;
    if count > 0 {
      assert Coefficient(f, s + 2 * 0) == Coefficient(g, s' + 2 * 0);
      forall t | 0 <= t < count - 1
        ensures Coefficient(f, s + 2 + 2 * t) == Coefficient(g, s' + 2 + 2 * t)
      {
        assert Coefficient(f, s + 2 * (t + 1)) == Coefficient(g, s' + 2 * (t + 1));
      }
      EvalSame(f, g, s + 2, s' + 2, count - 1, x);
    }
  }

  lemma {:induction false} EvalAddScaled(c: int, g: seq<int>, h: seq<int>, s: nat, count: nat, x: int)
    requires |g| == |h| == 256
    ensures Eval(AddScaled(c, g, h), s, 2, count, x) == c * Eval(g, s, 2, count, x) + Eval(h, s, 2, count, x)
    decreases count
  {
    if count > 0 {
      EvalAddScaled(c, g, h, s + 2, count - 1, x);
      var a, b := Eval(g, s + 2, 2, count - 1, x), Eval(h, s + 2, 2, count - 1, x);
      assert Coefficient(AddScaled(c, g, h), s) == c * Coefficient(g, s) + Coefficient(h, s);
      Distribute(c, Coefficient(g, s), Coefficient(h, s), x, a, b);
    }
  }

  lemma Distribute(c: int, p: int, q: int, x: int, a: int, b: int)
    ensures c * p + q + x * (c * a + b) == c * (p + x * a) + (q + x * b)
  {
    assert x * (c * a) == c * (x * a);
    assert x * (c * a + b) == x * (c * a) + x * b;
    assert c * (p + x * a) == c * p + c * (x * a);
  }

  /** The odd part of X * h is the even part of h. */
  lemma OddOfTimesX(h: seq<int>, x: int)
    requires |h| == 256
    ensures Eval(TimesX(h), 1, 2, 128, x) == Eval(h, 0, 2, 128, x)
  {
    EvalSame(TimesX(h), h, 1, 0, 128, x);
  }

  /** The even part of X * h is x times the odd part of h, where x^128 = -1. */
  lemma EvenOfTimesX(h: seq<int>, x: int)
    requires |h| == 256 && Cong(Pow(x, 128), -1)
    ensures Cong(Eval(TimesX(h), 0, 2, 128, x), x * Eval(h, 1, 2, 128, x))
  {
    hide Cong, Pow, Eval;
    EvalFirst(TimesX(h), x);
    EvalSame(TimesX(h), h, 2, 1, 127, x);
    EvalLast(h, x);
    var rest, last := Eval(h, 1, 2, 127, x), h[255];
    assert x * (rest + last * Pow(x, 127)) == x * rest + last * Pow(x, 128) by {
      PowNext(x, 127);
      assert x * (last * Pow(x, 127)) == last * (x * Pow(x, 127));
    }
    CongScale(last, Pow(x, 128), -1);
    CongReflexive(x * rest);
    CongAdd(x * rest, x * rest, last * Pow(x, 128), last * -1);
    CongSymmetric(x * rest + last * Pow(x, 128), x * rest - last);
  }

  lemma PowNext(x: int, n: nat)
    ensures Pow(x, n + 1) == x * Pow(x, n)
  {
  }

  lemma EvalFirst(h: seq<int>, x: int)
    requires |h| == 256
    ensures Eval(h, 0, 2, 128, x) == h[0] + x * Eval(h, 2, 2, 127, x)
  {
  }

  lemma EvalLast(h: seq<int>, x: int)
    requires |h| == 256
    ensures Eval(h, 1, 2, 128, x) == Eval(h, 1, 2, 127, x) + h[255] * Pow(x, 127)
  {
    hide Pow, Eval;
    EvalIsPowerSum(h, 1, 2, 128, x);
    EvalIsPowerSum(h, 1, 2, 127, x);
    assert 1 + (128 - 1) * 2 == 255;
  }

  // ----- products modulo X^2 - x

  /** (a0 + a1 X)(b0 + b1 X) modulo X^2 - x. */
  function Product0(a0: int, a1: int, b0: int, b1: int, x: int): int {
    a0 * b0 + x * (a1 * b1)
  }

  function Product1(a0: int, a1: int, b0: int, b1: int): int {
    a0 * b1 + a1 * b0
  }

  /** One step of Horner's rule, seen modulo X^2 - x: c + X(a + bX) has parts c + xb and a. */
  lemma HornerStep(c: int, a: int, b: int, g0: int, g1: int, x: int)
    ensures c * g0 + x * Product1(a, b, g0, g1) == Product0(c + x * b, a, g0, g1, x)
    ensures c * g1 + Product0(a, b, g0, g1, x) == Product1(c + x * b, a, g0, g1)
  {
    assert x * (a * g1 + b * g0) == x * (a * g1) + x * b * g0;
    assert (c + x * b) * g0 == c * g0 + x * b * g0;
    assert (c + x * b) * g1 == c * g1 + x * b * g1;
    assert x * (b * g1) == x * b * g1;
  }

  /** The parts of f from coefficient i on. */
  function EvenTail(f: seq<int>, i: nat, x: int): int
    requires i <= 256
  {
    Eval(f, i, 2, (257 - i) / 2, x)
  }

  function OddTail(f: seq<int>, i: nat, x: int): int
    requires i <= 256
  {
    Eval(f, i + 1, 2, (256 - i) / 2, x)
  }

  lemma TailParts(f: seq<int>, i: nat, x: int)
    requires |f| == 256 && i < 256
    ensures EvenTail(f, i, x) == f[i] + x * OddTail(f, i + 1, x)
    ensures OddTail(f, i, x) == EvenTail(f, i + 1, x)
  {
    assert (257 - i) / 2 - 1 == (256 - (i + 1)) / 2;
    assert (256 - i) / 2 == (257 - (i + 1)) / 2;
  }

  /** h multiplied like a polynomial with parts a and b times g, modulo X^2 - x. */
  ghost predicate EvaluatesTo(h: seq<int>, a: int, b: int, g: seq<int>, x: int) {
    && Cong(Eval(h, 0, 2, 128, x), Product0(a, b, Eval(g, 0, 2, 128, x), Eval(g, 1, 2, 128, x), x))
    && Cong(Eval(h, 1, 2, 128, x), Product1(a, b, Eval(g, 0, 2, 128, x), Eval(g, 1, 2, 128, x)))
  }

  lemma EvaluateStep(c: int, h: seq<int>, a: int, b: int, g: seq<int>, x: int)
    requires |h| == |g| == 256 && Cong(Pow(x, 128), -1)
    requires EvaluatesTo(h, a, b, g, x)
    ensures EvaluatesTo(AddScaled(c, g, TimesX(h)), c + x * b, a, g, x)
  {
    hide Cong, Eval, Pow, AddScaled, TimesX, Product0, Product1;
    var g0, g1 := Eval(g, 0, 2, 128, x), Eval(g, 1, 2, 128, x);
    HornerStep(c, a, b, g0, g1, x);
    EvalAddScaled(c, g, TimesX(h), 0, 128, x);
    EvalAddScaled(c, g, TimesX(h), 1, 128, x);
    EvenOfTimesX(h, x);
    OddOfTimesX(h, x);
    var p := Product1(a, b, g0, g1);
    CongScale(x, Eval(h, 1, 2, 128, x), p);
    CongTransitive(Eval(TimesX(h), 0, 2, 128, x), x * Eval(h, 1, 2, 128, x), x * p);
    CongReflexive(c * g0);
    CongReflexive(c * g1);
    CongAdd(c * g0, c * g0, Eval(TimesX(h), 0, 2, 128, x), x * p);
    CongAdd(c * g1, c * g1, Eval(TimesX(h), 1, 2, 128, x), Product0(a, b, g0, g1, x));
  }

  lemma {:induction false} TailEvaluates(f: seq<int>, g: seq<int>, i: nat, x: int)
    requires |f| == |g| == 256 && i <= 256 && Cong(Pow(x, 128), -1)
    ensures EvaluatesTo(TailProduct(f, g, i), EvenTail(f, i, x), OddTail(f, i, x), g, x)
    decreases 256 - i
  {
    hide Pow, EvenTail, OddTail, AddScaled, TimesX, Eval;
    if i == 256 {
      EvalOfZeros(0, 128, x);
      EvalOfZeros(1, 128, x);
      EmptyTails(f, x);
    } else {
      hide Cong, EvaluatesTo, Product0, Product1;
      TailEvaluates(f, g, i + 1, x);
      TailParts(f, i, x);
      EvaluateStep(f[i], TailProduct(f, g, i + 1), EvenTail(f, i + 1, x), OddTail(f, i + 1, x), g, x);
    }
  }

  lemma EmptyTails(f: seq<int>, x: int)
    ensures EvenTail(f, 256, x) == 0 && OddTail(f, 256, x) == 0
  {
  }

  lemma {:induction false} EvalOfZeros(s: nat, count: nat, x: int)
    ensures Eval(seq(256, k => 0), s, 2, count, x) == 0
    decreases count
  {
    if count > 0 {
      EvalOfZeros(s + 2, count - 1, x);
    }
  }

  // ----- the roots

  lemma {:induction false} PowPow(b: int, m: nat, n: nat)
    ensures 0 <= m * n && Pow(Pow(b, m), n) == Pow(b, m * n)
    decreases n
  {
    if n == 0 {
      assert m * n == 0;
    } else {
      PowPow(b, m, n - 1);
      assert m * n == m + m * (n - 1);
      PowAdds(b, m, m * (n - 1));
    }
  }

  lemma {:induction false} OddPowerOfMinusOne(t: nat)
    ensures Pow(-1, 2 * t + 1) == -1
    decreases t
  {
    if t > 0 {
      OddPowerOfMinusOne(t - 1);
      assert Pow(-1, 2 * t + 1) == -1 * (-1 * Pow(-1, 2 * (t - 1) + 1));
    }
  }

  lemma GammaIsRoot(i: nat)
    ensures Cong(Pow(Gamma(i), 128), -1)
  {
    hide Cong, Pow, BitRev;
    var t := BitRev(i, 7);
    PowPow(17, 2 * t + 1, 128);
    PowPow(17, 128, 2 * t + 1);
    assert (2 * t + 1) * 128 == 128 * (2 * t + 1);
    RootHalfway();
    CongPow(Pow(17, 128), -1, 2 * t + 1);
    OddPowerOfMinusOne(t);
  }

  // ----- the theorem

  function ReducePoly(h: seq<int>): (r: seq<int>)
    requires |h| == 256
    ensures CanonicalPoly(r)
  {
    seq(256, k requires 0 <= k < 256 => h[k] % 3329)
  }

  lemma {:induction false} EvalReduced(h: seq<int>, s: nat, count: nat, x: int)
    requires |h| == 256
    ensures Cong(Eval(ReducePoly(h), s, 2, count, x), Eval(h, s, 2, count, x))
    decreases count
  {
    hide Cong;
    CongReflexive(0);
    if count > 0 {
      EvalReduced(h, s + 2, count - 1, x);
      var a, b := Eval(ReducePoly(h), s + 2, 2, count - 1, x), Eval(h, s + 2, 2, count - 1, x);
      CongScale(x, a, b);
      if s < 256 {
        CongMod(h[s]);
      }
      CongAdd(Coefficient(ReducePoly(h), s), Coefficient(h, s), x * a, x * b);
    }
  }

  lemma CongProduct0(a0: int, a1: int, b0: int, b1: int, x: int, a0': int, a1': int, b0': int, b1': int)
    requires Cong(a0, a0') && Cong(a1, a1') && Cong(b0, b0') && Cong(b1, b1')
    ensures Cong(Product0(a0, a1, b0, b1, x), Product0(a0', a1', b0', b1', x))
    ensures Cong(Product1(a0, a1, b0, b1), Product1(a0', a1', b0', b1'))
  {
    hide Cong;
    CongMul(a0, a0', b0, b0');
    CongMul(a1, a1', b1, b1');
    CongScale(x, a1 * b1, a1' * b1');
    CongAdd(a0 * b0, a0' * b0', x * (a1 * b1), x * (a1' * b1'));
    CongMul(a0, a0', b1, b1');
    CongMul(a1, a1', b0, b0');
    CongAdd(a0 * b1, a0' * b1', a1 * b0, a1' * b0');
  }

  /** The transform of a slot as an evaluation. */
  lemma SlotIsEval(f: seq<int>, i: nat)
    requires |f| == 256 && i < 128
    ensures Cong(Ntt(f)[2 * i], Eval(f, 0, 2, 128, Gamma(i)))
    ensures Cong(Ntt(f)[2 * i + 1], Eval(f, 1, 2, 128, Gamma(i)))
  {
    hide Cong, Eval, PowerSum, ForwardTo, Gamma;
    NttMeaning(f, i);
    EvalIsPowerSum(f, 0, 2, 128, Gamma(i));
    EvalIsPowerSum(f, 1, 2, 128, Gamma(i));
  }

  /** Multiplication modulo X^256 + 1 becomes, slot by slot, multiplication modulo
      X^2 - Gamma(i). */
  lemma NttMultiplies(f: seq<int>, g: seq<int>, i: nat)
    requires |f| == |g| == 256 && i < 128
    ensures var F, G, H := Ntt(f), Ntt(g), Ntt(ReducePoly(NegaProduct(f, g)));
            && Cong(H[2 * i], Product0(F[2 * i], F[2 * i + 1], G[2 * i], G[2 * i + 1], Gamma(i)))
            && Cong(H[2 * i + 1], Product1(F[2 * i], F[2 * i + 1], G[2 * i], G[2 * i + 1]))
  {
    hide Cong, Eval, Pow, Ntt, Gamma, Product0, Product1, ReducePoly, TailProduct, RotatedSum;
    var x := Gamma(i);
    var h := NegaProduct(f, g);
    var F, G, H := Ntt(f), Ntt(g), Ntt(ReducePoly(h));
    assert h == TailProduct(f, g, 0) by {
      forall k | 0 <= k < 256
        ensures h[k] == TailProduct(f, g, 0)[k]
      {
        TailIsSum(f, g, 0, k);
      }
    }
    GammaIsRoot(i);
    TailEvaluates(f, g, 0, x);
    var f0, f1, g0, g1 := Eval(f, 0, 2, 128, x), Eval(f, 1, 2, 128, x), Eval(g, 0, 2, 128, x), Eval(g, 1, 2, 128, x);
    assert EvenTail(f, 0, x) == f0 && OddTail(f, 0, x) == f1;
    SlotIsEval(f, i);
    SlotIsEval(g, i);
    SlotIsEval(ReducePoly(h), i);
    EvalReduced(h, 0, 128, x);
    EvalReduced(h, 1, 128, x);
    CongProduct0(F[2 * i], F[2 * i + 1], G[2 * i], G[2 * i + 1], x, f0, f1, g0, g1);
    var p0 := Product0(F[2 * i], F[2 * i + 1], G[2 * i], G[2 * i + 1], x);
    var p1 := Product1(F[2 * i], F[2 * i + 1], G[2 * i], G[2 * i + 1]);
    CongSymmetric(p0, Product0(f0, f1, g0, g1, x));
    CongSymmetric(p1, Product1(f0, f1, g0, g1));
    Chain(H[2 * i], Eval(ReducePoly(h), 0, 2, 128, x), Eval(h, 0, 2, 128, x), Product0(f0, f1, g0, g1, x), p0);
    Chain(H[2 * i + 1], Eval(ReducePoly(h), 1, 2, 128, x), Eval(h, 1, 2, 128, x), Product1(f0, f1, g0, g1), p1);
  }

  lemma Chain(a: int, b: int, c: int, d: int, e: int)
    requires Cong(a, b) && Cong(b, c) && Cong(c, d) && Cong(d, e)
    ensures Cong(a, e)
  {
  }
}
