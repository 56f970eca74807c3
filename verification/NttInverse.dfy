/** The forward and inverse transforms undo each other on canonical polynomials. */
module NttInverse {
  import opened Numbers
  import opened Field
  import opened Twiddles
  import opened NttLayers

  /** y is c times x, coefficient by coefficient, in the field. */
  ghost predicate Scaled(y: seq<int>, c: int, x: seq<int>) {
    |y| == |x| == 256 && forall i :: 0 <= i < 256 ==> Cong(y[i], c * x[i])
  }

  // ----- butterflies undo each other up to a factor 2

  lemma CongScale(c: int, a: int, b: int)
    requires Cong(a, b)
    ensures Cong(c * a, c * b)
  {
    CongReflexive(c);
    CongMul(c, c, a, b);
  }

  lemma GsUndoesCt(u: int, v: int, c: int, a: int, b: int, z: int, w: int)
    requires Cong(u, c * (a + b * z)) && Cong(v, c * (a - b * z)) && Cong(z * w, 1)
    ensures Cong(u + v, 2 * c * a)
    ensures Cong((u - v) * w, 2 * c * b)
  {
    hide Cong;
    CongAdd(u, c * (a + b * z), v, c * (a - b * z));
    assert c * (a + b * z) + c * (a - b * z) == 2 * c * a by {
      assert c * (a + b * z) == c * a + c * (b * z);
      assert c * (a - b * z) == c * a - c * (b * z);
    }
    CongSub(u, c * (a + b * z), v, c * (a - b * z));
    assert c * (a + b * z) - c * (a - b * z) == 2 * c * b * z by {
      assert c * (a + b * z) == c * a + c * b * z;
      assert c * (a - b * z) == c * a - c * b * z;
    }
    CongReflexive(w);
    CongMul(u - v, 2 * c * b * z, w, w);
    assert 2 * c * b * z * w == (2 * c * b) * (z * w);
    CongScale(2 * c * b, z * w, 1);
    CongTransitive((u - v) * w, (2 * c * b) * (z * w), 2 * c * b);
  }

  lemma CtUndoesGs(u: int, v: int, c: int, a: int, b: int, z: int, w: int)
    requires Cong(u, c * (a + b)) && Cong(v, c * ((a - b) * w)) && Cong(z * w, 1)
    ensures Cong(u + v * z, 2 * c * a)
    ensures Cong(u - v * z, 2 * c * b)
  {
    hide Cong;
    var d := c * (a - b);
    assert c * ((a - b) * w) == d * w;
    CongReflexive(z);
    CongMul(v, d * w, z, z);
    assert d * w * z == d * (z * w);
    CongScale(d, z * w, 1);
    CongTransitive(v * z, d * (z * w), d);
    CongAdd(u, c * (a + b), v * z, d);
    CongSub(u, c * (a + b), v * z, d);
    assert c * (a + b) + d == 2 * c * a by {
      assert c * (a + b) == c * a + c * b && d == c * a - c * b;
    }
    assert c * (a + b) - d == 2 * c * b by {
      assert c * (a + b) == c * a + c * b && d == c * a - c * b;
    }
  }

  // ----- where the outputs of an inverse butterfly land

  lemma BackwardAtLow(g: seq<int>, l: nat, i: nat)
    requires |g| == 256 && l <= 6 && i < 256 && Offset(l, i) < Len(l)
    ensures i + Len(l) < 256
    ensures BackwardAt(g, l, i) == (g[i] + g[i + Len(l)]) % 3329
  {
    hide Zeta, Pow2, Len, BackTwiddle, BlockOf, Offset;
    Block(l, i);
  }

  lemma BackwardAtHigh(g: seq<int>, l: nat, i: nat)
    requires |g| == 256 && l <= 6 && i < 256 && Offset(l, i) >= Len(l)
    ensures i - Len(l) >= 0 && BlockOf(l, i) < Pow2(l)
    ensures BackwardAt(g, l, i) == (g[i - Len(l)] - g[i]) * BackTwiddle(l, BlockOf(l, i)) % 3329
  {
    hide Zeta, Pow2, Len, BackTwiddle, BlockOf, Offset;
    Block(l, i);
  }

  /** A pair of butterfly positions, half a block apart, in the same block k. */
  ghost predicate Pair(l: nat, i: nat, j: nat, k: nat)
    requires l <= 7
  {
    && i < j < 256 && j == i + Len(l) && k < Pow2(l)
    && BlockOf(l, i) == k && BlockOf(l, j) == k
    && Offset(l, i) < Len(l) && Offset(l, j) >= Len(l)
  }

  lemma PairFromLow(l: nat, i: nat)
    requires l <= 7 && i < 256 && Offset(l, i) < Len(l)
    ensures Pair(l, i, i + Len(l), BlockOf(l, i))
  {
    hide Pow2, BlockOf, Offset;
    Block(l, i);
    PartnerBlock(l, i);
  }

  lemma PairFromHigh(l: nat, j: nat)
    requires l <= 7 && j < 256 && Offset(l, j) >= Len(l)
    ensures j >= Len(l) && Pair(l, j - Len(l), j, BlockOf(l, j))
  {
    hide Pow2, BlockOf, Offset;
    Block(l, j);
    PartnerBelow(l, j);
  }

  lemma ForwardPair(g: seq<int>, l: nat, i: nat, j: nat, k: nat)
    requires |g| == 256 && l <= 6 && Pair(l, i, j, k)
    ensures Forward(g, l)[i] == (g[i] + g[j] * Zeta(Pow2(l) + k)) % 3329
    ensures Forward(g, l)[j] == (g[i] - g[j] * Zeta(Pow2(l) + k)) % 3329
  {
    hide Zeta, Pow2, Len, ForwardAt;
    ForwardAtLow(g, l, i);
    ForwardAtHigh(g, l, j);
  }

  lemma BackwardPair(g: seq<int>, l: nat, i: nat, j: nat, k: nat)
    requires |g| == 256 && l <= 6 && Pair(l, i, j, k)
    ensures Backward(g, l)[i] == (g[i] + g[j]) % 3329
    ensures Backward(g, l)[j] == (g[i] - g[j]) * BackTwiddle(l, k) % 3329
  {
    hide Zeta, Pow2, Len, BackwardAt, BackTwiddle;
    BackwardAtLow(g, l, i);
    BackwardAtHigh(g, l, j);
  }

  lemma TwiddlesCancel(l: nat, k: nat)
    requires l <= 6 && k < Pow2(l)
    ensures Cong(Zeta(Pow2(l) + k) * BackTwiddle(l, k), 1)
  {
    hide Zeta, Pow2, Cong;
    MirroredZetas(l, k);
  }

  lemma ScaledReduced(y: int, c: int, x: int)
    requires Cong(y, c * (x % 3329))
    ensures Cong(y, c * x)
  {
    hide Cong;
    CongMod(x);
    CongScale(c, x % 3329, x);
    CongTransitive(y, c * (x % 3329), c * x);
  }

  /** Prove a property of a layer's result pair by pair. */
  lemma BackwardUndoesPair(y: seq<int>, c: int, x: seq<int>, l: nat, i: nat, j: nat, k: nat)
    requires l <= 6 && |x| == 256 && Scaled(y, c, Forward(x, l)) && Pair(l, i, j, k)
    ensures Cong(Backward(y, l)[i], 2 * c * x[i])
    ensures Cong(Backward(y, l)[j], 2 * c * x[j])
  {
    hide Cong, Zeta, Pow2, Forward, Backward, BackTwiddle, Len;
    var z, w := Zeta(Pow2(l) + k), BackTwiddle(l, k);
    ForwardPair(x, l, i, j, k);
    BackwardPair(y, l, i, j, k);
    TwiddlesCancel(l, k);
    ScaledReduced(y[i], c, x[i] + x[j] * z);
    ScaledReduced(y[j], c, x[i] - x[j] * z);
    GsUndoesCt(y[i], y[j], c, x[i], x[j], z, w);
    ReducedCong(y[i] + y[j], 2 * c * x[i]);
    ReducedCong((y[i] - y[j]) * w, 2 * c * x[j]);
  }

  /** Inverse layer l undoes forward layer l, up to a factor 2. */
  lemma BackwardUndoes(y: seq<int>, c: int, x: seq<int>, l: nat)
    requires l <= 6 && |x| == 256 && Scaled(y, c, Forward(x, l))
    ensures Scaled(Backward(y, l), 2 * c, x)
  {
    hide Cong, Pow2, Forward, Backward, Len, Pair;
    forall i | 0 <= i < 256
      ensures Cong(Backward(y, l)[i], 2 * c * x[i])
    {
      if Offset(l, i) < Len(l) {
        PairFromLow(l, i);
        BackwardUndoesPair(y, c, x, l, i, i + Len(l), BlockOf(l, i));
      } else {
        PairFromHigh(l, i);
        BackwardUndoesPair(y, c, x, l, i - Len(l), i, BlockOf(l, i));
      }
    }
  }

  lemma ForwardUndoesPair(y: seq<int>, c: int, x: seq<int>, l: nat, i: nat, j: nat, k: nat)
    requires l <= 6 && |x| == 256 && Scaled(y, c, Backward(x, l)) && Pair(l, i, j, k)
    ensures Cong(Forward(y, l)[i], 2 * c * x[i])
    ensures Cong(Forward(y, l)[j], 2 * c * x[j])
  {
    hide Cong, Zeta, Pow2, Forward, Backward, BackTwiddle, Len;
    var z, w := Zeta(Pow2(l) + k), BackTwiddle(l, k);
    ForwardPair(y, l, i, j, k);
    BackwardPair(x, l, i, j, k);
    TwiddlesCancel(l, k);
    ScaledReduced(y[i], c, x[i] + x[j]);
    ScaledReduced(y[j], c, (x[i] - x[j]) * w);
    CtUndoesGs(y[i], y[j], c, x[i], x[j], z, w);
    ReducedCong(y[i] + y[j] * z, 2 * c * x[i]);
    ReducedCong(y[i] - y[j] * z, 2 * c * x[j]);
  }

  /** Forward layer l undoes inverse layer l, up to a factor 2. */
  lemma ForwardUndoes(y: seq<int>, c: int, x: seq<int>, l: nat)
    requires l <= 6 && |x| == 256 && Scaled(y, c, Backward(x, l))
    ensures Scaled(Forward(y, l), 2 * c, x)
  {
    hide Cong, Pow2, Forward, Backward, Len, Pair;
    forall i | 0 <= i < 256
      ensures Cong(Forward(y, l)[i], 2 * c * x[i])
    {
      if Offset(l, i) < Len(l) {
        PairFromLow(l, i);
        ForwardUndoesPair(y, c, x, l, i, i + Len(l), BlockOf(l, i));
      } else {
        PairFromHigh(l, i);
        ForwardUndoesPair(y, c, x, l, i - Len(l), i, BlockOf(l, i));
      }
    }
  }

  // ----- whole transforms

  lemma {:induction false} BackwardToUndoes(f: seq<int>, n: nat)
    requires |f| == 256 && n <= 7
    ensures Scaled(BackwardTo(Ntt(f), n), Pow2(7 - n), ForwardTo(f, n))
    decreases 7 - n
  {
    hide Cong, Forward, Backward;
    if n == 7 {
      assert Pow2(0) == 1;
      forall i | 0 <= i < 256
        ensures Cong(Ntt(f)[i], 1 * Ntt(f)[i])
      {
        CongReflexive(Ntt(f)[i]);
      }
    } else {
      BackwardToUndoes(f, n + 1);
      Pow2Step(7 - n - 1);
      BackwardUndoes(BackwardTo(Ntt(f), n + 1), Pow2(7 - n - 1), ForwardTo(f, n), n);
    }
  }

  /** inverse_ntt(forward_ntt(f)) = f for every canonical polynomial. */
  lemma InverseOfForward(f: seq<int>)
    requires CanonicalPoly(f)
    ensures InverseNtt(Ntt(f)) == f
  {
    hide Cong, Backward, Forward, ForwardTo, BackwardTo;
    BackwardToUndoes(f, 0);
    var y := BackwardTo(Ntt(f), 0);
    ForwardToNothing(f);
    Pow2Small();
    forall i | 0 <= i < 256
      ensures InverseNtt(Ntt(f))[i] == f[i]
    {
      DividedBy128(y[i], f[i]);
    }
  }

  lemma ForwardToNothing(f: seq<int>)
    requires |f| == 256
    ensures ForwardTo(f, 0) == f
  {
  }

  lemma DividedBy128(y: int, x: int)
    requires Cong(y, 128 * x) && Reduced(x)
    ensures y * INV_128 % 3329 == x
  {
    var k := CongMultiple(y, 128 * x);
    assert y * 3303 == 3329 * (127 * x + 3303 * k) + x;
    ModUniqueInt(y * 3303, 3329, 127 * x + 3303 * k, x);
  }

  lemma {:induction false} ForwardToUndoes(h: seq<int>, g: seq<int>, c: int, n: nat)
    requires |g| == 256 && n <= 7 && Scaled(h, c, BackwardTo(g, 0))
    ensures Scaled(ForwardTo(h, n), Pow2(n) * c, BackwardTo(g, n))
    decreases n
  {
    hide Cong, Forward, Backward;
    if n == 0 {
      assert Pow2(0) == 1;
    } else {
      ForwardToUndoes(h, g, c, n - 1);
      Pow2Step(n - 1);
      assert 2 * (Pow2(n - 1) * c) == Pow2(n) * c;
      ForwardUndoes(ForwardTo(h, n - 1), Pow2(n - 1) * c, BackwardTo(g, n), n - 1);
    }
  }

  /** forward_ntt(inverse_ntt(g)) = g for every canonical polynomial. */
  lemma ForwardOfInverse(g: seq<int>)
    requires CanonicalPoly(g)
    ensures Ntt(InverseNtt(g)) == g
  {
    hide Cong, Backward, Forward, ForwardTo, BackwardTo;
    var y := BackwardTo(g, 0);
    var h := InverseNtt(g);
    forall i | 0 <= i < 256
      ensures Cong(h[i], 3303 * y[i])
    {
      CongMod(y[i] * 3303);
    }
    ForwardToUndoes(h, g, 3303, 7);
    Pow2Small();
    BackwardToNothing(g);
    forall i | 0 <= i < 256
      ensures Ntt(h)[i] == g[i]
    {
      OneTimes(Ntt(h)[i], g[i]);
    }
  }

  lemma BackwardToNothing(g: seq<int>)
    requires |g| == 256
    ensures BackwardTo(g, 7) == g
  {
  }

  lemma OneTimes(y: int, x: int)
    requires Cong(y, 128 * 3303 * x) && Reduced(y) && Reduced(x)
    ensures y == x
  {
    hide Cong;
    CongByMultiple(128 * 3303 * x, x, 127 * x);
    CongTransitive(y, 128 * 3303 * x, x);
    CongEqual(y, x);
  }

  // ----- the inverse transform is linear

  lemma BackwardScalesPair(y: seq<int>, c: int, x: seq<int>, l: nat, i: nat, j: nat, k: nat)
    requires l <= 6 && Scaled(y, c, x) && Pair(l, i, j, k)
    ensures Cong(Backward(y, l)[i], c * Backward(x, l)[i])
    ensures Cong(Backward(y, l)[j], c * Backward(x, l)[j])
  {
    hide Cong, Zeta, Pow2, Backward, BackTwiddle, Len;
    var w := BackTwiddle(l, k);
    BackwardPair(y, l, i, j, k);
    BackwardPair(x, l, i, j, k);
    CongAdd(y[i], c * x[i], y[j], c * x[j]);
    assert c * x[i] + c * x[j] == c * (x[i] + x[j]);
    ScaleThroughMod(y[i] + y[j], c, x[i] + x[j]);
    CongSub(y[i], c * x[i], y[j], c * x[j]);
    CongReflexive(w);
    CongMul(y[i] - y[j], c * x[i] - c * x[j], w, w);
    assert (c * x[i] - c * x[j]) * w == c * ((x[i] - x[j]) * w) by {
      assert c * x[i] - c * x[j] == c * (x[i] - x[j]);
    }
    ScaleThroughMod((y[i] - y[j]) * w, c, (x[i] - x[j]) * w);
  }

  lemma ScaleThroughMod(y: int, c: int, x: int)
    requires Cong(y, c * x)
    ensures Cong(y % 3329, c * (x % 3329))
  {
    hide Cong;
    CongMod(y);
    CongMod(x);
    CongScale(c, x % 3329, x);
    CongSymmetric(c * (x % 3329), c * x);
    CongTransitive(y % 3329, y, c * x);
    CongTransitive(y % 3329, c * x, c * (x % 3329));
  }

  lemma {:induction false} BackwardToScales(y: seq<int>, c: int, x: seq<int>, n: nat)
    requires n <= 7 && Scaled(y, c, x)
    ensures Scaled(BackwardTo(y, n), c, BackwardTo(x, n))
    decreases 7 - n
  {
    hide Cong, Pow2, Backward, Len, Pair;
    if n < 7 {
      BackwardToScales(y, c, x, n + 1);
      var y', x' := BackwardTo(y, n + 1), BackwardTo(x, n + 1);
      forall i | 0 <= i < 256
        ensures Cong(Backward(y', n)[i], c * Backward(x', n)[i])
      {
        if Offset(n, i) < Len(n) {
          PairFromLow(n, i);
          BackwardScalesPair(y', c, x', n, i, i + Len(n), BlockOf(n, i));
        } else {
          PairFromHigh(n, i);
          BackwardScalesPair(y', c, x', n, i - Len(n), i, BlockOf(n, i));
        }
      }
    }
  }

  /** A constant factor passes through the inverse transform. */
  lemma InverseScales(y: seq<int>, c: int, x: seq<int>)
    requires Scaled(y, c, x)
    ensures Scaled(InverseNtt(y), c, InverseNtt(x))
  {
    hide Cong, BackwardTo;
    BackwardToScales(y, c, x, 0);
    var y', x' := BackwardTo(y, 0), BackwardTo(x, 0);
    forall i | 0 <= i < 256
      ensures Cong(InverseNtt(y)[i], c * InverseNtt(x)[i])
    {
      CongScale(INV_128, y'[i], c * x'[i]);
      assert INV_128 * y'[i] == y'[i] * INV_128;
      assert INV_128 * (c * x'[i]) == c * (x'[i] * INV_128);
      ScaleThroughMod(y'[i] * INV_128, c, x'[i] * INV_128);
    }
  }
}
