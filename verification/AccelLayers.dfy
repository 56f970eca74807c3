/** The layers of the transform engine (rtl/lca_ntt_accel.sv:282-327) as maps on the 256
    words, and that the ML-KEM transforms built from them agree with section 4.3 of
    FIPS 203 modulo 3329 without ever wrapping. */
module AccelLayers {
  import opened Numbers
  import opened Field
  import opened Montgomery
  import opened Twiddles
  import opened KemTwiddles
  import opened NttLayers
  import opened NttInverse
  import opened Butterflies

  // ----- layers

  /** The table index of block k of layer l: counting up in a forward transform and
      down in an inverse one. */
  function TwiddleIndex(inverse: bool, l: nat, k: nat): (i: nat)
    requires l <= 7 && k < Pow2(l)
    ensures 0 < i < 256 && (l <= 6 ==> i < 128)
  {
    IndexFits(l, k);
    if inverse then Pow2(l + 1) - 1 - k else Pow2(l) + k
  }

  lemma IndexFits(l: nat, k: nat)
    requires l <= 7 && k < Pow2(l)
    ensures Pow2(l + 1) == 2 * Pow2(l) <= 256 && (l <= 6 ==> Pow2(l + 1) <= 128)
  {
    Pow2Step(l);
    Pow2Small();
    Pow2Step(7);
    Pow2Grows(l + 1, 8);
    if l <= 6 {
      Pow2Grows(l + 1, 7);
    }
  }

  function LayerZeta(command: nat, l: nat, k: nat): int
    requires l <= 7 && k < Pow2(l)
  {
    Twiddle(command, TwiddleIndex(Inverts(command), l, k))
  }

  function LayerAt(command: nat, m: seq<int>, l: nat, i: nat): int
    requires |m| == 256 && l <= 7 && i < 256
  {
    hide Pow2, Len, BlockOf, Offset, LayerZeta, ButterflyOutputs;
    Block(l, i);
    var zeta := LayerZeta(command, l, BlockOf(l, i));
    if Offset(l, i) < Len(l) then ButterflyOutputs(command, zeta, m[i], m[i + Len(l)]).0
    else ButterflyOutputs(command, zeta, m[i - Len(l)], m[i]).1
  }

  /** One layer of butterflies over the 256 words. */
  function Layer(command: nat, m: seq<int>, l: nat): (m': seq<int>)
    requires |m| == 256 && l <= 7
    ensures |m'| == 256
  {
    seq(256, i requires 0 <= i < 256 => LayerAt(command, m, l, i))
  }

  lemma LayerPair(command: nat, m: seq<int>, l: nat, i: nat, j: nat, k: nat)
    requires |m| == 256 && l <= 7 && Pair(l, i, j, k)
    ensures Layer(command, m, l)[i] == ButterflyOutputs(command, LayerZeta(command, l, k), m[i], m[j]).0
    ensures Layer(command, m, l)[j] == ButterflyOutputs(command, LayerZeta(command, l, k), m[i], m[j]).1
  {
    hide Pow2, Len, BlockOf, Offset, LayerZeta, ButterflyOutputs;
  }

  // ----- whole transforms

  /** The layer worked on in stage s. */
  function LayerOf(command: nat, s: nat): (l: nat)
    requires s < LayerCount(command)
    ensures l < LayerCount(command)
  {
    if Inverts(command) then LayerCount(command) - 1 - s else s
  }

  /** The memory after the first n stages. */
  function Stages(command: nat, m: seq<int>, n: nat): (m': seq<int>)
    requires |m| == 256 && n <= LayerCount(command)
    ensures |m'| == 256
    decreases n
  {
    if n == 0 then m else Layer(command, Stages(command, m, n - 1), LayerOf(command, n - 1))
  }

  function Scaled256(command: nat, m: seq<int>): (m': seq<int>)
    requires |m| == 256
    ensures |m'| == 256
  {
    seq(256, i requires 0 <= i < 256 => ScaledWord(command, m[i]))
  }

  // ----- layers against FIPS 203

  /** The words stay within the bound and represent f modulo 3329. */
  ghost predicate Tracks(m: seq<int>, f: seq<int>, bound: int) {
    |m| == |f| == 256 && forall i :: 0 <= i < 256 ==> Within(m[i], bound) && Cong(m[i], f[i])
  }

  lemma ForwardPairTracks(m: seq<int>, f: seq<int>, l: nat, i: nat, j: nat, k: nat, bound: int)
    requires l <= 6 && 0 <= bound <= 29439 && Tracks(m, f, bound) && Pair(l, i, j, k)
    ensures var m', f' := Layer(MLKEM_NTT, m, l), Forward(f, l);
            && Within(m'[i], bound + 3328) && Cong(m'[i], f'[i])
            && Within(m'[j], bound + 3328) && Cong(m'[j], f'[j])
  {
    hide Cong, Zeta, KemZeta, Pow2, Layer, Forward, CtOutputs, Len;
    var z, zeta := Zeta(Pow2(l) + k), LayerZeta(MLKEM_NTT, l, k);
    LayerPair(MLKEM_NTT, m, l, i, j, k);
    ForwardPair(f, l, i, j, k);
    BlocksBelow(l, k);
    TableIsMontgomery(Pow2(l) + k);
    KemZetaSmall(Pow2(l) + k);
    CtIsExact(zeta, z, m[i], m[j], bound);
    CongReflexive(z);
    CongMul(m[j], f[j], z, z);
    CongAdd(m[i], f[i], m[j] * z, f[j] * z);
    CongSub(m[i], f[i], m[j] * z, f[j] * z);
    var out := CtOutputs(zeta, m[i], m[j]);
    TracksReduced(out.0, m[i] + m[j] * z, f[i] + f[j] * z);
    TracksReduced(out.1, m[i] - m[j] * z, f[i] - f[j] * z);
  }

  lemma TracksReduced(x: int, y: int, z: int)
    requires Cong(x, y) && Cong(y, z)
    ensures Cong(x, z % 3329)
  {
    hide Cong;
    CongMod(z);
    CongSymmetric(z % 3329, z);
    CongTransitive(x, y, z);
    CongTransitive(x, z, z % 3329);
  }

  lemma BackwardPairTracks(m: seq<int>, f: seq<int>, l: nat, i: nat, j: nat, k: nat, bound: int)
    requires l <= 6 && 0 <= bound <= 16383 && Tracks(m, f, bound) && Pair(l, i, j, k)
    ensures var m', f' := Layer(MLKEM_INTT, m, l), Backward(f, l);
            && Within(m'[i], 3328) && Cong(m'[i], f'[i])
            && Within(m'[j], 3328) && Cong(m'[j], f'[j])
  {
    hide Cong, Zeta, KemZeta, Pow2, Layer, Backward, GsOutputs, Len;
    var index := TwiddleIndex(true, l, k);
    var z, zeta := Zeta(index), LayerZeta(MLKEM_INTT, l, k);
    LayerPair(MLKEM_INTT, m, l, i, j, k);
    BackwardPair(f, l, i, j, k);
    TableIsMontgomery(index);
    KemZetaSmall(index);
    GsIsExact(zeta, z, m[i], m[j], bound);
    CongAdd(m[i], f[i], m[j], f[j]);
    CongSub(m[i], f[i], m[j], f[j]);
    var w := BackTwiddle(l, k);
    NegatedResidue(z);
    NegatedTwiddle(m[i] - m[j], f[i] - f[j], z, w);
    assert (m[j] - m[i]) * z == -((m[i] - m[j]) * z);
    var out := GsOutputs(zeta, m[i], m[j]);
    TracksReduced(out.0, m[i] + m[j], f[i] + f[j]);
    TracksReduced(out.1, (m[j] - m[i]) * z, (f[i] - f[j]) * w);
  }

  lemma NegatedTwiddle(x: int, y: int, z: int, w: int)
    requires Cong(x, y) && Cong(w, -z)
    ensures Cong(-(x * z), y * w)
  {
    hide Cong;
    CongSymmetric(w, -z);
    CongMul(x, y, -z, w);
    assert x * -z == -(x * z);
  }

  /** A forward layer of the hardware represents a forward layer of FIPS 203, its words
      growing by at most 3328. */
  lemma ForwardTracks(m: seq<int>, f: seq<int>, l: nat, bound: int)
    requires l <= 6 && 0 <= bound <= 29439 && Tracks(m, f, bound)
    ensures Tracks(Layer(MLKEM_NTT, m, l), Forward(f, l), bound + 3328)
  {
    hide Cong, Pow2, Layer, Forward, Len, Pair;
    forall i | 0 <= i < 256
      ensures Within(Layer(MLKEM_NTT, m, l)[i], bound + 3328) && Cong(Layer(MLKEM_NTT, m, l)[i], Forward(f, l)[i])
    {
      if Offset(l, i) < Len(l) {
        PairFromLow(l, i);
        ForwardPairTracks(m, f, l, i, i + Len(l), BlockOf(l, i), bound);
      } else {
        PairFromHigh(l, i);
        ForwardPairTracks(m, f, l, i - Len(l), i, BlockOf(l, i), bound);
      }
    }
  }

  /** An inverse layer of the hardware brings its words back below 3329. */
  lemma BackwardTracks(m: seq<int>, f: seq<int>, l: nat, bound: int)
    requires l <= 6 && 0 <= bound <= 16383 && Tracks(m, f, bound)
    ensures Tracks(Layer(MLKEM_INTT, m, l), Backward(f, l), 3328)
  {
    hide Cong, Pow2, Layer, Backward, Len, Pair;
    forall i | 0 <= i < 256
      ensures Within(Layer(MLKEM_INTT, m, l)[i], 3328) && Cong(Layer(MLKEM_INTT, m, l)[i], Backward(f, l)[i])
    {
      if Offset(l, i) < Len(l) {
        PairFromLow(l, i);
        BackwardPairTracks(m, f, l, i, i + Len(l), BlockOf(l, i), bound);
      } else {
        PairFromHigh(l, i);
        BackwardPairTracks(m, f, l, i - Len(l), i, BlockOf(l, i), bound);
      }
    }
  }

  lemma {:induction false} ForwardStages(m: seq<int>, n: nat)
    requires |m| == 256 && n <= 7 && forall i :: 0 <= i < 256 ==> Within(m[i], 9471)
    ensures Tracks(Stages(MLKEM_NTT, m, n), ForwardTo(m, n), 9471 + 3328 * n)
    decreases n
  {
    hide Cong, Layer, Forward;
    if n == 0 {
      forall i | 0 <= i < 256
        ensures Cong(m[i], m[i])
      {
        CongReflexive(m[i]);
      }
    } else {
      ForwardStages(m, n - 1);
      ForwardTracks(Stages(MLKEM_NTT, m, n - 1), ForwardTo(m, n - 1), n - 1, 9471 + 3328 * (n - 1));
    }
  }

  lemma {:induction false} InverseStages(m: seq<int>, n: nat)
    requires |m| == 256 && n <= 7 && forall i :: 0 <= i < 256 ==> Within(m[i], 16383)
    ensures Tracks(Stages(MLKEM_INTT, m, n), BackwardTo(m, 7 - n), if n == 0 then 16383 else 3328)
    decreases n
  {
    hide Cong, Layer, Backward;
    if n == 0 {
      forall i | 0 <= i < 256
        ensures Cong(m[i], m[i])
      {
        CongReflexive(m[i]);
      }
    } else {
      InverseStages(m, n - 1);
      BackwardTracks(Stages(MLKEM_INTT, m, n - 1), BackwardTo(m, 8 - n), 7 - n, if n == 1 then 16383 else 3328);
    }
  }

  /** The hardware's forward transform is the transform of section 4.3 of FIPS 203 modulo
      3329 for every input up to 9471 in magnitude, and no word ever wraps. */
  lemma ForwardIsNtt(m: seq<int>)
    requires |m| == 256 && forall i :: 0 <= i < 256 ==> Within(m[i], 9471)
    ensures Tracks(Stages(MLKEM_NTT, m, 7), Ntt(m), 32767)
  {
    ForwardStages(m, 7);
  }

  /** Its inverse transform is the inverse times 2^16, the Montgomery domain, for every
      input up to 16383. */
  lemma InverseIsMontgomeryNtt(m: seq<int>, i: nat)
    requires |m| == 256 && i < 256 && forall i :: 0 <= i < 256 ==> Within(m[i], 16383)
    ensures var out := Scaled256(MLKEM_INTT, Stages(MLKEM_INTT, m, 7))[i];
            Within(out, 3328) && Cong(out, InverseNtt(m)[i] * 65536)
  {
    hide Cong, BackwardTo, Stages, ScaleOutput;
    InverseStages(m, 7);
    var y, x := Stages(MLKEM_INTT, m, 7)[i], BackwardTo(m, 0)[i];
    ScaleIsExact(y);
    CongScale(INV_128, y, x);
    assert INV_128 * y == y * INV_128 && INV_128 * x == x * INV_128;
    CongMod(x * INV_128);
    CongSymmetric(x * INV_128 % 3329, x * INV_128);
    CongTransitive(y * INV_128, x * INV_128, x * INV_128 % 3329);
    CongReflexive(65536);
    CongMul(y * INV_128, x * INV_128 % 3329, 65536, 65536);
    CongTransitive(ScaleOutput(y), y * INV_128 * 65536, x * INV_128 % 3329 * 65536);
  }
}
