/** The in-place triple loops of the transforms, built from the modelled
    butterflies (tests/test_external_vectors.py:56-94). */
module NttLoops {
  import opened Numbers
  import opened Outcomes
  import opened ShiftAdd
  import opened Field
  import opened Twiddles
  import opened NttLayers
  import opened NttInverse

  /** fips203_zetas (tests/test_external_vectors.py:56-58). */
  method Fips203Zetas() returns (zetas: seq<int>)
    ensures |zetas| == 128
    ensures forall i :: 0 <= i < 128 ==> zetas[i] == Zeta(i)
  {
    hide Pow, BitRev;
    zetas := [];
    for i := 0 to 128
      invariant |zetas| == i
      invariant forall k :: 0 <= k < i ==> zetas[k] == Zeta(k)
    {
      var e := BitReverse(i, 7);
      zetas := zetas + [Pow(17, e) % 3329];
    }
  }

  lemma InsideBlock(l: nat, k: nat, start: nat, x: nat)
    requires l <= 7 && start == k * Pow2(8 - l) && start <= x < start + Pow2(8 - l)
    ensures BlockOf(l, x) == k && Offset(l, x) == x - start
  {
    Placed(l, x, k, x - start);
  }

  /** Block k of layer l is Len(l) pairs starting at start. */
  lemma PairInBlock(l: nat, k: nat, start: nat, j: nat)
    requires l <= 6 && k < Pow2(l) && start == k * Pow2(8 - l) && start <= j < start + Len(l)
    ensures j + Len(l) < 256 && Pair(l, j, j + Len(l), k)
  {
    BlockEnd(l, k, start);
    InsideBlock(l, k, start, j);
    InsideBlock(l, k, start, j + Len(l));
  }

  lemma BlocksBefore(n: int, blocks: int, k: int)
    requires 0 < n && 0 <= k < blocks && blocks * n == 256
    ensures (k + 1) * n == k * n + n <= 256
  {
    ProductAtLeast(n, blocks - (k + 1));
    assert n * (blocks - (k + 1)) == blocks * n - (k + 1) * n;
  }

  lemma BlockEnd(l: nat, k: nat, start: nat)
    requires l <= 6 && k < Pow2(l) && start == k * Pow2(8 - l)
    ensures Pow2(8 - l) == 2 * Len(l) && start + 2 * Len(l) <= 256
    ensures start + 2 * Len(l) == (k + 1) * Pow2(8 - l)
    ensures k + 1 == Pow2(l) ==> start + 2 * Len(l) == 256
  {
    Pow2Step(7 - l);
    Pow2Adds(l, 8 - l);
    Pow2Values();
    hide Pow2;
    var n := Pow2(8 - l);
    BlocksBefore(n, Pow2(l), k);
  }

  /** The inner loop of forward_ntt over one block. */
  method ForwardBlock(f: array<int>, start: nat, length: nat, zeta: int, ghost g: seq<int>, ghost l: nat, ghost k: nat)
    returns (ok: bool)
    requires f.Length == |g| == 256 && l <= 6 && k < Pow2(l)
    requires start == k * Pow2(8 - l) && length == Len(l) && zeta == Zeta(Pow2(l) + k)
    requires start + 2 * length <= 256
    requires forall x :: start <= x < start + 2 * length ==> f[x] == g[x]
    modifies f
    ensures ok <==> forall x :: start <= x < start + 2 * length ==> Reduced(g[x])
    ensures ok ==> forall x :: start <= x < start + 2 * length ==> f[x] == Forward(g, l)[x]
    ensures forall x :: 0 <= x < start || start + 2 * length <= x < 256 ==> f[x] == old(f[x])
  {
    hide Pow2, Len, Zeta, Forward, Pair, CtPair;
    for j := start to start + length
      invariant forall x :: start <= x < j || start + length <= x < j + length ==> Reduced(g[x]) && f[x] == Forward(g, l)[x]
      invariant forall x :: j <= x < start + length || j + length <= x < start + 2 * length ==> f[x] == g[x]
      invariant forall x :: 0 <= x < start || start + 2 * length <= x < 256 ==> f[x] == old(f[x])
    {
      var pair := CtButterfly(f[j], f[j + length], zeta, Q_MLKEM);
      if pair.Raised? {
        assert !Reduced(g[j]) || !Reduced(g[j + length]);
        return false;
      }
      KemModulusFits();
      PairInBlock(l, k, start, j);
      ForwardPair(g, l, j, j + length, k);
      KemPairs(g[j], g[j + length], zeta);
      f[j], f[j + length] := pair.value.0, pair.value.1;
    }
    return true;
  }

  lemma KemPairs(a: int, b: int, zeta: int)
    ensures CtPair(a, b, zeta, Q_MLKEM) == ((a + b * zeta) % 3329, (a - b * zeta) % 3329)
    ensures GsPair(a, b, zeta, Q_MLKEM) == ((a + b) % 3329, (a - b) * zeta % 3329)
  {
  }

  lemma KemModulusFits()
    ensures Q_MLKEM <= Pow2(24)
  {
    Pow2Values();
  }

  /** The middle loop of forward_ntt: one layer, twiddle index counting up. */
  method ForwardLayer(f: array<int>, zetas: seq<int>, i: nat, length: nat, ghost l: nat) returns (ok: bool, i': nat)
    requires f.Length == 256 && l <= 6 && length == Len(l) && i == Pow2(l)
    requires |zetas| == 128 && forall x :: 0 <= x < 128 ==> zetas[x] == Zeta(x)
    modifies f
    ensures ok <==> CanonicalPoly(old(f[..]))
    ensures ok ==> f[..] == Forward(old(f[..]), l) && i' == Pow2(l + 1)
  {
    hide Pow2, Len, Zeta, Forward;
    ghost var g := f[..];
    ghost var k := 0;
    var start := 0;
    i' := i;
    LayerShape(l);
    while start < 256
      invariant k <= Pow2(l) && start == k * Pow2(8 - l) && i' == Pow2(l) + k
      invariant start <= 256 && (k == Pow2(l) <==> start == 256)
      invariant forall x :: 0 <= x < start ==> Reduced(g[x]) && f[x] == Forward(g, l)[x]
      invariant forall x :: start <= x < 256 ==> f[x] == g[x]
      decreases 256 - start
    {
      BlocksBelow(l, k);
      BlockEnd(l, k, start);
      var zeta := zetas[i'];
      i' := i' + 1;
      ok := ForwardBlock(f, start, length, zeta, g, l, k);
      if !ok {
        return;
      }
      start := start + 2 * length;
      k := k + 1;
      LayerEnd(l, k, start);
    }
    Pow2Step(l);
    ok := true;
  }

  lemma LayerShape(l: nat)
    requires l <= 6
    ensures 0 < Len(l) && 0 < Pow2(l) && 0 * Pow2(8 - l) == 0
  {
  }

  lemma LayerEnd(l: nat, k: nat, start: nat)
    requires l <= 6 && k <= Pow2(l) && start == k * Pow2(8 - l)
    ensures k == Pow2(l) <==> start == 256
  {
    Pow2Adds(l, 8 - l);
    Pow2Values();
    hide Pow2;
    if k < Pow2(l) {
      BlockEnd(l, k, start);
    }
  }

  /** forward_ntt (tests/test_external_vectors.py:61-74). */
  method ForwardNtt(poly: seq<int>) returns (r: Result<seq<int>>)
    requires |poly| == 256
    ensures r.Ok? <==> CanonicalPoly(poly)
    ensures r.Ok? ==> r.value == Ntt(poly)
  {
    hide Pow2, Zeta, Forward;
    var f := new int[256](x requires 0 <= x < 256 => poly[x]);
    assert f[..] == poly;
    var zetas := Fips203Zetas();
    var i := 1;
    var length := 128;
    ghost var l := 0;
    LengthHalves(0);
    while length >= 2
      invariant 0 <= l <= 7 && length == Len(l) && i == Pow2(l)
      invariant l > 0 ==> CanonicalPoly(poly)
      invariant f[..] == ForwardTo(poly, l)
      decreases 7 - l
    {
      LengthHalves(l);
      var ok;
      ok, i := ForwardLayer(f, zetas, i, length, l);
      if !ok {
        return Raised;
      }
      l := l + 1;
      length := length / 2;
    }
    LengthHalves(l);
    return Ok(f[..]);
  }

  lemma LengthHalves(l: nat)
    requires l <= 7
    ensures Len(0) == 128 && Pow2(0) == 1
    ensures l < 7 ==> Len(l) / 2 == Len(l + 1)
    ensures Len(l) >= 2 <==> l < 7
  {
    Pow2Small();
    if l < 7 {
      Pow2Step(7 - l - 1);
      assert Pow2(7 - l) == 2 * Pow2(7 - (l + 1));
    } else {
      assert Pow2(7 - l) == 1;
    }
  }

  /** The inner loop of inverse_ntt over one block. */
  method BackwardBlock(f: array<int>, start: nat, length: nat, zeta: int, ghost g: seq<int>, ghost l: nat, ghost k: nat)
    returns (ok: bool)
    requires f.Length == |g| == 256 && l <= 6 && k < Pow2(l)
    requires start == k * Pow2(8 - l) && length == Len(l) && zeta == BackTwiddle(l, k)
    requires start + 2 * length <= 256
    requires forall x :: start <= x < start + 2 * length ==> f[x] == g[x]
    modifies f
    ensures ok <==> forall x :: start <= x < start + 2 * length ==> Reduced(g[x])
    ensures ok ==> forall x :: start <= x < start + 2 * length ==> f[x] == Backward(g, l)[x]
    ensures forall x :: 0 <= x < start || start + 2 * length <= x < 256 ==> f[x] == old(f[x])
  {
    hide Pow2, Len, Zeta, Backward, Pair, BackTwiddle, GsPair;
    for j := start to start + length
      invariant forall x :: start <= x < j || start + length <= x < j + length ==> Reduced(g[x]) && f[x] == Backward(g, l)[x]
      invariant forall x :: j <= x < start + length || j + length <= x < start + 2 * length ==> f[x] == g[x]
      invariant forall x :: 0 <= x < start || start + 2 * length <= x < 256 ==> f[x] == old(f[x])
    {
      var pair := GsButterfly(f[j], f[j + length], zeta, Q_MLKEM);
      if pair.Raised? {
        assert !Reduced(g[j]) || !Reduced(g[j + length]);
        return false;
      }
      KemModulusFits();
      PairInBlock(l, k, start, j);
      BackwardPair(g, l, j, j + length, k);
      KemPairs(g[j], g[j + length], zeta);
      f[j], f[j + length] := pair.value.0, pair.value.1;
    }
    return true;
  }

  /** The middle loop of inverse_ntt: one layer, twiddle index counting down. */
  method BackwardLayer(f: array<int>, zetas: seq<int>, i: int, length: nat, ghost l: nat) returns (ok: bool, i': int)
    requires f.Length == 256 && l <= 6 && length == Len(l) && i == Pow2(l + 1) - 1
    requires |zetas| == 128 && forall x :: 0 <= x < 128 ==> zetas[x] == Zeta(x)
    modifies f
    ensures ok <==> CanonicalPoly(old(f[..]))
    ensures ok ==> f[..] == Backward(old(f[..]), l) && i' == Pow2(l) - 1
  {
    hide Pow2, Len, Zeta, Backward;
    ghost var g := f[..];
    ghost var k := 0;
    var start := 0;
    i' := i;
    LayerShape(l);
    Pow2Step(l);
    while start < 256
      invariant k <= Pow2(l) && start == k * Pow2(8 - l) && i' == Pow2(l + 1) - 1 - k
      invariant start <= 256 && (k == Pow2(l) <==> start == 256)
      invariant forall x :: 0 <= x < start ==> Reduced(g[x]) && f[x] == Backward(g, l)[x]
      invariant forall x :: start <= x < 256 ==> f[x] == g[x]
      decreases 256 - start
    {
      BlocksBelow(l, Pow2(l) - 1 - k);
      BlockEnd(l, k, start);
      var zeta := (Q_MLKEM - zetas[i']) % Q_MLKEM;
      i' := i' - 1;
      ok := BackwardBlock(f, start, length, zeta, g, l, k);
      if !ok {
        return;
      }
      start := start + 2 * length;
      k := k + 1;
      LayerEnd(l, k, start);
    }
    ok := true;
  }

  /** inverse_ntt (tests/test_external_vectors.py:77-94). */
  method InverseNttInPlace(poly: seq<int>) returns (r: Result<seq<int>>)
    requires |poly| == 256
    ensures r.Ok? <==> CanonicalPoly(poly)
    ensures r.Ok? ==> r.value == InverseNtt(poly)
  {
    hide Pow2, Zeta, Backward;
    var f := new int[256](x requires 0 <= x < 256 => poly[x]);
    assert f[..] == poly;
    var zetas := Fips203Zetas();
    var i := 127;
    var length := 2;
    ghost var l := 7;
    LengthDoubles(7);
    Pow2Small();
    while length <= 128
      invariant 0 <= l <= 7 && i == Pow2(l) - 1 && length == (if l == 0 then 256 else Len(l - 1))
      invariant l < 7 ==> CanonicalPoly(poly)
      invariant f[..] == BackwardTo(poly, l)
      decreases l
    {
      LengthDoubles(l);
      var ok;
      ok, i := BackwardLayer(f, zetas, i, length, l - 1);
      if !ok {
        return Raised;
      }
      l := l - 1;
      length := 2 * length;
    }
    LengthDoubles(l);
    var out: seq<int> := [];
    for x := 0 to 256
      invariant |out| == x
      invariant forall y :: 0 <= y < x ==> out[y] == f[y] * INV_128 % 3329
      invariant f[..] == BackwardTo(poly, 0)
    {
      var v := ModMul(f[x], INV_128, Q_MLKEM);
      CanonicalAt(BackwardTo(poly, 0), x);
      Pow2Values();
      SmallMod(INV_128, Pow2(24));
      out := out + [v.value];
    }
    assert out == InverseNtt(poly);
    return Ok(out);
  }

  lemma CanonicalAt(f: seq<int>, x: nat)
    requires CanonicalPoly(f) && x < 256
    ensures Canonical(f[x], Q_MLKEM)
  {
    assert Reduced(f[x]);
  }

  lemma LengthDoubles(l: nat)
    requires l <= 7
    ensures Len(6) == 2
    ensures 0 < l ==> Len(l - 1) <= 128 && 2 * Len(l - 1) == if l == 1 then 256 else Len(l - 2)
  {
    assert Pow2(1) == 2;
    Pow2Small();
    if l > 1 {
      Pow2Step(7 - (l - 1));
      assert Pow2(7 - (l - 2)) == 2 * Pow2(7 - (l - 1));
      LenAtMost(l - 1);
    }
  }

  lemma LenAtMost(l: nat)
    requires l <= 7
    ensures Len(l) <= 128
  {
    Pow2Grows(7 - l, 7);
    Pow2Small();
  }
}
