/** The twiddle factors of FIPS 203 in bit-reversed order
    (tests/test_external_vectors.py:44-58). */
module Twiddles {
  import opened Numbers
  import opened Field

  /** What the lowest bit of value contributes when it is moved up by n places. */
  function MovedBit(value: nat, n: nat): nat {
    if value % 2 == 1 then Pow2(n) else 0
  }

  /** The low bits of value in reverse order. */
  function BitRev(value: nat, bits: nat): (r: nat)
    decreases bits
  {
    if bits == 0 then 0 else MovedBit(value, bits - 1) + BitRev(value / 2, bits - 1)
  }

  /** bit_reverse (tests/test_external_vectors.py:44-49). */
  method BitReverse(value: nat, bits: nat) returns (result: nat)
    ensures result == BitRev(value, bits)
  {
    hide BitRev, MovedBit, Pow2;
    result := 0;
    var v: nat := value;
    ReverseNothing(value, bits);
    for i := 0 to bits
      invariant result * Pow2(bits - i) + BitRev(v, bits - i) == BitRev(value, bits)
    {
      ReverseOne(result, v, bits - i - 1);
      result := 2 * result + v % 2;
      v := v / 2;
    }
    ReverseNothing(v, 0);
  }

  lemma ReverseNothing(value: nat, bits: nat)
    ensures 0 * Pow2(bits) == 0 && BitRev(value, 0) == 0 && Pow2(0) == 1
  {
  }

  lemma ReverseOne(result: nat, v: nat, n: nat)
    ensures result * Pow2(n + 1) + BitRev(v, n + 1) == (2 * result + v % 2) * Pow2(n) + BitRev(v / 2, n)
  {
    var p := Pow2(n);
    Pow2Step(n);
    ShiftIn(result, p, v % 2);
  }

  lemma ShiftIn(r: int, p: int, d: int)
    ensures (2 * r + d) * p == r * (2 * p) + d * p
    ensures (d == 0 ==> d * p == 0) && (d == 1 ==> d * p == p)
  {
  }

  lemma {:induction false} BitRevBelow(value: nat, bits: nat)
    ensures BitRev(value, bits) < Pow2(bits)
    decreases bits
  {
    if bits > 0 {
      BitRevBelow(value / 2, bits - 1);
      Pow2Step(bits - 1);
    }
  }

  /** One more zero on top of the value is one more zero at the bottom of its reversal. */
  lemma {:induction false} BitRevWider(value: nat, bits: nat)
    requires value < Pow2(bits)
    ensures BitRev(value, bits + 1) == 2 * BitRev(value, bits)
    decreases bits
  {
    if bits == 0 {
      ReverseNothing(value, 0);
      ReverseNothing(value / 2, 0);
    } else {
      Pow2Step(bits - 1);
      BitRevWider(value / 2, bits - 1);
      hide Pow2;
      BitRevUnfolds(value, bits);
      BitRevUnfolds(value, bits - 1);
      hide BitRev;
      Pow2Step(bits - 1);
    }
  }

  lemma BitRevUnfolds(value: nat, n: nat)
    ensures BitRev(value, n + 1) == MovedBit(value, n) + BitRev(value / 2, n)
  {
  }

  /** A bit on top of the value is a bit at the bottom of its reversal. */
  lemma {:induction false} BitRevAppend(value: nat, bits: nat)
    requires value < Pow2(bits)
    ensures BitRev(value + Pow2(bits), bits + 1) == 2 * BitRev(value, bits) + 1
    decreases bits
  {
    var x := value + Pow2(bits);
    BitRevUnfolds(x, bits);
    if bits == 0 {
      ReverseNothing(value, 0);
      ReverseNothing(x / 2, 0);
    } else {
      Pow2Step(bits - 1);
      BitRevAppend(value / 2, bits - 1);
      BitRevUnfolds(value, bits - 1);
      hide BitRev, Pow2;
      assert x % 2 == value % 2 && x / 2 == value / 2 + Pow2(bits - 1);
    }
  }

  /** Reversing again restores the value. */
  lemma {:induction false} BitRevInvolution(value: nat, bits: nat)
    requires value < Pow2(bits)
    ensures BitRev(BitRev(value, bits), bits) == value
    decreases bits
  {
    if bits > 0 {
      var rest := BitRev(value / 2, bits - 1);
      BitRevInvolution(value / 2, bits - 1);
      BitRevBelow(value / 2, bits - 1);
      if value % 2 == 1 {
        BitRevAppend(rest, bits - 1);
      } else {
        BitRevWider(rest, bits - 1);
      }
    }
  }

  /** Doubling an index and adding a bit halves the reversed exponent and puts the
      bit on top: the recurrence behind every layer of a transform. */
  lemma BitRevChild(v: nat, b: nat, n: nat)
    requires 0 < n && v < Pow2(n - 1) && b < 2
    ensures 2 * BitRev(2 * v + b, n) == Pow2(n) * b + BitRev(v, n)
  {
    Pow2Step(n - 1);
    BitRevWider(v, n - 1);
    BitRevUnfolds(2 * v + b, n - 1);
    hide BitRev, Pow2;
    assert (2 * v + b) % 2 == b && (2 * v + b) / 2 == v;
    assert b == 0 || b == 1;
  }

  lemma Pow2Small()
    ensures Pow2(6) == 64 && Pow2(7) == 128
  {
    assert Pow2(3) == 8;
    assert Pow2(6) == 8 * Pow2(3);
  }

  lemma PowersOfTwo()
    ensures Pow2(0) == 1 && Pow2(1) == 2 && Pow2(2) == 4 && Pow2(3) == 8
    ensures Pow2(4) == 16 && Pow2(5) == 32 && Pow2(6) == 64
  {
    Pow2Small();
    assert Pow2(1) == 2 && Pow2(2) == 4 && Pow2(3) == 8 && Pow2(4) == 16 && Pow2(5) == 32;
  }

  /** A bit on top of the index adds a fixed amount to its reversal. */
  lemma {:induction false} BitRevTop(v: nat, j: nat, bits: nat)
    requires v < Pow2(j) && j < bits
    ensures BitRev(v + Pow2(j), bits) == BitRev(v, bits) + Pow2(bits - 1 - j)
    decreases j
  {
    var x := v + Pow2(j);
    BitRevUnfolds(x, bits - 1);
    BitRevUnfolds(v, bits - 1);
    if j == 0 {
      Pow2Zero();
      hide BitRev, Pow2;
      assert v == 0 && x == 1 && x / 2 == 0;
    } else {
      Pow2Step(j - 1);
      BitRevTop(v / 2, j - 1, bits - 1);
      hide BitRev, Pow2;
      assert x % 2 == v % 2 && x / 2 == v / 2 + Pow2(j - 1);
    }
  }

  /** zetas[i] of fips203_zetas (tests/test_external_vectors.py:56-58). */
  function Zeta(i: nat): (z: int)
    ensures Reduced(z)
  {
    Pow(17, BitRev(i, 7)) % 3329
  }

  /** The exponent block k of layer l is split with, in a transform of n layers over a
      2^(n+1)-th root of unity; layer l has 2^l blocks. */
  function Exponent(n: nat, l: nat, k: nat): nat {
    BitRev(Pow2(l) + k, n)
  }

  /** The exponent e of the modulus X^m - root^e of block k after l layers. */
  function RootExponent(n: nat, l: nat, k: nat): (e: nat)
  {
    if l == 0 then Pow2(n) else Exponent(n, l - 1, k / 2) + (if k % 2 == 1 then Pow2(n) else 0)
  }

  lemma BlocksBelow(l: nat, k: nat)
    requires l <= 6 && k < Pow2(l)
    ensures Pow2(l) + k < 128
    ensures l < 6 ==> Pow2(l) + k < 64
  {
    assert Pow2(1) == 2 && Pow2(2) == 4 && Pow2(3) == 8 && Pow2(4) == 16 && Pow2(5) == 32;
    Pow2Small();
  }

  lemma ExponentOfRoot(n: nat)
    requires 0 < n
    ensures 2 * Exponent(n, 0, 0) == Pow2(n)
  {
    hide BitRev, Pow2;
    Pow2Zero();
    Pow2Step(n - 1);
    BitRevUnfolds(1, n - 1);
    BitRevOfZero(n - 1);
  }

  lemma BitRevOfZero(bits: nat)
    ensures BitRev(0, bits) == 0
  {
  }

  /** A block's modulus is the square of its twiddle. */
  lemma RootIsSquare(n: nat, l: nat, k: nat)
    requires l < n && k < Pow2(l)
    ensures RootExponent(n, l, k) == 2 * Exponent(n, l, k)
  {
    hide BitRev, Exponent;
    if l == 0 {
      Pow2Zero();
      hide Pow2;
      ExponentOfRoot(n);
    } else {
      hide Pow2;
      ChildExponent(n, l - 1, k / 2, k % 2, k);
    }
  }

  lemma ChildExponent(n: nat, l: nat, h: nat, b: nat, k: nat)
    requires l + 1 < n && k == 2 * h + b && b < 2 && k < Pow2(l + 1)
    ensures h < Pow2(l)
    ensures 2 * Exponent(n, l + 1, k) == Exponent(n, l, h) + (if b == 1 then Pow2(n) else 0)
  {
    Pow2Step(l);
    Pow2Grows(l + 1, n - 1);
    hide BitRev, Pow2;
    BitRevChild(Pow2(l) + h, b, n);
    assert 2 * (Pow2(l) + h) + b == Pow2(l + 1) + k;
    assert b == 0 || b == 1;
  }

  /** After all n layers the exponents are 2 BitRev(i) + 1, as section 4.3 of FIPS 203
      and section 2.5 of FIPS 204 number them. */
  lemma RootsOfLastLayer(n: nat, i: nat)
    requires 0 < n && i < Pow2(n)
    ensures RootExponent(n, n, i) == 2 * BitRev(i, n) + 1
  {
    hide BitRev, Pow2;
    Pow2Step(n - 1);
    var k := i / 2;
    BitRevAppend(k, n - 1);
    BitRevUnfolds(i, n - 1);
  }

  /** Mirrored blocks of a layer have exponents adding up to half the order of the root. */
  lemma {:induction false} MirroredExponents(n: nat, l: nat, k: nat)
    requires l < n && k < Pow2(l)
    ensures Exponent(n, l, k) + Exponent(n, l, Pow2(l) - 1 - k) == Pow2(n)
    decreases l
  {
    hide BitRev, Exponent;
    if l == 0 {
      Pow2Zero();
      hide Pow2;
      ExponentOfRoot(n);
    } else {
      hide Pow2;
      var h, b := k / 2, k % 2;
      Pow2Step(l - 1);
      MirroredExponents(n, l - 1, h);
      MirrorStep(n, l - 1, h, b, k);
    }
  }

  lemma MirrorStep(n: nat, l: nat, h: nat, b: nat, k: nat)
    requires l + 1 < n && k == 2 * h + b && b < 2 && k < Pow2(l + 1)
    requires h < Pow2(l) && Exponent(n, l, h) + Exponent(n, l, Pow2(l) - 1 - h) == Pow2(n)
    ensures Exponent(n, l + 1, k) + Exponent(n, l + 1, Pow2(l + 1) - 1 - k) == Pow2(n)
  {
    hide BitRev, Pow2, Exponent;
    Pow2Step(l);
    var mirror := Pow2(l + 1) - 1 - k;
    assert mirror == 2 * (Pow2(l) - 1 - h) + (1 - b);
    ChildExponent(n, l, h, b, k);
    ChildExponent(n, l, Pow2(l) - 1 - h, 1 - b, mirror);
    assert b == 0 || b == 1;
  }

  /** The inverse transform counts its twiddle index down: block k of layer l meets
      zetas[2^(l+1) - 1 - k], the negated inverse of the twiddle it was split with. */
  lemma MirroredZetas(l: nat, k: nat)
    requires l <= 6 && k < Pow2(l)
    ensures Pow2(l + 1) - 1 - k >= 0
    ensures Cong(Zeta(Pow2(l) + k) * ((3329 - Zeta(Pow2(l + 1) - 1 - k)) % 3329), 1)
  {
    hide BitRev, Pow2, Pow;
    var mirror := Pow2(l) - 1 - k;
    Pow2Step(l);
    Pow2Small();
    MirroredExponents(7, l, k);
    NegatedProduct(Exponent(7, l, k), Exponent(7, l, mirror), Zeta(Pow2(l) + k), Zeta(Pow2(l) + mirror));
  }

  lemma NegatedProduct(e: nat, e': nat, z: int, z': int)
    requires e + e' == 128 && z == Pow(17, e) % 3329 && z' == Pow(17, e') % 3329
    ensures Cong(z * ((3329 - z') % 3329), 1)
  {
    hide Pow, Cong;
    var n := (3329 - z') % 3329;
    PowAdds(17, e, e');
    RootHalfway();
    CongMod(Pow(17, e));
    CongMod(Pow(17, e'));
    CongMul(z, Pow(17, e), z', Pow(17, e'));
    CongTransitive(z * z', Pow(17, 128), -1);
    NegatedResidue(z');
    CongReflexive(z);
    CongMul(z, z, n, -z');
    NegateBoth(z * z', -1);
    assert z * -z' == -(z * z');
    CongTransitive(z * n, -(z * z'), 1);
  }

  lemma NegatedResidue(z: int)
    ensures Cong((3329 - z) % 3329, -z)
  {
  }

  lemma NegateBoth(a: int, b: int)
    requires Cong(a, b)
    ensures Cong(-a, -b)
  {
  }
}
