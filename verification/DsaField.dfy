/** Congruence modulo the ML-DSA prime and powers of its root of unity. */
module DsaField {
  import opened Numbers
  import opened Field

  predicate DsaCong(a: int, b: int) {
    (a - b) % 8380417 == 0
  }

  lemma DsaByMultiple(a: int, b: int, k: int)
    requires a == b + 8380417 * k
    ensures DsaCong(a, b)
  {
    ModUniqueInt(a - b, 8380417, k, 0);
  }

  lemma DsaMultiple(a: int, b: int) returns (k: int)
    requires DsaCong(a, b)
    ensures a == b + 8380417 * k
  {
    k := (a - b) / 8380417;
  }

  lemma DsaReflexive(a: int)
    ensures DsaCong(a, a)
  {
  }

  lemma DsaSymmetric(a: int, b: int)
    requires DsaCong(a, b)
    ensures DsaCong(b, a)
  {
    var k := DsaMultiple(a, b);
    DsaByMultiple(b, a, -k);
  }

  lemma DsaTransitive(a: int, b: int, c: int)
    requires DsaCong(a, b) && DsaCong(b, c)
    ensures DsaCong(a, c)
  {
    var k := DsaMultiple(a, b);
    var l := DsaMultiple(b, c);
    DsaByMultiple(a, c, k + l);
  }

  lemma DsaAdd(a: int, a': int, b: int, b': int)
    requires DsaCong(a, a') && DsaCong(b, b')
    ensures DsaCong(a + b, a' + b')
    ensures DsaCong(a - b, a' - b')
  {
    var k := DsaMultiple(a, a');
    var l := DsaMultiple(b, b');
    DsaByMultiple(a + b, a' + b', k + l);
    DsaByMultiple(a - b, a' - b', k - l);
  }

  lemma DsaMul(a: int, a': int, b: int, b': int)
    requires DsaCong(a, a') && DsaCong(b, b')
    ensures DsaCong(a * b, a' * b')
  {
    var k := DsaMultiple(a, a');
    var l := DsaMultiple(b, b');
    MultipleProduct(a, a', b, b', k, l);
    DsaByMultiple(a * b, a' * b', k * b + a' * l);
  }

  lemma MultipleProduct(a: int, a': int, b: int, b': int, k: int, l: int)
    requires a == a' + 8380417 * k && b == b' + 8380417 * l
    ensures a * b == a' * b' + 8380417 * (k * b + a' * l)
  {
    assert a * b == a' * b + 8380417 * (k * b) by {
      assert (8380417 * k) * b == 8380417 * (k * b);
      assert a * b == a' * b + (8380417 * k) * b;
    }
    assert a' * b == a' * b' + 8380417 * (a' * l) by {
      assert a' * (8380417 * l) == 8380417 * (a' * l);
    }
  }

  lemma DsaScale(c: int, a: int, b: int)
    requires DsaCong(a, b)
    ensures DsaCong(c * a, c * b)
  {
    hide DsaCong;
    DsaReflexive(c);
    DsaMul(c, c, a, b);
  }

  lemma DsaSquares(n: nat, v: int, w: int)
    requires DsaCong(Pow(1753, n), v) && DsaCong(v * v, w)
    ensures DsaCong(Pow(1753, 2 * n), w)
  {
    hide Pow, DsaCong;
    PowAdds(1753, n, n);
    DsaMul(Pow(1753, n), v, Pow(1753, n), v);
    DsaTransitive(Pow(1753, 2 * n), v * v, w);
  }

  /** Powers of 1753 by repeated squaring; it is a primitive 512-th root of unity, its
      256-th power being -1. */
  lemma DsaRootPowers()
    ensures DsaCong(Pow(1753, 1), 1753) && DsaCong(Pow(1753, 2), 3073009)
    ensures DsaCong(Pow(1753, 4), 3602218) && DsaCong(Pow(1753, 8), 5010068)
    ensures DsaCong(Pow(1753, 16), 7778734) && DsaCong(Pow(1753, 32), 5178923)
    ensures DsaCong(Pow(1753, 64), 3765607) && DsaCong(Pow(1753, 128), 4808194)
    ensures DsaCong(Pow(1753, 256), -1)
  {
    hide Pow;
    PowOne(1753);
    DsaSquares(1, 1753, 3073009);
    DsaSquares(2, 3073009, 3602218);
    DsaSquares(4, 3602218, 5010068);
    DsaSquares(8, 5010068, 7778734);
    DsaSquares(16, 7778734, 5178923);
    DsaSquares(32, 5178923, 3765607);
    DsaSquares(64, 3765607, 4808194);
    DsaSquares(128, 4808194, -1);
  }
}
