/** Congruence modulo the ML-KEM prime and powers of its root of unity. */
module Field {
  import opened Numbers

  const Q := 3329

  predicate Cong(a: int, b: int) {
    (a - b) % 3329 == 0
  }

  predicate Reduced(a: int) {
    0 <= a < Q
  }

  /** Congruence is a difference that is a multiple, in both directions. */
  lemma CongByMultiple(a: int, b: int, k: int)
    requires a == b + 3329 * k
    ensures Cong(a, b)
  {
    ModUniqueInt(a - b, 3329, k, 0);
  }

  lemma CongMultiple(a: int, b: int) returns (k: int)
    requires Cong(a, b)
    ensures a == b + 3329 * k
  {
    k := (a - b) / 3329;
  }

  lemma CongReflexive(a: int)
    ensures Cong(a, a)
  {
  }

  lemma CongSymmetric(a: int, b: int)
    requires Cong(a, b)
    ensures Cong(b, a)
  {
  }

  lemma CongTransitive(a: int, b: int, c: int)
    requires Cong(a, b) && Cong(b, c)
    ensures Cong(a, c)
  {
  }

  lemma CongMod(a: int)
    ensures Cong(a % Q, a)
    ensures Reduced(a % Q)
  {
  }

  lemma CongEqual(a: int, b: int)
    requires Cong(a, b) && Reduced(a) && Reduced(b)
    ensures a == b
  {
  }

  lemma CongAdd(a: int, a': int, b: int, b': int)
    requires Cong(a, a') && Cong(b, b')
    ensures Cong(a + b, a' + b')
  {
  }

  lemma CongSub(a: int, a': int, b: int, b': int)
    requires Cong(a, a') && Cong(b, b')
    ensures Cong(a - b, a' - b')
  {
  }

  lemma CongMul(a: int, a': int, b: int, b': int)
    requires Cong(a, a') && Cong(b, b')
    ensures Cong(a * b, a' * b')
  {
    var k, l := (a - a') / 3329, (b - b') / 3329;
    assert a == a' + 3329 * k && b == b' + 3329 * l;
    assert a * b - a' * b' == 3329 * (k * b + a' * l) by {
      assert a * b - a' * b' == (a - a') * b + a' * (b - b');
    }
  }

  function Pow(b: int, n: nat): int {
    if n == 0 then 1 else b * Pow(b, n - 1)
  }

  lemma PowAdds(b: int, m: nat, n: nat)
    ensures Pow(b, m + n) == Pow(b, m) * Pow(b, n)
  {
    if m > 0 {
      PowAdds(b, m - 1, n);
    }
  }

  lemma CongPow(a: int, b: int, n: nat)
    requires Cong(a, b)
    ensures Cong(Pow(a, n), Pow(b, n))
  {
    if n > 0 {
      CongPow(a, b, n - 1);
      CongMul(a, b, Pow(a, n - 1), Pow(b, n - 1));
    }
  }

  lemma PowSquares(b: int, n: nat, v: int)
    requires Cong(Pow(b, n), v)
    ensures Cong(Pow(b, 2 * n), v * v)
  {
    PowAdds(b, n, n);
    CongMul(Pow(b, n), v, Pow(b, n), v);
  }

  /** Powers of 17 by repeated squaring. */
  lemma RootPowers()
    ensures Cong(Pow(17, 1), 17) && Cong(Pow(17, 2), 289) && Cong(Pow(17, 4), 296) && Cong(Pow(17, 8), 1062)
    ensures Cong(Pow(17, 16), 2642) && Cong(Pow(17, 32), 2580) && Cong(Pow(17, 64), 1729)
  {
    hide Pow;
    PowOne(17);
    PowSquares(17, 1, 17);
    PowSquares(17, 2, 289);
    SquareStep(17, 4, 289 * 289, 296);
    PowSquares(17, 4, 296);
    SquareStep(17, 8, 296 * 296, 1062);
    PowSquares(17, 8, 1062);
    SquareStep(17, 16, 1062 * 1062, 2642);
    PowSquares(17, 16, 2642);
    SquareStep(17, 32, 2642 * 2642, 2580);
    PowSquares(17, 32, 2580);
    SquareStep(17, 64, 2580 * 2580, 1729);
  }

  /** 17 is a primitive 256-th root of unity: its 128-th power is -1. */
  lemma RootHalfway()
    ensures Cong(Pow(17, 128), -1)
  {
    hide Pow;
    RootPowers();
    PowSquares(17, 64, 1729);
    SquareStep(17, 128, 1729 * 1729, -1);
  }

  lemma PowOne(b: int)
    ensures Pow(b, 1) == b
  {
  }

  lemma SquareStep(b: int, n: nat, v: int, w: int)
    requires Cong(Pow(b, n), v) && Cong(v, w)
    ensures Cong(Pow(b, n), w)
  {
  }
}
