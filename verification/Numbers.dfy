/** Division with remainder, congruences and powers, in the few forms the
    arithmetic proofs need. */
module Numbers {

  lemma ProductAtLeast(r: int, d: int)
    requires 0 < r
    ensures d >= 1 ==> r * d >= r
    ensures d <= -1 ==> r * d <= -r
  {
    if d >= 1 {
      assert r * d == r * (d - 1) + r;
      assert r * (d - 1) >= 0;
    } else if d <= -1 {
      assert r * d == r * (d + 1) - r;
      assert r * (-d - 1) >= 0;
    }
  }

  lemma ProductNonNegative(x: int, y: int)
    requires 0 <= x && 0 <= y
    ensures 0 <= x * y
  {
  }

  lemma ModRange(n: int, r: int)
    requires 0 < r
    ensures 0 <= n % r < r
  {
  }

  lemma QuotientRemainder(n: int, r: int)
    requires 0 < r
    ensures n == r * (n / r) + n % r
  {
  }

  lemma QuotientNonNegative(n: int, r: int)
    requires 0 <= n && 0 < r
    ensures 0 <= n / r
  {
    var q := n / r;
    assert n == r * q + n % r;
    ProductAtLeast(r, q);
  }

  lemma ModUnique(n: int, r: nat, q: int, x: nat)
    requires 0 < r && x < r && n == r * q + x
    ensures n % r == x && n / r == q
  {
    var q', x' := n / r, n % r;
    assert n == r * q' + x';
    assert r * (q - q') == x' - x by {
      assert r * (q - q') == r * q - r * q';
    }
    ProductAtLeast(r, q - q');
  }

  lemma ModLess(n: int, r: nat)
    requires 0 < r
    ensures (n - r) % r == n % r
  {
    var q, x := n / r, n % r;
    assert n - r == r * (q - 1) + x;
    ModUnique(n - r, r, q - 1, x);
  }

  lemma ModPlusMultiple(x: int, k: int, q: int)
    requires 0 < q
    ensures (x + q * k) % q == x % q
  {
    var d, m := x / q, x % q;
    ModUniqueInt(x + q * k, q, d + k, m);
  }

  lemma SameRemainder(x: int, y: int, k: int, q: int)
    requires 0 < q && x == y + q * k
    ensures x % q == y % q
  {
    ModPlusMultiple(y, k, q);
  }

  lemma ModUniqueInt(n: int, r: int, q: int, x: int)
    requires 0 <= x < r && n == r * q + x
    ensures n % r == x && n / r == q
  {
    ModUnique(n, r, q, x);
  }

  lemma SmallMod(x: int, q: int)
    requires 0 <= x < q
    ensures x % q == x
  {
    ModUniqueInt(x, q, 0, x);
  }

  /** Equal remainders mean a difference that is a multiple. */
  lemma ModEqualMultiple(x: int, y: int, q: int) returns (k: int)
    requires 0 < q && x % q == y % q
    ensures x == y + q * k
  {
    k := x / q - y / q;
    assert x == q * (x / q) + x % q;
    assert y == q * (y / q) + y % q;
  }

  function Pow2(n: nat): (p: int)
    ensures p > 0
  {
    if n == 0 then 1 else 2 * Pow2(n - 1)
  }

  lemma Pow2Zero()
    ensures Pow2(0) == 1
  {
  }

  lemma Pow2Step(n: nat)
    ensures Pow2(n + 1) == 2 * Pow2(n)
  {
  }

  lemma {:induction false} Pow2Grows(m: nat, n: nat)
    requires m <= n
    ensures Pow2(m) <= Pow2(n)
    decreases n
  {
    if m < n {
      Pow2Grows(m, n - 1);
    }
  }

  lemma {:induction false} Pow2Adds(m: nat, n: nat)
    ensures Pow2(m + n) == Pow2(m) * Pow2(n)
    decreases m
  {
    if m == 0 {
      Pow2Zero();
    } else {
      Pow2Adds(m - 1, n);
      Pow2Step(m - 1 + n);
      Pow2Step(m - 1);
      hide Pow2;
      Doubled(Pow2(m - 1), Pow2(n));
    }
  }

  lemma Doubled(x: int, y: int)
    ensures 2 * (x * y) == (2 * x) * y
  {
  }

  lemma Pow2Values()
    ensures Pow2(8) == 256 && Pow2(16) == 65536 && Pow2(24) == 16777216
  {
    assert Pow2(4) == 16;
    Pow2Adds(4, 4);
    Pow2Adds(8, 8);
    Pow2Adds(8, 16);
  }
}
