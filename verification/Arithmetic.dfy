/** Facts about products, quotients and remainders that the solver does not find by itself. */
module Arithmetic {
  lemma Multiple(k: int, d: nat)
    ensures k >= 1 ==> k * d >= d
    ensures k <= -1 ==> k * d <= 0 - d
  {
  }

  lemma QuotientIs(x: nat, d: nat, q: int, r: nat)
    requires d > 0 && x == q * d + r && r < d
    ensures x / d == q
  {
    var k := q - x / d;
    assert x == x / d * d + x % d;
    assert k * d == x % d - r;
    Multiple(k, d);
  }

  lemma SmallMod(x: nat, d: nat)
    requires x < d
    ensures x % d == x
  {
  }

  lemma ModStep(x: nat, d: nat)
    requires 0 < d <= x
    ensures x % d == (x - d) % d
  {
    var q, r := (x - d) / d, (x - d) % d;
    assert x - d == q * d + r;
    QuotientIs(x, d, q + 1, r);
    assert x == (x / d) * d + x % d;
  }

  lemma MultipleMod(k: nat, d: nat)
    requires d > 0
    ensures (k * d) % d == 0
    decreases k
  {
    if k > 0 {
      MultipleMod(k - 1, d);
      assert k * d - d == (k - 1) * d;
      assert (k - 1) * d >= 0;
      ModStep(k * d, d);
    }
  }

  lemma SumMod(a: nat, b: nat, d: nat)
    requires d > 0 && a % d == 0 && b % d == 0
    ensures (a + b) % d == 0
  {
    var p, q := a / d, b / d;
    assert a == p * d && b == q * d;
    assert a + b == (p + q) * d;
    MultipleMod(p + q, d);
  }

  /** Two multiples less than d apart are equal. */
  lemma NearMultiples(a: nat, b: nat, d: nat)
    requires d > 0 && a % d == 0 && b % d == 0 && a < b + d && b < a + d
    ensures a == b
  {
    var p, q := a / d, b / d;
    assert a == p * d && b == q * d;
    assert (p - q) * d == a - b;
    Multiple(p - q, d);
  }
}
