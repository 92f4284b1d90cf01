/** DataMiningManager::calculateCoins, in exact arithmetic. */
module Mining {
  function Abs(r: real): real {
    if r < 0.0 then -r else r
  }

  /** The conversion of a double to the `long long` that `operator*` takes: the fraction is dropped. */
  function Trunc(r: real): int {
    if r < 0.0 then -(-r).Floor else r.Floor
  }

  /** (stored / total) * (supply / blocks). */
  function Share(stored: real, total: real, supply: real, blocks: real): real
    requires total != 0.0 && blocks != 0.0
  {
    (stored / total) * (supply / blocks)
  }

  function Produced(x: real, coefficient: real): real {
    x * Trunc(coefficient) as real
  }

  /** How many more doublings can be needed: falls with every one until the product reaches 1. */
  ghost function Doublings(x: real, coefficient: real): nat
    requires x * coefficient > 0.0
  {
    NonZero(x, coefficient);
    Ratio(x, coefficient).Floor
  }

  ghost function Ratio(x: real, coefficient: real): (r: real)
    requires x != 0.0 && coefficient != 0.0
    ensures r > 0.0
  {
    PositiveQuotient(1.0, Abs(x));
    PositiveQuotient(1.0 / Abs(x) + 1.0, Abs(coefficient));
    (1.0 / Abs(x) + 1.0) / Abs(coefficient)
  }

  lemma PositiveQuotient(a: real, b: real)
    requires a > 0.0 && b > 0.0
    ensures a / b > 0.0
  {
  }

  lemma NonZero(x: real, c: real)
    requires x * c > 0.0
    ensures x != 0.0 && c != 0.0 && (x > 0.0 <==> c > 0.0)
  {
    if x > 0.0 && c <= 0.0 {
      Sign(x, -c);
    } else if x < 0.0 && c >= 0.0 {
      Sign(-x, c);
    }
  }

  lemma Sign(a: real, b: real)
    requires a > 0.0 && b >= 0.0
    ensures a * b >= 0.0
  {
  }

  /** While the product is below 1 the coefficient is at most 1/|x| + 1. */
  lemma SmallCoefficient(x: real, c: real)
    requires x * c > 0.0 && Produced(x, c) < 1.0
    ensures Abs(c) <= 1.0 / Abs(x) + 1.0
  {
    NonZero(x, c);
    var t := Abs(c).Floor as real;
    assert Trunc(c) as real == if c < 0.0 then -t else t;
    assert Produced(x, c) == Abs(x) * t;
    if Abs(c) > 1.0 / Abs(x) + 1.0 {
      assert t > 1.0 / Abs(x);
      Scale(Abs(x), t);
    }
  }

  lemma Scale(a: real, t: real)
    requires a > 0.0 && t > 1.0 / a
    ensures a * t > 1.0
  {
    var i := 1.0 / a;
    Above(a * t, i * a, a * (t - i));
  }

  lemma Above(p: real, q: real, d: real)
    requires q == 1.0 && d > 0.0 && d == p - q
    ensures p > 1.0
  {
  }

  lemma DoublingStep(x: real, c: real)
    requires x * c > 0.0 && Produced(x, c) < 1.0
    ensures x * (c * 2.0) > 0.0
    ensures Doublings(x, c * 2.0) < Doublings(x, c)
  {
    NonZero(x, c);
    assert x * (c * 2.0) == (x * c) * 2.0;
    SmallCoefficient(x, c);
    var d := 1.0 / Abs(x) + 1.0;
    Halve(d, Abs(c));
    assert Abs(c * 2.0) == Abs(c) * 2.0;
    assert Ratio(x, c * 2.0) == d / (Abs(c) * 2.0);
    assert Ratio(x, c) == d / Abs(c);
  }

  lemma Halve(d: real, c: real)
    requires 0.0 < c <= d
    ensures d / (c * 2.0) == (d / c) / 2.0 && d / c >= 1.0
    ensures 0 <= (d / (c * 2.0)).Floor < (d / c).Floor
  {
    var q := d / c;
    assert q * c == d;
    Sign(c, if q < 1.0 then 1.0 - q else q - 1.0);
    assert (q / 2.0) * (c * 2.0) == d;
  }

  /**
   calculateCoins: 0 for a zero amount, and at least 1 otherwise. It asks of its
   caller what its recursion needs to end: some amount is zero, or the share and
   the coefficient have one sign (see NeverEnds for the rest).
   */
  function CalculateCoins(stored: real, total: real, supply: real, blocks: real, coefficient: real): (r: real)
    requires stored == 0.0 || total == 0.0 || supply == 0.0 || blocks == 0.0
             || Share(stored, total, supply, blocks) * coefficient > 0.0
    ensures if stored == 0.0 || total == 0.0 || supply == 0.0 || blocks == 0.0 then r == 0.0 else r >= 1.0
    decreases if stored == 0.0 || total == 0.0 || supply == 0.0 || blocks == 0.0 then 0
              else Doublings(Share(stored, total, supply, blocks), coefficient)
  {
    if stored == 0.0 || total == 0.0 || supply == 0.0 || blocks == 0.0 then 0.0
    else
      var coinProducedForNode := Produced(Share(stored, total, supply, blocks), coefficient);
      if coinProducedForNode < 1.0 then
        DoublingStep(Share(stored, total, supply, blocks), coefficient);
        CalculateCoins(stored, total, supply, blocks, coefficient * 2.0)
      else coinProducedForNode
  }

  function Doubled(c: real, k: nat): real
    decreases k
  {
    if k == 0 then c else Doubled(c * 2.0, k - 1)
  }

  /** k is the least number of doublings after which the product is at least 1. */
  ghost predicate LeastEnough(x: real, c: real, k: nat) {
    Produced(x, Doubled(c, k)) >= 1.0 && forall j: nat :: j < k ==> Produced(x, Doubled(c, j)) < 1.0
  }

  /**
   The reward is the share times the truncated coefficient after the least
   number of doublings that make it at least 1.
   */
  lemma {:induction false} CoinsAreLeastDoubling(stored: real, total: real, supply: real, blocks: real, c: real)
    returns (k: nat)
    requires stored != 0.0 && total != 0.0 && supply != 0.0 && blocks != 0.0
    requires Share(stored, total, supply, blocks) * c > 0.0
    ensures var x := Share(stored, total, supply, blocks);
            && LeastEnough(x, c, k)
            && CalculateCoins(stored, total, supply, blocks, c) == Produced(x, Doubled(c, k)) >= 1.0
    decreases Doublings(Share(stored, total, supply, blocks), c)
  {
    var x := Share(stored, total, supply, blocks);
    if Produced(x, c) < 1.0 {
      DoublingStep(x, c);
      var k' := CoinsAreLeastDoubling(stored, total, supply, blocks, c * 2.0);
      k := k' + 1;
      forall j: nat | j < k
        ensures Produced(x, Doubled(c, j)) < 1.0
      {
        if j > 0 {
          assert Doubled(c, j) == Doubled(c * 2.0, j - 1);
        }
      }
    } else {
      k := 0;
    }
  }

  function Pow2(k: nat): real {
    if k == 0 then 1.0 else 2.0 * Pow2(k - 1)
  }

  /** c * 2^k. */
  function Power(c: real, k: nat): real {
    c * Pow2(k)
  }

  /** m is x without its fraction. */
  predicate Truncated(m: int, x: real) {
    if x >= 0.0 then m as real <= x < m as real + 1.0 else m as real - 1.0 < x <= m as real
  }

  lemma {:induction false} DoubledIsPower(c: real, k: nat)
    ensures Doubled(c, k) == Power(c, k)
    decreases k
  {
    if k > 0 {
      DoubledIsPower(c * 2.0, k - 1);
      assert (c * 2.0) * Pow2(k - 1) == c * (2.0 * Pow2(k - 1));
    }
  }

  lemma TruncIsTruncated(x: real, m: int)
    ensures Truncated(m, x) <==> m == Trunc(x)
  {
  }

  /**
   The reward written out: (stored / total) * (supply / blocks) times the
   coefficient after k doublings without its fraction; with fewer doublings
   that product is below 1.
   */
  lemma RewardWrittenOut(stored: real, total: real, supply: real, blocks: real, c: real) returns (k: nat, m: int)
    requires stored != 0.0 && total != 0.0 && supply != 0.0 && blocks != 0.0
    requires (stored / total) * (supply / blocks) * c > 0.0
    ensures var share := (stored / total) * (supply / blocks);
            && CalculateCoins(stored, total, supply, blocks, c) == share * m as real >= 1.0
            && Truncated(m, Power(c, k))
            && forall j: nat :: j < k ==> Produced(share, Power(c, j)) < 1.0
  {
    hide Truncated, CalculateCoins, Doubled, Power;
    var x := Share(stored, total, supply, blocks);
    k := CoinsAreLeastDoubling(stored, total, supply, blocks, c);
    DoubledIsPower(c, k);
    m := ProducedWrittenOut(x, Power(c, k));
    forall j: nat | j < k
      ensures Produced(x, Power(c, j)) < 1.0
    {
      DoubledIsPower(c, j);
    }
  }

  lemma ProducedWrittenOut(x: real, d: real) returns (m: int)
    ensures Truncated(m, d) && Produced(x, d) == x * m as real
  {
    m := Trunc(d);
    TruncIsTruncated(d, m);
  }

  /** The least k is one number, so the lemma above determines the reward. */
  lemma LeastEnoughIsUnique(x: real, c: real, k: nat, k': nat)
    requires LeastEnough(x, c, k) && LeastEnough(x, c, k')
    ensures k == k'
  {
  }

  /** With no zero amount and share and coefficient not of one sign, no number of doublings ever suffices. */
  lemma {:induction false} NeverEnds(x: real, c: real, k: nat)
    requires x * c <= 0.0
    ensures Produced(x, Doubled(c, k)) < 1.0
    decreases k
  {
    if k == 0 {
      var t := Trunc(c) as real;
      if x > 0.0 {
        NotPositive(x, c);
        Sign(x, -t);
      } else if x < 0.0 {
        NotPositive(-x, -c);
        Sign(-x, t);
      }
    } else {
      assert x * (c * 2.0) == (x * c) * 2.0;
      NeverEnds(x, c * 2.0, k - 1);
    }
  }

  lemma NotPositive(a: real, b: real)
    requires a > 0.0 && a * b <= 0.0
    ensures b <= 0.0
  {
  }
}
