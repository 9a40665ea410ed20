/** Powers and products of reals used by the decay, scoring and limiter proofs. */
module RealMath {

  /** b to the n, for a whole number n of decay intervals. */
  function Pow(b: real, n: nat): real {
    if n == 0 then 1.0 else b * Pow(b, n - 1)
  }

  lemma {:induction false} PowAdds(b: real, m: nat, n: nat)
    ensures Pow(b, m + n) == Pow(b, m) * Pow(b, n)
  {
    if m > 0 {
      PowAdds(b, m - 1, n);
      assert b * (Pow(b, m - 1) * Pow(b, n)) == (b * Pow(b, m - 1)) * Pow(b, n);
    }
  }

  lemma {:induction false} PowInUnit(b: real, n: nat)
    requires 0.0 <= b <= 1.0
    ensures 0.0 <= Pow(b, n) <= 1.0
    ensures b > 0.0 ==> Pow(b, n) > 0.0
  {
    if n > 0 {
      PowInUnit(b, n - 1);
      var p := Pow(b, n - 1);
      ProductInUnit(b, p);
      assert Pow(b, n) == b * p;
    }
  }

  lemma ProductInUnit(a: real, b: real)
    requires 0.0 <= a <= 1.0 && 0.0 <= b <= 1.0
    ensures 0.0 <= a * b <= b
    ensures a > 0.0 && b > 0.0 ==> a * b > 0.0
  {
    assert (1.0 - a) * b >= 0.0;
  }

  lemma Shrinks(x: real, f: real)
    requires x >= 0.0 && 0.0 <= f <= 1.0
    ensures 0.0 <= x * f <= x
  {
    assert x * (1.0 - f) >= 0.0;
    assert x * f == x - x * (1.0 - f);
  }

  lemma ShrinksStrictly(x: real, f: real)
    requires x > 0.0 && 0.0 < f <= 1.0
    ensures x * f > 0.0
    ensures f < 1.0 <==> x * f < x
  {
    assert x * f == x - x * (1.0 - f);
    if f < 1.0 { assert x * (1.0 - f) > 0.0; }
  }

  lemma ScaleMonotone(a: real, b: real, k: real)
    requires a <= b && k >= 0.0
    ensures a * k <= b * k && k * a <= k * b
  {
    assert (b - a) * k >= 0.0;
  }

  lemma ScaleStrict(a: real, b: real, k: real)
    requires a < b && k > 0.0
    ensures a * k < b * k && k * a < k * b
  {
    assert (b - a) * k > 0.0;
  }

  /** Comparing quotients with positive denominators by cross multiplication. */
  lemma CompareQuotients(a: real, b: real, c: real, d: real)
    requires b > 0.0 && d > 0.0
    ensures a / b <= c / d <==> a * d <= c * b
    ensures a / b < c / d <==> a * d < c * b
  {
    var p, q := a / b, c / d;
    assert a == p * b && c == q * d;
    assert b * d > 0.0;
    assert a * d == p * (b * d) && c * b == q * (b * d);
    if p <= q { ScaleMonotone(p, q, b * d); } else { ScaleStrict(q, p, b * d); }
    if p < q { ScaleStrict(p, q, b * d); } else { ScaleMonotone(q, p, b * d); }
  }

  lemma QuotientUnique(a: real, b: real, q: real)
    requires b != 0.0 && q * b == a
    ensures a / b == q
  {
  }

  /** p lies between 1 - x d and 1 / (1 + x d). */
  ghost predicate BernoulliBounds(p: real, x: real, d: real) {
    p >= 1.0 - x * d && p * (1.0 + x * d) <= 1.0
  }

  /** Bernoulli's inequality for a decay rate, from both sides. */
  lemma {:induction false} Bernoulli(d: real, n: nat)
    requires 0.0 <= d < 1.0
    ensures BernoulliBounds(Pow(1.0 - d, n), n as real, d)
  {
    hide BernoulliBounds;
    var b := 1.0 - d;
    if n == 0 {
      BernoulliStart(d);
    } else {
      Bernoulli(d, n - 1);
      PowInUnit(b, n - 1);
      BernoulliStep(d, b, (n - 1) as real, Pow(b, n - 1), Pow(b, n), n as real);
    }
  }

  lemma BernoulliStart(d: real)
    ensures BernoulliBounds(1.0, 0.0, d)
  {
  }

  lemma BernoulliStep(d: real, b: real, m: real, p: real, q: real, n: real)
    requires 0.0 <= d < 1.0 && b == 1.0 - d && m >= 0.0 && n == m + 1.0 && p >= 0.0 && q == b * p
    requires BernoulliBounds(p, m, d)
    ensures BernoulliBounds(q, n, d)
  {
    var decay := m * d;
    ScaleMonotone(0.0, m, d);
    assert n * d == decay + d;
    Below(d, b, decay, p);
    Above(d, b, decay, decay + d, p);
  }

  lemma Below(d: real, b: real, decay: real, p: real)
    requires 0.0 <= d < 1.0 && b == 1.0 - d && decay >= 0.0 && p >= 1.0 - decay
    ensures b * p >= 1.0 - (decay + d)
  {
    var slack := p - (1.0 - decay);
    Shrinks(slack, d);
    ScaleMonotone(0.0, decay, d);
    assert b * p == slack - slack * d + (1.0 - decay) - d + decay * d;
  }

  lemma Above(d: real, b: real, decay: real, next: real, p: real)
    requires 0.0 <= d < 1.0 && b == 1.0 - d && decay >= 0.0 && next == decay + d
    requires p >= 0.0 && p * (1.0 + decay) <= 1.0
    ensures b * p * (1.0 + next) <= 1.0
  {
    var k := 1.0 + next;
    ScaleMonotone(0.0, next, d);
    assert b * k == 1.0 + decay - next * d;
    Chain(b, p, k, 1.0 + decay);
  }

  lemma Chain(b: real, p: real, k: real, bound: real)
    requires p >= 0.0 && b * k <= bound && p * bound <= 1.0
    ensures b * p * k <= 1.0
  {
    var shrunk := b * k;
    ScaleMonotone(shrunk, bound, p);
    Reorder(b, p, k);
  }

  lemma Reorder(a: real, p: real, b: real)
    ensures a * p * b == p * (a * b)
  {
  }
}
