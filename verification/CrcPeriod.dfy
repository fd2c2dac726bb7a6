/** The period of x modulo a generator: a known period is the least one if none of its quotients by
    a prime factor is a period, and the factors are shown to be prime by trial division. */
module CrcPeriod {
  import opened CrcCode

  // ----- small primes, by trial division

  /** No number from 2 to d divides n. */
  predicate NoDivisor(n: nat, d: nat) {
    d < 2 || (n % d != 0 && NoDivisor(n, d - 1))
  }

  lemma {:induction false} NoDivisorAt(n: nat, d: nat, k: nat)
    requires NoDivisor(n, d) && 2 <= k <= d
    ensures n % k != 0
  {
    if k < d { NoDivisorAt(n, d - 1, k); }
  }

  /** The next eight trials. */
  lemma EightMore(n: nat, d: nat)
    requires NoDivisor(n, d)
    requires n % (d + 1) != 0 && n % (d + 2) != 0 && n % (d + 3) != 0 && n % (d + 4) != 0
    requires n % (d + 5) != 0 && n % (d + 6) != 0 && n % (d + 7) != 0 && n % (d + 8) != 0
    ensures NoDivisor(n, d + 8)
  {
    assert NoDivisor(n, d + 2);
    assert NoDivisor(n, d + 4);
    assert NoDivisor(n, d + 6);
  }

  lemma AtLeastOnce(x: int, d: nat)
    ensures x >= 1 ==> x * d >= d
    ensures x <= -1 ==> x * d <= -1 * d
  {
  }

  lemma Remainder(a: int, d: nat, e: int)
    requires 0 < d && a == e * d
    ensures a % d == 0
  {
    var q, r := a / d, a % d;
    assert (e - q) * d == r;
    AtLeastOnce(e - q, d);
  }

  lemma BigProduct(d: nat, e: nat, r: nat)
    requires r < d && r < e
    ensures (r + 1) * (r + 1) <= d * e
  {
    Larger(r + 1, d, r + 1);
    Larger(r + 1, e, d);
  }

  lemma Larger(a: nat, b: nat, f: nat)
    requires a <= b
    ensures a * f <= b * f
  {
  }

  lemma OnlyTrivial(p: nat, r: nat, d: nat, e: nat)
    requires 1 < p < (r + 1) * (r + 1) && NoDivisor(p, r) && d * e == p
    ensures d == 1 || d == p
  {
    hide NoDivisor;
    if r < d && r < e { BigProduct(d, e, r); }
    if 2 <= d <= r { NotDivided(p, r, d, e); }
    if 2 <= e <= r { NotDivided(p, r, e, d); }
  }

  lemma NotDivided(p: nat, r: nat, d: nat, e: nat)
    requires NoDivisor(p, r) && 2 <= d <= r
    ensures e * d != p
  {
    hide NoDivisor;
    NoDivisorAt(p, r, d);
    if e * d == p { Remainder(p, d, e); }
  }

  /** A number without a divisor up to its root is prime. */
  lemma PrimeBy(p: nat, r: nat)
    requires 1 < p < (r + 1) * (r + 1) && NoDivisor(p, r)
    ensures Prime(p)
  {
    hide NoDivisor;
    forall d: nat, e: nat | d * e == p
      ensures d == 1 || d == p
    {
      OnlyTrivial(p, r, d, e);
    }
  }

  // ----- the order of x

  lemma FactorPeriod(c: Code, a: int, g: nat, n: nat)
    requires a * g == n && 0 < n && Period(c, g)
    ensures Period(c, n)
  {
    hide *;
    PositiveFactor(a, g, n);
    PeriodMultiple(c, g, a);
  }

  lemma Regrouped(a: int, h: nat, f: nat, n: nat)
    requires a * h == n
    ensures a * (f * h) == f * n
  {
    assert a * (f * h) == f * (a * h);
  }

  lemma SameFactor(p: nat, a: int, b: int)
    requires 0 < p && p * a == p * b
    ensures a == b
  {
    assert (a - b) * p == 0;
    AtLeastOnce(a - b, p);
  }

  /** If f times h is a period, n times h is p times rest, and f times rest is no period, then
      the prime p is a factor of h. */
  lemma PrimeFactor(c: Code, f: nat, h: nat, n: nat, p: nat, rest: nat) returns (k: nat)
    requires Prime(p) && 0 < f && 0 < h && 0 < rest && n * h == p * rest
    requires Period(c, f * h) && !Period(c, f * rest)
    ensures h == p * k && 0 < k && n * k == rest
  {
    hide *;
    var a := DivisorWithoutPrime(p, rest, h, n);
    if a * h == rest {
      Regrouped(a, h, f, rest);
      Larger(1, f, rest);
      FactorPeriod(c, a, f * h, f * rest);
    }
    OneBelowPrime(p);
    PositiveFactor(a, p, h);
    k := a;
    assert p * (n * k) == n * (k * p) == p * rest;
    SameFactor(p, n * k, rest);
  }

  ghost predicate Factor(g: nat, n: nat) {
    0 < g && exists m: nat :: m * g == n
  }

  /** No proper factor of it is a period. */
  ghost predicate Least(c: Code, order: nat) {
    forall g: nat | Factor(g, order) && Period(c, g) :: g == order
  }

  lemma Cofactor(g: nat, n: nat) returns (m: nat)
    requires Factor(g, n)
    ensures 0 < g && m * g == n
  {
    m :| m * g == n;
  }

  lemma LeastBy(c: Code, order: nat)
    requires forall g: nat | Factor(g, order) && Period(c, g) :: g == order
    ensures Least(c, order)
  {
  }

  lemma LeastIs(c: Code, order: nat, g: nat, n: nat)
    requires Least(c, order) && 0 < g && n * g == order && Period(c, g)
    ensures g == order
  {
    hide Period;
    assert Factor(g, order);
  }

  /** A period of which no proper factor is one is the order of x. */
  lemma OrderIff(c: Code, order: nat, k: nat)
    requires c.Valid() && 0 < order && Period(c, order) && Least(c, order)
    ensures Period(c, k) <==> k % order == 0
  {
    hide *;
    if k % order == 0 {
      PeriodMultiple(c, order, k / order);
      assert k / order * order == k;
    } else if Period(c, k) {
      var g, m, n := PeriodGcd(c, k, order);
      LeastIs(c, order, g, n);
      Remainder(k, g, m);
    }
  }

  lemma UnitFactor(n: nat, k: nat)
    requires n * k == 1
    ensures k == 1
  {
  }

  lemma PeriodIs(c: Code, k: nat)
    ensures Period(c, k) <==> c.TimesXPow(k, 1) == 1
  {
  }

  lemma EitherWay(i: nat, j: nat, order: nat)
    requires 0 < order
    ensures (j - i) % order == 0 <==> (i - j) % order == 0
  {
    if (j - i) % order == 0 { Opposite(j - i, order); }
    if (i - j) % order == 0 { Opposite(i - j, order); }
  }

  lemma Opposite(d: int, order: nat)
    requires 0 < order && d % order == 0
    ensures (-d) % order == 0
  {
    var q := d / order;
    assert d == order * q;
    assert -d == (-q) * order;
    Remainder(-d, order, -q);
  }

  lemma SmallDistance(d: int, order: nat)
    requires d != 0 && d < order && -d < order
    ensures d % order != 0
  {
  }
}
