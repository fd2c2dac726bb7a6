/** Cyclic codes: remainders by a generator polynomial, and what they detect: bursts, errors of odd
    weight, two bits. */
module CrcCode {
  import opened Gf2
  import opened Word

  /** A generator polynomial of the given degree, with a constant term. */
  datatype Code = Code(degree: nat, poly: nat) {
    ghost predicate Valid() {
      degree >= 1 && Shl(1, degree) <= poly < Shl(1, degree + 1) && poly % 2 == 1
    }

    /** The bound on a remainder. */
    function Top(): nat {
      Shl(1, degree)
    }

    /** One step of long division: subtract the generator if the degree reaches it. */
    function Reduce(t: nat): nat {
      if t >= Top() then Xor(t, poly) else t
    }

    /** Multiplication by x modulo the generator. */
    function TimesX(r: nat): nat {
      Reduce(2 * r)
    }

    /** Multiplication by x^k modulo the generator. */
    function TimesXPow(k: nat, r: nat): nat {
      if k == 0 then r else TimesX(TimesXPow(k - 1, r))
    }

    /** Schoolbook long division, one coefficient at a time: the remainder. */
    function Mod(a: nat): nat {
      if a == 0 then 0 else Reduce(2 * Mod(a / 2) + a % 2)
    }

    /** Schoolbook long division: the quotient. */
    function Quotient(a: nat): nat {
      if a == 0 then 0 else 2 * Quotient(a / 2) + (if 2 * Mod(a / 2) + a % 2 >= Top() then 1 else 0)
    }

    /** Multiplication of remainders, by Horner's rule. */
    function MulMod(r: nat, s: nat): nat {
      if r == 0 then 0 else Xor(if r % 2 == 1 then s else 0, TimesX(MulMod(r / 2, s)))
    }
  }

  // ----- the remainder is linear

  lemma ReduceBelow(c: Code, t: nat)
    requires c.Valid() && t < Shl(1, c.degree + 1)
    ensures c.Reduce(t) < c.Top()
  {
    XorTop(t, c.poly, c.degree);
  }

  lemma ReduceXor(c: Code, s: nat, t: nat)
    requires c.Valid() && s < Shl(1, c.degree + 1) && t < Shl(1, c.degree + 1)
    ensures c.Reduce(Xor(s, t)) == Xor(c.Reduce(s), c.Reduce(t))
  {
    XorTop(s, t, c.degree);
    XorAssoc(s, t, c.poly);
    XorComm(t, c.poly);
    XorAssoc(s, c.poly, t);
    XorExchange(s, c.poly, t, c.poly);
    XorSelf(c.poly);
    XorZero(Xor(s, t));
  }

  lemma TimesXBelow(c: Code, r: nat)
    requires c.Valid() && r < c.Top()
    ensures c.TimesX(r) < c.Top()
  {
    ReduceBelow(c, 2 * r);
  }

  lemma TimesXXor(c: Code, r: nat, s: nat)
    requires c.Valid() && r < c.Top() && s < c.Top()
    ensures c.TimesX(Xor(r, s)) == Xor(c.TimesX(r), c.TimesX(s))
  {
    hide Xor;
    XorDouble(r, 0, s, 0);
    ReduceXor(c, 2 * r, 2 * s);
  }

  lemma {:induction false} TimesXPowBelow(c: Code, k: nat, r: nat)
    requires c.Valid() && r < c.Top()
    ensures c.TimesXPow(k, r) < c.Top()
  {
    if k != 0 {
      TimesXPowBelow(c, k - 1, r);
      TimesXBelow(c, c.TimesXPow(k - 1, r));
    }
  }

  lemma {:induction false} TimesXPowXor(c: Code, k: nat, r: nat, s: nat)
    requires c.Valid() && r < c.Top() && s < c.Top()
    ensures c.TimesXPow(k, Xor(r, s)) == Xor(c.TimesXPow(k, r), c.TimesXPow(k, s))
  {
    if k != 0 {
      TimesXPowXor(c, k - 1, r, s);
      TimesXPowBelow(c, k - 1, r);
      TimesXPowBelow(c, k - 1, s);
      TimesXXor(c, c.TimesXPow(k - 1, r), c.TimesXPow(k - 1, s));
    }
  }

  lemma {:induction false} TimesXPowAdd(c: Code, j: nat, k: nat, r: nat)
    ensures c.TimesXPow(j, c.TimesXPow(k, r)) == c.TimesXPow(j + k, r)
  {
    if j != 0 { TimesXPowAdd(c, j - 1, k, r); }
  }

  /** The constant term of the generator makes x invertible: no non-zero remainder is lost. */
  lemma TimesXNonZero(c: Code, r: nat)
    requires c.Valid() && r < c.Top()
    ensures c.TimesX(r) == 0 <==> r == 0
  {
    XorHalf(2 * r, c.poly);
    ShlZero(c.degree);
  }

  lemma {:induction false} TimesXPowNonZero(c: Code, k: nat, r: nat)
    requires c.Valid() && r < c.Top()
    ensures c.TimesXPow(k, r) == 0 <==> r == 0
  {
    if k != 0 {
      TimesXPowNonZero(c, k - 1, r);
      TimesXPowBelow(c, k - 1, r);
      TimesXNonZero(c, c.TimesXPow(k - 1, r));
    }
  }

  lemma TimesXPowInjective(c: Code, k: nat, r: nat, s: nat)
    requires c.Valid() && r < c.Top() && s < c.Top()
    ensures c.TimesXPow(k, r) == c.TimesXPow(k, s) <==> r == s
  {
    TimesXPowXor(c, k, r, s);
    XorBelow(r, s, c.degree);
    TimesXPowNonZero(c, k, Xor(r, s));
    XorEqualsZero(r, s);
    XorEqualsZero(c.TimesXPow(k, r), c.TimesXPow(k, s));
  }

  lemma {:induction false} ModBelow(c: Code, a: nat)
    requires c.Valid()
    ensures c.Mod(a) < c.Top()
  {
    ShlZero(c.degree);
    if a != 0 {
      ModBelow(c, a / 2);
      ReduceBelow(c, 2 * c.Mod(a / 2) + a % 2);
    }
  }

  lemma DoubleFits(c: Code, a: nat, e: bit)
    requires c.Valid()
    ensures 2 * c.Mod(a) + e < Shl(1, c.degree + 1)
  {
    ModBelow(c, a);
  }

  lemma ModStep(c: Code, a: nat, e: bit)
    requires c.Valid()
    ensures c.Mod(2 * a + e) == c.Reduce(2 * c.Mod(a) + e)
  {
    hide Xor, Shl;
    ShlZero(c.degree);
    assert (2 * a + e) / 2 == a && (2 * a + e) % 2 == e;
  }

  lemma {:induction false} ModXor(c: Code, a: nat, b: nat)
    requires c.Valid()
    ensures c.Mod(Xor(a, b)) == Xor(c.Mod(a), c.Mod(b))
    decreases a + b
  {
    hide *;
    if a + b == 0 {
      ModXorZero(c);
    } else {
      var p, d, q, e := a / 2, a % 2, b / 2, b % 2;
      ModXor(c, p, q);
      ModXorStep(c, p, d, q, e);
    }
  }

  lemma ModXorZero(c: Code)
    ensures c.Mod(Xor(0, 0)) == Xor(c.Mod(0), c.Mod(0))
  {
  }

  lemma ModXorStep(c: Code, p: nat, d: bit, q: nat, e: bit)
    requires c.Valid()
    requires c.Mod(Xor(p, q)) == Xor(c.Mod(p), c.Mod(q))
    ensures c.Mod(Xor(2 * p + d, 2 * q + e)) == Xor(c.Mod(2 * p + d), c.Mod(2 * q + e))
  {
    hide *;
    XorDouble(p, d, q, e);
    ModStep(c, Xor(p, q), BitXor(d, e));
    ModStep(c, p, d);
    ModStep(c, q, e);
    DoubleFits(c, p, d);
    DoubleFits(c, q, e);
    XorDouble(c.Mod(p), d, c.Mod(q), e);
    ReduceXor(c, 2 * c.Mod(p) + d, 2 * c.Mod(q) + e);
  }

  lemma {:induction false} ModSmall(c: Code, a: nat)
    requires c.Valid() && a < c.Top()
    ensures c.Mod(a) == a
  {
    if a != 0 { ModSmall(c, a / 2); }
  }

  lemma ModMod(c: Code, a: nat)
    requires c.Valid()
    ensures c.Mod(c.Mod(a)) == c.Mod(a)
  {
    ModBelow(c, a);
    ModSmall(c, c.Mod(a));
  }

  lemma {:induction false} ModShl(c: Code, a: nat, k: nat)
    requires c.Valid()
    ensures c.Mod(Shl(a, k)) == c.TimesXPow(k, c.Mod(a))
  {
    if k != 0 {
      ModShl(c, a, k - 1);
      ModStep(c, Shl(a, k - 1), 0);
    }
  }

  // ----- the remainder is the remainder of polynomial division

  lemma ModGenerator(c: Code)
    requires c.Valid()
    ensures c.Mod(c.poly) == 0
  {
    ModSmall(c, c.poly / 2);
    XorSelf(c.poly);
  }

  lemma {:induction false} ModMultiple(c: Code, q: nat)
    requires c.Valid()
    ensures c.Mod(Mul(q, c.poly)) == 0
  {
    if q != 0 {
      var m := Mul(q / 2, c.poly);
      ModMultiple(c, q / 2);
      ModGenerator(c);
      ModStep(c, m, 0);
      ShlZero(c.degree);
      ModXor(c, if q % 2 == 1 then c.poly else 0, 2 * m);
    }
  }

  lemma {:induction false} QuotientRemainder(c: Code, a: nat)
    requires c.Valid()
    ensures a == Xor(Mul(c.Quotient(a), c.poly), c.Mod(a))
  {
    if a != 0 {
      var h, e := a / 2, a % 2;
      QuotientRemainder(c, h);
      QuotientRemainderStep(c, h, e);
    }
  }

  lemma QuotientRemainderStep(c: Code, h: nat, e: bit)
    requires c.Valid() && h + e != 0
    requires h == Xor(Mul(c.Quotient(h), c.poly), c.Mod(h))
    ensures 2 * h + e == Xor(Mul(c.Quotient(2 * h + e), c.poly), c.Mod(2 * h + e))
  {
    hide *;
    var q, r := c.Quotient(h), c.Mod(h);
    var m, t := Mul(q, c.poly), 2 * r + e;
    var u := DivisionStep(c, h, e);
    var g := if u == 1 then c.poly else 0;
    MulStep(q, u, c.poly);
    XorDouble(m, 0, r, e);
    BitXorZero(e);
    XorExchange(g, 2 * m, t, g);
    XorComm(g, t);
    XorExchange(g, 2 * m, g, t);
    XorSelf(g);
    XorZero(Xor(2 * m, t));
  }

  /** One more digit of the dividend: the generator is subtracted, or not. */
  lemma DivisionStep(c: Code, h: nat, e: bit) returns (u: bit)
    requires c.Valid() && h + e != 0
    ensures c.Quotient(2 * h + e) == 2 * c.Quotient(h) + u
    ensures c.Mod(2 * h + e) == Xor(2 * c.Mod(h) + e, if u == 1 then c.poly else 0)
  {
    hide Xor;
    var t := 2 * c.Mod(h) + e;
    u := if t >= c.Top() then 1 else 0;
    assert (2 * h + e) / 2 == h && (2 * h + e) % 2 == e;
    XorZero(t);
  }

  lemma BitXorZero(e: bit)
    ensures BitXor(0, e) == e
  {
  }

  lemma MulStep(q: nat, u: bit, g: nat)
    ensures Mul(2 * q + u, g) == Xor(if u == 1 then g else 0, 2 * Mul(q, g))
  {
    if 2 * q + u == 0 { XorSelf(0); }
  }

  ghost predicate Divides(g: nat, a: nat) {
    exists q: nat :: Mul(q, g) == a
  }

  /** Mod is polynomial division: r is the remainder exactly when its degree is below
      the generator's and a + r is a multiple of the generator. */
  lemma DivisionTheorem(c: Code, a: nat, r: nat)
    requires c.Valid()
    ensures r == c.Mod(a) <==> r < c.Top() && Divides(c.poly, Xor(a, r))
  {
    ModBelow(c, a);
    QuotientRemainder(c, a);
    XorCancel(c.Mod(a), Mul(c.Quotient(a), c.poly));
    if r < c.Top() && Divides(c.poly, Xor(a, r)) {
      var q: nat :| Mul(q, c.poly) == Xor(a, r);
      ModMultiple(c, q);
      ModXor(c, a, r);
      ModSmall(c, r);
      XorEqualsZero(c.Mod(a), r);
    }
  }

  // ----- absorbing bytes through a table

  /** The remainder of a register followed by a message, the message having been
      multiplied by x^degree. */
  function Absorb(c: Code, register: nat, message: seq<uint8>): nat {
    c.Mod(Xor(Shl(register, 8 * |message|), Shl(Poly(message), c.degree)))
  }

  /** A register read as two bit fields, eight high bits above the rest. */
  lemma AbsorbByte(c: Code, high: nat, low: nat, b: uint8)
    requires c.Valid() && c.degree >= 8 && low < Shl(1, c.degree - 8)
    ensures Absorb(c, Shl(high, c.degree - 8) + low, [b])
            == Xor(Shl(low, 8), c.Mod(Shl(Xor(high, Val(b)), c.degree)))
  {
    hide Xor, Shl, Poly;
    var d := c.degree;
    var reg := Shl(high, d - 8) + low;
    PolyOne(b);
    XorDisjoint(high, low, d - 8);
    ShlXor(Shl(high, d - 8), low, 8);
    ShlAdd(high, d - 8, 8);
    ShlXor(high, Val(b), d);
    var hi, lo, msg := Shl(high, d), Shl(low, 8), Shl(Val(b), d);
    assert Shl(reg, 8) == Xor(hi, lo);
    XorComm(hi, lo);
    XorAssoc(lo, hi, msg);
    assert Xor(Shl(reg, 8), msg) == Xor(lo, Shl(Xor(high, Val(b)), d));
    ModXor(c, lo, Shl(Xor(high, Val(b)), d));
    ShlBelow(low, d - 8, 8);
    ModSmall(c, lo);
  }

  /** What a table of byte remainders holds at index j: j x^degree modulo the generator. */
  function TableValue(c: Code, j: nat): nat {
    c.Mod(Shl(j, c.degree))
  }

  lemma TableSum(c: Code, r: nat, l: nat, k: nat)
    requires c.Valid() && l < Shl(1, k)
    ensures TableValue(c, Shl(r, k) + l) == Xor(TableValue(c, Shl(r, k)), TableValue(c, l))
  {
    hide Xor;
    XorDisjoint(r, l, k);
    ShlXor(Shl(r, k), l, c.degree);
    ModXor(c, Shl(Shl(r, k), c.degree), Shl(l, c.degree));
  }

  lemma TableDouble(c: Code, j: nat)
    requires c.Valid()
    ensures TableValue(c, 2 * j) == c.TimesX(TableValue(c, j))
  {
    ShlDouble(j, c.degree);
    ModStep(c, Shl(j, c.degree), 0);
  }

  lemma TableOne(c: Code)
    requires c.Valid()
    ensures TableValue(c, 0) == 0
    ensures TableValue(c, 1) == Xor(c.Top(), c.poly)
  {
    ShlZero(c.degree);
    ModSmall(c, Shl(1, c.degree - 1));
    ModStep(c, Shl(1, c.degree - 1), 0);
  }

  /** A remainder taken first makes no difference. */
  lemma ModInside(c: Code, a: nat, k: nat, b: nat)
    requires c.Valid()
    ensures c.Mod(Xor(Shl(c.Mod(a), k), b)) == c.Mod(Xor(Shl(a, k), b))
  {
    hide *;
    ModMod(c, a);
    ModShl(c, c.Mod(a), k);
    ModShl(c, a, k);
    ModXor(c, Shl(c.Mod(a), k), b);
    ModXor(c, Shl(a, k), b);
  }

  lemma AbsorbIs(c: Code, register: nat, m: seq<uint8>)
    ensures Absorb(c, register, m) == c.Mod(Xor(Shl(register, 8 * |m|), Shl(Poly(m), c.degree)))
  {
    hide Xor, Shl, Poly;
  }

  lemma AbsorbConcat(c: Code, register: nat, m: seq<uint8>, n: seq<uint8>)
    requires c.Valid()
    ensures Absorb(c, register, m + n) == Absorb(c, Absorb(c, register, m), n)
  {
    hide *;
    var k, d := 8 * |n|, c.degree;
    var r, p, q := Shl(register, 8 * |m|), Shl(Poly(m), d), Shl(Poly(n), d);
    AbsorbIs(c, register, m);
    AbsorbIs(c, Absorb(c, register, m), n);
    AbsorbIs(c, register, m + n);
    ModInside(c, Xor(r, p), k, q);
    // shifting the two parts separately gives the parts of m + n
    ShlXor(r, p, k);
    ShlAdd(register, 8 * |m|, k);
    ShlAdd(Poly(m), d, k);
    ShlAdd(Poly(m), k, d);
    PolyConcat(m, n);
    ShlXor(Shl(Poly(m), k), Poly(n), d);
    XorAssoc(Shl(register, 8 * |m + n|), Shl(Poly(m), d + k), q);
  }

  lemma AbsorbNothing(c: Code, register: nat)
    requires c.Valid() && register < c.Top()
    ensures Absorb(c, register, []) == register
  {
    ShlZero(c.degree);
    XorZero(register);
    ModSmall(c, register);
  }

  // ----- what a remainder detects: an error pattern passes exactly when it is a multiple

  lemma PassesIffMultiple(c: Code, error: nat)
    requires c.Valid()
    ensures c.Mod(error) == 0 <==> Divides(c.poly, error)
  {
    DivisionTheorem(c, error, 0);
    ShlZero(c.degree);
    XorZero(error);
  }

  /** A burst: a non-zero pattern no wider than the remainder, at any offset. */
  lemma BurstDetected(c: Code, pattern: nat, offset: nat)
    requires c.Valid() && 0 < pattern < c.Top()
    ensures c.Mod(Shl(pattern, offset)) != 0
  {
    ModShl(c, pattern, offset);
    ModSmall(c, pattern);
    TimesXPowNonZero(c, offset, pattern);
  }

  lemma {:induction false} ModParity(c: Code, a: nat)
    requires c.Valid() && Parity(c.poly) == 0
    ensures Parity(c.Mod(a)) == Parity(a)
  {
    if a != 0 {
      var r, e := c.Mod(a / 2), a % 2;
      ModParity(c, a / 2);
      ParityDouble(r, e);
      ParityXor(2 * r + e, c.poly);
    }
  }

  /** Two flipped bits pass only if their distance is a period of x. */
  lemma TwoBitsPass(c: Code, i: nat, j: nat)
    requires c.Valid() && i < j
    ensures c.Mod(Xor(Shl(1, i), Shl(1, j))) == 0 <==> c.TimesXPow(j - i, 1) == 1
  {
    hide *;
    ModXor(c, Shl(1, i), Shl(1, j));
    ModShl(c, 1, i);
    ModShl(c, 1, j);
    OneSmall(c);
    ModSmall(c, 1);
    XorEqualsZero(c.TimesXPow(i, 1), c.TimesXPow(j, 1));
    TimesXPowAdd(c, i, j - i, 1);
    TimesXPowBelow(c, j - i, 1);
    TimesXPowInjective(c, i, 1, c.TimesXPow(j - i, 1));
  }

  lemma OneSmall(c: Code)
    requires c.Valid()
    ensures 1 < c.Top()
  {
    ShlZero(c.degree - 1);
  }

  // ----- the period of x

  ghost predicate Period(c: Code, k: nat) {
    c.TimesXPow(k, 1) == 1
  }

  lemma PeriodDifference(c: Code, j: nat, k: nat)
    requires c.Valid() && j <= k && Period(c, j) && Period(c, k)
    ensures Period(c, k - j)
  {
    OneSmall(c);
    TimesXPowAdd(c, j, k - j, 1);
    TimesXPowBelow(c, k - j, 1);
    TimesXPowInjective(c, j, c.TimesXPow(k - j, 1), 1);
  }

  lemma {:induction false} PeriodMultiple(c: Code, k: nat, m: nat)
    requires Period(c, k)
    ensures Period(c, m * k)
  {
    if m != 0 {
      PeriodMultiple(c, k, m - 1);
      TimesXPowAdd(c, k, (m - 1) * k, 1);
      assert k + (m - 1) * k == m * k;
    }
  }

  /** Euclid's algorithm by subtraction: the greatest common divisor of two periods is
      a period. */
  lemma {:induction false} PeriodGcd(c: Code, j: nat, k: nat) returns (g: nat, m: nat, n: nat)
    requires c.Valid() && 0 < j && 0 < k && Period(c, j) && Period(c, k)
    ensures Period(c, g) && 0 < g && m * g == j && n * g == k
    decreases j + k
  {
    if j == k {
      g, m, n := j, 1, 1;
    } else if j < k {
      PeriodDifference(c, j, k);
      g, m, n := PeriodGcd(c, j, k - j);
      assert (m + n) * g == k;
      n := m + n;
    } else {
      PeriodDifference(c, k, j);
      g, m, n := PeriodGcd(c, j - k, k);
      assert (m + n) * g == j;
      m := m + n;
    }
  }

  /** Euclid's algorithm with Bezout's coefficients. */
  lemma {:induction false} Bezout(j: nat, k: nat) returns (g: nat, m: nat, n: nat, x: int, y: int)
    requires 0 < j && 0 < k
    ensures 0 < g && m * g == j && n * g == k && x * j + y * k == g
    decreases j + k
  {
    if j == k {
      g, m, n, x, y := j, 1, 1, 1, 0;
    } else if j < k {
      g, m, n, x, y := Bezout(j, k - j);
      assert (m + n) * g == k && (x - y) * j + y * k == x * j + y * (k - j);
      n, x := m + n, x - y;
    } else {
      g, m, n, x, y := Bezout(j - k, k);
      assert (m + n) * g == j && x * j + (y - x) * k == x * (j - k) + y * k;
      m, y := m + n, y - x;
    }
  }

  ghost predicate Prime(p: nat) {
    p > 1 && forall d: nat, e: nat | d * e == p :: d == 1 || d == p
  }

  lemma CombineMultiples(g: int, m: int, n: int, p: int, x: int, y: int)
    requires m * g == p * n && x * g + y * p == 1
    ensures (n * x + y * m) * g == n
  {
    calc {
      (n * x + y * m) * g;
      n * x * g + y * m * g;
      { assert n * x * g == n * (x * g); assert y * m * g == y * (m * g); }
      n * (x * g) + y * (p * n);
      { assert y * (p * n) == n * (y * p); }
      n * (x * g) + n * (y * p);
      n * (x * g + y * p);
    }
  }

  lemma PrimeDivisor(p: nat, v: nat, h: nat)
    requires Prime(p) && v * h == p
    ensures h == 1 || h == p
  {
    assert h * v == p;
  }

  /** A divisor of p n that the prime p does not divide divides n. */
  lemma DivisorWithoutPrime(p: nat, n: nat, g: nat, m: nat) returns (a: int)
    requires Prime(p) && 0 < g && m * g == p * n
    ensures a * g == n || a * p == g
  {
    hide Prime;
    var h, u, v, x, y := Bezout(g, p) by { OneBelowPrime(p); }
    PrimeDivisor(p, v, h) by { assert v * h == p; }
    if h == p {
      a := u;
    } else {
      CombineMultiples(g, m, n, p, x, y);
      a := n * x + y * m;
    }
  }

  lemma OneBelowPrime(p: nat)
    requires Prime(p)
    ensures 0 < p
  {
  }

  lemma PositiveFactor(a: int, g: nat, n: nat)
    requires a * g == n && 0 < n
    ensures 0 < a
  {
    if a <= 0 { NotPositive(a, g); }
  }

  lemma NotPositive(a: int, g: nat)
    requires a <= 0
    ensures a * g <= 0
  {
  }

  // ----- products of remainders, to compute high powers of x

  lemma {:induction false} PowerAsProduct(c: Code, k: nat, r: nat)
    requires c.Valid() && r < c.Top()
    ensures c.TimesXPow(k, r) == c.MulMod(r, c.TimesXPow(k, 1))
  {
    var p := c.TimesXPow(k, 1);
    ShlZero(c.degree);
    if r == 0 {
      TimesXPowNonZero(c, k, 0);
    } else {
      var h, e := r / 2, r % 2;
      PowerAsProduct(c, k, h);
      assert c.TimesX(h) == 2 * h;
      TimesXPowCommutes(c, k, h);
      XorDisjoint(h, e, 1);
      assert Shl(h, 1) == 2 * h;
      assert r == Xor(e, 2 * h) by { XorComm(2 * h, e); }
      OneSmall(c);
      TimesXPowXor(c, k, e, 2 * h);
      if e == 0 { TimesXPowNonZero(c, k, 0); }
    }
  }

  lemma {:induction false} MulModBelow(c: Code, r: nat, s: nat)
    requires c.Valid() && s < c.Top()
    ensures c.MulMod(r, s) < c.Top()
  {
    ShlZero(c.degree);
    if r != 0 {
      MulModBelow(c, r / 2, s);
      TimesXBelow(c, c.MulMod(r / 2, s));
      XorBelow(if r % 2 == 1 then s else 0, c.TimesX(c.MulMod(r / 2, s)), c.degree);
    }
  }

  lemma MulModStep(c: Code, h: nat, e: bit, s: nat)
    ensures c.MulMod(2 * h + e, s) == Xor(if e == 1 then s else 0, c.TimesX(c.MulMod(h, s)))
       || (h == e == 0 && c.MulMod(2 * h + e, s) == 0)
  {
    assert (2 * h + e) / 2 == h && (2 * h + e) % 2 == e;
  }

  lemma TimesXPowCommutes(c: Code, k: nat, r: nat)
    ensures c.TimesXPow(k, c.TimesX(r)) == c.TimesX(c.TimesXPow(k, r))
  {
    TimesXPowAdd(c, k, 1, r);
    assert c.TimesXPow(1, r) == c.TimesX(r);
  }

  /** x^j times x^k. */
  lemma PowerProduct(c: Code, j: nat, k: nat)
    requires c.Valid()
    ensures c.MulMod(c.TimesXPow(k, 1), c.TimesXPow(j, 1)) == c.TimesXPow(j + k, 1)
  {
    OneSmall(c);
    TimesXPowBelow(c, k, 1);
    PowerAsProduct(c, j, c.TimesXPow(k, 1));
    TimesXPowAdd(c, j, k, 1);
  }
}
