/** Polynomials over GF(2). A natural number stands for the polynomial whose
    coefficient of x^i is bit i of the number, so an unsigned C integer is
    already a polynomial and C's `^` is polynomial addition. */
module Gf2 {

  type bit = b: nat | b < 2

  function BitXor(d: bit, e: bit): bit {
    if d == e then 0 else 1
  }

  /** Addition of polynomials: bitwise exclusive or. */
  function Xor(a: nat, b: nat): nat
    decreases a + b
  {
    if a == 0 && b == 0 then 0 else 2 * Xor(a / 2, b / 2) + BitXor(a % 2, b % 2)
  }

  /** Multiplication by x^k: a left shift that drops nothing. */
  function Shl(a: nat, k: nat): nat {
    if k == 0 then a else 2 * Shl(a, k - 1)
  }

  /** Multiplication of polynomials. */
  function Mul(a: nat, b: nat): nat {
    if a == 0 then 0 else Xor(if a % 2 == 1 then b else 0, 2 * Mul(a / 2, b))
  }

  /** The number of terms of a polynomial, modulo 2. */
  function Parity(a: nat): bit {
    if a == 0 then 0 else BitXor(a % 2, Parity(a / 2))
  }

  // ----- addition is an abelian group of exponent 2

  lemma {:induction false} XorZero(a: nat)
    ensures Xor(a, 0) == a == Xor(0, a)
  {
    if a != 0 { XorZero(a / 2); }
  }

  lemma {:induction false} XorSelf(a: nat)
    ensures Xor(a, a) == 0
  {
    if a != 0 { XorSelf(a / 2); }
  }

  lemma {:induction false} XorComm(a: nat, b: nat)
    ensures Xor(a, b) == Xor(b, a)
    decreases a + b
  {
    if a + b != 0 { XorComm(a / 2, b / 2); }
  }

  lemma XorHalf(a: nat, b: nat)
    ensures Xor(a, b) / 2 == Xor(a / 2, b / 2)
    ensures Xor(a, b) % 2 == BitXor(a % 2, b % 2)
  {
  }

  /** One binary digit at a time: (2a + e) + (2b + f) = 2(a + b) + (e + f). */
  lemma XorDouble(a: nat, e: bit, b: nat, f: bit)
    ensures Xor(2 * a + e, 2 * b + f) == 2 * Xor(a, b) + BitXor(e, f)
  {
    assert (2 * a + e) / 2 == a && (2 * b + f) / 2 == b;
  }

  lemma XorAssocStep(a: nat, d: bit, b: nat, e: bit, c: nat, f: bit)
    requires Xor(Xor(a, b), c) == Xor(a, Xor(b, c))
    ensures Xor(Xor(2 * a + d, 2 * b + e), 2 * c + f) == Xor(2 * a + d, Xor(2 * b + e, 2 * c + f))
  {
    XorDouble(a, d, b, e);
    XorDouble(Xor(a, b), BitXor(d, e), c, f);
    XorDouble(b, e, c, f);
    XorDouble(a, d, Xor(b, c), BitXor(e, f));
  }

  lemma {:induction false} XorAssoc(a: nat, b: nat, c: nat)
    ensures Xor(Xor(a, b), c) == Xor(a, Xor(b, c))
    decreases a + b + c
  {
    if a + b + c != 0 {
      XorAssoc(a / 2, b / 2, c / 2);
      XorAssocStep(a / 2, a % 2, b / 2, b % 2, c / 2, c % 2);
    }
  }

  /** The four-term exchange used whenever two sums are added. */
  lemma XorExchange(a: nat, b: nat, c: nat, d: nat)
    ensures Xor(Xor(a, b), Xor(c, d)) == Xor(Xor(a, c), Xor(b, d))
  {
    XorAssoc(a, b, Xor(c, d));
    XorAssoc(b, c, d);
    XorComm(b, c);
    XorAssoc(c, b, d);
    XorAssoc(a, c, Xor(b, d));
  }

  lemma XorCancel(a: nat, b: nat)
    ensures Xor(a, Xor(a, b)) == b
    ensures Xor(Xor(b, a), a) == b
  {
    XorAssoc(a, a, b);
    XorAssoc(b, a, a);
    XorSelf(a);
    XorZero(b);
  }

  lemma XorEqualsZero(a: nat, b: nat)
    ensures Xor(a, b) == 0 <==> a == b
  {
    XorSelf(a);
    XorCancel(a, b);
    XorZero(a);
  }

  // ----- degrees and shifts

  lemma {:induction false} ShlAdd(a: nat, j: nat, k: nat)
    ensures Shl(Shl(a, j), k) == Shl(a, j + k)
  {
    if k != 0 { ShlAdd(a, j, k - 1); }
  }

  lemma ShlNibble(a: nat)
    ensures Shl(a, 0) == a && Shl(a, 1) == 2 * a && Shl(a, 2) == 4 * a
    ensures Shl(a, 3) == 8 * a && Shl(a, 4) == 16 * a
  {
    assert Shl(a, 0) == a;
    assert Shl(a, 2) == 4 * a;
  }

  lemma ParityDouble(r: nat, e: bit)
    ensures Parity(2 * r + e) == BitXor(e, Parity(r))
  {
    assert (2 * r + e) / 2 == r && (2 * r + e) % 2 == e;
  }

  lemma ShlDouble(a: nat, k: nat)
    ensures Shl(2 * a, k) == 2 * Shl(a, k)
  {
    ShlAdd(a, 1, k);
    assert Shl(a, 1) == 2 * a;
  }

  lemma {:induction false} ShlZero(k: nat)
    ensures Shl(0, k) == 0
    ensures Shl(1, k) > 0
  {
    if k != 0 { ShlZero(k - 1); }
  }

  lemma {:induction false} ShlMonotone(a: nat, b: nat, k: nat)
    ensures a < b <==> Shl(a, k) < Shl(b, k)
  {
    if k != 0 { ShlMonotone(a, b, k - 1); }
  }

  lemma ShlBelow(a: nat, j: nat, k: nat)
    requires a < Shl(1, j)
    ensures Shl(a, k) < Shl(1, j + k)
  {
    ShlMonotone(a, Shl(1, j), k);
    ShlAdd(1, j, k);
  }

  lemma {:induction false} ShlXor(a: nat, b: nat, k: nat)
    ensures Shl(Xor(a, b), k) == Xor(Shl(a, k), Shl(b, k))
  {
    if k != 0 {
      ShlXor(a, b, k - 1);
      XorDouble(Shl(a, k - 1), 0, Shl(b, k - 1), 0);
    }
  }

  /** A polynomial of degree below k does not overlap a multiple of x^k. */
  lemma {:induction false} XorDisjoint(a: nat, b: nat, k: nat)
    requires b < Shl(1, k)
    ensures Xor(Shl(a, k), b) == Shl(a, k) + b
  {
    if k == 0 {
      XorZero(a);
    } else {
      XorDisjoint(a, b / 2, k - 1);
      XorDouble(Shl(a, k - 1), 0, b / 2, b % 2);
    }
  }

  /** The coefficient of x^k in a sum of polynomials of degree at most k. */
  lemma {:induction false} XorTop(a: nat, b: nat, k: nat)
    requires a < Shl(1, k + 1) && b < Shl(1, k + 1)
    ensures Xor(a, b) < Shl(1, k + 1)
    ensures Xor(a, b) < Shl(1, k) <==> (a < Shl(1, k) <==> b < Shl(1, k))
  {
    if k == 0 {
      assert Shl(1, 1) == 2;
      assert Xor(a / 2, b / 2) == 0;
    } else {
      XorTop(a / 2, b / 2, k - 1);
    }
  }

  lemma XorBelow(a: nat, b: nat, k: nat)
    requires a < Shl(1, k) && b < Shl(1, k)
    ensures Xor(a, b) < Shl(1, k)
  {
    XorTop(a, b, k);
  }

  lemma {:induction false} ParityXor(a: nat, b: nat)
    ensures Parity(Xor(a, b)) == BitXor(Parity(a), Parity(b))
    decreases a + b
  {
    if a + b != 0 {
      ParityXor(a / 2, b / 2);
      XorHalf(a, b);
    }
  }

  lemma {:induction false} ParityShl(a: nat, k: nat)
    ensures Parity(Shl(a, k)) == Parity(a)
  {
    if k != 0 { ParityShl(a, k - 1); }
  }

  lemma {:induction false} ShlGrows(j: nat, k: nat)
    ensures Shl(1, j) <= Shl(1, j + k)
  {
    if k != 0 { ShlGrows(j, k - 1); }
  }
}
