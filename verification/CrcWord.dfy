/** Remainders kept in 32-bit words: shifting, multiplication by shift and add, and the powers of x
    by repeated squaring. */
module CrcWord {
  import opened Gf2
  import opened Word
  import opened CrcCode

  /** Multiplication by x: if the top digit is set it is dropped and the generator's low digits
      are added. */
  function StepBy(low: uint32, top: uint32, w: uint32): uint32 {
    if w & top != 0 then ((w ^ top) << 1) ^ low else w << 1
  }

  /** Word s is x times word w. */
  ghost predicate Timed(c: Code, w: uint32, s: uint32) {
    Val(w) < c.Top() ==> Val(s) == c.TimesX(Val(w))
  }

  lemma TimedBy(c: Code, w: uint32, s: uint32)
    requires Val(w) < c.Top() ==> Val(s) == c.TimesX(Val(w))
    ensures Timed(c, w, s)
  {
  }

  /** Shifting with these digits is multiplication by x for this code. */
  ghost predicate Times(c: Code, low: uint32, top: uint32) {
    forall w :: Timed(c, w, StepBy(low, top, w))
  }

  lemma TimesBy(c: Code, low: uint32, top: uint32)
    requires forall w :: Timed(c, w, StepBy(low, top, w))
    ensures Times(c, low, top)
  {
  }

  lemma TimedAt(c: Code, low: uint32, top: uint32, w: uint32)
    requires Times(c, low, top) && Val(w) < c.Top()
    ensures Val(StepBy(low, top, w)) == c.TimesX(Val(w))
  {
    hide StepBy, Val;
    assert Timed(c, w, StepBy(low, top, w));
  }

  // ----- products

  /** One step of Horner's rule. */
  function Acc(low: uint32, top: uint32, q: uint32, s: uint32, a: uint32): uint32 {
    Plus(if q & 1 != 0 then s else 0, StepBy(low, top, a))
  }

  function MulNibble(low: uint32, top: uint32, q: uint32, s: uint32, a: uint32): uint32 {
    Acc(low, top, q, s, Acc(low, top, q >> 1, s, Acc(low, top, q >> 2, s, Acc(low, top, q >> 3, s, a))))
  }

  /** The low 16 digits of r, the others having given a. */
  function MulLow(low: uint32, top: uint32, r: uint32, s: uint32, a: uint32): uint32 {
    MulNibble(low, top, r, s, MulNibble(low, top, r >> 4, s,
      MulNibble(low, top, r >> 8, s, MulNibble(low, top, r >> 12, s, a))))
  }

  /** Word a is the product of the remainders q and s. */
  ghost predicate Product(c: Code, q: uint32, s: uint32, a: uint32) {
    Val(s) < c.Top() && Val(a) == c.MulMod(Val(q), Val(s))
  }

  lemma LowBitIs(q: uint32)
    ensures LowBit(q) == 1 <==> q & 1 != 0
  {
  }

  lemma AccProduct(c: Code, low: uint32, top: uint32, q: uint32, half: uint32, s: uint32, a: uint32)
    requires c.Valid() && Times(c, low, top) && Product(c, half, s, a) && q >> 1 == half
    ensures Product(c, q, s, Acc(low, top, q, s, a))
  {
    hide Val, Xor, Shl, StepBy, Plus, LowBit, Times;
    var e := LowBit(q);
    LowBitIs(q);
    ValUnfold(q, half, e);
    MulModBelow(c, Val(half), Val(s));
    TimedAt(c, low, top, a);
    ValPlus(if e == 1 then s else 0, StepBy(low, top, a));
    ValZero();
    MulModStep(c, Val(half), e, Val(s));
    ShlZero(c.degree);
    XorSelf(0);
  }

  lemma FourProducts(c: Code, low: uint32, top: uint32, q: uint32, q1: uint32, q2: uint32, q3: uint32, q4: uint32,
                     s: uint32, a: uint32)
    requires c.Valid() && Times(c, low, top) && Four(q, q1, q2, q3, q4) && Product(c, q4, s, a)
    ensures Product(c, q, s, Acc(low, top, q, s, Acc(low, top, q1, s, Acc(low, top, q2, s, Acc(low, top, q3, s, a)))))
  {
    hide Product, Acc, Times;
    var a3 := Acc(low, top, q3, s, a);
    var a2 := Acc(low, top, q2, s, a3);
    var a1 := Acc(low, top, q1, s, a2);
    AccProduct(c, low, top, q3, q4, s, a);
    AccProduct(c, low, top, q2, q3, s, a3);
    AccProduct(c, low, top, q1, q2, s, a2);
    AccProduct(c, low, top, q, q1, s, a1);
  }

  lemma NibbleProduct(c: Code, low: uint32, top: uint32, q: uint32, s: uint32, a: uint32)
    requires c.Valid() && Times(c, low, top) && Product(c, q >> 4, s, a)
    ensures Product(c, q, s, MulNibble(low, top, q, s, a))
  {
    hide Product, Acc, Four, Times;
    NibbleDownDigits(q);
    FourProducts(c, low, top, q, q >> 1, q >> 2, q >> 3, q >> 4, s, a);
  }

  /** Four steps of a nibble each. */
  ghost predicate Nibbles(r: uint32, r4: uint32, r8: uint32, r12: uint32, r16: uint32) {
    r >> 4 == r4 && r4 >> 4 == r8 && r8 >> 4 == r12 && r12 >> 4 == r16
  }

  lemma NibblesDigits(r: uint32)
    ensures Nibbles(r, r >> 4, r >> 8, r >> 12, r >> 16)
  {
  }

  lemma FourNibbles(c: Code, low: uint32, top: uint32, r: uint32, r4: uint32, r8: uint32, r12: uint32, r16: uint32,
                    s: uint32, a: uint32)
    requires c.Valid() && Times(c, low, top) && Nibbles(r, r4, r8, r12, r16) && Product(c, r16, s, a)
    ensures Product(c, r, s, MulNibble(low, top, r, s, MulNibble(low, top, r4, s,
              MulNibble(low, top, r8, s, MulNibble(low, top, r12, s, a)))))
  {
    hide Product, MulNibble, Times;
    var a3 := MulNibble(low, top, r12, s, a);
    var a2 := MulNibble(low, top, r8, s, a3);
    var a1 := MulNibble(low, top, r4, s, a2);
    NibbleProduct(c, low, top, r12, s, a);
    NibbleProduct(c, low, top, r8, s, a3);
    NibbleProduct(c, low, top, r4, s, a2);
    NibbleProduct(c, low, top, r, s, a1);
  }

  lemma LowProduct(c: Code, low: uint32, top: uint32, r: uint32, s: uint32, a: uint32)
    requires c.Valid() && Times(c, low, top) && Product(c, r >> 16, s, a)
    ensures Product(c, r, s, MulLow(low, top, r, s, a))
  {
    hide Product, MulNibble, Times, Nibbles;
    NibblesDigits(r);
    FourNibbles(c, low, top, r, r >> 4, r >> 8, r >> 12, r >> 16, s, a);
  }

  lemma ZeroProduct(c: Code, s: uint32)
    requires Val(s) < c.Top()
    ensures Product(c, 0, s, 0)
  {
    ValZero();
  }

  // ----- powers of x

  /** Word w is x^k modulo the generator. */
  ghost predicate Power(c: Code, k: nat, w: uint32) {
    Val(w) == c.TimesXPow(k, 1)
  }

  lemma PowerOne(c: Code)
    requires c.Valid() && c.degree > 1
    ensures Power(c, 0, 1) && Power(c, 1, 2)
  {
    hide Xor, Shl, Val;
    ValSmall();
    TwoSmall(c);
    assert c.TimesXPow(0, 1) == 1;
    assert c.TimesXPow(1, 1) == c.TimesX(c.TimesXPow(0, 1)) == 2;
  }

  lemma ValSmall()
    ensures Val(0) == 0 && Val(1) == 1 && Val(2) == 2
  {
    ValZero();
    ValUnfold(1, 0, 1);
    ValUnfold(2, 1, 0);
  }

  lemma TwoSmall(c: Code)
    requires c.degree > 1
    ensures 2 < c.Top()
  {
    ShlZero(c.degree - 2);
    assert Shl(1, c.degree) == 2 * Shl(1, c.degree - 1) == 4 * Shl(1, c.degree - 2);
  }

  lemma PowerBelow(c: Code, k: nat, w: uint32)
    requires c.Valid() && Power(c, k, w)
    ensures Val(w) < c.Top()
  {
    hide Val, Xor, Shl;
    OneSmall(c);
    TimesXPowBelow(c, k, 1);
  }

  lemma PowerTimes(c: Code, j: nat, v: uint32, k: nat, w: uint32, u: uint32)
    requires c.Valid() && Power(c, j, v) && Power(c, k, w) && Product(c, v, w, u)
    ensures Power(c, j + k, u)
  {
    hide Val, Xor, Shl;
    PowerProduct(c, k, j);
  }

  /** Were e a period, x^(e + k) would be x^k. */
  lemma NotPeriod(c: Code, e: nat, k: nat, v: uint32, w: uint32)
    requires Power(c, k + e, v) && Power(c, k, w) && v != w
    ensures !Period(c, e)
  {
    hide Val;
    TimesXPowAdd(c, k, e, 1);
    if Period(c, e) { ValInjective(v, w); }
  }

  /** x^(k + 1) = x makes k a period. */
  lemma PeriodFrom(c: Code, k: nat)
    requires c.Valid() && c.degree > 1 && Power(c, k + 1, 2)
    ensures Period(c, k)
  {
    hide Val, Xor, Shl;
    ValSmall();
    PowerOne(c);
    OneSmall(c);
    TimesXPowAdd(c, 1, k, 1);
    TimesXPowBelow(c, k, 1);
    TimesXPowInjective(c, 1, c.TimesXPow(k, 1), 1);
  }
}
