/** Unsigned C integers. Every one is kept in a 32-bit word, the narrower types being
    the small words, so the promotions and truncations of C are written out as masks.
    `Val` is the number, and the polynomial, whose binary digits the word holds. */
module Word {
  import opened Gf2

  type uint32 = bv32
  type uint16 = w: bv32 | w <= 0xFFFF
  type uint8 = w: bv32 | w <= 0xFF

  function LowBit(w: uint32): bit {
    if w & 1 == 1 then 1 else 0
  }

  function Val(w: uint32): nat {
    if w == 0 then 0 else 2 * Val(w >> 1) + LowBit(w)
  }

  /** A word is its upper digits and its last one. Facts about the digits of a word are
      kept apart from facts about its value, in lemmas of their own. */
  lemma ValUnfold(w: uint32, half: uint32, last: bit)
    requires w >> 1 == half && LowBit(w) == last
    ensures Val(w) == 2 * Val(half) + last
  {
  }

  lemma XorDigits(v: uint32, w: uint32)
    ensures (v ^ w) >> 1 == (v >> 1) ^ (w >> 1)
    ensures LowBit(v ^ w) == BitXor(LowBit(v), LowBit(w))
  {
  }

  lemma OrShrinks(v: uint32, w: uint32)
    requires v | w != 0
    ensures (v >> 1) | (w >> 1) < v | w
  {
  }

  /** C's `^` adds polynomials. */
  lemma {:induction false} ValXor(v: uint32, w: uint32)
    ensures Val(v ^ w) == Xor(Val(v), Val(w))
    decreases v | w
  {
    if v | w == 0 {
      ZeroDigits(v, w);
    } else {
      OrShrinks(v, w);
      ValXor(v >> 1, w >> 1);
      ValXorStep(v, w, v >> 1, w >> 1, LowBit(v), LowBit(w));
    }
  }

  lemma ZeroDigits(v: uint32, w: uint32)
    requires v | w == 0
    ensures v == w == 0 && v ^ w == 0
  {
  }

  lemma ValXorStep(v: uint32, w: uint32, a: uint32, b: uint32, d: bit, e: bit)
    requires v >> 1 == a && w >> 1 == b && LowBit(v) == d && LowBit(w) == e
    requires Val(a ^ b) == Xor(Val(a), Val(b))
    ensures Val(v ^ w) == Xor(Val(v), Val(w))
  {
    hide *;
    XorDigits(v, w);
    ValUnfold(v, a, d);
    ValUnfold(w, b, e);
    ValUnfold(v ^ w, a ^ b, BitXor(d, e));
    XorDouble(Val(a), d, Val(b), e);
  }

  lemma DoubleDigits(w: uint32)
    requires w < 0x8000_0000
    ensures (w << 1) >> 1 == w && LowBit(w << 1) == 0
  {
  }

  /** C's `<< 1` multiplies by x, as long as no bit is pushed out. */
  lemma ValDouble(w: uint32)
    requires w < 0x8000_0000
    ensures Val(w << 1) == 2 * Val(w)
  {
    hide *;
    DoubleDigits(w);
    ValUnfold(w << 1, w, 0);
  }

  /** Four steps down, one binary digit a step. Kept as a predicate so that a proof about
      values need not look at digits. */
  ghost predicate Four(w: uint32, a: uint32, b: uint32, c: uint32, d: uint32) {
    w >> 1 == a && a >> 1 == b && b >> 1 == c && c >> 1 == d
  }

  ghost predicate Even(w: uint32, a: uint32, b: uint32, c: uint32) {
    LowBit(w) == LowBit(a) == LowBit(b) == LowBit(c) == 0
  }

  lemma FourDigits(w: uint32, a: uint32, b: uint32, c: uint32, d: uint32)
    requires Four(w, a, b, c, d)
    ensures 16 * Val(d) <= Val(w) < 16 * Val(d) + 16
    ensures Even(w, a, b, c) ==> Val(w) == 16 * Val(d)
  {
    hide Val, LowBit;
    ValUnfold(w, a, LowBit(w));
    ValUnfold(a, b, LowBit(a));
    ValUnfold(b, c, LowBit(b));
    ValUnfold(c, d, LowBit(c));
  }

  lemma NibbleUpDigits(w: uint32)
    requires w <= 0xFFF_FFFF
    ensures Four(w << 4, w << 3, w << 2, w << 1, w)
    ensures Even(w << 4, w << 3, w << 2, w << 1)
  {
  }

  lemma ValNibbleUp(w: uint32)
    requires w <= 0xFFF_FFFF
    ensures Val(w << 4) == 16 * Val(w)
  {
    hide *;
    NibbleUpDigits(w);
    FourDigits(w << 4, w << 3, w << 2, w << 1, w);
  }

  lemma ByteUpDigits(w: uint32)
    requires w <= 0xFF_FFFF
    ensures w <= 0xFFF_FFFF && w << 4 <= 0xFFF_FFFF && w << 8 == (w << 4) << 4
  {
  }

  lemma ValByteUp(w: uint32)
    requires w <= 0xFF_FFFF
    ensures Val(w << 8) == Shl(Val(w), 8)
  {
    hide *;
    ByteUpDigits(w);
    ValNibbleUp(w);
    ValNibbleUp(w << 4);
    ShlByte(Val(w));
  }

  lemma ShlByte(a: nat)
    ensures Shl(a, 8) == 256 * a
  {
    assert Shl(a, 0) == a;
    assert Shl(a, 2) == 4 * a;
    assert Shl(a, 4) == 16 * a;
    assert Shl(a, 6) == 64 * a;
  }

  /** Two words with their upper digits and their last ones. */
  ghost predicate Halves(v: uint32, w: uint32, a: uint32, b: uint32, d: bit, e: bit) {
    v >> 1 == a && w >> 1 == b && LowBit(v) == d && LowBit(w) == e
  }

  lemma HalvesOf(v: uint32, w: uint32)
    ensures Halves(v, w, v >> 1, w >> 1, LowBit(v), LowBit(w))
  {
  }

  lemma SameDigits(v: uint32, w: uint32, a: uint32, d: bit)
    requires Halves(v, w, a, a, d, d)
    ensures v == w
  {
  }

  lemma ValHalves(v: uint32, w: uint32, a: uint32, b: uint32, d: bit, e: bit)
    requires Halves(v, w, a, b, d, e)
    ensures Val(v) == 2 * Val(a) + d && Val(w) == 2 * Val(b) + e
  {
    ValUnfold(v, a, d);
    ValUnfold(w, b, e);
  }

  lemma ValZeroOnly(w: uint32)
    ensures Val(w) == 0 <==> w == 0
  {
    if w != 0 && LowBit(w) == 0 {
      SameOrSmaller(w);
      ValZeroOnly(w >> 1);
    }
  }

  lemma SameOrSmaller(w: uint32)
    requires w != 0 && LowBit(w) == 0
    ensures 0 != w >> 1 < w
  {
  }

  lemma {:induction false} ValInjective(v: uint32, w: uint32)
    requires Val(v) == Val(w)
    ensures v == w
    decreases Val(v)
  {
    hide *;
    if Val(v) == 0 {
      ValZeroOnly(v);
      ValZeroOnly(w);
    } else {
      HalvesOf(v, w);
      InjectiveStep(v, w, v >> 1, w >> 1, LowBit(v), LowBit(w));
    }
  }

  lemma {:induction false} InjectiveStep(v: uint32, w: uint32, a: uint32, b: uint32, d: bit, e: bit)
    requires Val(v) == Val(w) != 0 && Halves(v, w, a, b, d, e)
    ensures v == w
    decreases Val(v), 0
  {
    hide *;
    ValHalves(v, w, a, b, d, e);
    ValInjective(a, b);
    SameDigits(v, w, a, d);
  }

  /** The digits of v = w + 1. */
  ghost predicate Next(v: uint32, w: uint32, a: uint32, b: uint32, d: bit, e: bit) {
    Halves(v, w, a, b, d, e) && if e == 1 then b <= 0xFF && a == b + 1 && d == 0 else a == b && d == 1
  }

  lemma NextDigits(w: uint32)
    requires w <= 0xFF
    ensures Next(w + 1, w, (w + 1) >> 1, w >> 1, LowBit(w + 1), LowBit(w))
  {
  }

  /** Counting up, as far as a table index goes. */
  lemma {:induction false} ValNext(w: uint32)
    requires w <= 0xFF
    ensures Val(w + 1) == Val(w) + 1
    decreases Val(w)
  {
    hide *;
    NextDigits(w);
    NextStep(w + 1, w, (w + 1) >> 1, w >> 1, LowBit(w + 1), LowBit(w));
  }

  lemma {:induction false} NextStep(v: uint32, w: uint32, a: uint32, b: uint32, d: bit, e: bit)
    requires Next(v, w, a, b, d, e)
    ensures Val(v) == Val(w) + 1
    decreases Val(w), 0
  {
    hide Val, LowBit;
    ValHalves(v, w, a, b, d, e);
    if e == 1 { ValNext(b); }
  }

  lemma NibbleDownDigits(w: uint32)
    ensures Four(w, w >> 1, w >> 2, w >> 3, w >> 4)
    ensures (w >> 4) >> 4 == w >> 8
  {
  }

  /** The last four binary digits. */
  lemma ValNibbleDown(w: uint32)
    ensures 16 * Val(w >> 4) <= Val(w) < 16 * Val(w >> 4) + 16
  {
    hide *;
    NibbleDownDigits(w);
    FourDigits(w, w >> 1, w >> 2, w >> 3, w >> 4);
  }

  /** The last eight binary digits. */
  lemma ValByteDown(w: uint32)
    ensures 256 * Val(w >> 8) <= Val(w) < 256 * Val(w >> 8) + 256
  {
    hide *;
    NibbleDownDigits(w);
    ValNibbleDown(w);
    ValNibbleDown(w >> 4);
  }

  ghost predicate Bytes(w: uint32, a: uint32, b: uint32, c: uint32) {
    w >> 8 == a && a >> 8 == b && b >> 8 == c && c >> 8 == 0
  }

  lemma ByteDownDigits(w: uint32)
    ensures Bytes(w, w >> 8, w >> 16, w >> 24)
    ensures w <= 0xFF_FFFF ==> w >> 24 == 0
    ensures w <= 0xFFFF ==> w >> 16 == 0
    ensures w <= 0xFF ==> w >> 8 == 0
  {
  }

  lemma FourBytes(w: uint32, a: uint32, b: uint32, c: uint32)
    requires Bytes(w, a, b, c)
    ensures Val(w) < 0x1_0000_0000
    ensures c == 0 ==> Val(w) < 0x100_0000
    ensures b == 0 ==> Val(w) < 0x1_0000
    ensures a == 0 ==> Val(w) < 0x100
  {
    hide Val;
    ValZero();
    ValByteDown(w);
    ValByteDown(a);
    ValByteDown(b);
    ValByteDown(c);
  }

  /** The widths of the C types, in bits. */
  lemma ValBelow(w: uint32)
    ensures Val(w) < 0x1_0000_0000
    ensures w <= 0xFF_FFFF ==> Val(w) < 0x100_0000
    ensures w <= 0xFFFF ==> Val(w) < 0x1_0000
    ensures w <= 0xFF ==> Val(w) < 0x100
  {
    hide *;
    ByteDownDigits(w);
    FourBytes(w, w >> 8, w >> 16, w >> 24);
  }

  lemma HalfFits(w: uint32)
    requires Val(w) < 0x1_0000
    ensures w <= 0xFFFF
  {
    hide Val;
    ByteDownDigits(w);
    FourBytesUp(w, w >> 8, w >> 16, w >> 24);
    ShortDigits(w);
  }

  lemma FourBytesUp(w: uint32, a: uint32, b: uint32, c: uint32)
    requires Bytes(w, a, b, c) && Val(w) < 0x1_0000
    ensures b == 0
  {
    hide Val;
    ValByteDown(w);
    ValByteDown(a);
    ValZeroOnly(b);
  }

  lemma ShortDigits(w: uint32)
    requires w >> 16 == 0
    ensures w <= 0xFFFF
  {
  }

  lemma ValZero()
    ensures Val(0) == 0
  {
  }

  lemma Powers()
    ensures Shl(1, 8) == 0x100
    ensures Shl(1, 16) == 0x1_0000
    ensures Shl(1, 24) == 0x100_0000
    ensures Shl(1, 32) == 0x1_0000_0000
  {
    hide Shl;
    assert Shl(1, 0) == 1 by { ShlNothing(1); }
    ShlAdd(1, 0, 8);  ShlByte(1);
    ShlAdd(1, 8, 8);  ShlByte(0x100);
    ShlAdd(1, 16, 8); ShlByte(0x1_0000);
    ShlAdd(1, 24, 8); ShlByte(0x100_0000);
  }

  lemma ShlNothing(a: nat)
    ensures Shl(a, 0) == a
  {
  }

  lemma ByteBelow(b: uint8)
    ensures Val(b) < Shl(1, 8) == 256
  {
    Powers();
    ValBelow(b);
  }

  // ----- facts about digits, named so that a proof about values can leave them folded

  /** C's `^`. */
  function Plus(v: uint32, w: uint32): uint32 {
    v ^ w
  }

  lemma ValPlus(v: uint32, w: uint32)
    ensures Val(Plus(v, w)) == Xor(Val(v), Val(w))
  {
    hide Val, Xor;
    ValXor(v, w);
  }

  ghost predicate IsDouble(u: uint32, w: uint32) {
    u == w << 1 && w < 0x8000_0000
  }

  lemma ValIsDouble(u: uint32, w: uint32)
    requires IsDouble(u, w)
    ensures Val(u) == 2 * Val(w)
  {
    hide Val;
    ValDouble(w);
  }

  // ----- byte strings as polynomials

  /** The polynomial of a byte string, most significant bit of the first byte first. */
  function Poly(bytes: seq<uint8>): nat {
    if bytes == [] then 0 else Xor(Shl(Poly(bytes[..|bytes| - 1]), 8), Val(bytes[|bytes| - 1]))
  }

  lemma {:induction false} PolyConcat(a: seq<uint8>, b: seq<uint8>)
    ensures Poly(a + b) == Xor(Shl(Poly(a), 8 * |b|), Poly(b))
  {
    hide Xor, Shl;
    if b == [] {
      assert a + b == a;
      XorZero(Poly(a));
      ShlNothing(Poly(a));
    } else {
      var m, n := |b| - 1, |a + b| - 1;
      assert (a + b)[..n] == a + b[..m];
      PolyConcat(a, b[..m]);
      ShlXor(Shl(Poly(a), 8 * m), Poly(b[..m]), 8);
      ShlAdd(Poly(a), 8 * m, 8);
      XorAssoc(Shl(Poly(a), 8 * |b|), Shl(Poly(b[..m]), 8), Val(b[m]));
    }
  }

  lemma PolyOne(b: uint8)
    ensures Poly([b]) == Val(b)
  {
    ShlZero(8);
    XorZero(Val(b));
  }

  lemma {:induction false} PolyBelow(bytes: seq<uint8>)
    ensures Poly(bytes) < Shl(1, 8 * |bytes|)
  {
    if bytes != [] {
      var m := |bytes| - 1;
      PolyBelow(bytes[..m]);
      ShlBelow(Poly(bytes[..m]), 8 * m, 8);
      ByteBelow(bytes[m]);
      ShlGrows(8, 8 * m);
      XorBelow(Shl(Poly(bytes[..m]), 8), Val(bytes[m]), 8 * |bytes|);
    }
  }

  /** The bits in which two byte strings of one length differ, as a polynomial. */
  function Difference(sent: seq<uint8>, received: seq<uint8>): nat {
    Xor(Poly(sent), Poly(received))
  }

  lemma DifferenceChain(a: seq<uint8>, b: seq<uint8>, c: seq<uint8>)
    ensures Difference(a, c) == Xor(Difference(a, b), Difference(b, c))
  {
    hide Xor, Poly;
    XorAssoc(Poly(a), Poly(b), Difference(b, c));
    XorCancel(Poly(b), Poly(c));
  }

  /** The byte with bit k set. */
  function Mask(k: nat): uint8
    requires k < 8
  {
    match k
    case 0 => 0x01
    case 1 => 0x02
    case 2 => 0x04
    case 3 => 0x08
    case 4 => 0x10
    case 5 => 0x20
    case 6 => 0x40
    case _ => 0x80
  }

  lemma MaskDigits(k: nat)
    requires 0 < k < 8
    ensures IsDouble(Mask(k), Mask(k - 1))
  {
  }

  lemma {:induction false} MaskValue(k: nat)
    requires k < 8
    ensures Val(Mask(k)) == Shl(1, k)
  {
    if k == 0 {
      ValZero();
      ValUnfold(1, 0, 1);
    } else {
      hide Mask, Val;
      MaskValue(k - 1);
      MaskDigits(k);
      ValIsDouble(Mask(k), Mask(k - 1));
    }
  }

  lemma ByteXor(b: uint8, m: uint8)
    ensures b ^ m <= 0xFF
  {
  }

  /** Flip bit i, counted from the last bit of the last byte. */
  function Flip(bytes: seq<uint8>, i: nat): (flipped: seq<uint8>)
    requires i < 8 * |bytes|
    ensures |flipped| == |bytes|
  {
    var p := |bytes| - 1 - i / 8;
    ByteXor(bytes[p], Mask(i % 8));
    bytes[p := bytes[p] ^ Mask(i % 8)]
  }

  lemma {:induction false} PolyUpdate(bytes: seq<uint8>, p: nat, b: uint8, change: nat)
    requires p < |bytes| && Val(b) == Xor(Val(bytes[p]), change)
    ensures Poly(bytes[p := b]) == Xor(Poly(bytes), Shl(change, 8 * (|bytes| - 1 - p)))
  {
    hide Val, Xor, Shl;
    var n := |bytes| - 1;
    var updated := bytes[p := b];
    if p == n {
      assert updated[..n] == bytes[..n];
      XorAssoc(Shl(Poly(bytes[..n]), 8), Val(bytes[n]), change);
      ShlNothing(change);
    } else {
      assert updated[..n] == bytes[..n][p := b];
      PolyUpdate(bytes[..n], p, b, change);
      UpdateBefore(Poly(bytes[..n]), change, 8 * (n - 1 - p), Val(bytes[n]));
    }
  }

  lemma UpdateBefore(a: nat, m: nat, k: nat, b: nat)
    ensures Xor(Shl(Xor(a, Shl(m, k)), 8), b) == Xor(Xor(Shl(a, 8), b), Shl(m, k + 8))
  {
    hide *;
    ShlXor(a, Shl(m, k), 8);
    ShlAdd(m, k, 8);
    XorAssoc(Shl(a, 8), Shl(m, k + 8), b);
    XorComm(Shl(m, k + 8), b);
    XorAssoc(Shl(a, 8), b, Shl(m, k + 8));
  }

  lemma FlippedByte(bytes: seq<uint8>, i: nat) returns (b: uint8)
    requires i < 8 * |bytes|
    ensures
      var p := |bytes| - 1 - i / 8;
      b == Plus(bytes[p], Mask(i % 8)) && Flip(bytes, i) == bytes[p := b]
  {
    var p := |bytes| - 1 - i / 8;
    ByteXor(bytes[p], Mask(i % 8));
    b := bytes[p] ^ Mask(i % 8);
  }

  lemma FlipDifference(bytes: seq<uint8>, i: nat)
    requires i < 8 * |bytes|
    ensures Difference(bytes, Flip(bytes, i)) == Shl(1, i)
  {
    hide Val, Xor, Shl, Poly, Mask, Flip, Plus;
    var p := |bytes| - 1 - i / 8;
    var b := FlippedByte(bytes, i);
    ValPlus(bytes[p], Mask(i % 8));
    PolyUpdate(bytes, p, b, Val(Mask(i % 8)));
    MaskValue(i % 8);
    ShlAdd(1, i % 8, 8 * (i / 8));
    XorCancel(Poly(bytes), Shl(1, i));
  }
}
