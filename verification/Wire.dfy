/** The bits on the wire as the coefficients of a polynomial, and errors on the wire. */
module Wire {
  import opened Gf2
  import opened Word
  import opened Spi
  import opened Common
  import SdCard
  import Crc16

  /** The polynomial of the bits driven, the first clock's the highest coefficient. */
  function OnWire(bits: seq<bool>): nat {
    if bits == [] then 0
    else 2 * OnWire(bits[..|bits| - 1]) + (if bits[|bits| - 1] then 1 else 0)
  }

  lemma OnWireNext(bits: seq<bool>, bit: bool)
    ensures OnWire(bits + [bit]) == 2 * OnWire(bits) + if bit then 1 else 0
  {
    assert (bits + [bit])[..|bits|] == bits;
  }

  /** The part of a byte that the first clocks drive. */
  function Top(b: uint8, clocks: nat): uint8
    requires clocks <= 8
    decreases 8 - clocks
  {
    if clocks == 8 then b else Top(b, clocks + 1) >> 1
  }

  lemma Tops(b: uint8)
    ensures Top(b, 8) == b && Top(b, 7) == b >> 1 && Top(b, 6) == b >> 2 && Top(b, 5) == b >> 3
    ensures Top(b, 4) == b >> 4 && Top(b, 3) == b >> 5 && Top(b, 2) == b >> 6 && Top(b, 1) == b >> 7
    ensures Top(b, 0) == 0
  {
    assert Top(b, 6) == Top(b, 7) >> 1;
    assert Top(b, 4) == Top(b, 5) >> 1;
    assert Top(b, 2) == Top(b, 3) >> 1;
    assert Top(b, 0) == Top(b, 1) >> 1;
  }

  lemma FirstDigits(b: uint8)
    ensures (b >> 7) & 1 == 1 <==> b & 0x80 != 0
    ensures (b >> 6) & 1 == 1 <==> b & 0x40 != 0
    ensures (b >> 5) & 1 == 1 <==> b & 0x20 != 0
    ensures (b >> 4) & 1 == 1 <==> b & 0x10 != 0
  {
  }

  lemma LastDigits(b: uint8)
    ensures (b >> 3) & 1 == 1 <==> b & 0x08 != 0
    ensures (b >> 2) & 1 == 1 <==> b & 0x04 != 0
    ensures (b >> 1) & 1 == 1 <==> b & 0x02 != 0
    ensures b & 1 == 1 <==> b & 0x01 != 0
  {
  }

  lemma TopBits(b: uint8, k: nat)
    requires k < 8
    ensures LowBit(Top(b, k + 1)) == if Bits(b)[k] then 1 else 0
  {
    hide Top;
    Tops(b);
    FirstDigits(b);
    LastDigits(b);
  }

  lemma {:induction false} ByteOnWire(before: seq<bool>, b: uint8, clocks: nat)
    requires clocks <= 8
    ensures OnWire(before + Bits(b)[..clocks]) == Xor(Shl(OnWire(before), clocks), Val(Top(b, clocks)))
  {
    hide Bits, OnWire, Top, Val, Xor;
    var p := OnWire(before);
    if clocks == 0 {
      assert before + Bits(b)[..0] == before;
      Tops(b);
      ValZero();
      XorZero(p);
    } else {
      var k, last := clocks - 1, LowBit(Top(b, clocks));
      ByteOnWire(before, b, k);
      assert before + Bits(b)[..clocks] == (before + Bits(b)[..k]) + [Bits(b)[k]];
      OnWireNext(before + Bits(b)[..k], Bits(b)[k]);
      TopBits(b, k);
      TopNext(b, k);
      ValUnfold(Top(b, clocks), Top(b, k), last);
      XorDouble(Shl(p, k), 0, Val(Top(b, k)), last);
    }
  }

  lemma TopNext(b: uint8, k: nat)
    requires k < 8
    ensures Top(b, k) == Top(b, k + 1) >> 1
  {
  }

  /** Bytes go out as their polynomial, highest coefficient first: the order on the wire is the
      order in which the checksums read them, so a burst on the wire is a burst there. */
  lemma {:induction false} WireIsPoly(data: seq<uint8>)
    ensures OnWire(AllBits(data)) == Poly(data)
  {
    hide Bits, Val, Xor, Shl;
    if data != [] {
      var n := |data| - 1;
      WireIsPoly(data[..n]);
      ByteOnWire(AllBits(data[..n]), data[n], 8);
      assert Bits(data[n])[..8] == Bits(data[n]);
    }
  }

  // ----- errors on the wire

  lemma {:induction false} OnWireJoin(a: seq<bool>, b: seq<bool>)
    ensures OnWire(a + b) == Xor(Shl(OnWire(a), |b|), OnWire(b))
  {
    hide Xor, OnWire;
    if b == [] {
      assert a + b == a && OnWire(b) == OnWire([]);
      OnWireNone();
      XorZero(OnWire(a));
    } else {
      var n := |b| - 1;
      OnWireJoin(a, b[..n]);
      assert a + b == (a + b[..n]) + [b[n]] && b == b[..n] + [b[n]];
      OnWireNext(a + b[..n], b[n]);
      OnWireNext(b[..n], b[n]);
      XorDouble(Shl(OnWire(a), n), 0, OnWire(b[..n]), if b[n] then 1 else 0);
    }
  }

  lemma OnWireNone()
    ensures OnWire([]) == 0
  {
  }

  lemma {:induction false} OnWireBelow(bits: seq<bool>)
    ensures OnWire(bits) < Shl(1, |bits|)
  {
    if bits != [] { OnWireBelow(bits[..|bits| - 1]); }
  }

  lemma {:induction false} OnWireInjective(a: seq<bool>, b: seq<bool>)
    requires |a| == |b| && OnWire(a) == OnWire(b)
    ensures a == b
  {
    if a != [] {
      var n := |a| - 1;
      OnWireInjective(a[..n], b[..n]);
      assert a == a[..n] + [a[n]] && b == b[..n] + [b[n]];
    }
  }

  lemma SameEnd(p: nat, q: nat, r: nat)
    ensures Xor(Xor(p, r), Xor(q, r)) == Xor(p, q)
  {
    XorExchange(p, r, q, r);
    XorSelf(r);
    XorZero(Xor(p, q));
  }

  lemma SameStart(p: nat, q: nat, r: nat)
    ensures Xor(Xor(r, p), Xor(r, q)) == Xor(p, q)
  {
    XorExchange(r, p, r, q);
    XorSelf(r);
    XorZero(Xor(p, q));
  }

  /** Two wires that agree except in a window differ by a polynomial as short as the window. */
  lemma WindowError(start: seq<bool>, a: seq<bool>, b: seq<bool>, end: seq<bool>)
    requires |a| == |b|
    ensures
      var pattern := Xor(OnWire(a), OnWire(b));
      && Xor(OnWire(start + a + end), OnWire(start + b + end)) == Shl(pattern, |end|)
      && pattern < Shl(1, |a|) && (pattern == 0 <==> a == b)
  {
    hide Xor, Shl, OnWire;
    var x, y := OnWire(start + a), OnWire(start + b);
    OnWireJoin(start + a, end);
    OnWireJoin(start + b, end);
    SameEnd(Shl(x, |end|), Shl(y, |end|), OnWire(end));
    ShlXor(x, y, |end|);
    OnWireJoin(start, a);
    OnWireJoin(start, b);
    SameStart(OnWire(a), OnWire(b), Shl(OnWire(start), |a|));
    OnWireBelow(a);
    OnWireBelow(b);
    XorBelow(OnWire(a), OnWire(b), |a|);
    XorEqualsZero(OnWire(a), OnWire(b));
    if OnWire(a) == OnWire(b) { OnWireInjective(a, b); }
  }

  /** However the line is disturbed for at most 16 clocks in a row during the transfer of one block
      and its checksum, the whole read fails. */
  lemma LineBurstFailsRead(card: nat -> uint8, n: nat, words: seq<seq<uint8>>, f: nat, sent: seq<uint8>, from: nat)
    requires SdCard.Frames(card, n, words) && f < |words| && |sent| == |words[f]| == 514 && Crc16.Accepts(sent)
    requires forall i | 0 <= i < 8 * 514 && !(from <= i < from + 16) :: AllBits(words[f])[i] == AllBits(sent)[i]
    requires words[f] != sent
    ensures SdCard.Blocks(card, n, |words|) == None
  {
    hide Crc16.Accepts, AllBits, OnWire, Xor, Shl, Poly, SdCard.Frames, SdCard.Blocks;
    var s, r := AllBits(sent), AllBits(words[f]);
    var pattern, offset := BurstPattern(s, r, from);
    WireIsPoly(sent);
    WireIsPoly(words[f]);
    if pattern == 0 { AllBitsInjective(words[f], sent); }
    SdCard.BurstFailsRead(card, n, words, f, sent, pattern, offset);
  }

  lemma BurstPattern(a: seq<bool>, b: seq<bool>, from: nat) returns (pattern: nat, offset: nat)
    requires |a| == |b| && forall i | 0 <= i < |a| && !(from <= i < from + 16) :: b[i] == a[i]
    ensures Xor(OnWire(a), OnWire(b)) == Shl(pattern, offset) && pattern < 0x1_0000
    ensures pattern == 0 ==> a == b
  {
    hide Xor, OnWire;
    var lo := if from < |a| then from else |a|;
    var hi := if from + 16 < |a| then from + 16 else |a|;
    var start, end := a[..lo], a[hi..];
    assert start == b[..lo] && end == b[hi..];
    assert a == start + a[lo..hi] + end && b == start + b[lo..hi] + end;
    WindowError(start, a[lo..hi], b[lo..hi], end);
    pattern, offset := Xor(OnWire(a[lo..hi]), OnWire(b[lo..hi])), |end|;
    ShlGrows(hi - lo, 16 - (hi - lo));
    SixteenBits();
  }

  lemma SixteenBits()
    ensures Shl(1, 16) == 0x1_0000
  {
    assert Shl(1, 8) == 0x100;
  }
}
