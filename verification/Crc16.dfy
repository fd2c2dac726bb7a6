/** CRC-16/CCITT of the SD-card driver, computed through a literal table. */
module Crc16 {
  import opened Gf2
  import opened Word
  import opened CrcCode
  import opened CrcPeriod
  import opened CrcTable
  import opened CrcWord

  /** x^16 + x^12 + x^5 + 1 */
  const CCITT := Code(16, 0x1_1021)

  /** The literal table, eight entries a row. */
  function Row(r: nat): (row: seq<uint16>)
    requires r < 32
    ensures |row| == 8
  {
    match r
      case 0 => [0x0000, 0x1021, 0x2042, 0x3063, 0x4084, 0x50A5, 0x60C6, 0x70E7]
      case 1 => [0x8108, 0x9129, 0xA14A, 0xB16B, 0xC18C, 0xD1AD, 0xE1CE, 0xF1EF]
      case 2 => [0x1231, 0x0210, 0x3273, 0x2252, 0x52B5, 0x4294, 0x72F7, 0x62D6]
      case 3 => [0x9339, 0x8318, 0xB37B, 0xA35A, 0xD3BD, 0xC39C, 0xF3FF, 0xE3DE]
      case 4 => [0x2462, 0x3443, 0x0420, 0x1401, 0x64E6, 0x74C7, 0x44A4, 0x5485]
      case 5 => [0xA56A, 0xB54B, 0x8528, 0x9509, 0xE5EE, 0xF5CF, 0xC5AC, 0xD58D]
      case 6 => [0x3653, 0x2672, 0x1611, 0x0630, 0x76D7, 0x66F6, 0x5695, 0x46B4]
      case 7 => [0xB75B, 0xA77A, 0x9719, 0x8738, 0xF7DF, 0xE7FE, 0xD79D, 0xC7BC]
      case 8 => [0x48C4, 0x58E5, 0x6886, 0x78A7, 0x0840, 0x1861, 0x2802, 0x3823]
      case 9 => [0xC9CC, 0xD9ED, 0xE98E, 0xF9AF, 0x8948, 0x9969, 0xA90A, 0xB92B]
      case 10 => [0x5AF5, 0x4AD4, 0x7AB7, 0x6A96, 0x1A71, 0x0A50, 0x3A33, 0x2A12]
      case 11 => [0xDBFD, 0xCBDC, 0xFBBF, 0xEB9E, 0x9B79, 0x8B58, 0xBB3B, 0xAB1A]
      case 12 => [0x6CA6, 0x7C87, 0x4CE4, 0x5CC5, 0x2C22, 0x3C03, 0x0C60, 0x1C41]
      case 13 => [0xEDAE, 0xFD8F, 0xCDEC, 0xDDCD, 0xAD2A, 0xBD0B, 0x8D68, 0x9D49]
      case 14 => [0x7E97, 0x6EB6, 0x5ED5, 0x4EF4, 0x3E13, 0x2E32, 0x1E51, 0x0E70]
      case 15 => [0xFF9F, 0xEFBE, 0xDFDD, 0xCFFC, 0xBF1B, 0xAF3A, 0x9F59, 0x8F78]
      case 16 => [0x9188, 0x81A9, 0xB1CA, 0xA1EB, 0xD10C, 0xC12D, 0xF14E, 0xE16F]
      case 17 => [0x1080, 0x00A1, 0x30C2, 0x20E3, 0x5004, 0x4025, 0x7046, 0x6067]
      case 18 => [0x83B9, 0x9398, 0xA3FB, 0xB3DA, 0xC33D, 0xD31C, 0xE37F, 0xF35E]
      case 19 => [0x02B1, 0x1290, 0x22F3, 0x32D2, 0x4235, 0x5214, 0x6277, 0x7256]
      case 20 => [0xB5EA, 0xA5CB, 0x95A8, 0x8589, 0xF56E, 0xE54F, 0xD52C, 0xC50D]
      case 21 => [0x34E2, 0x24C3, 0x14A0, 0x0481, 0x7466, 0x6447, 0x5424, 0x4405]
      case 22 => [0xA7DB, 0xB7FA, 0x8799, 0x97B8, 0xE75F, 0xF77E, 0xC71D, 0xD73C]
      case 23 => [0x26D3, 0x36F2, 0x0691, 0x16B0, 0x6657, 0x7676, 0x4615, 0x5634]
      case 24 => [0xD94C, 0xC96D, 0xF90E, 0xE92F, 0x99C8, 0x89E9, 0xB98A, 0xA9AB]
      case 25 => [0x5844, 0x4865, 0x7806, 0x6827, 0x18C0, 0x08E1, 0x3882, 0x28A3]
      case 26 => [0xCB7D, 0xDB5C, 0xEB3F, 0xFB1E, 0x8BF9, 0x9BD8, 0xABBB, 0xBB9A]
      case 27 => [0x4A75, 0x5A54, 0x6A37, 0x7A16, 0x0AF1, 0x1AD0, 0x2AB3, 0x3A92]
      case 28 => [0xFD2E, 0xED0F, 0xDD6C, 0xCD4D, 0xBDAA, 0xAD8B, 0x9DE8, 0x8DC9]
      case 29 => [0x7C26, 0x6C07, 0x5C64, 0x4C45, 0x3CA2, 0x2C83, 0x1CE0, 0x0CC1]
      case 30 => [0xEF1F, 0xFF3E, 0xCF5D, 0xDF7C, 0xAF9B, 0xBFBA, 0x8FD9, 0x9FF8]
      case _ => [0x6E17, 0x7E36, 0x4E55, 0x5E74, 0x2E93, 0x3EB2, 0x0ED1, 0x1EF0]
  }

  function Rows(r: nat): seq<uint32> {
    if r < 32 then Row(r) else []
  }

  function Entry(j: nat): uint16
    requires j < 256
  {
    Row(j / 8)[j % 8]
  }

  // ----- words and polynomials

  lemma Generator()
    ensures CCITT.Valid() && CCITT.degree == 16 && CCITT.poly == 0x1_1021 && CCITT.Top() == 0x1_0000
    ensures Val(0x1021) == 0x1021 && Val(0x8000) == 0x8000
    ensures Xor(0x1_0000, 0x1_1021) == 0x1021
  {
    hide Xor, Mul;
    Powers();
    assert Shl(1, 17) == 2 * Shl(1, 16);
    ValLiterals();
    XorDisjoint(1, 0x1021, 16);
    XorCancel(0x1_0000, 0x1021);
  }

  lemma ValLiterals()
    ensures Val(0x1021) == 0x1021 && Val(0x8000) == 0x8000
  {
    ValUnfold(0x1021, 0x810, 1);
    FourDigits(0x810, 0x408, 0x204, 0x102, 0x81);
    FourDigits(0x81, 0x40, 0x20, 0x10, 0x8);
    FourDigits(0x8, 0x4, 0x2, 0x1, 0x0);
    ValZero();
    ValUnfold(1, 0, 1); ValUnfold(2, 1, 0); ValUnfold(4, 2, 0); ValUnfold(8, 4, 0);
    ValUnfold(0x10, 8, 0); ValUnfold(0x20, 0x10, 0); ValUnfold(0x40, 0x20, 0); ValUnfold(0x81, 0x40, 1);
    FourDigits(0x8000, 0x4000, 0x2000, 0x1000, 0x800);
    FourDigits(0x800, 0x400, 0x200, 0x100, 0x80);
    FourDigits(0x80, 0x40, 0x20, 0x10, 0x8);
  }

  lemma StepLowDigits(w: uint32)
    requires w <= 0xFFFF && w & 0x8000 == 0
    ensures StepBy(0x1021, 0x8000, w) <= 0xFFFF && IsDouble(StepBy(0x1021, 0x8000, w), w)
  {
  }

  lemma StepTopDigits(w: uint32)
    requires w <= 0xFFFF && w & 0x8000 != 0
    ensures w == Plus(w ^ 0x8000, 0x8000)
    ensures IsDouble((w ^ 0x8000) << 1, w ^ 0x8000) && (w ^ 0x8000) << 1 <= 0xFFFF
    ensures StepBy(0x1021, 0x8000, w) == Plus((w ^ 0x8000) << 1, 0x1021)
  {
  }

  lemma LowStep(w: uint32, doubled: uint32)
    requires doubled <= 0xFFFF && IsDouble(doubled, w)
    ensures Val(doubled) == CCITT.TimesX(Val(w)) && Val(w) < 0x8000
  {
    hide Val, Xor, Shl, IsDouble;
    ValIsDouble(doubled, w);
    ValBelow(doubled);
    Generator();
  }

  lemma TopStep(w: uint32, low: uint32, doubled: uint32, s: uint32)
    requires w == Plus(low, 0x8000) && s == Plus(doubled, 0x1021)
    requires IsDouble(doubled, low) && doubled <= 0xFFFF
    ensures Val(s) == CCITT.TimesX(Val(w))
  {
    hide Val, Xor, Shl, Plus, IsDouble;
    Generator();
    LowStep(low, doubled);
    ValPlus(low, 0x8000);
    TimesXXor(CCITT, Val(low), 0x8000);
    ValPlus(doubled, 0x1021);
  }

  lemma StepIsTimesX(w: uint32)
    requires Val(w) < 0x1_0000
    ensures Val(StepBy(0x1021, 0x8000, w)) == CCITT.TimesX(Val(w))
  {
    hide *;
    HalfFits(w);
    if w & 0x8000 == 0 {
      StepLowDigits(w);
      LowStep(w, StepBy(0x1021, 0x8000, w));
    } else {
      StepTopDigits(w);
      TopStep(w, w ^ 0x8000, (w ^ 0x8000) << 1, StepBy(0x1021, 0x8000, w));
    }
  }

  lemma StepTimes()
    ensures Times(CCITT, 0x1021, 0x8000)
  {
    hide *;
    forall w
      ensures Timed(CCITT, w, StepBy(0x1021, 0x8000, w))
    {
      Generator();
      if Val(w) < CCITT.Top() { StepIsTimesX(w); }
      TimedBy(CCITT, w, StepBy(0x1021, 0x8000, w));
    }
    TimesBy(CCITT, 0x1021, 0x8000);
  }

  // ----- the table

  /** The first row, and the first entry of the second. */
  const BASIS: seq<uint32> := [0x0000, 0x1021, 0x2042, 0x3063, 0x4084, 0x50A5, 0x60C6, 0x70E7, 0x8108]

  lemma BasisSteps()
    ensures |BASIS| == 9 && BASIS[0] == 0 && BASIS[1] == 0x1021 && Doubling(BASIS, 0x1021, 0x8000)
  {
  }

  // The literals, in portions.

  lemma Fans1(r: nat)
    requires r < 8
    ensures Row(r) == Fan(BASIS, Row(r)[0])
  {
  }

  lemma Fans2(r: nat)
    requires 8 <= r < 16
    ensures Row(r) == Fan(BASIS, Row(r)[0])
  {
  }

  lemma Fans3(r: nat)
    requires 16 <= r < 24
    ensures Row(r) == Fan(BASIS, Row(r)[0])
  {
  }

  lemma Fans4(r: nat)
    requires 24 <= r < 32
    ensures Row(r) == Fan(BASIS, Row(r)[0])
  {
  }

  lemma Firsts1(q: nat)
    requires q < 4
    ensures FirstsDouble(Rows, BASIS, 0x1021, 0x8000, q)
  {
  }

  lemma Firsts2(q: nat)
    requires 4 <= q < 8
    ensures FirstsDouble(Rows, BASIS, 0x1021, 0x8000, q)
  {
  }

  lemma Firsts3(q: nat)
    requires 8 <= q < 12
    ensures FirstsDouble(Rows, BASIS, 0x1021, 0x8000, q)
  {
  }

  lemma Firsts4(q: nat)
    requires 12 <= q < 16
    ensures FirstsDouble(Rows, BASIS, 0x1021, 0x8000, q)
  {
  }

  lemma RowsRegular()
    ensures Regular(Rows, BASIS, 0x1021, 0x8000)
  {
    hide StepBy, Plus, Fan, FirstsDouble, Doubling;
    BasisSteps();
    forall r: nat | r < 32
      ensures Row(r) == Fan(BASIS, Row(r)[0])
    {
      if r < 8 { Fans1(r); } else if r < 16 { Fans2(r); } else if r < 24 { Fans3(r); } else { Fans4(r); }
    }
    forall q: nat | q < 16
      ensures FirstsDouble(Rows, BASIS, 0x1021, 0x8000, q)
    {
      if q < 4 { Firsts1(q); } else if q < 8 { Firsts2(q); } else if q < 12 { Firsts3(q); } else { Firsts4(q); }
    }
  }

  /** Entry j of the literal table is j x^16 modulo the generator. */
  lemma TableEntry(j: nat)
    requires j < 256
    ensures Val(Entry(j)) == CCITT.Mod(Shl(j, 16))
  {
    hide Row, Val, Regular, Times, Xor, Mul;
    Generator();
    BasisSteps();
    RowsRegular();
    StepTimes();
    RegularTabled(CCITT, Rows, BASIS, 0x1021, 0x8000, j / 8, j % 8);
  }

  // ----- the checksum

  lemma IndexFits(crc: uint16, b: uint8)
    ensures (crc >> 8) ^ b <= 0xFF
  {
  }

  function Index(crc: uint16, b: uint8): (j: nat)
    ensures j < 256
  {
    IndexFits(crc, b);
    ValBelow((crc >> 8) ^ b);
    Val((crc >> 8) ^ b)
  }

  /** One turn of the loop. */
  function Feed(crc: uint16, b: uint8): uint16 {
    ((crc << 8) & 0xFFFF) ^ Entry(Index(crc, b))
  }

  function Crc16(block: seq<uint8>, crc: uint16): uint16 {
    if block == [] then crc else Feed(Crc16(block[..|block| - 1], crc), block[|block| - 1])
  }

  lemma NoBytes(block: seq<uint8>, start: uint16)
    ensures Crc16(block[..0], start) == start
  {
  }

  lemma OneTurn(block: seq<uint8>, start: uint16, i: nat)
    requires i < |block|
    ensures
      var crc := Crc16(block[..i], start);
      Crc16(block[..i + 1], start) == ((crc << 8) & 0xFFFF) ^ Entry(Index(crc, block[i]))
  {
    hide Entry, Index, Val;
    assert block[..i + 1][..i] == block[..i];
  }

  method Crc16Ccitt(block: seq<uint8>, blockLength: nat, start: uint16) returns (crc: uint16)
    requires blockLength <= |block|
    ensures crc == Crc16(block[..blockLength], start)
  {
    hide *;
    crc := start;
    NoBytes(block, start);
    var i := 0;
    while i < blockLength
      invariant i <= blockLength
      invariant crc == Crc16(block[..i], start)
    {
      OneTurn(block, start, i);
      var tmp := Index(crc, block[i]);
      crc := ((crc << 8) & 0xFFFF) ^ Entry(tmp);
      i := i + 1;
    }
  }

  lemma FeedDigits(crc: uint16, b: uint8)
    ensures crc == Plus((crc >> 8) << 8, crc & 0xFF)
    ensures crc >> 8 <= 0xFF && crc & 0xFF <= 0xFF
    ensures Index(crc, b) == Val(Plus(crc >> 8, b))
    ensures Feed(crc, b) == Plus((crc & 0xFF) << 8, Entry(Index(crc, b)))
  {
    LowByteUp(crc);
  }

  lemma LowByteUp(crc: uint16)
    ensures (crc << 8) & 0xFFFF == (crc & 0xFF) << 8
    ensures crc == ((crc >> 8) << 8) ^ (crc & 0xFF)
    ensures crc >> 8 <= 0xFF && crc & 0xFF <= 0xFF
  {
  }

  lemma FeedValue(high: uint32, up: uint32, low: uint32, lowUp: uint32, b: uint8, entry: uint32)
    requires Val(up) == Shl(Val(high), 8) && Val(lowUp) == Shl(Val(low), 8) && Val(low) < 256
    requires Val(entry) == CCITT.Mod(Shl(Val(Plus(high, b)), 16))
    ensures Val(Plus(lowUp, entry)) == Absorb(CCITT, Val(Plus(up, low)), [b])
  {
    hide *;
    ValPlus(lowUp, entry);
    ValPlus(high, b);
    JoinedValue(high, up, low);
    AbsorbByte16(Val(high), Val(low), b);
  }

  lemma JoinedValue(high: uint32, up: uint32, low: uint32)
    requires Val(up) == Shl(Val(high), 8) && Val(low) < 256
    ensures Val(Plus(up, low)) == Shl(Val(high), 8) + Val(low)
  {
    hide *;
    ValPlus(up, low);
    Powers();
    XorDisjoint(Val(high), Val(low), 8);
  }

  lemma AbsorbByte16(high: nat, low: nat, b: uint8)
    requires low < 256
    ensures Absorb(CCITT, Shl(high, 8) + low, [b]) == Xor(Shl(low, 8), CCITT.Mod(Shl(Xor(high, Val(b)), 16)))
  {
    hide *;
    Generator();
    Powers();
    AbsorbByte(CCITT, high, low, b);
  }

  lemma FeedAbsorbs(crc: uint16, b: uint8)
    ensures Val(Feed(crc, b)) == Absorb(CCITT, Val(crc), [b])
  {
    hide *;
    FeedDigits(crc, b);
    ValByteUp(crc >> 8);
    ValByteUp(crc & 0xFF);
    ValBelow(crc & 0xFF);
    TableEntry(Index(crc, b));
    FeedValue(crc >> 8, (crc >> 8) << 8, crc & 0xFF, (crc & 0xFF) << 8, b, Entry(Index(crc, b)));
  }

  /** The table loop computes the remainder of the start value followed by the block,
      both multiplied by x^16: bit-by-bit long division. */
  lemma {:induction false} Crc16IsRemainder(block: seq<uint8>, start: uint16)
    ensures Val(Crc16(block, start))
            == CCITT.Mod(Xor(Shl(Val(start), 8 * |block|), Shl(Poly(block), 16)))
    ensures Val(Crc16(block, start)) == Absorb(CCITT, Val(start), block)
  {
    hide Val, Xor, Shl, Poly, Feed;
    Generator();
    if block == [] {
      ValBelow(start);
      AbsorbNothing(CCITT, Val(start));
    } else {
      var n := |block| - 1;
      Crc16IsRemainder(block[..n], start);
      FeedAbsorbs(Crc16(block[..n], start), block[n]);
      AbsorbConcat(CCITT, Val(start), block[..n], [block[n]]);
      assert block[..n] + [block[n]] == block;
    }
  }

  // ----- the comparison made by the reader

  /** The checksum as received, high byte first. */
  function DataCrc(c0: uint8, c1: uint8): uint16 {
    ((c0 * 256) & 0xFFFF) + c1
  }

  /** A block followed by its two checksum bytes passes. */
  predicate Accepts(word: seq<uint8>)
    requires |word| >= 2
  {
    var n := |word| - 2;
    Crc16(word[..n], 0) == DataCrc(word[n], word[n + 1])
  }

  lemma AcceptsParts(block: seq<uint8>, c0: uint8, c1: uint8)
    ensures Accepts(block + [c0, c1]) <==> Crc16(block, 0) == DataCrc(c0, c1)
  {
    hide Crc16, DataCrc;
    assert (block + [c0, c1])[..|block|] == block;
  }

  lemma DataCrcDigits(c0: uint8, c1: uint8)
    ensures DataCrc(c0, c1) == Plus(c0 << 8, c1) && c0 <= 0xFF_FFFF
  {
  }

  lemma DataCrcValue(c0: uint8, c1: uint8)
    ensures Val(DataCrc(c0, c1)) == Poly([c0, c1])
  {
    hide *;
    DataCrcDigits(c0, c1);
    ValPlus(c0 << 8, c1);
    ValByteUp(c0);
    PolyOne(c0);
    PolyOne(c1);
    assert [c0] + [c1] == [c0, c1];
    PolyConcat([c0], [c1]);
  }

  /** Appending the checksum high byte first makes the remainder zero, and nothing else does. */
  lemma AcceptsIffZero(word: seq<uint8>)
    requires |word| >= 2
    ensures Accepts(word) <==> CCITT.Mod(Poly(word)) == 0
  {
    hide Val, Xor, Shl, Poly, Crc16, DataCrc, Mul;
    var n := |word| - 2;
    var block, c0, c1 := word[..n], word[n], word[n + 1];
    var r, crc := Poly([c0, c1]), Crc16(block, 0);
    assert block + [c0, c1] == word;
    PolyConcat(block, [c0, c1]);
    StartZero(block);
    DataCrcValue(c0, c1);
    ValBelow(DataCrc(c0, c1));
    CheckZero(Shl(Poly(block), 16), Val(crc), Val(DataCrc(c0, c1)));
    if Val(crc) == Val(DataCrc(c0, c1)) { ValInjective(crc, DataCrc(c0, c1)); }
  }

  lemma StartZero(block: seq<uint8>)
    ensures Val(Crc16(block, 0)) == CCITT.Mod(Shl(Poly(block), 16))
  {
    hide *;
    Crc16IsRemainder(block, 0);
    ValZero();
    ShlZero(8 * |block|);
    XorZero(Shl(Poly(block), 16));
  }

  lemma CheckZero(shifted: nat, crc: nat, sent: nat)
    requires crc == CCITT.Mod(shifted) && sent < 0x1_0000
    ensures CCITT.Mod(Xor(shifted, sent)) == 0 <==> crc == sent
  {
    hide *;
    Generator();
    ModXor(CCITT, shifted, sent);
    ModSmall(CCITT, sent);
    XorEqualsZero(crc, sent);
  }

  // ----- the checksum's two bytes

  function HighByte(crc: uint16): uint8 {
    crc >> 8
  }

  function LowByte(crc: uint16): uint8 {
    crc & 0xFF
  }

  lemma BytesRejoin(crc: uint16)
    ensures DataCrc(HighByte(crc), LowByte(crc)) == crc
  {
  }

  /** In the other order they make the checksum only when they are equal. */
  lemma SwappedBytes(crc: uint16)
    ensures crc == DataCrc(LowByte(crc), HighByte(crc)) <==> LowByte(crc) == HighByte(crc)
  {
  }

  /** A block with its checksum as a card sends it, high byte first. */
  function Sealed(block: seq<uint8>): (word: seq<uint8>)
    ensures |word| == |block| + 2 && word[..|block|] == block
  {
    block + [HighByte(Crc16(block, 0)), LowByte(Crc16(block, 0))]
  }

  /** Such a word passes, so its remainder is zero. */
  lemma SealedPasses(block: seq<uint8>)
    ensures Accepts(Sealed(block)) && CCITT.Mod(Poly(Sealed(block))) == 0
  {
    hide Crc16, HighByte, LowByte, DataCrc, Poly, Mul;
    BytesRejoin(Crc16(block, 0));
    AcceptsIffZero(Sealed(block));
  }

  // ----- what passes undetected

  /** A corrupted block passes exactly when the generator divides the difference. */
  lemma UndetectedIffMultiple(sent: seq<uint8>, received: seq<uint8>)
    requires 2 <= |sent| && 2 <= |received| && Accepts(sent)
    ensures Accepts(received) <==> Divides(CCITT.poly, Difference(sent, received))
    ensures Accepts(received) <==> CCITT.Mod(Difference(sent, received)) == 0
  {
    hide Val, Xor, Shl, Poly, Accepts, Mul;
    Generator();
    AcceptsIffZero(sent);
    AcceptsIffZero(received);
    ModXor(CCITT, Poly(sent), Poly(received));
    XorZero(CCITT.Mod(Poly(received)));
    PassesIffMultiple(CCITT, Difference(sent, received));
  }

  /** Every burst of at most 16 bits is caught, at any bit offset, checksum included. */
  lemma BurstCaught(sent: seq<uint8>, received: seq<uint8>, pattern: nat, offset: nat)
    requires 2 <= |sent| && 2 <= |received| && Accepts(sent)
    requires 0 < pattern < 0x1_0000 && Difference(sent, received) == Shl(pattern, offset)
    ensures !Accepts(received)
  {
    hide *;
    Generator();
    UndetectedIffMultiple(sent, received);
    BurstDetected(CCITT, pattern, offset);
  }

  lemma GeneratorParity()
    ensures Parity(CCITT.poly) == 0
  {
    hide Parity, Shl, Xor, Mul;
    ParityOfZero();
    ParityDouble(34832, 1); ParityDouble(17416, 0); ParityDouble(8708, 0); ParityDouble(4354, 0);
    ParityDouble(2177, 0); ParityDouble(1088, 1); ParityDouble(544, 0); ParityDouble(272, 0);
    ParityDouble(136, 0); ParityDouble(68, 0); ParityDouble(34, 0); ParityDouble(17, 0);
    ParityDouble(8, 1); ParityDouble(4, 0); ParityDouble(2, 0); ParityDouble(1, 0);
    ParityDouble(0, 1);
  }

  lemma ParityOfZero()
    ensures Parity(0) == 0
  {
  }

  /** The checksum started at zero has the parity of the block. */
  lemma ParityKept(block: seq<uint8>)
    ensures Parity(Val(Crc16(block, 0))) == Parity(Poly(block))
  {
    hide *;
    Generator();
    GeneratorParity();
    StartZero(block);
    ModParity(CCITT, Shl(Poly(block), 16));
    ParityShl(Poly(block), 16);
  }

  /** Every odd number of flipped bits is caught. */
  lemma OddCaught(sent: seq<uint8>, received: seq<uint8>)
    requires 2 <= |sent| && 2 <= |received| && Accepts(sent)
    requires Parity(Difference(sent, received)) == 1
    ensures !Accepts(received)
  {
    hide Val, Xor, Shl, Poly, Accepts, Mul, Difference;
    Generator();
    GeneratorParity();
    UndetectedIffMultiple(sent, received);
    ModParity(CCITT, Difference(sent, received));
    assert Parity(0) == 0;
  }

  /** Three flipped bits, wherever they are and whatever the length, are an odd error. */
  lemma ThreeFlipsCaught(sent: seq<uint8>, i: nat, j: nat, k: nat)
    requires 2 <= |sent| && Accepts(sent) && i < 8 * |sent| && j < 8 * |sent| && k < 8 * |sent|
    ensures !Accepts(Flip(Flip(Flip(sent, i), j), k))
  {
    hide *;
    var one := Flip(sent, i);
    var two := Flip(one, j);
    var three := Flip(two, k);
    FlipParity(sent, i);
    FlipParity(one, j);
    FlipParity(two, k);
    DifferenceChain(sent, one, two);
    DifferenceChain(sent, two, three);
    ParityXor(Difference(sent, one), Difference(one, two));
    ParityXor(Difference(sent, two), Difference(two, three));
    OddSum();
    OddCaught(sent, three);
  }

  lemma FlipParity(bytes: seq<uint8>, i: nat)
    requires i < 8 * |bytes|
    ensures Parity(Difference(bytes, Flip(bytes, i))) == 1
  {
    hide Difference, Flip, Shl;
    FlipDifference(bytes, i);
    ParityShl(1, i);
    assert Parity(1) == 1;
  }

  lemma OddSum()
    ensures BitXor(BitXor(1, 1), 1) == 1
  {
  }

  // ----- the period of x, by repeated squaring in words

  function MulWord(r: uint32, s: uint32): uint32 {
    MulLow(0x1021, 0x8000, r, s, 0)
  }

  lemma HighZero(r: uint32)
    requires r <= 0xFFFF
    ensures r >> 16 == 0
  {
  }

  lemma WordPower(j: nat, r: uint32, k: nat, s: uint32)
    requires Power(CCITT, j, r) && Power(CCITT, k, s) && r <= 0xFFFF
    ensures Power(CCITT, j + k, MulWord(r, s))
  {
    hide *;
    Generator();
    StepTimes();
    HighZero(r);
    PowerBelow(CCITT, k, s);
    ZeroProduct(CCITT, s);
    LowProduct(CCITT, 0x1021, 0x8000, r, s, 0);
    MulWordIs(r, s);
    PowerTimes(CCITT, j, r, k, s, MulWord(r, s));
  }

  lemma MulWordIs(r: uint32, s: uint32)
    ensures MulWord(r, s) == MulLow(0x1021, 0x8000, r, s, 0)
  {
    hide MulLow;
  }

  lemma Squares1()
    ensures MulWord(0x0002, 0x0002) == 0x0004
    ensures MulWord(0x0004, 0x0004) == 0x0010
    ensures MulWord(0x0010, 0x0010) == 0x0100
    ensures MulWord(0x0100, 0x0100) == 0x1021
    ensures MulWord(0x1021, 0x1021) == 0x3730
    ensures MulWord(0x3730, 0x3730) == 0xB861
    ensures MulWord(0xB861, 0xB861) == 0xAEFC
    ensures MulWord(0xAEFC, 0xAEFC) == 0x8E29
  {
  }

  lemma Squares2()
    ensures MulWord(0x8E29, 0x8E29) == 0x13FC
    ensures MulWord(0x13FC, 0x13FC) == 0x36C4
    ensures MulWord(0x36C4, 0x36C4) == 0xFD50
    ensures MulWord(0xFD50, 0xFD50) == 0xAA9E
    ensures MulWord(0xAA9E, 0xAA9E) == 0x881C
    ensures MulWord(0x881C, 0x881C) == 0x4458
    ensures MulWord(0x4458, 0x4458) == 0x0002
  {
  }

  /** The powers x^(2^k), up to x^(2^15) = x. */
  lemma PowersOfTwo()
    ensures Power(CCITT, 1, 0x0002)
    ensures Power(CCITT, 2, 0x0004)
    ensures Power(CCITT, 4, 0x0010)
    ensures Power(CCITT, 8, 0x0100)
    ensures Power(CCITT, 16, 0x1021)
    ensures Power(CCITT, 32, 0x3730)
    ensures Power(CCITT, 64, 0xB861)
    ensures Power(CCITT, 128, 0xAEFC)
    ensures Power(CCITT, 256, 0x8E29)
    ensures Power(CCITT, 512, 0x13FC)
    ensures Power(CCITT, 1024, 0x36C4)
    ensures Power(CCITT, 2048, 0xFD50)
    ensures Power(CCITT, 4096, 0xAA9E)
    ensures Power(CCITT, 8192, 0x881C)
    ensures Power(CCITT, 16384, 0x4458)
    ensures Power(CCITT, 32768, 0x0002)
  {
    hide *;
    Generator();
    PowerOne(CCITT);
    Squares1(); Squares2();
    WordPower(1, 0x0002, 1, 0x0002);
    WordPower(2, 0x0004, 2, 0x0004);
    WordPower(4, 0x0010, 4, 0x0010);
    WordPower(8, 0x0100, 8, 0x0100);
    WordPower(16, 0x1021, 16, 0x1021);
    WordPower(32, 0x3730, 32, 0x3730);
    WordPower(64, 0xB861, 64, 0xB861);
    WordPower(128, 0xAEFC, 128, 0xAEFC);
    WordPower(256, 0x8E29, 256, 0x8E29);
    WordPower(512, 0x13FC, 512, 0x13FC);
    WordPower(1024, 0x36C4, 1024, 0x36C4);
    WordPower(2048, 0xFD50, 2048, 0xFD50);
    WordPower(4096, 0xAA9E, 4096, 0xAA9E);
    WordPower(8192, 0x881C, 8192, 0x881C);
    WordPower(16384, 0x4458, 16384, 0x4458);
  }

  lemma Products()
    ensures MulWord(0x0002, 0x8E29) == 0x0C73
    ensures MulWord(0x0100, 0x3730) == 0x76B4
    ensures MulWord(0x0002, 0x3730) == 0x6E60
    ensures MulWord(0x6E60, 0x36C4) == 0xF2AF
    ensures MulWord(0x0002, 0x0100) == 0x0200
    ensures MulWord(0x0200, 0xB861) == 0x8FA6
    ensures MulWord(0x8FA6, 0x13FC) == 0x4500
    ensures MulWord(0x4500, 0xAA9E) == 0x2C42
  {
  }

  /** 32767 = 7 * 31 * 151 is a period; a seventh, a 31st and a 151st of it are not. */
  lemma KnownPeriods()
    ensures Period(CCITT, 32767)
    ensures !Period(CCITT, 217) && !Period(CCITT, 1057) && !Period(CCITT, 4681)
  {
    hide *;
    Generator();
    PowerOne(CCITT);
    PowersOfTwo();
    Products();
    WordPower(1, 0x0002, 256, 0x8E29);
    WordPower(8, 0x0100, 32, 0x3730);
    WordPower(1, 0x0002, 32, 0x3730);
    WordPower(33, 0x6E60, 1024, 0x36C4);
    WordPower(1, 0x0002, 8, 0x0100);
    WordPower(9, 0x0200, 64, 0xB861);
    WordPower(73, 0x8FA6, 512, 0x13FC);
    WordPower(585, 0x4500, 4096, 0xAA9E);
    PeriodFrom(CCITT, 32767);
    // 217 = 257 - 40
    NotPeriod(CCITT, 217, 40, 0x0C73, 0x76B4);
    NotPeriod(CCITT, 1057, 0, 0xF2AF, 1);
    NotPeriod(CCITT, 4681, 0, 0x2C42, 1);
  }

  /** The order of x is 32767. */
  lemma PeriodIff(k: nat)
    ensures Period(CCITT, k) <==> k % 32767 == 0
  {
    hide *;
    Generator();
    KnownPeriods();
    NoneSmaller();
    OrderIff(CCITT, 32767, k);
  }

  /** A period that divides it is the whole of it, having each of its prime factors. */
  lemma NoneSmaller()
    ensures Least(CCITT, 32767)
  {
    hide *;
    PrimeFactors();
    KnownPeriods();
    forall g: nat | Factor(g, 32767) && Period(CCITT, g)
      ensures g == 32767
    {
      var n := Cofactor(g, 32767);
      var g1 := PrimeFactor(CCITT, 1, g, n, 151, 217);
      var g2 := PrimeFactor(CCITT, 151, g1, n, 31, 7);
      var g3 := PrimeFactor(CCITT, 151 * 31, g2, n, 7, 1);
      UnitFactor(n, g3);
    }
    LeastBy(CCITT, 32767);
  }

  lemma PrimeFactors()
    ensures Prime(7) && Prime(31) && Prime(151)
  {
    PrimeBy(7, 2);
    PrimeBy(31, 5);
    PrimeBy(151, 12);
  }

  /** Two flipped bits pass exactly when their distance is a multiple of 32767 bits, whatever the
      length of the block. */
  lemma TwoBitsPassIff(sent: seq<uint8>, received: seq<uint8>, i: nat, j: nat)
    requires 2 <= |sent| && 2 <= |received| && Accepts(sent) && i < j
    requires Difference(sent, received) == Xor(Shl(1, i), Shl(1, j))
    ensures Accepts(received) <==> (j - i) % 32767 == 0
  {
    hide Val, Xor, Shl, Poly, Accepts, Mul, Difference;
    Generator();
    UndetectedIffMultiple(sent, received);
    TwoBitsPass(CCITT, i, j);
    PeriodIs(CCITT, j - i);
    PeriodIff(j - i);
  }

  /** The same for the bits themselves: no two flips pass in fewer than 4096 bytes. */
  lemma TwoFlipsPassIff(sent: seq<uint8>, i: nat, j: nat)
    requires 2 <= |sent| && Accepts(sent) && i < 8 * |sent| && j < 8 * |sent| && i != j
    ensures Accepts(Flip(Flip(sent, i), j)) <==> (j - i) % 32767 == 0
  {
    hide *;
    var once := Flip(sent, i);
    FlipDifference(sent, i);
    FlipDifference(once, j);
    DifferenceChain(sent, once, Flip(once, j));
    if i < j {
      TwoBitsPassIff(sent, Flip(once, j), i, j);
    } else {
      XorComm(Shl(1, i), Shl(1, j));
      TwoBitsPassIff(sent, Flip(once, j), j, i);
      EitherWay(i, j, 32767);
    }
  }

  /** Any two distinct flipped bits of a 512-byte block and its checksum are caught. */
  lemma TwoFlipsCaught(sent: seq<uint8>, i: nat, j: nat)
    requires |sent| == 514 && Accepts(sent) && i < 8 * 514 && j < 8 * 514 && i != j
    ensures !Accepts(Flip(Flip(sent, i), j))
  {
    hide Accepts, Flip;
    TwoFlipsPassIff(sent, i, j);
    if (j - i) % 32767 == 0 { assert false; }
  }
}
