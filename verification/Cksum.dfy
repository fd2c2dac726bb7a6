/** `check_crc`: the CRC-32 of the POSIX cksum utility, by a literal table. */
module Cksum {
  import opened Gf2
  import opened Word
  import opened CrcCode
  import opened CrcPeriod
  import opened CrcTable
  import opened CrcWord

  /** The generator of IEEE Std 1003.1, cksum: x^32 + x^26 + x^23 + x^22 + x^16 + x^12 + x^11
      + x^10 + x^8 + x^7 + x^5 + x^4 + x^2 + x + 1 */
  const POSIX := Code(32, 0x1_04C1_1DB7)

  /** The literal table, eight entries a row. */
  function Row(r: nat): (row: seq<uint32>)
    requires r < 32
    ensures |row| == 8
  {
    match r
      case 0 => [0x00000000, 0x04c11db7, 0x09823b6e, 0x0d4326d9, 0x130476dc, 0x17c56b6b, 0x1a864db2, 0x1e475005]
      case 1 => [0x2608edb8, 0x22c9f00f, 0x2f8ad6d6, 0x2b4bcb61, 0x350c9b64, 0x31cd86d3, 0x3c8ea00a, 0x384fbdbd]
      case 2 => [0x4c11db70, 0x48d0c6c7, 0x4593e01e, 0x4152fda9, 0x5f15adac, 0x5bd4b01b, 0x569796c2, 0x52568b75]
      case 3 => [0x6a1936c8, 0x6ed82b7f, 0x639b0da6, 0x675a1011, 0x791d4014, 0x7ddc5da3, 0x709f7b7a, 0x745e66cd]
      case 4 => [0x9823b6e0, 0x9ce2ab57, 0x91a18d8e, 0x95609039, 0x8b27c03c, 0x8fe6dd8b, 0x82a5fb52, 0x8664e6e5]
      case 5 => [0xbe2b5b58, 0xbaea46ef, 0xb7a96036, 0xb3687d81, 0xad2f2d84, 0xa9ee3033, 0xa4ad16ea, 0xa06c0b5d]
      case 6 => [0xd4326d90, 0xd0f37027, 0xddb056fe, 0xd9714b49, 0xc7361b4c, 0xc3f706fb, 0xceb42022, 0xca753d95]
      case 7 => [0xf23a8028, 0xf6fb9d9f, 0xfbb8bb46, 0xff79a6f1, 0xe13ef6f4, 0xe5ffeb43, 0xe8bccd9a, 0xec7dd02d]
      case 8 => [0x34867077, 0x30476dc0, 0x3d044b19, 0x39c556ae, 0x278206ab, 0x23431b1c, 0x2e003dc5, 0x2ac12072]
      case 9 => [0x128e9dcf, 0x164f8078, 0x1b0ca6a1, 0x1fcdbb16, 0x018aeb13, 0x054bf6a4, 0x0808d07d, 0x0cc9cdca]
      case 10 => [0x7897ab07, 0x7c56b6b0, 0x71159069, 0x75d48dde, 0x6b93dddb, 0x6f52c06c, 0x6211e6b5, 0x66d0fb02]
      case 11 => [0x5e9f46bf, 0x5a5e5b08, 0x571d7dd1, 0x53dc6066, 0x4d9b3063, 0x495a2dd4, 0x44190b0d, 0x40d816ba]
      case 12 => [0xaca5c697, 0xa864db20, 0xa527fdf9, 0xa1e6e04e, 0xbfa1b04b, 0xbb60adfc, 0xb6238b25, 0xb2e29692]
      case 13 => [0x8aad2b2f, 0x8e6c3698, 0x832f1041, 0x87ee0df6, 0x99a95df3, 0x9d684044, 0x902b669d, 0x94ea7b2a]
      case 14 => [0xe0b41de7, 0xe4750050, 0xe9362689, 0xedf73b3e, 0xf3b06b3b, 0xf771768c, 0xfa325055, 0xfef34de2]
      case 15 => [0xc6bcf05f, 0xc27dede8, 0xcf3ecb31, 0xcbffd686, 0xd5b88683, 0xd1799b34, 0xdc3abded, 0xd8fba05a]
      case 16 => [0x690ce0ee, 0x6dcdfd59, 0x608edb80, 0x644fc637, 0x7a089632, 0x7ec98b85, 0x738aad5c, 0x774bb0eb]
      case 17 => [0x4f040d56, 0x4bc510e1, 0x46863638, 0x42472b8f, 0x5c007b8a, 0x58c1663d, 0x558240e4, 0x51435d53]
      case 18 => [0x251d3b9e, 0x21dc2629, 0x2c9f00f0, 0x285e1d47, 0x36194d42, 0x32d850f5, 0x3f9b762c, 0x3b5a6b9b]
      case 19 => [0x0315d626, 0x07d4cb91, 0x0a97ed48, 0x0e56f0ff, 0x1011a0fa, 0x14d0bd4d, 0x19939b94, 0x1d528623]
      case 20 => [0xf12f560e, 0xf5ee4bb9, 0xf8ad6d60, 0xfc6c70d7, 0xe22b20d2, 0xe6ea3d65, 0xeba91bbc, 0xef68060b]
      case 21 => [0xd727bbb6, 0xd3e6a601, 0xdea580d8, 0xda649d6f, 0xc423cd6a, 0xc0e2d0dd, 0xcda1f604, 0xc960ebb3]
      case 22 => [0xbd3e8d7e, 0xb9ff90c9, 0xb4bcb610, 0xb07daba7, 0xae3afba2, 0xaafbe615, 0xa7b8c0cc, 0xa379dd7b]
      case 23 => [0x9b3660c6, 0x9ff77d71, 0x92b45ba8, 0x9675461f, 0x8832161a, 0x8cf30bad, 0x81b02d74, 0x857130c3]
      case 24 => [0x5d8a9099, 0x594b8d2e, 0x5408abf7, 0x50c9b640, 0x4e8ee645, 0x4a4ffbf2, 0x470cdd2b, 0x43cdc09c]
      case 25 => [0x7b827d21, 0x7f436096, 0x7200464f, 0x76c15bf8, 0x68860bfd, 0x6c47164a, 0x61043093, 0x65c52d24]
      case 26 => [0x119b4be9, 0x155a565e, 0x18197087, 0x1cd86d30, 0x029f3d35, 0x065e2082, 0x0b1d065b, 0x0fdc1bec]
      case 27 => [0x3793a651, 0x3352bbe6, 0x3e119d3f, 0x3ad08088, 0x2497d08d, 0x2056cd3a, 0x2d15ebe3, 0x29d4f654]
      case 28 => [0xc5a92679, 0xc1683bce, 0xcc2b1d17, 0xc8ea00a0, 0xd6ad50a5, 0xd26c4d12, 0xdf2f6bcb, 0xdbee767c]
      case 29 => [0xe3a1cbc1, 0xe760d676, 0xea23f0af, 0xeee2ed18, 0xf0a5bd1d, 0xf464a0aa, 0xf9278673, 0xfde69bc4]
      case 30 => [0x89b8fd09, 0x8d79e0be, 0x803ac667, 0x84fbdbd0, 0x9abc8bd5, 0x9e7d9662, 0x933eb0bb, 0x97ffad0c]
      case _ => [0xafb010b1, 0xab710d06, 0xa6322bdf, 0xa2f33668, 0xbcb4666d, 0xb8757bda, 0xb5365d03, 0xb1f740b4]
  }

  function Rows(r: nat): seq<uint32> {
    if r < 32 then Row(r) else []
  }

  function Entry(j: nat): uint32
    requires j < 256
  {
    Row(j / 8)[j % 8]
  }

  // ----- words and polynomials

  lemma Generator()
    ensures POSIX.Valid() && POSIX.degree == 32 && POSIX.Top() == 0x1_0000_0000
    ensures Val(0x04C1_1DB7) == 0x04C1_1DB7 && Val(0x8000_0000) == 0x8000_0000
    ensures Xor(0x1_0000_0000, 0x1_04C1_1DB7) == 0x04C1_1DB7
  {
    hide Xor, Mul, Val;
    Powers();
    assert Shl(1, 33) == 2 * Shl(1, 32);
    ValLiterals();
    XorDisjoint(1, 0x04C1_1DB7, 32);
    XorCancel(0x1_0000_0000, 0x04C1_1DB7);
  }

  lemma ValLiterals()
    ensures Val(0x04C1_1DB7) == 0x04C1_1DB7 && Val(0x8000_0000) == 0x8000_0000
  {
    ValZero();
    PolyLiteral();
    TopLiteral();
  }

  lemma PolyLiteral()
    ensures Val(0x04C1_1DB7) == 0x04C1_1DB7
  {
    ValZero();
    hide Val;
    ValUnfold(0x4C11DB7, 0x2608EDB, 1); ValUnfold(0x2608EDB, 0x130476D, 1);
    ValUnfold(0x130476D, 0x9823B6, 1); ValUnfold(0x9823B6, 0x4C11DB, 0);
    ValUnfold(0x4C11DB, 0x2608ED, 1); ValUnfold(0x2608ED, 0x130476, 1); ValUnfold(0x130476, 0x9823B, 0);
    ValUnfold(0x9823B, 0x4C11D, 1); ValUnfold(0x4C11D, 0x2608E, 1); ValUnfold(0x2608E, 0x13047, 0);
    ValUnfold(0x13047, 0x9823, 1); ValUnfold(0x9823, 0x4C11, 1); ValUnfold(0x4C11, 0x2608, 1);
    ValUnfold(0x2608, 0x1304, 0); ValUnfold(0x1304, 0x982, 0); ValUnfold(0x982, 0x4C1, 0);
    ValUnfold(0x4C1, 0x260, 1); ValUnfold(0x260, 0x130, 0); ValUnfold(0x130, 0x98, 0);
    ValUnfold(0x98, 0x4C, 0); ValUnfold(0x4C, 0x26, 0); ValUnfold(0x26, 0x13, 0);
    ValUnfold(0x13, 0x9, 1); ValUnfold(0x9, 0x4, 1); ValUnfold(0x4, 0x2, 0); ValUnfold(0x2, 0x1, 0);
    ValUnfold(0x1, 0x0, 1);
  }

  lemma TopLiteral()
    ensures Val(0x8000_0000) == 0x8000_0000
  {
    assert Val(8) == 8 by { ValZero(); ValUnfold(8, 4, 0); ValUnfold(4, 2, 0); ValUnfold(2, 1, 0); ValUnfold(1, 0, 1); }
    hide Val;
    ValNibbleUp(0x8); ValNibbleUp(0x80); ValNibbleUp(0x800); ValNibbleUp(0x8000);
    ValNibbleUp(0x8_0000); ValNibbleUp(0x80_0000); ValNibbleUp(0x800_0000);
  }

  lemma StepLowDigits(w: uint32)
    requires w & 0x8000_0000 == 0
    ensures IsDouble(StepBy(0x04C1_1DB7, 0x8000_0000, w), w)
  {
  }

  lemma StepTopDigits(w: uint32)
    requires w & 0x8000_0000 != 0
    ensures w == Plus(w ^ 0x8000_0000, 0x8000_0000)
    ensures IsDouble((w ^ 0x8000_0000) << 1, w ^ 0x8000_0000)
    ensures StepBy(0x04C1_1DB7, 0x8000_0000, w) == Plus((w ^ 0x8000_0000) << 1, 0x04C1_1DB7)
  {
  }

  lemma LowStep(w: uint32, doubled: uint32)
    requires IsDouble(doubled, w)
    ensures Val(doubled) == POSIX.TimesX(Val(w)) && Val(w) < 0x8000_0000
  {
    hide Val, Xor, Shl, IsDouble;
    ValIsDouble(doubled, w);
    ValBelow(doubled);
    Generator();
  }

  lemma TopStep(w: uint32, low: uint32, doubled: uint32, s: uint32)
    requires w == Plus(low, 0x8000_0000) && s == Plus(doubled, 0x04C1_1DB7)
    requires IsDouble(doubled, low)
    ensures Val(s) == POSIX.TimesX(Val(w))
  {
    hide Val, Xor, Shl, Plus, IsDouble;
    Generator();
    LowStep(low, doubled);
    ValPlus(low, 0x8000_0000);
    TimesXXor(POSIX, Val(low), 0x8000_0000);
    ValPlus(doubled, 0x04C1_1DB7);
  }

  lemma StepIsTimesX(w: uint32)
    requires Val(w) < 0x1_0000_0000
    ensures Val(StepBy(0x04C1_1DB7, 0x8000_0000, w)) == POSIX.TimesX(Val(w))
  {
    hide *;
    if w & 0x8000_0000 == 0 {
      StepLowDigits(w);
      LowStep(w, StepBy(0x04C1_1DB7, 0x8000_0000, w));
    } else {
      StepTopDigits(w);
      TopStep(w, w ^ 0x8000_0000, (w ^ 0x8000_0000) << 1, StepBy(0x04C1_1DB7, 0x8000_0000, w));
    }
  }

  lemma StepTimes()
    ensures Times(POSIX, 0x04C1_1DB7, 0x8000_0000)
  {
    hide *;
    forall w
      ensures Timed(POSIX, w, StepBy(0x04C1_1DB7, 0x8000_0000, w))
    {
      Generator();
      if Val(w) < POSIX.Top() { StepIsTimesX(w); }
      TimedBy(POSIX, w, StepBy(0x04C1_1DB7, 0x8000_0000, w));
    }
    TimesBy(POSIX, 0x04C1_1DB7, 0x8000_0000);
  }

  // ----- the table

  /** The first row, and the first entry of the second. */
  const BASIS: seq<uint32> := [
    0x00000000, 0x04c11db7, 0x09823b6e, 0x0d4326d9, 0x130476dc, 0x17c56b6b, 0x1a864db2, 0x1e475005, 0x2608edb8]

  lemma BasisSteps()
    ensures |BASIS| == 9 && BASIS[0] == 0 && BASIS[1] == 0x04C1_1DB7 && Doubling(BASIS, 0x04C1_1DB7, 0x8000_0000)
  {
  }

  // The literals, in portions.

  lemma Fans1(r: nat)
    requires r < 8
    ensures Row(r) == Fan(BASIS, Row(r)[0])
  {
  }

  lemma Fans2(r: nat)
    requires 8 <= r < 16
    ensures Row(r) == Fan(BASIS, Row(r)[0])
  {
  }

  lemma Fans3(r: nat)
    requires 16 <= r < 24
    ensures Row(r) == Fan(BASIS, Row(r)[0])
  {
  }

  lemma Fans4(r: nat)
    requires 24 <= r < 32
    ensures Row(r) == Fan(BASIS, Row(r)[0])
  {
  }

  lemma Firsts1(q: nat)
    requires q < 4
    ensures FirstsDouble(Rows, BASIS, 0x04C1_1DB7, 0x8000_0000, q)
  {
  }

  lemma Firsts2(q: nat)
    requires 4 <= q < 8
    ensures FirstsDouble(Rows, BASIS, 0x04C1_1DB7, 0x8000_0000, q)
  {
  }

  lemma Firsts3(q: nat)
    requires 8 <= q < 12
    ensures FirstsDouble(Rows, BASIS, 0x04C1_1DB7, 0x8000_0000, q)
  {
  }

  lemma Firsts4(q: nat)
    requires 12 <= q < 16
    ensures FirstsDouble(Rows, BASIS, 0x04C1_1DB7, 0x8000_0000, q)
  {
  }

  lemma RowsRegular()
    ensures Regular(Rows, BASIS, 0x04C1_1DB7, 0x8000_0000)
  {
    hide StepBy, Plus, Fan, FirstsDouble, Doubling;
    BasisSteps();
    forall r: nat | r < 32
      ensures Row(r) == Fan(BASIS, Row(r)[0])
    {
      if r < 8 { Fans1(r); } else if r < 16 { Fans2(r); } else if r < 24 { Fans3(r); } else { Fans4(r); }
    }
    forall q: nat | q < 16
      ensures FirstsDouble(Rows, BASIS, 0x04C1_1DB7, 0x8000_0000, q)
    {
      if q < 4 { Firsts1(q); } else if q < 8 { Firsts2(q); } else if q < 12 { Firsts3(q); } else { Firsts4(q); }
    }
  }

  /** Entry j of the literal table is j x^32 modulo the generator. */
  lemma TableEntry(j: nat)
    requires j < 256
    ensures Val(Entry(j)) == POSIX.Mod(Shl(j, 32))
  {
    hide Row, Val, Regular, Times, Xor, Mul;
    Generator();
    BasisSteps();
    RowsRegular();
    StepTimes();
    RegularTabled(POSIX, Rows, BASIS, 0x04C1_1DB7, 0x8000_0000, j / 8, j % 8);
  }

  // ----- the checksum

  lemma IndexFits(crc: uint32, b: uint8)
    ensures (crc >> 24) ^ b <= 0xFF
  {
  }

  function Index(crc: uint32, b: uint8): (j: nat)
    ensures j < 256
  {
    IndexFits(crc, b);
    ValBelow((crc >> 24) ^ b);
    Val((crc >> 24) ^ b)
  }

  /** One turn of either loop. */
  function Feed(crc: uint32, b: uint8): uint32 {
    (crc << 8) ^ Entry(Index(crc, b))
  }

  function FeedAll(crc: uint32, bytes: seq<uint8>): uint32 {
    if bytes == [] then crc else Feed(FeedAll(crc, bytes[..|bytes| - 1]), bytes[|bytes| - 1])
  }

  lemma LowOctet(length: uint32)
    ensures length & 0xFF <= 0xFF
    ensures length != 0 ==> length >> 8 < length
  {
  }

  /** The length in octets, the least significant first, as few as it needs. */
  function Octets(length: uint32): seq<uint8>
    decreases length
  {
    LowOctet(length);
    if length == 0 then [] else [length & 0xFF] + Octets(length >> 8)
  }

  function Checksum(buffer: seq<uint8>, length: uint32): uint32 {
    !FeedAll(0, buffer + Octets(length))
  }

  lemma FeedAllConcat(crc: uint32, m: seq<uint8>, n: seq<uint8>)
    ensures FeedAll(crc, m + n) == FeedAll(FeedAll(crc, m), n)
  {
    if n == [] {
      assert m + n == m;
    } else {
      var k := |n| - 1;
      assert (m + n)[..|m + n| - 1] == m + n[..k];
      FeedAllConcat(crc, m, n[..k]);
    }
  }

  lemma FeedAllNext(crc: uint32, m: seq<uint8>, b: uint8)
    ensures FeedAll(crc, m + [b]) == (FeedAll(crc, m) << 8) ^ Entry(Index(FeedAll(crc, m), b))
  {
    hide Entry, Index;
    assert (m + [b])[..|m|] == m;
  }

  lemma OctetsNext(fed: seq<uint8>, length: uint32)
    requires length != 0
    ensures length & 0xFF <= 0xFF && length >> 8 < length
    ensures fed + Octets(length) == (fed + [length & 0xFF]) + Octets(length >> 8)
  {
    LowOctet(length);
  }

  lemma OctetsZero(fed: seq<uint8>)
    ensures fed + Octets(0) == fed
  {
  }

  lemma ChecksumComplement(buffer: seq<uint8>, length: uint32)
    ensures !Checksum(buffer, length) == FeedAll(0, buffer + Octets(length))
    ensures Checksum(buffer, length) == !FeedAll(0, buffer + Octets(length))
  {
  }

  /** The source indexes with a signed int, so the length is kept below 2^31. */
  method CheckCrc(buffer: seq<uint8>, fileLen: uint32) returns (crc: uint32)
    requires Val(fileLen) == |buffer| < 0x8000_0000
    ensures crc == Checksum(buffer, fileLen)
  {
    hide *;
    crc := 0;
    FeedAllEmpty(0);
    var index := 0;
    while index < Val(fileLen)
      invariant index <= |buffer|
      invariant crc == FeedAll(0, buffer[..index])
    {
      FeedAllNext(0, buffer[..index], buffer[index]);
      assert buffer[..index] + [buffer[index]] == buffer[..index + 1];
      crc := (crc << 8) ^ Entry(Index(crc, buffer[index]));
      index := index + 1;
    }
    ghost var fed: seq<uint8> := buffer[..index];
    assert fed == buffer;
    var length := fileLen;
    while length != 0
      invariant crc == FeedAll(0, fed)
      invariant fed + Octets(length) == buffer + Octets(fileLen)
      decreases length
    {
      OctetsNext(fed, length);
      var count := length & 0xFF;
      FeedAllNext(0, fed, count);
      crc := (crc << 8) ^ Entry(Index(crc, count));
      fed := fed + [count];
      length := length >> 8;
    }
    OctetsZero(fed);
    ChecksumComplement(buffer, fileLen);
    crc := !crc;
  }

  lemma FeedAllEmpty(crc: uint32)
    ensures FeedAll(crc, []) == crc
  {
  }

  // ----- the loops compute a remainder

  lemma FeedDigits(crc: uint32, b: uint8)
    ensures crc == Plus((crc >> 24) << 24, crc & 0xFF_FFFF)
    ensures Feed(crc, b) == Plus((crc & 0xFF_FFFF) << 8, Entry(Index(crc, b)))
    ensures Index(crc, b) == Val(Plus(crc >> 24, b))
  {
    LowThreeBytes(crc);
  }

  lemma LowThreeBytes(crc: uint32)
    ensures crc << 8 == (crc & 0xFF_FFFF) << 8
    ensures crc == ((crc >> 24) << 24) ^ (crc & 0xFF_FFFF)
  {
  }

  lemma HighByteDigits(h: uint32)
    requires h <= 0xFF
    ensures h <= 0xFF_FFFF && h << 8 <= 0xFF_FFFF && (h << 8) << 8 <= 0xFF_FFFF
    ensures ((h << 8) << 8) << 8 == h << 24
  {
  }

  lemma HighByteFits(crc: uint32)
    ensures crc >> 24 <= 0xFF && crc & 0xFF_FFFF <= 0xFF_FFFF
  {
  }

  lemma HighByteUp(h: uint32)
    requires h <= 0xFF
    ensures Val(h << 24) == Shl(Val(h), 24)
  {
    hide *;
    HighByteDigits(h);
    ValByteUp(h);
    ValByteUp(h << 8);
    ValByteUp((h << 8) << 8);
    ShlAdd(Val(h), 8, 8);
    ShlAdd(Val(h), 16, 8);
  }

  lemma FeedValue(high: uint32, up: uint32, low: uint32, lowUp: uint32, b: uint8, entry: uint32)
    requires Val(up) == Shl(Val(high), 24) && Val(lowUp) == Shl(Val(low), 8) && Val(low) < 0x100_0000
    requires Val(entry) == POSIX.Mod(Shl(Val(Plus(high, b)), 32))
    ensures Val(Plus(lowUp, entry)) == Absorb(POSIX, Val(Plus(up, low)), [b])
  {
    hide *;
    ValPlus(lowUp, entry);
    ValPlus(high, b);
    JoinedValue(high, up, low);
    AbsorbByte32(Val(high), Val(low), b);
  }

  lemma JoinedValue(high: uint32, up: uint32, low: uint32)
    requires Val(up) == Shl(Val(high), 24) && Val(low) < 0x100_0000
    ensures Val(Plus(up, low)) == Shl(Val(high), 24) + Val(low)
  {
    hide *;
    ValPlus(up, low);
    Powers();
    XorDisjoint(Val(high), Val(low), 24);
  }

  lemma AbsorbByte32(high: nat, low: nat, b: uint8)
    requires low < 0x100_0000
    ensures Absorb(POSIX, Shl(high, 24) + low, [b]) == Xor(Shl(low, 8), POSIX.Mod(Shl(Xor(high, Val(b)), 32)))
  {
    hide *;
    Generator();
    Powers();
    AbsorbByte(POSIX, high, low, b);
  }

  lemma FeedAbsorbs(crc: uint32, b: uint8)
    ensures Val(Feed(crc, b)) == Absorb(POSIX, Val(crc), [b])
  {
    hide *;
    FeedDigits(crc, b);
    HighByteFits(crc);
    HighByteUp(crc >> 24);
    ValByteUp(crc & 0xFF_FFFF);
    ValBelow(crc & 0xFF_FFFF);
    TableEntry(Index(crc, b));
    FeedValue(crc >> 24, (crc >> 24) << 24, crc & 0xFF_FFFF, (crc & 0xFF_FFFF) << 8, b, Entry(Index(crc, b)));
  }

  lemma {:induction false} FeedAllAbsorbs(crc: uint32, bytes: seq<uint8>)
    ensures Val(FeedAll(crc, bytes)) == Absorb(POSIX, Val(crc), bytes)
  {
    hide Val, Xor, Shl, Poly, Feed;
    Generator();
    if bytes == [] {
      ValBelow(crc);
      AbsorbNothing(POSIX, Val(crc));
    } else {
      var n := |bytes| - 1;
      FeedAllAbsorbs(crc, bytes[..n]);
      FeedAbsorbs(FeedAll(crc, bytes[..n]), bytes[n]);
      AbsorbConcat(POSIX, Val(crc), bytes[..n], [bytes[n]]);
      assert bytes[..n] + [bytes[n]] == bytes;
    }
  }

  /** The checksum is the complement of the remainder of the data followed by the octets of
      its length, that message multiplied by x^32: the definition in the cksum standard. */
  lemma ChecksumIsPosix(buffer: seq<uint8>, length: uint32)
    ensures Val(!Checksum(buffer, length)) == POSIX.Mod(Shl(Poly(buffer + Octets(length)), 32))
  {
    hide *;
    ChecksumComplement(buffer, length);
    FeedAllAbsorbs(0, buffer + Octets(length));
    AbsorbFromZero(buffer + Octets(length));
  }

  lemma AbsorbFromZero(bytes: seq<uint8>)
    ensures Absorb(POSIX, Val(0), bytes) == POSIX.Mod(Shl(Poly(bytes), 32))
  {
    hide Xor, Shl, Poly;
    ValZero();
    ShlZero(8 * |bytes|);
    XorZero(Shl(Poly(bytes), 32));
  }

  // ----- the length octets

  /** The number whose octets these are, least significant first. */
  function LittleEndian(bytes: seq<uint8>): nat {
    if bytes == [] then 0 else Val(bytes[0]) + 256 * LittleEndian(bytes[1..])
  }

  lemma OctetValue(length: uint32)
    ensures length & 0xFF <= 0xFF && Val(length) == 256 * Val(length >> 8) + Val(length & 0xFF)
  {
    hide *;
    OctetDigits(length);
    ValByteUp(length >> 8);
    ValBelow(length & 0xFF);
    OctetJoin(length >> 8, (length >> 8) << 8, length & 0xFF);
  }

  lemma OctetJoin(high: uint32, up: uint32, low: uint32)
    requires Val(up) == Shl(Val(high), 8) && Val(low) < 256
    ensures Val(Plus(up, low)) == 256 * Val(high) + Val(low)
  {
    hide *;
    ValPlus(up, low);
    Powers();
    XorDisjoint(Val(high), Val(low), 8);
    ShlByte(Val(high));
  }

  lemma OctetDigits(length: uint32)
    ensures length == Plus((length >> 8) << 8, length & 0xFF)
    ensures length >> 8 <= 0xFF_FFFF && length & 0xFF <= 0xFF
  {
  }

  /** The octets spell the length, and the last one is not a leading zero. */
  lemma {:induction false} OctetsSpell(length: uint32)
    ensures LittleEndian(Octets(length)) == Val(length)
    ensures length != 0 ==> Octets(length) != [] && Octets(length)[|Octets(length)| - 1] != 0
    decreases length
  {
    hide Val;
    LowOctet(length);
    if length == 0 {
      ValZero();
    } else {
      OctetsSpell(length >> 8);
      OctetValue(length);
      if length >> 8 == 0 { LastOctet(length); }
    }
  }

  lemma LastOctet(length: uint32)
    requires length != 0 && length >> 8 == 0
    ensures length & 0xFF != 0
  {
  }

  // ----- what the checksum detects

  /** Buffers of one length have the same checksum exactly when the generator divides their
      difference: every later step is a bijection on the register. */
  lemma SameChecksumIff(a: seq<uint8>, b: seq<uint8>, length: uint32)
    requires |a| == |b|
    ensures Checksum(a, length) == Checksum(b, length) <==> Divides(POSIX.poly, Difference(a, b))
  {
    hide *;
    Generator();
    ChecksumIsPosix(a, length);
    ChecksumIsPosix(b, length);
    ShiftedDifference(a, b, Octets(length));
    PassesIffMultiple(POSIX, Difference(a, b));
    Complements(Checksum(a, length), Checksum(b, length));
  }

  lemma Complements(v: uint32, w: uint32)
    ensures Val(!v) == Val(!w) <==> v == w
  {
    hide Val;
    if Val(!v) == Val(!w) {
      ValInjective(!v, !w);
      SameComplement(v, w);
    }
  }

  lemma SameComplement(v: uint32, w: uint32)
    requires !v == !w
    ensures v == w
  {
  }

  lemma ShiftedDifference(a: seq<uint8>, b: seq<uint8>, tail: seq<uint8>)
    requires |a| == |b|
    ensures POSIX.Mod(Shl(Poly(a + tail), 32)) == POSIX.Mod(Shl(Poly(b + tail), 32)) <==>
      POSIX.Mod(Difference(a, b)) == 0
  {
    hide Xor, Shl, Poly, Mul;
    Generator();
    var k, t, d := 8 * |tail|, Poly(tail), Difference(a, b);
    PolyConcat(a, tail);
    PolyConcat(b, tail);
    XorExchange(Shl(Poly(a), k), t, Shl(Poly(b), k), t);
    XorSelf(t);
    ShlXor(Poly(a), Poly(b), k);
    XorZero(Shl(d, k));
    ShlXor(Poly(a + tail), Poly(b + tail), 32);
    ShlAdd(d, k, 32);
    ModShl(POSIX, d, k + 32);
    ModBelow(POSIX, d);
    TimesXPowNonZero(POSIX, k + 32, POSIX.Mod(d));
    ModXor(POSIX, Shl(Poly(a + tail), 32), Shl(Poly(b + tail), 32));
    XorEqualsZero(POSIX.Mod(Shl(Poly(a + tail), 32)), POSIX.Mod(Shl(Poly(b + tail), 32)));
  }

  /** So buffers of one length that differ by a burst of at most 32 bits have different checksums. */
  lemma BurstChangesChecksum(a: seq<uint8>, b: seq<uint8>, length: uint32, pattern: nat, offset: nat)
    requires |a| == |b| && 0 < pattern < 0x1_0000_0000
    requires Difference(a, b) == Shl(pattern, offset)
    ensures Checksum(a, length) != Checksum(b, length)
  {
    hide *;
    Generator();
    SameChecksumIff(a, b, length);
    PassesIffMultiple(POSIX, Difference(a, b));
    BurstDetected(POSIX, pattern, offset);
  }

  // ----- the period of x, by repeated squaring in words

  function MulWord(r: uint32, s: uint32): uint32 {
    MulLow(0x04C1_1DB7, 0x8000_0000, r, s, MulLow(0x04C1_1DB7, 0x8000_0000, r >> 16, s, 0))
  }

  lemma TopZero(r: uint32)
    ensures (r >> 16) >> 16 == 0
  {
  }

  lemma WordPower(j: nat, r: uint32, k: nat, s: uint32)
    requires Power(POSIX, j, r) && Power(POSIX, k, s)
    ensures Power(POSIX, j + k, MulWord(r, s))
  {
    hide *;
    Generator();
    StepTimes();
    TopZero(r);
    PowerBelow(POSIX, k, s);
    ZeroProduct(POSIX, s);
    LowProduct(POSIX, 0x04C1_1DB7, 0x8000_0000, r >> 16, s, 0);
    LowProduct(POSIX, 0x04C1_1DB7, 0x8000_0000, r, s, MulLow(0x04C1_1DB7, 0x8000_0000, r >> 16, s, 0));
    MulWordIs(r, s);
    PowerTimes(POSIX, j, r, k, s, MulWord(r, s));
  }

  lemma MulWordIs(r: uint32, s: uint32)
    ensures MulWord(r, s) ==
      MulLow(0x04C1_1DB7, 0x8000_0000, r, s, MulLow(0x04C1_1DB7, 0x8000_0000, r >> 16, s, 0))
  {
    hide MulLow;
  }

  lemma Squares1()
    ensures MulWord(0x00000002, 0x00000002) == 0x00000004
    ensures MulWord(0x00000004, 0x00000004) == 0x00000010
    ensures MulWord(0x00000010, 0x00000010) == 0x00000100
    ensures MulWord(0x00000100, 0x00000100) == 0x00010000
    ensures MulWord(0x00010000, 0x00010000) == 0x04C11DB7
    ensures MulWord(0x04C11DB7, 0x04C11DB7) == 0x490D678D
    ensures MulWord(0x490D678D, 0x490D678D) == 0xE8A45605
    ensures MulWord(0xE8A45605, 0xE8A45605) == 0x75BE46B7
  {
  }

  lemma Squares2()
    ensures MulWord(0x75BE46B7, 0x75BE46B7) == 0xE6228B11
    ensures MulWord(0xE6228B11, 0xE6228B11) == 0x567FDDEB
    ensures MulWord(0x567FDDEB, 0x567FDDEB) == 0x88FE2237
    ensures MulWord(0x88FE2237, 0x88FE2237) == 0x0E857E71
    ensures MulWord(0x0E857E71, 0x0E857E71) == 0x7001E426
    ensures MulWord(0x7001E426, 0x7001E426) == 0x075DE2B2
    ensures MulWord(0x075DE2B2, 0x075DE2B2) == 0xF12A7F90
    ensures MulWord(0xF12A7F90, 0xF12A7F90) == 0xF0B4A1C1
  {
  }

  lemma Squares3()
    ensures MulWord(0xF0B4A1C1, 0xF0B4A1C1) == 0x58F46C0C
    ensures MulWord(0x58F46C0C, 0x58F46C0C) == 0xC3395ADE
    ensures MulWord(0xC3395ADE, 0xC3395ADE) == 0x96837F8C
    ensures MulWord(0x96837F8C, 0x96837F8C) == 0x544037F9
    ensures MulWord(0x544037F9, 0x544037F9) == 0x23B7B136
    ensures MulWord(0x23B7B136, 0x23B7B136) == 0xB2E16BA8
    ensures MulWord(0xB2E16BA8, 0xB2E16BA8) == 0x725E7BFA
    ensures MulWord(0x725E7BFA, 0x725E7BFA) == 0xEC709B5D
  {
  }

  lemma Squares4()
    ensures MulWord(0xEC709B5D, 0xEC709B5D) == 0xF77A7274
    ensures MulWord(0xF77A7274, 0xF77A7274) == 0x2845D572
    ensures MulWord(0x2845D572, 0x2845D572) == 0x034E2515
    ensures MulWord(0x034E2515, 0x034E2515) == 0x79695942
    ensures MulWord(0x79695942, 0x79695942) == 0x540CB128
    ensures MulWord(0x540CB128, 0x540CB128) == 0x0B65D023
    ensures MulWord(0x0B65D023, 0x0B65D023) == 0x3C344723
    ensures MulWord(0x3C344723, 0x3C344723) == 0x00000002
  {
  }

  /** The powers x^(2^k), up to x^(2^32) = x. */
  lemma PowersOfTwo()
    ensures Power(POSIX, 0x1, 0x00000002)
    ensures Power(POSIX, 0x2, 0x00000004)
    ensures Power(POSIX, 0x4, 0x00000010)
    ensures Power(POSIX, 0x8, 0x00000100)
    ensures Power(POSIX, 0x10, 0x00010000)
    ensures Power(POSIX, 0x20, 0x04C11DB7)
    ensures Power(POSIX, 0x40, 0x490D678D)
    ensures Power(POSIX, 0x80, 0xE8A45605)
    ensures Power(POSIX, 0x100, 0x75BE46B7)
    ensures Power(POSIX, 0x200, 0xE6228B11)
    ensures Power(POSIX, 0x400, 0x567FDDEB)
    ensures Power(POSIX, 0x800, 0x88FE2237)
    ensures Power(POSIX, 0x1000, 0x0E857E71)
    ensures Power(POSIX, 0x2000, 0x7001E426)
    ensures Power(POSIX, 0x4000, 0x075DE2B2)
    ensures Power(POSIX, 0x8000, 0xF12A7F90)
    ensures Power(POSIX, 0x10000, 0xF0B4A1C1)
  {
    hide *;
    Generator();
    PowerOne(POSIX);
    Squares1(); Squares2();
    WordPower(0x1, 0x00000002, 0x1, 0x00000002);
    WordPower(0x2, 0x00000004, 0x2, 0x00000004);
    WordPower(0x4, 0x00000010, 0x4, 0x00000010);
    WordPower(0x8, 0x00000100, 0x8, 0x00000100);
    WordPower(0x10, 0x00010000, 0x10, 0x00010000);
    WordPower(0x20, 0x04C11DB7, 0x20, 0x04C11DB7);
    WordPower(0x40, 0x490D678D, 0x40, 0x490D678D);
    WordPower(0x80, 0xE8A45605, 0x80, 0xE8A45605);
    WordPower(0x100, 0x75BE46B7, 0x100, 0x75BE46B7);
    WordPower(0x200, 0xE6228B11, 0x200, 0xE6228B11);
    WordPower(0x400, 0x567FDDEB, 0x400, 0x567FDDEB);
    WordPower(0x800, 0x88FE2237, 0x800, 0x88FE2237);
    WordPower(0x1000, 0x0E857E71, 0x1000, 0x0E857E71);
    WordPower(0x2000, 0x7001E426, 0x2000, 0x7001E426);
    WordPower(0x4000, 0x075DE2B2, 0x4000, 0x075DE2B2);
    WordPower(0x8000, 0xF12A7F90, 0x8000, 0xF12A7F90);
  }

  lemma HighPowersOfTwo()
    ensures Power(POSIX, 0x20000, 0x58F46C0C)
    ensures Power(POSIX, 0x40000, 0xC3395ADE)
    ensures Power(POSIX, 0x80000, 0x96837F8C)
    ensures Power(POSIX, 0x100000, 0x544037F9)
    ensures Power(POSIX, 0x200000, 0x23B7B136)
    ensures Power(POSIX, 0x400000, 0xB2E16BA8)
    ensures Power(POSIX, 0x800000, 0x725E7BFA)
    ensures Power(POSIX, 0x1000000, 0xEC709B5D)
    ensures Power(POSIX, 0x2000000, 0xF77A7274)
    ensures Power(POSIX, 0x4000000, 0x2845D572)
    ensures Power(POSIX, 0x8000000, 0x034E2515)
    ensures Power(POSIX, 0x10000000, 0x79695942)
    ensures Power(POSIX, 0x20000000, 0x540CB128)
    ensures Power(POSIX, 0x40000000, 0x0B65D023)
    ensures Power(POSIX, 0x80000000, 0x3C344723)
    ensures Power(POSIX, 0x100000000, 0x00000002)
  {
    hide *;
    PowersOfTwo();
    Squares3(); Squares4();
    WordPower(0x10000, 0xF0B4A1C1, 0x10000, 0xF0B4A1C1);
    WordPower(0x20000, 0x58F46C0C, 0x20000, 0x58F46C0C);
    WordPower(0x40000, 0xC3395ADE, 0x40000, 0xC3395ADE);
    WordPower(0x80000, 0x96837F8C, 0x80000, 0x96837F8C);
    WordPower(0x100000, 0x544037F9, 0x100000, 0x544037F9);
    WordPower(0x200000, 0x23B7B136, 0x200000, 0x23B7B136);
    WordPower(0x400000, 0xB2E16BA8, 0x400000, 0xB2E16BA8);
    WordPower(0x800000, 0x725E7BFA, 0x800000, 0x725E7BFA);
    WordPower(0x1000000, 0xEC709B5D, 0x1000000, 0xEC709B5D);
    WordPower(0x2000000, 0xF77A7274, 0x2000000, 0xF77A7274);
    WordPower(0x4000000, 0x2845D572, 0x4000000, 0x2845D572);
    WordPower(0x8000000, 0x034E2515, 0x8000000, 0x034E2515);
    WordPower(0x10000000, 0x79695942, 0x10000000, 0x79695942);
    WordPower(0x20000000, 0x540CB128, 0x20000000, 0x540CB128);
    WordPower(0x40000000, 0x0B65D023, 0x40000000, 0x0B65D023);
    WordPower(0x80000000, 0x3C344723, 0x80000000, 0x3C344723);
  }

  lemma Products1()
    ensures MulWord(0x00000002, 0xF0B4A1C1) == 0xE5A85E35
    ensures MulWord(0x75BE46B7, 0xEC709B5D) == 0x58AB0C62
    ensures MulWord(0x58AB0C62, 0xE5A85E35) == 0x85DAD68C
    ensures MulWord(0x00010000, 0x0E857E71) == 0x6F267771
    ensures MulWord(0x6F267771, 0x544037F9) == 0x624721FA
    ensures MulWord(0x624721FA, 0x79695942) == 0x053C1430
    ensures MulWord(0x85DAD68C, 0x053C1430) == 0x80E6C2BC
    ensures MulWord(0x00000010, 0x490D678D) == 0x83D20E0C
  {
  }

  lemma Products2()
    ensures MulWord(0x83D20E0C, 0x567FDDEB) == 0x0F15CA77
    ensures MulWord(0x0F15CA77, 0x075DE2B2) == 0x1E4DD3F4
    ensures MulWord(0x1E4DD3F4, 0xC3395ADE) == 0x9FCB4031
    ensures MulWord(0x9FCB4031, 0xB2E16BA8) == 0xE60B51EA
    ensures MulWord(0xE60B51EA, 0x2845D572) == 0x7AD4734B
    ensures MulWord(0x7AD4734B, 0x0B65D023) == 0x80E6C2BD
    ensures MulWord(0x80E6C2BD, 0x80E6C2BC) == 0x4AD76CE3
  {
  }

  lemma FirstProducts()
    ensures Power(POSIX, 0x1000100, 0x58AB0C62) && Power(POSIX, 0x10001, 0xE5A85E35)
    ensures Power(POSIX, 0x10101010, 0x053C1430) && Power(POSIX, 0x1010101, 0x85DAD68C)
  {
    hide *;
    PowersOfTwo();
    HighPowersOfTwo();
    Products1();
    WordPower(0x1, 0x00000002, 0x10000, 0xF0B4A1C1);
    WordPower(0x100, 0x75BE46B7, 0x1000000, 0xEC709B5D);
    WordPower(0x1000100, 0x58AB0C62, 0x10001, 0xE5A85E35);
    WordPower(0x10, 0x00010000, 0x1000, 0x0E857E71);
    WordPower(0x1010, 0x6F267771, 0x100000, 0x544037F9);
    WordPower(0x101010, 0x624721FA, 0x10000000, 0x79695942);
  }

  lemma LastProducts()
    ensures Power(POSIX, 0x44444444, 0x80E6C2BD) && Power(POSIX, 0x11111111, 0x80E6C2BC)
    ensures Power(POSIX, 0x55555555, 0x4AD76CE3)
  {
    hide *;
    PowersOfTwo();
    HighPowersOfTwo();
    FirstProducts();
    Products1(); Products2();
    WordPower(0x1010101, 0x85DAD68C, 0x10101010, 0x053C1430);
    WordPower(0x4, 0x00000010, 0x40, 0x490D678D);
    WordPower(0x44, 0x83D20E0C, 0x400, 0x567FDDEB);
    WordPower(0x444, 0x0F15CA77, 0x4000, 0x075DE2B2);
    WordPower(0x4444, 0x1E4DD3F4, 0x40000, 0xC3395ADE);
    WordPower(0x44444, 0x9FCB4031, 0x400000, 0xB2E16BA8);
    WordPower(0x444444, 0xE60B51EA, 0x4000000, 0x2845D572);
    WordPower(0x4444444, 0x7AD4734B, 0x40000000, 0x0B65D023);
    WordPower(0x44444444, 0x80E6C2BD, 0x11111111, 0x80E6C2BC);
  }

  /** 2^32 - 1 = 3 * 5 * 17 * 257 * 65537 is a period, and divided by any of these primes it is
      none: each quotient is the difference of two exponents whose powers of x differ. */
  lemma KnownPeriods()
    ensures Period(POSIX, 0xFFFF_FFFF)
    ensures !Period(POSIX, 0xFFFF) && !Period(POSIX, 0xFF_00FF) && !Period(POSIX, 0xF0F_0F0F)
    ensures !Period(POSIX, 0x3333_3333) && !Period(POSIX, 0x5555_5555)
  {
    hide *;
    Generator();
    PowerOne(POSIX);
    PowersOfTwo();
    HighPowersOfTwo();
    FirstProducts();
    LastProducts();
    PeriodFrom(POSIX, 0xFFFF_FFFF);
    NotPeriod(POSIX, 0xFFFF, 1, 0xF0B4A1C1, 2);
    NotPeriod(POSIX, 0xFF_00FF, 0x10001, 0x58AB0C62, 0xE5A85E35);
    NotPeriod(POSIX, 0xF0F_0F0F, 0x1010101, 0x053C1430, 0x85DAD68C);
    NotPeriod(POSIX, 0x3333_3333, 0x11111111, 0x80E6C2BD, 0x80E6C2BC);
    NotPeriod(POSIX, 0x5555_5555, 0, 0x4AD76CE3, 1);
  }

  lemma NoDivisor64()
    ensures NoDivisor(65537, 64)
  {
    assert NoDivisor(65537, 8);
    EightMore(65537, 8); EightMore(65537, 16); EightMore(65537, 24); EightMore(65537, 32);
    EightMore(65537, 40); EightMore(65537, 48); EightMore(65537, 56);
  }

  lemma NoDivisor128()
    ensures NoDivisor(65537, 128)
  {
    NoDivisor64();
    EightMore(65537, 64); EightMore(65537, 72); EightMore(65537, 80); EightMore(65537, 88);
    EightMore(65537, 96); EightMore(65537, 104); EightMore(65537, 112); EightMore(65537, 120);
  }

  lemma NoDivisor192()
    ensures NoDivisor(65537, 192)
  {
    NoDivisor128();
    EightMore(65537, 128); EightMore(65537, 136); EightMore(65537, 144); EightMore(65537, 152);
    EightMore(65537, 160); EightMore(65537, 168); EightMore(65537, 176); EightMore(65537, 184);
  }

  lemma NoDivisor256()
    ensures NoDivisor(65537, 256)
  {
    NoDivisor192();
    EightMore(65537, 192); EightMore(65537, 200); EightMore(65537, 208); EightMore(65537, 216);
    EightMore(65537, 224); EightMore(65537, 232); EightMore(65537, 240); EightMore(65537, 248);
  }

  lemma PrimeFactors()
    ensures Prime(3) && Prime(5) && Prime(17) && Prime(257) && Prime(65537)
  {
    PrimeBy(3, 1);
    PrimeBy(5, 2);
    PrimeBy(17, 4);
    assert NoDivisor(257, 16);
    PrimeBy(257, 16);
    NoDivisor256();
    PrimeBy(65537, 256);
  }

  /** A period that divides it is the whole of it, having each of its prime factors. */
  lemma NoneSmaller()
    ensures Least(POSIX, 0xFFFF_FFFF)
  {
    hide *;
    PrimeFactors();
    KnownPeriods();
    forall g: nat | Factor(g, 0xFFFF_FFFF) && Period(POSIX, g)
      ensures g == 0xFFFF_FFFF
    {
      var n := Cofactor(g, 0xFFFF_FFFF);
      var g1 := PrimeFactor(POSIX, 1, g, n, 65537, 0xFFFF);
      var g2 := PrimeFactor(POSIX, 65537, g1, n, 257, 0xFF);
      var g3 := PrimeFactor(POSIX, 65537 * 257, g2, n, 17, 0xF);
      var g4 := PrimeFactor(POSIX, 65537 * 257 * 17, g3, n, 5, 3);
      var g5 := PrimeFactor(POSIX, 65537 * 257 * 17 * 5, g4, n, 3, 1);
      UnitFactor(n, g5);
    }
    LeastBy(POSIX, 0xFFFF_FFFF);
  }

  /** The generator is primitive: the order of x is 2^32 - 1. */
  lemma PeriodIff(k: nat)
    ensures Period(POSIX, k) <==> k % 0xFFFF_FFFF == 0
  {
    hide *;
    Generator();
    KnownPeriods();
    NoneSmaller();
    OrderIff(POSIX, 0xFFFF_FFFF, k);
  }

  /** Two flipped bits leave the checksum as it was exactly when their distance is a multiple of
      2^32 - 1 bits. */
  lemma TwoFlipsIff(buffer: seq<uint8>, length: uint32, i: nat, j: nat)
    requires i < 8 * |buffer| && j < 8 * |buffer| && i != j
    ensures Checksum(Flip(Flip(buffer, i), j), length) == Checksum(buffer, length) <==> (j - i) % 0xFFFF_FFFF == 0
  {
    hide *;
    var once := Flip(buffer, i);
    FlipDifference(buffer, i);
    FlipDifference(once, j);
    DifferenceChain(buffer, once, Flip(once, j));
    SameChecksumIff(buffer, Flip(once, j), length);
    if i < j {
      TwoBitsIff(i, j);
    } else {
      XorComm(Shl(1, i), Shl(1, j));
      TwoBitsIff(j, i);
      EitherWay(i, j, 0xFFFF_FFFF);
    }
  }

  lemma TwoBitsIff(i: nat, j: nat)
    requires i < j
    ensures Divides(POSIX.poly, Xor(Shl(1, i), Shl(1, j))) <==> (j - i) % 0xFFFF_FFFF == 0
  {
    hide *;
    Generator();
    PassesIffMultiple(POSIX, Xor(Shl(1, i), Shl(1, j)));
    TwoBitsPass(POSIX, i, j);
    PeriodIs(POSIX, j - i);
    PeriodIff(j - i);
  }

  /** So in a buffer of less than 512 megabytes two flips always change it. */
  lemma TwoFlipsChangeChecksum(buffer: seq<uint8>, length: uint32, i: nat, j: nat)
    requires i < 8 * |buffer| && j < 8 * |buffer| && i != j && |buffer| < 0x2000_0000
    ensures Checksum(Flip(Flip(buffer, i), j), length) != Checksum(buffer, length)
  {
    hide *;
    TwoFlipsIff(buffer, length, i, j);
    SmallDistance(j - i, 0xFFFF_FFFF);
  }
}
