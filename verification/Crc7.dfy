/** CRC-7 of the SD-card commands: a table built by a loop, then folded over a message. */
module Crc7 {
  import opened Gf2
  import opened Word
  import opened CrcCode
  import opened CrcPeriod
  import opened CrcWord

  /** x^7 + x^3 + 1 */
  const SD7 := Code(7, 0x89)

  lemma Generator()
    ensures SD7.Valid() && SD7.degree == 7 && SD7.poly == 0x89 && SD7.Top() == 0x80
    ensures Val(0x89) == 0x89 && Val(0x80) == 0x80 && Val(0x100) == 0x100
  {
    hide Xor, Mul;
    Powers();
    assert Shl(1, 8) == 2 * Shl(1, 7);
    ValLiterals();
  }

  lemma ValLiterals()
    ensures Val(0x89) == 0x89 && Val(0x80) == 0x80 && Val(0x100) == 0x100
  {
    ValZero();
    hide Val;
    ValUnfold(1, 0, 1); ValUnfold(2, 1, 0); ValUnfold(4, 2, 0); ValUnfold(8, 4, 0);
    ValUnfold(0x11, 8, 1); ValUnfold(0x22, 0x11, 0); ValUnfold(0x44, 0x22, 0); ValUnfold(0x89, 0x44, 1);
    ValNibbleUp(0x8);
    ValNibbleUp(0x10);
    ValNibbleUp(0x1);
  }

  /** Subtract the generator when bit 7 is set. */
  function Fold(w: uint32): uint32 {
    if w & 0x80 != 0 then w ^ 0x89 else w
  }

  lemma LowDigits(w: uint32)
    requires w <= 0xFF && w & 0x80 == 0
    ensures Fold(w) == w <= 0x7F && IsDouble(w << 1, w) && w << 1 <= 0xFF
  {
  }

  lemma TopDigits(w: uint32)
    requires w <= 0xFF && w & 0x80 != 0
    ensures w == Plus(0x80, w & 0x7F) && Fold(w) == Plus(w, 0x89) <= 0x7F
    ensures IsDouble((w & 0x7F) << 1, w & 0x7F) && (w & 0x7F) << 1 <= 0xFF
  {
  }

  lemma SevenBits(w: uint32, doubled: uint32)
    requires IsDouble(doubled, w) && doubled <= 0xFF
    ensures Val(w) < 0x80
  {
    hide *;
    ValIsDouble(doubled, w);
    ValBelow(doubled);
  }

  lemma FoldLow(w: uint32)
    requires w <= 0xFF && w & 0x80 == 0
    ensures Val(Fold(w)) == SD7.Reduce(Val(w)) && Fold(w) <= 0x7F
  {
    hide Val, Xor, Shl, IsDouble, Fold;
    Generator();
    LowDigits(w);
    SevenBits(w, w << 1);
  }

  lemma FoldTop(w: uint32, low: uint32, doubled: uint32)
    requires w == Plus(0x80, low) && IsDouble(doubled, low) && doubled <= 0xFF
    ensures Val(Plus(w, 0x89)) == SD7.Reduce(Val(w))
  {
    hide Val, Xor, Shl, IsDouble, Plus;
    Generator();
    SevenBits(low, doubled);
    ValPlus(0x80, low);
    ValPlus(w, 0x89);
    XorDisjoint(1, Val(low), 7);
  }

  lemma FoldIsReduce(w: uint32)
    requires w <= 0xFF
    ensures Val(Fold(w)) == SD7.Reduce(Val(w)) && Fold(w) <= 0x7F
  {
    hide *;
    if w & 0x80 == 0 {
      FoldLow(w);
    } else {
      TopDigits(w);
      FoldTop(w, w & 0x7F, (w & 0x7F) << 1);
    }
  }

  lemma DoubleDigits7(w: uint32)
    requires w <= 0x7F
    ensures IsDouble((w << 1) & 0xFF, w) && (w << 1) & 0xFF <= 0xFF && w & 0x7F == w
  {
  }

  /** One turn of the inner loop multiplies by x. */
  lemma ShiftIsTimesX(w: uint32)
    requires w <= 0x7F
    ensures Val(Fold((w << 1) & 0xFF)) == SD7.TimesX(Val(w)) && Fold((w << 1) & 0xFF) <= 0x7F
  {
    hide *;
    DoubleDigits7(w);
    FoldIsReduce((w << 1) & 0xFF);
    ValIsDouble((w << 1) & 0xFF, w);
    TimesXIs(Val(w));
  }

  lemma TimesXIs(r: nat)
    ensures SD7.TimesX(r) == SD7.Reduce(2 * r)
  {
  }

  lemma ByteReduces(w: uint32)
    requires w <= 0xFF
    ensures SD7.Reduce(Val(w)) == SD7.Mod(Val(w)) && Val(w) < 256
  {
    hide Val, Xor, Shl;
    Generator();
    ValBelow(w);
    var h := Val(w) / 2;
    var e: bit := Val(w) % 2;
    ModSmall(SD7, h);
    ModStep(SD7, h, e);
  }

  lemma NextByte(byt: uint32)
    requires byt < 256
    ensures byt <= 0xFF && byt + 1 <= 256 && 256 - (byt + 1) < 256 - byt
    ensures Val(byt + 1) == Val(byt) + 1
  {
    ByteSteps(byt);
    ValNext(byt);
  }

  lemma ByteSteps(byt: uint32)
    requires byt < 256
    ensures byt <= 0xFF && byt + 1 <= 256 && 256 - (byt + 1) < 256 - byt && byt != 0xFFFF_FFFF
  {
  }

  class CommandCrc {
    const CRCTable: array<uint8>

    /** The table holds b x^7 modulo the generator at every byte b, in seven bits. */
    ghost predicate Ready()
      reads CRCTable
    {
      CRCTable.Length == 256 &&
      forall j | 0 <= j < 256 :: Seven(CRCTable[j], j)
    }

    constructor ()
      ensures fresh(CRCTable) && CRCTable.Length == 256
    {
      CRCTable := new uint8[256];
    }

    method GenerateCRCTable()
      requires CRCTable.Length == 256
      modifies CRCTable
      ensures Ready()
    {
      hide *;
      var byt: uint32 := 0;
      ValZero();
      while byt < 256
        invariant byt <= 256
        invariant Val(byt) <= 256
        invariant forall j | 0 <= j < Val(byt) :: Seven(CRCTable[j], j)
        decreases 256 - byt
      {
        NextByte(byt);
        ByteReduces(byt);
        FoldIsReduce(byt);
        FoldIs(byt);
        var crc: uint32 := byt;
        if crc & 0x80 != 0 { crc := crc ^ 0x89; }
        StartPower(Val(byt));
        var bit := 1;
        while bit < 8
          modifies {}
          invariant 1 <= bit <= 8
          invariant crc <= 0x7F
          invariant Val(crc) == SD7.TimesXPow(bit - 1, SD7.Mod(Val(byt)))
        {
          ShiftIsTimesX(crc);
          FoldIs((crc << 1) & 0xFF);
          NextPower(bit, SD7.Mod(Val(byt)));
          crc := (crc << 1) & 0xFF;
          if crc & 0x80 != 0 { crc := crc ^ 0x89; }
          bit := bit + 1;
        }
        SevenFrom(Val(byt), crc);
        CRCTable[Val(byt)] := crc & 0x7F;
        byt := byt + 1;
      }
      LastByte(byt);
      ReadyFrom();
    }

    /** Seven bits of checksum and a byte never index past the table. */
    function CRCAdd(crc: uint8, messageByte: uint8): (sum: uint8)
      requires Ready() && crc <= 0x7F
      reads CRCTable
      ensures sum <= 0x7F
      ensures Val(sum) == Absorb(SD7, Val(crc), [messageByte])
    {
      IndexFits(crc, messageByte);
      AddAbsorbs(crc, messageByte);
      CRCTable[Val((crc << 1) ^ messageByte)]
    }

    /** CRCAdd folded over a message of any length. */
    function AddAll(crc: uint8, message: seq<uint8>): (sum: uint8)
      requires Ready() && crc <= 0x7F
      reads CRCTable
      ensures sum <= 0x7F
      ensures Val(sum) == Absorb(SD7, Val(crc), message)
    {
      hide *;
      if message == [] then
        Nothing(crc);
        crc
      else
        var n := |message| - 1;
        OneMore(crc, message[..n], message[n], AddAll(crc, message[..n]));
        assert message[..n] + [message[n]] == message;
        CRCAdd(AddAll(crc, message[..n]), message[n])
    }

    /** It is the message times x^7, modulo the generator. */
    lemma AddAllIsRemainder(message: seq<uint8>)
      requires Ready()
      ensures Val(AddAll(0, message)) == SD7.Mod(Shl(Poly(message), 7))
    {
      hide *;
      AbsorbZero(message);
    }

    method GetCRC(command: uint8, argument: uint32) returns (crc: uint8)
      requires Ready()
      ensures crc <= 0x7F
      ensures Val(crc) == SD7.Mod(Shl(Xor(Shl(Val(command), 32), Val(argument)), 7))
    {
      hide *;
      Parts(argument);
      var message: seq<uint8> :=
        [command, (argument >> 24) & 0xFF, (argument >> 16) & 0xFF, (argument >> 8) & 0xFF, argument & 0xFF];
      crc := 0;
      StartEmpty();
      for i := 0 to 5
        invariant crc <= 0x7F && Ready()
        invariant Val(crc) == Absorb(SD7, Val(0), message[..i])
      {
        Generator();
        AbsorbConcat(SD7, Val(0), message[..i], [message[i]]);
        assert message[..i] + [message[i]] == message[..i + 1];
        crc := CRCAdd(crc, message[i]);
      }
      assert message[..5] == message;
      CommandMessage(command, argument, message);
    }

    lemma ReadyFrom()
      requires CRCTable.Length == 256 && forall j | 0 <= j < 256 :: Seven(CRCTable[j], j)
      ensures Ready()
    {
    }
  }

  ghost predicate Seven(w: uint32, j: nat) {
    w <= 0x7F && Val(w) == TableValue(SD7, j)
  }

  lemma FoldIs(w: uint32)
    ensures Fold(w) == if w & 0x80 != 0 then w ^ 0x89 else w
  {
  }

  lemma StartPower(b: nat)
    ensures SD7.TimesXPow(0, SD7.Mod(b)) == SD7.Mod(b)
  {
  }

  lemma NextPower(bit: nat, r: nat)
    requires bit > 0
    ensures SD7.TimesXPow(bit, r) == SD7.TimesX(SD7.TimesXPow(bit - 1, r))
  {
  }

  lemma SevenFrom(b: nat, crc: uint32)
    requires crc <= 0x7F && Val(crc) == SD7.TimesXPow(7, SD7.Mod(b))
    ensures crc & 0x7F == crc && Seven(crc & 0x7F, b)
  {
    hide Val, Xor, Shl, TableValue;
    DoubleDigits7(crc);
    Generator();
    ModShl(SD7, b, 7);
    TableValueIs(b);
  }

  lemma TableValueIs(b: nat)
    ensures TableValue(SD7, b) == SD7.Mod(Shl(b, 7))
  {
  }

  lemma LastByte(byt: uint32)
    requires 256 <= byt <= 256
    ensures Val(byt) == 256
  {
    Generator();
  }

  lemma IndexFits(crc: uint8, b: uint8)
    requires crc <= 0x7F
    ensures (crc << 1) ^ b <= 0xFF && Val((crc << 1) ^ b) < 256
  {
    hide Val;
    IndexDigits(crc, b);
    ValBelow((crc << 1) ^ b);
  }

  lemma IndexDigits(crc: uint8, b: uint8)
    requires crc <= 0x7F
    ensures (crc << 1) ^ b <= 0xFF && (crc << 1) ^ b == Plus(crc << 1, b) && IsDouble(crc << 1, crc)
  {
  }

  lemma AddAbsorbs(crc: uint8, b: uint8)
    requires crc <= 0x7F
    ensures TableValue(SD7, Val((crc << 1) ^ b)) == Absorb(SD7, Val(crc), [b])
  {
    hide *;
    IndexDigits(crc, b);
    ValIsDouble(crc << 1, crc);
    ValPlus(crc << 1, b);
    AbsorbByte7(Val(crc), b);
  }

  lemma AbsorbByte7(r: nat, b: uint8)
    ensures TableValue(SD7, Xor(2 * r, Val(b))) == Absorb(SD7, r, [b])
  {
    hide Xor, Shl, Poly, Val;
    PolyOne(b);
    ShlNibble(r);
    ShlXor(2 * r, Val(b), 7);
    ShlAdd(r, 1, 7);
  }

  lemma StartEmpty()
    ensures Val(0) == Absorb(SD7, Val(0), []) && Val(0) == 0
  {
    Generator();
    ValZero();
    AbsorbNothing(SD7, 0);
  }

  lemma Nothing(crc: uint8)
    requires crc <= 0x7F
    ensures Val(crc) == Absorb(SD7, Val(crc), [])
  {
    hide Xor, Shl, Mul, Val;
    Generator();
    BelowTop(crc);
    AbsorbNothing(SD7, Val(crc));
  }

  lemma BelowTop(crc: uint8)
    requires crc <= 0x7F
    ensures Val(crc) < 0x80
  {
    hide *;
    DoubleDigits7(crc);
    SevenBits(crc, (crc << 1) & 0xFF);
  }

  lemma OneMore(crc: uint8, message: seq<uint8>, b: uint8, sum: uint8)
    requires Val(sum) == Absorb(SD7, Val(crc), message)
    ensures Absorb(SD7, Val(sum), [b]) == Absorb(SD7, Val(crc), message + [b])
  {
    hide *;
    Generator();
    AbsorbConcat(SD7, Val(crc), message, [b]);
  }

  /** The octets of the argument, the most significant first. */
  lemma Parts(argument: uint32)
    ensures (argument >> 24) & 0xFF <= 0xFF && (argument >> 16) & 0xFF <= 0xFF
    ensures (argument >> 8) & 0xFF <= 0xFF && argument & 0xFF <= 0xFF
  {
  }

  lemma PartsDigits(argument: uint32)
    ensures argument == Plus((argument >> 8) << 8, argument & 0xFF)
    ensures argument >> 8 <= 0xFF_FFFF
    ensures (argument >> 8) >> 8 == argument >> 16 && (argument >> 16) >> 8 == argument >> 24
    ensures (argument >> 24) & 0xFF == argument >> 24 <= 0xFF
    ensures (argument >> 8) & 0xFF <= 0xFF && (argument >> 16) & 0xFF <= 0xFF && argument & 0xFF <= 0xFF
  {
  }

  lemma ByteOff(w: uint32)
    ensures w & 0xFF <= 0xFF && Val(w) == Xor(Shl(Val(w >> 8), 8), Val(w & 0xFF))
  {
    hide *;
    PartsDigits(w);
    ValByteUp(w >> 8);
    ValPlus((w >> 8) << 8, w & 0xFF);
  }

  lemma PolyAppend(bytes: seq<uint8>, b: uint8)
    ensures Poly(bytes + [b]) == Xor(Shl(Poly(bytes), 8), Val(b))
  {
    hide Xor, Shl, Val;
    assert (bytes + [b])[..|bytes|] == bytes;
  }

  /** Word w is word h followed by byte b. */
  ghost predicate Appended(w: uint32, h: uint32, b: uint8) {
    Val(w) == Xor(Shl(Val(h), 8), Val(b))
  }

  lemma ArgumentPoly(w0: uint32, w1: uint32, w2: uint32, a3: uint8, a2: uint8, a1: uint8, a0: uint8)
    requires Appended(w0, w1, a0) && Appended(w1, w2, a1) && Appended(w2, a3, a2)
    ensures Poly([a3, a2, a1, a0]) == Val(w0)
  {
    hide Xor, Shl, Poly, Val;
    PolyOne(a3);
    PolyAppend([a3], a2);
    PolyAppend([a3, a2], a1);
    PolyAppend([a3, a2, a1], a0);
    assert [a3] + [a2] == [a3, a2] && [a3, a2] + [a1] == [a3, a2, a1] && [a3, a2, a1] + [a0] == [a3, a2, a1, a0];
  }

  lemma TopOctet(argument: uint32)
    requires (argument >> 24) & 0xFF <= 0xFF && (argument >> 16) & 0xFF <= 0xFF
    ensures Appended(argument >> 16, (argument >> 24) & 0xFF, (argument >> 16) & 0xFF)
  {
    hide *;
    PartsDigits(argument);
    Append(argument >> 16, (argument >> 24) & 0xFF, (argument >> 16) & 0xFF);
  }

  lemma MiddleOctet(argument: uint32)
    requires (argument >> 8) & 0xFF <= 0xFF
    ensures Appended(argument >> 8, argument >> 16, (argument >> 8) & 0xFF)
  {
    hide *;
    PartsDigits(argument);
    Append(argument >> 8, argument >> 16, (argument >> 8) & 0xFF);
  }

  lemma Append(w: uint32, h: uint32, b: uint8)
    requires h == w >> 8 && b == w & 0xFF
    ensures Appended(w, h, b)
  {
    hide Xor, Shl, Val;
    ByteOff(w);
  }

  lemma CommandMessage(command: uint8, argument: uint32, message: seq<uint8>)
    requires (argument >> 24) & 0xFF <= 0xFF && (argument >> 16) & 0xFF <= 0xFF
    requires (argument >> 8) & 0xFF <= 0xFF && argument & 0xFF <= 0xFF
    requires message ==
      [command, (argument >> 24) & 0xFF, (argument >> 16) & 0xFF, (argument >> 8) & 0xFF, argument & 0xFF]
    ensures Absorb(SD7, Val(0), message) == SD7.Mod(Shl(Xor(Shl(Val(command), 32), Val(argument)), 7))
  {
    hide *;
    Parts(argument);
    TopOctet(argument);
    MiddleOctet(argument);
    Append(argument, argument >> 8, argument & 0xFF);
    var tail: seq<uint8> := message[1..];
    ArgumentPoly(argument, argument >> 8, argument >> 16, tail[0], tail[1], tail[2], tail[3]);
    assert tail == [tail[0], tail[1], tail[2], tail[3]] && [command] + tail == message;
    PolyOne(command);
    PolyConcat([command], tail);
    AbsorbZero(message);
  }

  lemma AbsorbZero(message: seq<uint8>)
    ensures Absorb(SD7, Val(0), message) == SD7.Mod(Shl(Poly(message), 7))
  {
    hide Xor, Shl, Poly;
    ValZero();
    ShlZero(8 * |message|);
    XorZero(Shl(Poly(message), 7));
  }

  // ----- what the checksum of a command detects

  /** A command, its argument and a checksum, as one polynomial of 47 digits. */
  ghost function CommandWord(command: uint8, argument: uint32, crc: uint8): nat {
    Xor(Shl(Xor(Shl(Val(command), 32), Val(argument)), 7), Val(crc))
  }

  /** The checksum is the one that `GetCRC` gives. */
  ghost predicate Passes(command: uint8, argument: uint32, crc: uint8) {
    Val(crc) == SD7.Mod(Shl(Xor(Shl(Val(command), 32), Val(argument)), 7))
  }

  lemma PassesIffZero(command: uint8, argument: uint32, crc: uint8)
    requires crc <= 0x7F
    ensures Passes(command, argument, crc) <==> SD7.Mod(CommandWord(command, argument, crc)) == 0
  {
    hide Val, Xor, Shl, Mul;
    Generator();
    BelowTop(crc);
    var shifted := Shl(Xor(Shl(Val(command), 32), Val(argument)), 7);
    ModXor(SD7, shifted, Val(crc));
    ModSmall(SD7, Val(crc));
    XorEqualsZero(SD7.Mod(shifted), Val(crc));
  }

  /** Of two commands with checksums, the first right, the second is right exactly when the
      generator divides the difference. */
  lemma UndetectedIffMultiple(command: uint8, argument: uint32, crc: uint8,
                              command': uint8, argument': uint32, crc': uint8)
    requires crc <= 0x7F && crc' <= 0x7F && Passes(command, argument, crc)
    ensures
      var difference := Xor(CommandWord(command, argument, crc), CommandWord(command', argument', crc'));
      && (Passes(command', argument', crc') <==> SD7.Mod(difference) == 0)
      && (Passes(command', argument', crc') <==> Divides(SD7.poly, difference))
  {
    hide Val, Xor, Shl, Mul, CommandWord, Passes;
    Generator();
    PassesIffZero(command, argument, crc);
    PassesIffZero(command', argument', crc');
    var w, w' := CommandWord(command, argument, crc), CommandWord(command', argument', crc');
    ModXor(SD7, w, w');
    XorZero(SD7.Mod(w'));
    PassesIffMultiple(SD7, Xor(w, w'));
  }

  /** Every burst of at most seven bits is caught. */
  lemma BurstCaught(command: uint8, argument: uint32, crc: uint8,
                    command': uint8, argument': uint32, crc': uint8, pattern: nat, offset: nat)
    requires crc <= 0x7F && crc' <= 0x7F && Passes(command, argument, crc) && 0 < pattern < 0x80
    requires Xor(CommandWord(command, argument, crc), CommandWord(command', argument', crc')) == Shl(pattern, offset)
    ensures !Passes(command', argument', crc')
  {
    hide *;
    Generator();
    UndetectedIffMultiple(command, argument, crc, command', argument', crc');
    BurstDetected(SD7, pattern, offset);
  }

  /** Two flipped bits of the 47 are always caught. */
  lemma TwoBitsCaught(command: uint8, argument: uint32, crc: uint8,
                      command': uint8, argument': uint32, crc': uint8, i: nat, j: nat)
    requires crc <= 0x7F && crc' <= 0x7F && Passes(command, argument, crc) && i < j < 47
    requires
      Xor(CommandWord(command, argument, crc), CommandWord(command', argument', crc')) == Xor(Shl(1, i), Shl(1, j))
    ensures !Passes(command', argument', crc')
  {
    hide *;
    Generator();
    UndetectedIffMultiple(command, argument, crc, command', argument', crc');
    TwoBitsPass(SD7, i, j);
    PeriodIs(SD7, j - i);
    PeriodIff(j - i);
    assert (j - i) % 127 == j - i;
  }

  // ----- the period of x

  /** One turn of the inner loop. */
  function Shifted(w: uint32): uint32 {
    Fold((w << 1) & 0xFF)
  }

  /** Multiplication by x, k times, in words. */
  function Steps(w: uint32, k: nat): uint32 {
    if k == 0 then w else Shifted(Steps(w, k - 1))
  }

  lemma {:induction false} StepsAreTimesX(w: uint32, k: nat)
    requires w <= 0x7F
    ensures Steps(w, k) <= 0x7F && Val(Steps(w, k)) == SD7.TimesXPow(k, Val(w))
  {
    if k > 0 {
      hide Val, Fold, Xor, Shl;
      StepsAreTimesX(w, k - 1);
      ShiftIsTimesX(Steps(w, k - 1));
    }
  }

  function FourShifts(w: uint32): uint32 {
    Shifted(Shifted(Shifted(Shifted(w))))
  }

  function Sixteen(w: uint32): uint32 {
    FourShifts(FourShifts(FourShifts(FourShifts(w))))
  }

  lemma FourMore(k: nat)
    ensures Steps(1, k + 4) == FourShifts(Steps(1, k))
  {
    hide Shifted;
    assert Steps(1, k + 4) == Shifted(Steps(1, k + 3));
    assert Steps(1, k + 3) == Shifted(Steps(1, k + 2));
    assert Steps(1, k + 2) == Shifted(Steps(1, k + 1));
  }

  lemma SixteenMore(k: nat)
    ensures Steps(1, k + 16) == Sixteen(Steps(1, k))
  {
    hide FourShifts, Steps;
    FourMore(k);
    FourMore(k + 4);
    FourMore(k + 8);
    FourMore(k + 12);
  }

  lemma Sixteens()
    ensures Sixteen(0x01) == 0x16
    ensures Sixteen(0x16) == 0x06
    ensures Sixteen(0x06) == 0x74
    ensures Sixteen(0x74) == 0x14
    ensures Sixteen(0x14) == 0x2A
    ensures Sixteen(0x2A) == 0x78
    ensures Sixteen(0x78) == 0x75
    ensures FourShifts(FourShifts(FourShifts(0x75))) == 0x11
    ensures Shifted(Shifted(Shifted(0x11))) == 1
  {
  }

  /** x^127 = 1, and x is not 1. */
  lemma FullCircle()
    ensures Period(SD7, 127) && !Period(SD7, 1)
  {
    hide *;
    LastSteps();
    StepsAreTimesX(1, 127);
    ValSmall();
    FirstPower();
    PeriodIs(SD7, 127);
    PeriodIs(SD7, 1);
  }

  lemma FirstPower()
    ensures SD7.TimesXPow(1, 1) == 2
  {
    hide Xor, Shl;
    Generator();
    assert SD7.TimesXPow(1, 1) == SD7.TimesX(SD7.TimesXPow(0, 1)) == 2;
  }

  lemma LastSteps()
    ensures Steps(1, 127) == 1
  {
    hide *;
    Sixteens();
    StepsStart(124);
    StepsStart(125);
    StepsStart(126);
    SixteenMore(0);
    SixteenMore(16);
    SixteenMore(32);
    SixteenMore(48);
    SixteenMore(64);
    SixteenMore(80);
    SixteenMore(96);
    FourMore(112);
    FourMore(116);
    FourMore(120);
  }

  lemma StepsStart(k: nat)
    ensures Steps(1, 0) == 1 && Steps(1, k + 1) == Shifted(Steps(1, k))
  {
    hide Shifted;
  }

  /** 127 is prime, and 1 is no period: the order of x is 127. */
  lemma PeriodIff(k: nat)
    ensures Period(SD7, k) <==> k % 127 == 0
  {
    hide *;
    Generator();
    FullCircle();
    NoneSmaller();
    OrderIff(SD7, 127, k);
  }

  lemma NoneSmaller()
    ensures Least(SD7, 127)
  {
    hide Period;
    FullCircle();
    PrimeBy(127, 11);
    forall g: nat | Factor(g, 127) && Period(SD7, g)
      ensures g == 127
    {
      var n: nat :| n * g == 127;
      assert g * n == 127;
    }
  }
}
