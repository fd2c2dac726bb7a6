/** The block loops of the SD-card driver over the bit-banged bus. */
module SdCard {
  import opened Common
  import opened Word
  import opened Spi
  import Crc16
  import Gf2

  const BLOCK_SIZE := 512

  /** A block and its two checksum bytes. */
  const WORD_SIZE := 514

  /** A token, a block and its two checksum bytes. */
  const FRAME_SIZE := 515

  /** Polls for a start token before the driver gives up. */
  const TOKEN_POLLS := 255

  const START_TOKEN: uint8 := 0xFE

  datatype Status = Ok | Error

  /** Bytes of the slave, from position n. */
  function Slice(card: nat -> uint8, n: nat, length: nat): (s: seq<uint8>)
    ensures |s| == length
    ensures forall k {:trigger s[k]} | 0 <= k < length :: s[k] == card(n + k)
  {
    seq(length, k requires k >= 0 => card(n + k))
  }

  // ----- what a card's bytes mean to the reader

  /** The position of the start token, if it is among the bytes polled. */
  function Token(card: nat -> uint8, n: nat, polls: nat): (t: Option<nat>)
    ensures t.Some? ==> n <= t.value && card(t.value) == START_TOKEN
    decreases polls
  {
    if polls == 0 then None
    else if card(n) == START_TOKEN then Some(n)
    else Token(card, n + 1, polls - 1)
  }

  lemma TokenStep(card: nat -> uint8, n: nat, polls: nat)
    requires polls > 0
    ensures Token(card, n, polls) == if card(n) == START_TOKEN then Some(n) else Token(card, n + 1, polls - 1)
    ensures Token(card, n + 1, 0) == None
  {
  }

  /** A token is found exactly when one of the next 255 bytes is 0xFE, and then it is the first. */
  lemma TokenIff(card: nat -> uint8, n: nat, p: nat)
    ensures Token(card, n, TOKEN_POLLS) == Some(p) <==>
      n <= p < n + 255 && card(p) == 0xFE && forall k | n <= k < p :: card(k) != 0xFE
  {
    TokenAmong(card, n, TOKEN_POLLS, p);
  }

  lemma {:induction false} TokenAmong(card: nat -> uint8, n: nat, polls: nat, p: nat)
    ensures Token(card, n, polls) == Some(p) <==>
      n <= p < n + polls && card(p) == START_TOKEN && forall k | n <= k < p :: card(k) != START_TOKEN
    decreases polls
  {
    if polls > 0 && card(n) != START_TOKEN { TokenAmong(card, n + 1, polls - 1, p); }
  }

  /** The data of the next frames, if each has its token in time and passes its checksum. */
  function Blocks(card: nat -> uint8, n: nat, count: nat): (data: Option<seq<uint8>>)
    ensures data.Some? ==> |data.value| == count * BLOCK_SIZE
    decreases count
  {
    if count == 0 then Some([])
    else
      var t := Token(card, n, TOKEN_POLLS);
      if t.None? then None
      else
        var word := Slice(card, t.value + 1, WORD_SIZE);
        if !Crc16.Accepts(word) then None
        else
          var rest := Blocks(card, t.value + 1 + WORD_SIZE, count - 1);
          if rest.None? then None else Some(word[..BLOCK_SIZE] + rest.value)
  }

  /** How many blocks a length takes: at least one, and as few as hold it. */
  function TotalBlocks(len: int): (count: nat)
    ensures count >= 1 && len <= count * 512
    ensures count > 1 ==> (count - 1) * 512 < len
  {
    if len <= BLOCK_SIZE then 1
    else if len % BLOCK_SIZE != 0 then len / BLOCK_SIZE + 1
    else len / BLOCK_SIZE
  }

  class Driver {
    const bus: Bus
    const internalBuffer: array<uint8>

    constructor (bus: Bus)
      ensures this.bus == bus && fresh(internalBuffer) && internalBuffer.Length == BLOCK_SIZE
    {
      this.bus := bus;
      internalBuffer := new uint8[BLOCK_SIZE](_ => 0);
    }

    /** Poll for the start token. */
    method AwaitToken() returns (found: bool)
      requires bus.clock % 8 == 0
      modifies bus
      ensures bus.clock % 8 == 0 && old(bus.mosi) <= bus.mosi
      ensures
        var t := Token(bus.slave, old(bus.clock) / 8, TOKEN_POLLS);
        found == t.Some? && (found ==> bus.clock / 8 == t.value + 1)
    {
      hide Token, Bits;
      ghost var n := bus.clock / 8;
      var errorIndex := 0;
      var response := bus.Receive();
      while response != START_TOKEN
        invariant 0 <= errorIndex < TOKEN_POLLS && bus.clock == 8 * (n + errorIndex + 1)
        invariant old(bus.mosi) <= bus.mosi
        invariant response == bus.slave(n + errorIndex)
        invariant Token(bus.slave, n, TOKEN_POLLS) == Token(bus.slave, n + errorIndex, TOKEN_POLLS - errorIndex)
        decreases TOKEN_POLLS - errorIndex
      {
        TokenStep(bus.slave, n + errorIndex, TOKEN_POLLS - errorIndex);
        errorIndex := errorIndex + 1;
        if errorIndex == TOKEN_POLLS { return false; }
        response := bus.Receive();
      }
      TokenStep(bus.slave, n + errorIndex, TOKEN_POLLS - errorIndex);
      return true;
    }

    /** One block into the driver's buffer and, as far as it has room, the caller's. */
    method ReadBlock(data: array<uint8>, len: int, dataCounter: nat)
      requires bus.clock % 8 == 0 && internalBuffer.Length == BLOCK_SIZE
      requires len <= data.Length && data != internalBuffer
      modifies bus, internalBuffer, data
      ensures bus.clock == old(bus.clock) + 8 * BLOCK_SIZE && old(bus.mosi) <= bus.mosi
      ensures internalBuffer[..] == Slice(bus.slave, old(bus.clock) / 8, BLOCK_SIZE)
      ensures forall k | 0 <= k < data.Length ::
        data[k] == if dataCounter <= k < dataCounter + BLOCK_SIZE && k < len
                   then bus.slave(old(bus.clock) / 8 + k - dataCounter) else old(data[k])
    {
      hide Bits;
      ghost var n := bus.clock / 8;
      for byteCounter := 0 to BLOCK_SIZE
        invariant bus.clock == 8 * (n + byteCounter) && old(bus.mosi) <= bus.mosi
        invariant forall k | 0 <= k < byteCounter :: internalBuffer[k] == bus.slave(n + k)
        invariant forall k | 0 <= k < data.Length ::
          data[k] == if dataCounter <= k < dataCounter + byteCounter && k < len
                     then bus.slave(n + k - dataCounter) else old(data[k])
      {
        var temp := bus.Receive();
        internalBuffer[byteCounter] := temp;
        if dataCounter + byteCounter < len { data[dataCounter + byteCounter] := temp; }
      }
    }

    /** A token, the driver's buffer and its checksum, low byte first, go out on the wire. */
    method SendBlock(token: uint8)
      requires bus.clock % 8 == 0 && internalBuffer.Length == BLOCK_SIZE
      modifies bus
      ensures bus.clock == old(bus.clock) + 8 * FRAME_SIZE
      ensures bus.mosi == old(bus.mosi) + AllBits(Frame(token, internalBuffer[..]))
    {
      hide AllBits, Bits, Crc16.Crc16, Crc16.LowByte, Crc16.HighByte;
      ghost var before, block := bus.mosi, internalBuffer[..];
      var calCrc := Crc16.Crc16Ccitt(internalBuffer[..], BLOCK_SIZE, 0);
      assert block[..BLOCK_SIZE] == block;
      AllBitsStart(before);
      var ignored := bus.Send(token);
      AllBitsJoin(before, [], token);
      assert [] + [token] == [token] + block[..0];
      for byteCounter := 0 to BLOCK_SIZE
        invariant bus.clock == old(bus.clock) + 8 * (1 + byteCounter)
        invariant bus.mosi == before + AllBits([token] + block[..byteCounter])
      {
        ignored := bus.Send(internalBuffer[byteCounter]);
        AllBitsJoin(before, [token] + block[..byteCounter], block[byteCounter]);
        assert [token] + block[..byteCounter] + [block[byteCounter]] == [token] + block[..byteCounter + 1];
      }
      ignored := bus.Send(Crc16.LowByte(calCrc));
      AllBitsJoin(before, [token] + block, Crc16.LowByte(calCrc));
      ignored := bus.Send(Crc16.HighByte(calCrc));
      AllBitsJoin(before, [token] + block + [Crc16.LowByte(calCrc)], Crc16.HighByte(calCrc));
      assert [token] + block + [Crc16.LowByte(calCrc)] + [Crc16.HighByte(calCrc)] == Frame(token, block);
    }

    /** The card holds its line low while it is busy; wait until it does not. */
    method WaitReady()
      requires bus.clock % 8 == 0 && ReadyAfter(bus.slave, bus.clock / 8)
      modifies bus
      ensures bus.clock == 8 * AfterBusy(bus.slave, old(bus.clock) / 8)
      ensures bus.slave(bus.clock / 8 - 1) != 0
      ensures forall k | old(bus.clock) / 8 <= k < bus.clock / 8 - 1 :: bus.slave(k) == 0
      ensures |bus.mosi| - bus.clock == |old(bus.mosi)| - old(bus.clock) && old(bus.mosi) <= bus.mosi
    {
      hide Bits, AfterBusy;
      ghost var n := bus.clock / 8;
      ghost var m: nat :| m >= n && bus.slave(m) != 0;
      var response := bus.Receive();
      while response == 0
        invariant bus.clock % 8 == 0 && n < bus.clock / 8 <= m + 1 && response == bus.slave(bus.clock / 8 - 1)
        invariant forall k | n <= k < bus.clock / 8 - 1 :: bus.slave(k) == 0
        invariant |bus.mosi| - bus.clock == |old(bus.mosi)| - old(bus.clock) && old(bus.mosi) <= bus.mosi
        decreases 8 * m + 8 - bus.clock
      {
        response := bus.Receive();
      }
      AfterBusyIs(bus.slave, n, bus.clock / 8);
    }

    /** One block framed and sent, and the card's response to it. */
    method OfferBlock(data: seq<uint8>, len: nat, blockCounter: nat) returns (taken: bool)
      requires bus.clock % 8 == 0 && |bus.mosi| == bus.clock && internalBuffer.Length == BLOCK_SIZE
      requires len <= |data| && blockCounter < TotalBlocks(len)
      modifies bus, internalBuffer
      ensures bus.clock == old(bus.clock) + 8 * (FRAME_SIZE + 1) && |bus.mosi| == bus.clock
      ensures old(bus.mosi) <= bus.mosi
      ensures Driven(bus.mosi, old(bus.clock) / 8, Frame(WriteToken(len), WrittenBlock(data, len, blockCounter)))
      ensures taken <==> Taken(bus.slave, old(bus.clock) / 8)
    {
      hide WrittenBlock, Frame, AllBits, Bits, Driven, Taken, Accepted, TotalBlocks;
      ghost var before, start := bus.mosi, bus.clock / 8;
      Fragment(data, len, blockCounter);
      ghost var frame := Frame(WriteToken(len), internalBuffer[..]);
      SendBlock(WriteToken(len));
      DrivenNow(before, start, frame);
      var reply := bus.Receive();
      DrivenMore(before + AllBits(frame), bus.mosi, start, frame);
      TakenIs(bus.slave, start, reply);
      taken := Accepted(reply);
    }

    /** sdcard_write in bit-bang mode, given the response to the write command: the data is cut
        into blocks, each zeroed, filled and framed; the first refusal ends the write. The number
        of frames sent is a ghost; where they are on the wire is settled by the card. */
    method Write(data: seq<uint8>, len: nat, response: uint8) returns (status: Status, ghost sent: nat)
      requires bus.clock % 8 == 0 && |bus.mosi| == bus.clock && internalBuffer.Length == BLOCK_SIZE
      requires len <= |data|
      requires response == 0 ==> Answers(bus.slave, bus.clock / 8, TotalBlocks(len))
      modifies bus, internalBuffer
      ensures sent <= TotalBlocks(len) && (response != 0 ==> sent == 0)
      ensures status == Ok <==>
        response == 0 && sent == TotalBlocks(len) && AllTaken(bus.slave, old(bus.clock) / 8, sent)
      ensures status == Error && response == 0 ==>
        && sent > 0 && AllTaken(bus.slave, old(bus.clock) / 8, sent - 1)
        && !Taken(bus.slave, FrameStart(bus.slave, old(bus.clock) / 8, sent - 1))
      ensures AllDriven(bus.mosi, bus.slave, old(bus.clock) / 8, data, len, sent)
      ensures status == Ok ==> bus.clock == 8 * FrameStart(bus.slave, old(bus.clock) / 8, sent)
    {
      hide WrittenBlock, Frame, AllBits, Bits, Driven, Taken, Accepted, TotalBlocks, Answers, FrameStart, AllTaken,
           AllDriven, ReadyAfter, AfterBusy;
      ghost var n := bus.clock / 8;
      NothingSent(bus.mosi, bus.slave, n, data, len);
      if response != 0 { return Error, 0; }
      var totalBlock := TotalBlocks(len);
      for blockCounter := 0 to totalBlock
        invariant bus.clock == 8 * FrameStart(bus.slave, n, blockCounter) && |bus.mosi| == bus.clock
        invariant AllTaken(bus.slave, n, blockCounter)
        invariant AllDriven(bus.mosi, bus.slave, n, data, len, blockCounter)
      {
        ghost var before := bus.mosi;
        var taken := OfferBlock(data, len, blockCounter);
        DrivenStill(before, bus.mosi, bus.slave, n, data, len, blockCounter);
        TakenNext(bus.slave, n, blockCounter);
        if !taken { return Error, blockCounter + 1; }
        OneTaken(bus.slave, n, totalBlock, blockCounter);
        ghost var middle := bus.mosi;
        WaitReady();
        DrivenMoreAll(middle, bus.mosi, bus.slave, n, data, len, blockCounter + 1);
      }
      return Ok, totalBlock;
    }

    /** The driver's buffer takes one block of the data. */
    method Fragment(data: seq<uint8>, len: nat, blockCounter: nat)
      requires len <= |data| && blockCounter < TotalBlocks(len) && internalBuffer.Length == BLOCK_SIZE
      modifies internalBuffer
      ensures internalBuffer[..] == WrittenBlock(data, len, blockCounter)
    {
      forall k | 0 <= k < BLOCK_SIZE { internalBuffer[k] := 0; }
      CopyFits(len, blockCounter);
      if len != BLOCK_SIZE {
        var count := if blockCounter == TotalBlocks(len) - 1 then len % BLOCK_SIZE else BLOCK_SIZE;
        forall k | 0 <= k < count { internalBuffer[k] := data[blockCounter * BLOCK_SIZE + k]; }
      } else {
        forall k | 0 <= k < BLOCK_SIZE { internalBuffer[k] := data[blockCounter * BLOCK_SIZE + k]; }
      }
    }

    /** One turn of the read loop: token, block, checksum, comparison. */
    method ReadFrame(data: array<uint8>, len: int, dataCounter: nat, ghost left: nat) returns (ok: bool)
      requires bus.clock % 8 == 0 && internalBuffer.Length == BLOCK_SIZE && left > 0
      requires len <= data.Length && data != internalBuffer
      modifies bus, internalBuffer, data
      ensures bus.clock % 8 == 0 && old(bus.mosi) <= bus.mosi
      ensures
        var t := Token(bus.slave, old(bus.clock) / 8, TOKEN_POLLS);
        ok <==> t.Some? && Crc16.Accepts(Slice(bus.slave, t.value + 1, WORD_SIZE))
      ensures
        var blocks, rest := Blocks(bus.slave, old(bus.clock) / 8, left), Blocks(bus.slave, bus.clock / 8, left - 1);
        if !ok then blocks == None
        else
          bus.clock / 8 >= WORD_SIZE &&
          blocks == After(Slice(bus.slave, bus.clock / 8 - WORD_SIZE, BLOCK_SIZE), rest)
      ensures forall k | 0 <= k < data.Length ::
        data[k] == if ok && dataCounter <= k < dataCounter + BLOCK_SIZE && k < len
                   then bus.slave(bus.clock / 8 - WORD_SIZE + k - dataCounter)
                   else if dataCounter <= k < len then data[k] else old(data[k])
    {
      hide Blocks, Token, After, Slice, Bits, Crc16.Accepts, Crc16.Crc16, Crc16.DataCrc;
      BlocksStep(bus.slave, bus.clock / 8, left);
      var found := AwaitToken();
      if !found { return false; }
      ghost var first := bus.clock / 8;
      ReadBlock(data, len, dataCounter);
      var crc0 := bus.Receive();
      var crc1 := bus.Receive();
      var block := internalBuffer[..];
      var calCrc := Crc16.Crc16Ccitt(block, BLOCK_SIZE, 0);
      assert block[..BLOCK_SIZE] == block;
      WordParts(bus.slave, first, block, crc0, crc1);
      ok := calCrc == Crc16.DataCrc(crc0, crc1);
    }

    /** sdcard_read in bit-bang mode, given the response to the read command: success exactly
        when every frame has its token in time and passes its checksum, and then the caller's
        buffer holds the blocks' data, cut to the length. */
    method Read(data: array<uint8>, len: int, response: uint8) returns (status: Status)
      requires bus.clock % 8 == 0 && internalBuffer.Length == BLOCK_SIZE
      requires len <= data.Length && data != internalBuffer
      modifies bus, internalBuffer, data
      ensures
        var blocks := Blocks(bus.slave, old(bus.clock) / 8, TotalBlocks(len));
        && (status == Ok <==> response == 0 && blocks.Some?)
        && (status == Ok ==> forall k | 0 <= k < len :: data[k] == blocks.value[k])
      ensures forall k | 0 <= k < data.Length && k >= len :: data[k] == old(data[k])
      ensures old(bus.mosi) <= bus.mosi
    {
      hide Blocks, Token, After, Slice, Crc16.Accepts;
      if response != 0 { return Error; }
      ghost var n := bus.clock / 8;
      var totalBlock := TotalBlocks(len);
      ghost var got: seq<uint8> := [];
      AfterNothing(Blocks(bus.slave, n, totalBlock));
      for blockCounter := 0 to totalBlock
        invariant bus.clock % 8 == 0 && |got| == blockCounter * BLOCK_SIZE && old(bus.mosi) <= bus.mosi
        invariant Blocks(bus.slave, n, totalBlock) ==
          After(got, Blocks(bus.slave, bus.clock / 8, totalBlock - blockCounter))
        invariant forall k | 0 <= k < data.Length && k < |got| && k < len :: data[k] == got[k]
        invariant forall k | 0 <= k < data.Length && k >= len :: data[k] == old(data[k])
      {
        AfterEmpty(got);
        var ok := ReadFrame(data, len, blockCounter * BLOCK_SIZE, totalBlock - blockCounter);
        if !ok { return Error; }
        ghost var block := Slice(bus.slave, bus.clock / 8 - WORD_SIZE, BLOCK_SIZE);
        AfterBoth(got, block, Blocks(bus.slave, bus.clock / 8, totalBlock - blockCounter - 1));
        got := got + block;
      }
      BlocksEmpty(bus.slave, bus.clock / 8);
      AfterEmpty(got);
      return Ok;
    }
  }

  /** What was got, followed by what is still to come. */
  function After(got: seq<uint8>, rest: Option<seq<uint8>>): Option<seq<uint8>> {
    if rest.None? then None else Some(got + rest.value)
  }

  lemma AfterNothing(rest: Option<seq<uint8>>)
    ensures After([], rest) == rest
  {
    if rest.Some? { assert [] + rest.value == rest.value; }
  }

  lemma AfterEmpty(got: seq<uint8>)
    ensures After(got, Some([])) == Some(got) && After(got, None) == None
  {
    assert got + [] == got;
  }

  lemma AfterBoth(got: seq<uint8>, block: seq<uint8>, rest: Option<seq<uint8>>)
    ensures After(got, After(block, rest)) == After(got + block, rest)
  {
    if rest.Some? { assert got + (block + rest.value) == (got + block) + rest.value; }
  }

  lemma BlocksEmpty(card: nat -> uint8, n: nat)
    ensures Blocks(card, n, 0) == Some([])
  {
  }

  lemma BlocksStep(card: nat -> uint8, n: nat, count: nat)
    requires count > 0
    ensures
      var t := Token(card, n, TOKEN_POLLS);
      Blocks(card, n, count) ==
      if t.None? then None
      else
        var word := Slice(card, t.value + 1, WORD_SIZE);
        if !Crc16.Accepts(word) then None
        else After(word[..BLOCK_SIZE], Blocks(card, t.value + 1 + WORD_SIZE, count - 1))
  {
    hide Token, Slice, Crc16.Accepts;
  }

  lemma WordParts(card: nat -> uint8, n: nat, block: seq<uint8>, c0: uint8, c1: uint8)
    requires block == Slice(card, n, BLOCK_SIZE) && c0 == card(n + BLOCK_SIZE) && c1 == card(n + BLOCK_SIZE + 1)
    ensures
      var word := Slice(card, n, WORD_SIZE);
      word[..BLOCK_SIZE] == block && (Crc16.Accepts(word) <==> Crc16.Crc16(block, 0) == Crc16.DataCrc(c0, c1))
  {
    var word := Slice(card, n, WORD_SIZE);
    assert word[..BLOCK_SIZE] == block;
  }

  // ----- frames, and errors in them

  /** From position n the card sends frames: a start token in time, then a block with its checksum. */
  ghost predicate Frames(card: nat -> uint8, n: nat, words: seq<seq<uint8>>)
    decreases |words|
  {
    words == [] ||
    var t := Token(card, n, TOKEN_POLLS);
    t.Some? && Slice(card, t.value + 1, WORD_SIZE) == words[0] && Frames(card, t.value + 1 + WORD_SIZE, words[1..])
  }

  ghost predicate AllAccepted(words: seq<seq<uint8>>) {
    forall w | w in words :: |w| == WORD_SIZE && Crc16.Accepts(w)
  }

  /** The blocks without their checksums, end to end. */
  ghost function Data(words: seq<seq<uint8>>): seq<uint8>
    requires forall w | w in words :: |w| == WORD_SIZE
  {
    if words == [] then [] else words[0][..BLOCK_SIZE] + Data(words[1..])
  }

  lemma {:induction false} FrameSizes(card: nat -> uint8, n: nat, words: seq<seq<uint8>>)
    requires Frames(card, n, words)
    ensures forall w | w in words :: |w| == WORD_SIZE
    decreases |words|
  {
    if words != [] {
      FrameSizes(card, Token(card, n, TOKEN_POLLS).value + 1 + WORD_SIZE, words[1..]);
      assert words == [words[0]] + words[1..];
    }
  }

  /** The reader takes the data of the frames exactly when every one passes its checksum. */
  lemma {:induction false} FramesRead(card: nat -> uint8, n: nat, words: seq<seq<uint8>>)
    requires Frames(card, n, words)
    ensures forall w | w in words :: |w| == WORD_SIZE
    ensures Blocks(card, n, |words|) == if AllAccepted(words) then Some(Data(words)) else None
    decreases |words|
  {
    hide Slice, Crc16.Accepts, Blocks, Data, AllAccepted, Frames;
    FrameSizes(card, n, words);
    if words == [] {
      BlocksEmpty(card, n);
      DataParts(words);
    } else {
      FramesParts(card, n, words);
      FramesRead(card, Token(card, n, TOKEN_POLLS).value + 1 + WORD_SIZE, words[1..]);
      BlocksStep(card, n, |words|);
      DataParts(words);
    }
  }

  lemma FramesParts(card: nat -> uint8, n: nat, words: seq<seq<uint8>>)
    requires words != [] && Frames(card, n, words)
    ensures
      var t := Token(card, n, TOKEN_POLLS);
      t.Some? && Slice(card, t.value + 1, WORD_SIZE) == words[0] && Frames(card, t.value + 1 + WORD_SIZE, words[1..])
  {
    hide Slice;
  }

  lemma DataParts(words: seq<seq<uint8>>)
    requires forall w | w in words :: |w| == WORD_SIZE
    ensures words == [] ==> Data(words) == [] && AllAccepted(words)
    ensures words != [] ==> Data(words) == words[0][..BLOCK_SIZE] + Data(words[1..])
    ensures words != [] ==> (AllAccepted(words) <==> Crc16.Accepts(words[0]) && AllAccepted(words[1..]))
  {
    hide Crc16.Accepts;
    if words != [] { assert words == [words[0]] + words[1..]; }
  }

  /** Two bits flipped anywhere in one frame, the other frames as they may be: the read fails. */
  lemma TwoFlipsFailRead(card: nat -> uint8, n: nat, words: seq<seq<uint8>>, f: nat, sent: seq<uint8>, i: nat, j: nat)
    requires Frames(card, n, words) && f < |words| && |sent| == WORD_SIZE && Crc16.Accepts(sent)
    requires i < 8 * WORD_SIZE && j < 8 * WORD_SIZE && i != j && words[f] == Flip(Flip(sent, i), j)
    ensures Blocks(card, n, |words|) == None
  {
    hide Crc16.Accepts, Flip, Blocks, Frames;
    FramesRead(card, n, words);
    Crc16.TwoFlipsCaught(sent, i, j);
    assert words[f] in words;
  }

  /** The same for a burst of at most 16 bits. */
  lemma BurstFailsRead(card: nat -> uint8, n: nat, words: seq<seq<uint8>>, f: nat, sent: seq<uint8>,
                       pattern: nat, offset: nat)
    requires Frames(card, n, words) && f < |words| && |sent| == WORD_SIZE == |words[f]| && Crc16.Accepts(sent)
    requires 0 < pattern < 0x1_0000 && Difference(sent, words[f]) == Gf2.Shl(pattern, offset)
    ensures Blocks(card, n, |words|) == None
  {
    hide Crc16.Accepts, Difference, Blocks, Frames;
    FramesRead(card, n, words);
    Crc16.BurstCaught(sent, words[f], pattern, offset);
    assert words[f] in words;
  }

  // ----- what the writer drives

  /** The contents of block b of a write: the last one takes the length's remainder. */
  function WrittenBlock(data: seq<uint8>, len: nat, b: nat): (block: seq<uint8>)
    requires len <= |data| && b < TotalBlocks(len)
    ensures |block| == BLOCK_SIZE
  {
    CopyFits(len, b);
    var count := if len != BLOCK_SIZE && b == TotalBlocks(len) - 1 then len % BLOCK_SIZE else BLOCK_SIZE;
    seq(BLOCK_SIZE, k requires 0 <= k < BLOCK_SIZE => if k < count then data[b * BLOCK_SIZE + k] else 0)
  }

  lemma CopyFits(len: nat, b: nat)
    requires b < TotalBlocks(len)
    ensures
      var count := if len != BLOCK_SIZE && b == TotalBlocks(len) - 1 then len % BLOCK_SIZE else BLOCK_SIZE;
      b * BLOCK_SIZE + count <= len
  {
  }

  /** The bytes of a frame as the driver sends them. */
  function Frame(token: uint8, block: seq<uint8>): (frame: seq<uint8>)
    ensures |frame| == |block| + 3
  {
    var crc := Crc16.Crc16(block, 0);
    [token] + block + [Crc16.LowByte(crc), Crc16.HighByte(crc)]
  }

  function WriteToken(len: nat): uint8 {
    if len <= BLOCK_SIZE then START_TOKEN else 0xFC
  }

  // ----- the card's answers, and where they put the frames

  ghost predicate ReadyAfter(card: nat -> uint8, n: nat) {
    exists m: nat :: m >= n && card(m) != 0
  }

  ghost function FirstReady(card: nat -> uint8, n: nat, m: nat): (r: nat)
    requires n <= m && card(m) != 0
    ensures n <= r <= m && card(r) != 0 && forall k | n <= k < r :: card(k) == 0
    decreases m - n
  {
    if card(n) != 0 then n else FirstReady(card, n + 1, m)
  }

  /** The position behind the first byte that is not zero; any later one, if the card is busy
      for ever. */
  ghost function AfterBusy(card: nat -> uint8, n: nat): (r: nat)
    ensures r > n
  {
    if ReadyAfter(card, n) then
      var m: nat :| m >= n && card(m) != 0;
      FirstReady(card, n, m) + 1
    else n + 1
  }

  lemma AfterBusyIs(card: nat -> uint8, n: nat, r: nat)
    requires r > n && card(r - 1) != 0 && forall k | n <= k < r - 1 :: card(k) == 0
    ensures ReadyAfter(card, n) && AfterBusy(card, n) == r
  {
  }

  /** Where frame b of a write begins: the first at once, each next when the card is no longer
      busy with the one before. */
  ghost function FrameStart(card: nat -> uint8, n: nat, b: nat): nat {
    if b == 0 then n else AfterBusy(card, FrameStart(card, n, b - 1) + FRAME_SIZE + 1)
  }

  /** One frame after the other, with room for the card's response. */
  lemma {:induction false} FramesInOrder(card: nat -> uint8, n: nat, a: nat, b: nat)
    requires a < b
    ensures FrameStart(card, n, a) + FRAME_SIZE + 1 < FrameStart(card, n, b)
  {
    if a + 1 < b { FramesInOrder(card, n, a, b - 1); }
  }

  /** The data response of a card that takes a block. */
  predicate Accepted(reply: uint8) {
    reply & 0x1F == 0x05
  }

  /** Only the low five bits of the response count. */
  lemma AcceptedIff(reply: uint8)
    ensures Accepted(reply) <==> reply as int % 32 == 5
  {
    assert reply & 0x1F == reply % 32;
  }

  /** The card takes the frame that starts at a position. */
  predicate Taken(card: nat -> uint8, start: nat) {
    Accepted(card(start + FRAME_SIZE))
  }

  /** The card takes the first frames. */
  ghost predicate AllTaken(card: nat -> uint8, n: nat, frames: nat) {
    forall b | 0 <= b < frames :: Taken(card, FrameStart(card, n, b))
  }

  /** A card that has taken a frame is not busy with it for ever. */
  ghost predicate Answers(card: nat -> uint8, n: nat, frames: nat) {
    forall b | 0 <= b < frames && AllTaken(card, n, b) && Taken(card, FrameStart(card, n, b)) ::
      ReadyAfter(card, FrameStart(card, n, b) + FRAME_SIZE + 1)
  }

  lemma TakenNext(card: nat -> uint8, n: nat, b: nat)
    ensures AllTaken(card, n, b + 1) <==> AllTaken(card, n, b) && Taken(card, FrameStart(card, n, b))
  {
    hide Taken, FrameStart;
  }

  lemma OneTaken(card: nat -> uint8, n: nat, frames: nat, b: nat)
    requires b < frames && Answers(card, n, frames)
    requires AllTaken(card, n, b) && Taken(card, FrameStart(card, n, b))
    ensures AllTaken(card, n, b + 1) && ReadyAfter(card, FrameStart(card, n, b) + FRAME_SIZE + 1)
    ensures FrameStart(card, n, b + 1) == AfterBusy(card, FrameStart(card, n, b) + FRAME_SIZE + 1)
  {
    hide Taken, ReadyAfter, AfterBusy;
  }

  lemma TakenIs(card: nat -> uint8, start: nat, reply: uint8)
    requires reply == card(start + FRAME_SIZE)
    ensures Taken(card, start) <==> Accepted(reply)
  {
    hide Accepted;
  }

  /** The frame is on the wire from the byte position on. */
  ghost predicate Driven(mosi: seq<bool>, start: nat, frame: seq<uint8>) {
    8 * (start + |frame|) <= |mosi| && mosi[8 * start..8 * (start + |frame|)] == AllBits(frame)
  }

  lemma DrivenNow(mosi: seq<bool>, start: nat, frame: seq<uint8>)
    requires |mosi| == 8 * start
    ensures Driven(mosi + AllBits(frame), start, frame)
  {
  }

  lemma DrivenMore(mosi: seq<bool>, more: seq<bool>, start: nat, frame: seq<uint8>)
    requires mosi <= more && Driven(mosi, start, frame)
    ensures Driven(more, start, frame)
  {
  }

  /** The first frames are on the wire where they belong. */
  ghost predicate AllDriven(mosi: seq<bool>, card: nat -> uint8, n: nat, data: seq<uint8>, len: nat, frames: nat)
    requires len <= |data| && frames <= TotalBlocks(len)
  {
    forall b | 0 <= b < frames ::
      Driven(mosi, FrameStart(card, n, b), Frame(WriteToken(len), WrittenBlock(data, len, b)))
  }

  lemma NothingSent(mosi: seq<bool>, card: nat -> uint8, n: nat, data: seq<uint8>, len: nat)
    requires len <= |data|
    ensures AllDriven(mosi, card, n, data, len, 0) && AllTaken(card, n, 0) && FrameStart(card, n, 0) == n
  {
  }

  lemma DrivenMoreAll(mosi: seq<bool>, more: seq<bool>, card: nat -> uint8, n: nat,
                      data: seq<uint8>, len: nat, frames: nat)
    requires mosi <= more && len <= |data| && frames <= TotalBlocks(len)
    requires AllDriven(mosi, card, n, data, len, frames)
    ensures AllDriven(more, card, n, data, len, frames)
  {
    hide Driven, Frame, WrittenBlock, FrameStart, TotalBlocks;
    forall b | 0 <= b < frames
      ensures Driven(more, FrameStart(card, n, b), Frame(WriteToken(len), WrittenBlock(data, len, b)))
    {
      DrivenMore(mosi, more, FrameStart(card, n, b), Frame(WriteToken(len), WrittenBlock(data, len, b)));
    }
  }

  lemma DrivenStill(mosi: seq<bool>, more: seq<bool>, card: nat -> uint8, n: nat,
                    data: seq<uint8>, len: nat, b: nat)
    requires mosi <= more && len <= |data| && b < TotalBlocks(len)
    requires AllDriven(mosi, card, n, data, len, b)
    requires Driven(more, FrameStart(card, n, b), Frame(WriteToken(len), WrittenBlock(data, len, b)))
    ensures AllDriven(more, card, n, data, len, b + 1)
  {
    hide Driven, Frame, WrittenBlock, FrameStart, TotalBlocks;
    DrivenMoreAll(mosi, more, card, n, data, len, b);
  }

  lemma AllBitsJoin(before: seq<bool>, sent: seq<uint8>, b: uint8)
    ensures (before + AllBits(sent)) + Bits(b) == before + AllBits(sent + [b])
  {
    hide AllBits, Bits;
    AllBitsNext(sent, b);
    assert (before + AllBits(sent)) + Bits(b) == before + (AllBits(sent) + Bits(b));
  }

  /** The driver sends the low checksum byte first and reads the high one first: its own frame
      passes its own check exactly when the two bytes are equal. */
  lemma OwnFramePassesIff(token: uint8, block: seq<uint8>)
    ensures Crc16.Accepts(Frame(token, block)[1..]) <==>
      Crc16.LowByte(Crc16.Crc16(block, 0)) == Crc16.HighByte(Crc16.Crc16(block, 0))
  {
    hide Crc16.Crc16, Crc16.LowByte, Crc16.HighByte, Crc16.DataCrc, Crc16.Accepts;
    var crc := Crc16.Crc16(block, 0);
    assert Frame(token, block)[1..] == block + [Crc16.LowByte(crc), Crc16.HighByte(crc)];
    Crc16.AcceptsParts(block, Crc16.LowByte(crc), Crc16.HighByte(crc));
    Crc16.SwappedBytes(crc);
  }

  /** All zeros but the last byte, which is 1. */
  function LastOne(): (block: seq<uint8>)
    ensures |block| == BLOCK_SIZE
  {
    Zeros(BLOCK_SIZE - 1) + [1]
  }

  function Zeros(count: nat): (block: seq<uint8>)
    ensures |block| == count
  {
    seq(count, k => 0)
  }

  lemma {:induction false} ZerosChecksum(count: nat)
    ensures Crc16.Crc16(Zeros(count), 0) == 0
  {
    if count > 0 {
      hide Crc16.Feed;
      ZerosChecksum(count - 1);
      assert Zeros(count)[..count - 1] == Zeros(count - 1);
      FirstEntries();
    }
  }

  lemma FirstEntries()
    ensures Crc16.Feed(0, 0) == 0 && Crc16.Feed(0, 1) == 0x1021
  {
    ZeroIndex();
    hide Val;
  }

  lemma ZeroIndex()
    ensures Crc16.Index(0, 0) == 0 && Crc16.Index(0, 1) == 1
  {
    ValZero();
    ValUnfold(1, 0, 1);
  }

  /** A block whose frame, as the driver sends it, the driver would refuse: its checksum is
      0x1021. */
  lemma OwnFrameRefused(token: uint8)
    ensures Crc16.Crc16(LastOne(), 0) == 0x1021 && !Crc16.Accepts(Frame(token, LastOne())[1..])
  {
    hide Crc16.Feed, Crc16.Accepts;
    ZerosChecksum(BLOCK_SIZE - 1);
    FirstEntries();
    assert LastOne()[..BLOCK_SIZE - 1] == Zeros(BLOCK_SIZE - 1);
    OwnFramePassesIff(token, LastOne());
  }
}
