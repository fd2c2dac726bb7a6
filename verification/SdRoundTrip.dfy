/** Writing a length of data to the card and reading it back. */
module SdRoundTrip {
  import opened Common
  import opened Word
  import opened Spi
  import opened SdCard
  import Crc16

  /** What a card that stored the blocks holds, end to end. */
  function Stored(data: seq<uint8>, len: nat, blocks: nat): (s: seq<uint8>)
    requires len <= |data| && blocks <= TotalBlocks(len)
    ensures |s| == blocks * BLOCK_SIZE
  {
    if blocks == 0 then [] else Stored(data, len, blocks - 1) + WrittenBlock(data, len, blocks - 1)
  }

  lemma {:induction false} StoredAt(data: seq<uint8>, len: nat, blocks: nat, k: nat)
    requires len <= |data| && blocks <= TotalBlocks(len) && k < blocks * BLOCK_SIZE
    ensures k / BLOCK_SIZE < blocks
    ensures Stored(data, len, blocks)[k] == WrittenBlock(data, len, k / BLOCK_SIZE)[k % BLOCK_SIZE]
  {
    if k < (blocks - 1) * BLOCK_SIZE {
      StoredAt(data, len, blocks - 1, k);
    } else {
      assert k / BLOCK_SIZE == blocks - 1;
    }
  }

  /** What comes back at one position: the last block is sent empty when the length is a multiple
      of the block size above one block. */
  lemma BackAt(data: seq<uint8>, len: nat, k: nat)
    requires k < len <= |data|
    ensures Stored(data, len, TotalBlocks(len))[k] ==
      if len > BLOCK_SIZE && len % BLOCK_SIZE == 0 && k >= len - BLOCK_SIZE then 0 else data[k]
  {
    hide Stored;
    var b := k / BLOCK_SIZE;
    StoredAt(data, len, TotalBlocks(len), k);
    assert k == b * BLOCK_SIZE + k % BLOCK_SIZE;
    BlockOf(len, k);
  }

  lemma BlockOf(len: nat, k: nat)
    requires k < len
    ensures
      var last := len != BLOCK_SIZE && k / BLOCK_SIZE == TotalBlocks(len) - 1;
      last && k % BLOCK_SIZE >= len % BLOCK_SIZE <==>
        len > BLOCK_SIZE && len % BLOCK_SIZE == 0 && k >= len - BLOCK_SIZE
  {
  }

  /** What comes back of a write: the last block is lost when the length is a multiple of the
      block size above one block. */
  function ReadBack(data: seq<uint8>, len: nat): (back: seq<uint8>)
    requires len <= |data|
    ensures |back| == len
  {
    seq(len, k requires 0 <= k < len =>
      if len > BLOCK_SIZE && len % BLOCK_SIZE == 0 && k >= len - BLOCK_SIZE then 0 else data[k])
  }

  /** Nothing is lost exactly when the length is not such a multiple, or the block that was sent
      empty was zero anyway. */
  predicate NothingLost(data: seq<uint8>, len: nat)
    requires len <= |data|
  {
    len <= BLOCK_SIZE || len % BLOCK_SIZE != 0 || forall k | len - BLOCK_SIZE <= k < len :: data[k] == 0
  }

  lemma ReadBackIff(data: seq<uint8>, len: nat)
    requires len <= |data|
    ensures ReadBack(data, len) == data[..len] <==> NothingLost(data, len)
  {
    if len > BLOCK_SIZE && len % BLOCK_SIZE == 0 && ReadBack(data, len) == data[..len] {
      forall k | len - BLOCK_SIZE <= k < len
        ensures data[k] == 0
      {
        assert ReadBack(data, len)[k] == data[..len][k];
      }
    }
  }

  /** The blocks, put together again, are the data under exactly that condition. */
  lemma StoredIff(data: seq<uint8>, len: nat)
    requires len <= |data|
    ensures Stored(data, len, TotalBlocks(len))[..len] == ReadBack(data, len)
    ensures Stored(data, len, TotalBlocks(len))[..len] == data[..len] <==> NothingLost(data, len)
  {
    hide Stored, NothingLost;
    forall k | 0 <= k < len
      ensures Stored(data, len, TotalBlocks(len))[k] == ReadBack(data, len)[k]
    {
      BackAt(data, len, k);
    }
    ReadBackIff(data, len);
  }

  /** The words a card sends that stored those blocks and adds its own checksums. */
  function StoredWords(data: seq<uint8>, len: nat, count: nat): (words: seq<seq<uint8>>)
    requires len <= |data| && count <= TotalBlocks(len)
    ensures |words| == count && AllAccepted(words)
  {
    if count == 0 then [] else
      var block := WrittenBlock(data, len, count - 1);
      Crc16.SealedPasses(block);
      StoredWords(data, len, count - 1) + [Crc16.Sealed(block)]
  }

  lemma {:induction false} DataEnd(words: seq<seq<uint8>>, word: seq<uint8>)
    requires |word| == WORD_SIZE && forall w | w in words :: |w| == WORD_SIZE
    ensures Data(words + [word]) == Data(words) + word[..BLOCK_SIZE]
  {
    if words == [] {
      assert [word][1..] == [];
    } else {
      DataEnd(words[1..], word);
      assert (words + [word])[1..] == words[1..] + [word];
    }
  }

  lemma {:induction false} StoredData(data: seq<uint8>, len: nat, count: nat)
    requires len <= |data| && count <= TotalBlocks(len)
    ensures Data(StoredWords(data, len, count)) == Stored(data, len, count)
  {
    hide WrittenBlock, Crc16.Accepts, Crc16.Sealed;
    if count > 0 {
      var block := WrittenBlock(data, len, count - 1);
      StoredData(data, len, count - 1);
      Crc16.SealedPasses(block);
      DataEnd(StoredWords(data, len, count - 1), Crc16.Sealed(block));
    }
  }

  // ----- what a card keeps of the wire

  /** The card keeps a frame: of the 515 bytes on the wire from its start, the 512 of the block. It
      does so only behind the right token, which is 0xFE where the transfer is a single block and
      0xFC where it is several. */
  ghost predicate KeepsFrame(mosi: seq<bool>, start: nat, len: nat, block: seq<uint8>) {
    exists frame ::
      && |frame| == 515 && Driven(mosi, start, frame)
      && frame[0] == (if len <= 512 then 0xFE else 0xFC) && frame[1..513] == block
  }

  /** It keeps a frame that was sent, and what it keeps is the block in it. */
  lemma KeptIsSent(mosi: seq<bool>, start: nat, len: nat, sent: seq<uint8>, block: seq<uint8>)
    requires |sent| == BLOCK_SIZE && Driven(mosi, start, Frame(WriteToken(len), sent))
    ensures KeepsFrame(mosi, start, len, block) <==> block == sent
  {
    hide AllBits, Crc16.Crc16, Crc16.LowByte, Crc16.HighByte;
    var own := Frame(WriteToken(len), sent);
    assert own[1..513] == sent;
    if KeepsFrame(mosi, start, len, block) {
      var frame :| |frame| == 515 && Driven(mosi, start, frame) && frame[1..513] == block;
      AllBitsInjective(frame, own);
    }
  }

  /** The card keeps one block of every frame, where its own answers put the frames. */
  ghost predicate Keeps(mosi: seq<bool>, card: nat -> uint8, n: nat, len: nat, blocks: seq<seq<uint8>>) {
    forall b | 0 <= b < |blocks| :: KeepsFrame(mosi, FrameStart(card, n, b), len, blocks[b])
  }

  /** The words a card sends that adds its own checksums. */
  function SealAll(blocks: seq<seq<uint8>>): (words: seq<seq<uint8>>)
    ensures |words| == |blocks|
  {
    if blocks == [] then [] else SealAll(blocks[..|blocks| - 1]) + [Crc16.Sealed(blocks[|blocks| - 1])]
  }

  /** From the wire that a write has driven the card can only have kept the blocks of the data. */
  lemma {:induction false} KeptWords(mosi: seq<bool>, card: nat -> uint8, n: nat, data: seq<uint8>, len: nat,
                                     blocks: seq<seq<uint8>>)
    requires len <= |data| && |blocks| <= TotalBlocks(len)
    requires AllDriven(mosi, card, n, data, len, |blocks|) && Keeps(mosi, card, n, len, blocks)
    ensures SealAll(blocks) == StoredWords(data, len, |blocks|)
  {
    hide Driven, KeepsFrame, Frame, WriteToken, WrittenBlock, FrameStart, TotalBlocks, Crc16.Sealed, Crc16.Accepts;
    if blocks != [] {
      var b := |blocks| - 1;
      KeptWords(mosi, card, n, data, len, blocks[..b]);
      KeptIsSent(mosi, FrameStart(card, n, b), len, WrittenBlock(data, len, b), blocks[b]);
    }
  }

  /** And it can have kept those. */
  lemma {:induction false} KeepsSent(mosi: seq<bool>, card: nat -> uint8, n: nat, data: seq<uint8>, len: nat,
                                     frames: nat) returns (blocks: seq<seq<uint8>>)
    requires len <= |data| && frames <= TotalBlocks(len) && AllDriven(mosi, card, n, data, len, frames)
    ensures |blocks| == frames && Keeps(mosi, card, n, len, blocks)
  {
    hide Driven, KeepsFrame, Frame, WriteToken, WrittenBlock, FrameStart, TotalBlocks;
    if frames == 0 {
      blocks := [];
    } else {
      var b := frames - 1;
      var before := KeepsSent(mosi, card, n, data, len, b);
      KeptIsSent(mosi, FrameStart(card, n, b), len, WrittenBlock(data, len, b), WrittenBlock(data, len, b));
      blocks := before + [WrittenBlock(data, len, b)];
    }
  }

  /** After a write of that length in so many frames that began at position n, the card sends the
      blocks it kept of them, with its own checksums. */
  ghost predicate Returns(mosi: seq<bool>, card: nat -> uint8, n: nat, len: nat, frames: nat) {
    exists blocks :: |blocks| == frames && Keeps(mosi, card, n, len, blocks) &&
      Frames(card, FrameStart(card, n, frames), SealAll(blocks))
  }

  /** Reading from a card that sends what it kept of the wire never fails, and gives the data
      exactly when nothing is lost. */
  lemma WriteReadIff(mosi: seq<bool>, card: nat -> uint8, n: nat, data: seq<uint8>, len: nat)
    requires len <= |data| && AllDriven(mosi, card, n, data, len, TotalBlocks(len))
    requires Returns(mosi, card, n, len, TotalBlocks(len))
    ensures
      var read := Blocks(card, FrameStart(card, n, TotalBlocks(len)), TotalBlocks(len));
      && read.Some? && read.value[..len] == ReadBack(data, len)
      && (read.value[..len] == data[..len] <==> NothingLost(data, len))
  {
    hide Blocks, Frames, Stored, StoredWords, AllAccepted, Keeps, AllDriven, SealAll, FrameStart, TotalBlocks,
         NothingLost, ReadBack;
    var total := TotalBlocks(len);
    var blocks :| |blocks| == total && Keeps(mosi, card, n, len, blocks) &&
      Frames(card, FrameStart(card, n, total), SealAll(blocks));
    KeptWords(mosi, card, n, data, len, blocks);
    FramesRead(card, FrameStart(card, n, total), SealAll(blocks));
    StoredData(data, len, total);
    StoredIff(data, len);
  }

  lemma Refused(card: nat -> uint8, n: nat, frames: nat, b: nat)
    requires b < frames && !Taken(card, FrameStart(card, n, b))
    ensures !AllTaken(card, n, frames)
  {
  }

  /** A write and then a read, given the responses to the two commands. Whatever card is on the
      bus: if it takes the frames and sends back what it kept of the wire, the read succeeds and
      the caller's buffer holds the data exactly when nothing is lost. */
  method WriteThenRead(driver: Driver, data: seq<uint8>, len: nat, buffer: array<uint8>,
                       writeResponse: uint8, readResponse: uint8) returns (written: Status, read: Status)
    requires driver.bus.clock % 8 == 0 && |driver.bus.mosi| == driver.bus.clock
    requires driver.internalBuffer.Length == BLOCK_SIZE
    requires len <= |data| && len <= buffer.Length && buffer != driver.internalBuffer
    requires writeResponse == 0 ==> Answers(driver.bus.slave, driver.bus.clock / 8, TotalBlocks(len))
    modifies driver.bus, driver.internalBuffer, buffer
    ensures written == Ok <==>
      writeResponse == 0 && AllTaken(driver.bus.slave, old(driver.bus.clock) / 8, TotalBlocks(len))
    ensures written == Ok ==>
      AllDriven(driver.bus.mosi, driver.bus.slave, old(driver.bus.clock) / 8, data, len, TotalBlocks(len))
    ensures
      && written == Ok && readResponse == 0
      && Returns(driver.bus.mosi, driver.bus.slave, old(driver.bus.clock) / 8, len, TotalBlocks(len))
      ==>
      && read == Ok && buffer[..len] == ReadBack(data, len)
      && (buffer[..len] == data[..len] <==> NothingLost(data, len))
  {
    hide Blocks, AllDriven, Returns, Answers, AllTaken, FrameStart, TotalBlocks, NothingLost, ReadBack, Taken;
    ghost var n, card := driver.bus.clock / 8, driver.bus.slave;
    ghost var sent;
    written, sent := driver.Write(data, len, writeResponse);
    if written == Error {
      if writeResponse == 0 { Refused(card, n, TotalBlocks(len), sent - 1); }
      return Error, Error;
    }
    ghost var wire := driver.bus.mosi;
    read := driver.Read(buffer, len, readResponse);
    DrivenMoreAll(wire, driver.bus.mosi, card, n, data, len, TotalBlocks(len));
    if readResponse == 0 && Returns(driver.bus.mosi, card, n, len, TotalBlocks(len)) {
      WriteReadIff(driver.bus.mosi, card, n, data, len);
      assert buffer[..len] == Blocks(card, FrameStart(card, n, TotalBlocks(len)), TotalBlocks(len)).value[..len];
    }
  }

  // ----- a card on which all of this happens

  /** A card that takes every frame and is never busy for the first `lead` bytes, and then sends
      the given words without delay. */
  function Sender(words: seq<seq<uint8>>, lead: nat): nat -> uint8
    requires forall w | w in words :: |w| == WORD_SIZE
  {
    (n: nat) =>
      if n < lead then 0x05
      else
        var b, k := (n - lead) / FRAME_SIZE, (n - lead) % FRAME_SIZE;
        if b >= |words| then 0xFF
        else if k == 0 then 0xFE
        else assert words[b] in words; words[b][k - 1]
  }

  lemma {:induction false} SenderFrames(words: seq<seq<uint8>>, lead: nat, b: nat)
    requires b <= |words| && forall w | w in words :: |w| == WORD_SIZE
    ensures Frames(Sender(words, lead), lead + FRAME_SIZE * b, words[b..])
    decreases |words| - b
  {
    hide Token, Slice, Frames, Sender, Blocks;
    var card, n := Sender(words, lead), lead + FRAME_SIZE * b;
    if b < |words| {
      SenderFrames(words, lead, b + 1);
      SenderWord(words, lead, b);
      assert words[b..][1..] == words[b + 1..];
      FramesFrom(card, n, words[b..]);
    } else {
      assert words[b..] == [];
      FramesNone(card, n);
    }
  }

  lemma FramesNone(card: nat -> uint8, n: nat)
    ensures Frames(card, n, [])
  {
  }

  lemma FramesFrom(card: nat -> uint8, n: nat, words: seq<seq<uint8>>)
    requires words != [] && card(n) == START_TOKEN && Slice(card, n + 1, WORD_SIZE) == words[0]
    requires Frames(card, n + FRAME_SIZE, words[1..])
    ensures Frames(card, n, words)
  {
    hide Slice, Token;
    TokenStep(card, n, TOKEN_POLLS);
  }

  lemma SenderWord(words: seq<seq<uint8>>, lead: nat, b: nat)
    requires b < |words| && forall w | w in words :: |w| == WORD_SIZE
    ensures Sender(words, lead)(lead + FRAME_SIZE * b) == START_TOKEN
    ensures Slice(Sender(words, lead), lead + FRAME_SIZE * b + 1, WORD_SIZE) == words[b]
  {
    var card, n := Sender(words, lead), lead + FRAME_SIZE * b;
    assert words[b] in words;
    forall j | 0 <= j < WORD_SIZE
      ensures card(n + 1 + j) == words[b][j]
    {
      assert (n + 1 + j - lead) / FRAME_SIZE == b && (n + 1 + j - lead) % FRAME_SIZE == j + 1;
    }
  }

  /** Bytes on the bus for one frame, the response and one byte of waiting. */
  const TURN := 517

  lemma {:induction false} SenderStart(words: seq<seq<uint8>>, lead: nat, b: nat)
    requires TURN * b <= lead && forall w | w in words :: |w| == WORD_SIZE
    ensures FrameStart(Sender(words, lead), 0, b) == TURN * b
  {
    hide FrameStart, AfterBusy, Sender;
    if b == 0 {
      StartNow(Sender(words, lead), 0);
    } else {
      SenderStart(words, lead, b - 1);
      StartNext(Sender(words, lead), 0, b);
      SenderReady(words, lead, TURN * b - 1);
    }
  }

  lemma StartNow(card: nat -> uint8, n: nat)
    ensures FrameStart(card, n, 0) == n
  {
  }

  lemma StartNext(card: nat -> uint8, n: nat, b: nat)
    requires 0 < b
    ensures FrameStart(card, n, b) == AfterBusy(card, FrameStart(card, n, b - 1) + FRAME_SIZE + 1)
  {
    hide AfterBusy;
  }

  /** During the first bytes every wait is over at once. */
  lemma SenderReady(words: seq<seq<uint8>>, lead: nat, n: nat)
    requires n < lead && forall w | w in words :: |w| == WORD_SIZE
    ensures AfterBusy(Sender(words, lead), n) == n + 1
  {
    hide AfterBusy;
    AfterBusyIs(Sender(words, lead), n, n + 1);
  }

  lemma SenderTakes(words: seq<seq<uint8>>, frames: nat)
    requires forall w | w in words :: |w| == WORD_SIZE
    ensures
      var card := Sender(words, TURN * frames);
      AllTaken(card, 0, frames) && Answers(card, 0, frames) && FrameStart(card, 0, frames) == TURN * frames
  {
    hide FrameStart, ReadyAfter, AfterBusy;
    var lead := TURN * frames;
    var card := Sender(words, lead);
    SenderStart(words, lead, frames);
    forall b | 0 <= b < frames
      ensures Taken(card, FrameStart(card, 0, b)) && ReadyAfter(card, FrameStart(card, 0, b) + FRAME_SIZE + 1)
    {
      SenderStart(words, lead, b);
      var n := FrameStart(card, 0, b) + FRAME_SIZE;
      assert card(n) == 0x05 && card(n + 1) == 0x05;
      AfterBusyIs(card, n + 1, n + 2);
    }
  }

  /** So what comes back is what was written exactly when nothing is lost: the whole transfer,
      from the caller's data over the wire and back, on a card that stores what it is sent. */
  method WriteReadBack(data: seq<uint8>, len: nat) returns (written: Status, read: Status, buffer: array<uint8>)
    requires len <= |data|
    ensures written == read == Ok && buffer[..] == ReadBack(data, len)
    ensures buffer[..] == data[..len] <==> NothingLost(data, len)
  {
    hide Sender, StoredWords, AllDriven, AllTaken, Answers, FrameStart, TotalBlocks, NothingLost, ReadBack, Keeps,
         Frames, SealAll, Crc16.Accepts;
    var total := TotalBlocks(len);
    var words := StoredWords(data, len, total);
    var bus := new Bus(Sender(words, TURN * total));
    var driver := new Driver(bus);
    buffer := new uint8[len](_ => 0);
    SenderTakes(words, total);
    written, read := WriteThenRead(driver, data, len, buffer, 0, 0);
    assert buffer[..len] == buffer[..];
    SenderReturns(bus.mosi, data, len);
  }

  lemma SenderReturns(mosi: seq<bool>, data: seq<uint8>, len: nat)
    requires len <= |data|
    requires
      var total := TotalBlocks(len);
      AllDriven(mosi, Sender(StoredWords(data, len, total), TURN * total), 0, data, len, total)
    ensures
      var total := TotalBlocks(len);
      Returns(mosi, Sender(StoredWords(data, len, total), TURN * total), 0, len, total)
  {
    hide Sender, StoredWords, AllDriven, AllTaken, Answers, FrameStart, TotalBlocks, Keeps, Frames, SealAll,
         Crc16.Accepts;
    var total := TotalBlocks(len);
    var words := StoredWords(data, len, total);
    var card := Sender(words, TURN * total);
    SenderTakes(words, total);
    var blocks := KeepsSent(mosi, card, 0, data, len, total);
    KeptWords(mosi, card, 0, data, len, blocks);
    SenderFrames(words, TURN * total, 0);
    assert words[0..] == words;
  }

  /** A length of two blocks loses the second one: of 1024 ones, written and read back without an
      error, the second half comes back as zeros. */
  method LostBlock() returns (written: Status, read: Status, data: seq<uint8>, buffer: array<uint8>)
    ensures written == read == Ok && |data| == buffer.Length == 2 * BLOCK_SIZE
    ensures forall k | 0 <= k < 2 * BLOCK_SIZE :: data[k] == 1 && buffer[k] == if k < BLOCK_SIZE then 1 else 0
  {
    data := seq(2 * BLOCK_SIZE, k => 1);
    written, read, buffer := WriteReadBack(data, 2 * BLOCK_SIZE);
    assert forall k | 0 <= k < 2 * BLOCK_SIZE :: buffer[k] == buffer[..][k];
  }
}
