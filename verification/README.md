# Verified models of the core algorithms

The repository is a collection of C programs: an SD-card driver over a bit-banged SPI bus,
pthread demonstrations, generic data structures for shared memory, a routing table and a
command-line interface. This project models its algorithms in Dafny and proves what they
promise, for all inputs, all runs and all interleavings.

**Checksums and the SD card.** Polynomials over GF(2) are natural numbers (`Gf2.dfy`), C's
unsigned words are 32-bit vectors with a value (`Word.dfy`), and `CrcCode.dfy` develops remainders
by a generator once for all three checksums: division, linearity, bursts, parity, the period of x.
`Crc16.dfy`, `Crc7.dfy` and `Cksum.dfy` hold the code's tables and loops and tie them to it;
`CrcTable.dfy` proves a regular table right, for both, and `CrcWord.dfy` and `CrcPeriod.dfy` find
the order of x by repeated squaring in words and trial division. CRC-7 and CRC-16 are the codes of
section 4.5 of the SD Physical Layer Simplified Specification; `check_crc` is the `cksum` utility
of IEEE Std 1003.1, Shell & Utilities. `Spi.dfy` is the bit-banged exchange and `SdCard.dfy` the
block loops of reading and writing above it, down to the bits on the wire. `SdRoundTrip.dfy` takes
the written blocks off the wire again and reads them back, and `Wire.dfy` ties the bits on the wire
to the polynomials of the checksums. The card is a stream of bytes, one for
every byte time of the bus; the proofs hold for every such stream.

**Protocols.** `BlockedPool.dfy` is the pool of blocked threads as a class. `Barrier.dfy`,
`CondRing.dfy` (shared by `Ring.dfy` and `Alternation.dfy`) and `ProducerConsumer.dfy` are step
systems: a program counter for every thread, one step at a time, any number of threads, any
schedule. `Runs.dfy` says what a run is: a sequence of states; the theorems speak of every
reachable state. The barrier and the producers and consumers allow spurious wakeups everywhere;
the other two hold exactly without them.

**Heap structures.** `LinkedList.dfy`, `SearchTree.dfy`, `RingQueue.dfy` and `RoutingTable.dfy` are
classes over real pointers or arrays, with a ghost sequence or shape of nodes. Each is proved to
agree with something simple: a sequence, a history of insertions, a bounded queue, a finite map.

**Text.** `Itoa.dfy` is the number printer with a parser to read it back, and the counter behind
the shared-memory names. `Cli.dfy` is the flat numbering of a group's entries, lookup by number and
by name, and the help walk.

Where the code does less than its callers would expect, the exact condition is proved:
`SdRoundTrip.WriteThenRead` (a write whose length is a multiple of 512 above 512 loses its last
block unless that block is zero), `SdCard.OwnFramePassesIff` with `SdCard.OwnFrameRefused` (writer
and reader order the checksum bytes differently), `Itoa.RoundTripIff` (INT_MIN has no opposite; and
the comment in `itoa` says that negative numbers in a base other than 10 are taken as unsigned, which
the code does not do), `Barrier.RefusalIff`, `Ring.DriftIff`, `Alternation.AlternationIff`,
`Crc16.TwoBitsPassIff`.

Inputs that the C code takes from its surroundings are parameters: the slave's bytes, the response
to an SD command, the time stamped on a route, the parameter list of a command.

## Model

| member | source | states |
|---|---|---|
| Crc16.TableEntry | SD_CARD/src/device/sd_card_core.c:88-121 | each of the 256 literal entries: entry j is j x^16 modulo x^16 + x^12 + x^5 + 1 |
| CrcTable.RegularTabled | SD_CARD/src/device/sd_card_core.c:88-121 | a table whose rows are sums of the first row, and whose first entries double, holds the right remainder everywhere; used for both literal tables |
| Crc16.Index | SD_CARD/src/device/sd_card_core.c:1140-1141 | the table index stays below 256 for every register and byte |
| Crc16.Crc16Ccitt | SD_CARD/src/device/sd_card_core.c:1135-1144 | the loop computes the checksum function on the first blockLength bytes, for any start value |
| Crc16.Crc16IsRemainder | SD_CARD/src/device/sd_card_core.c:1135-1144 | for every byte string and every start value the table loop is polynomial division: the remainder of the start register, shifted past the message, plus the message times x^16 |
| Crc16.FeedAbsorbs | SD_CARD/src/device/sd_card_core.c:1140-1141 | one turn of the loop takes the register to its remainder with the next byte absorbed |
| CrcCode.DivisionTheorem | SD_CARD/src/device/sd_card_core.c:1135-1144 | what "remainder" means: r is the remainder of a exactly when its degree is below the generator's and a + r is a multiple of the generator; used for all three checksums |
| CrcCode.QuotientRemainder | SD_CARD/src/device/sd_card_core.c:1135-1144 | the remainder together with the quotient times the generator gives the message back |
| CrcCode.AbsorbConcat | SD_CARD/src/device/sd_card_core.c:1139-1142 | feeding m and then n is feeding m followed by n, so the loop may be cut anywhere |
| Crc16.AcceptsIffZero | SD_CARD/src/device/sd_card_core.c:890-910 | a block followed by two bytes passes the comparison of the reader if and only if the remainder of the whole is zero |
| Crc16.SealedPasses | SD_CARD/src/device/sd_card_core.c:890-910 | a block followed by its own checksum, high byte first, passes and has remainder zero |
| Crc16.UndetectedIffMultiple | SD_CARD/src/device/sd_card_core.c:890-910 | a corrupted block passes if and only if the generator divides the difference |
| Crc16.BurstCaught | SD_CARD/src/device/sd_card_core.c:890-910 | every burst of at most 16 bits, at any bit offset in the block or its checksum, fails the comparison |
| Crc16.ParityKept | SD_CARD/src/device/sd_card_core.c:1135-1144 | started at zero, the checksum has the parity of the block |
| Crc16.OddCaught | SD_CARD/src/device/sd_card_core.c:890-910 | every error of odd weight fails the comparison |
| Crc16.ThreeFlipsCaught | SD_CARD/src/device/sd_card_core.c:890-910 | three flipped bits, at any positions in a word of any length, fail the comparison |
| Crc16.PeriodIff | SD_CARD/src/device/sd_card_core.c:890-910 | x^k is 1 modulo the generator if and only if 32767 divides k |
| Crc16.TwoBitsPassIff | SD_CARD/src/device/sd_card_core.c:890-910 | in words of any length, an error in bits i < j passes if and only if 32767 divides j - i |
| Crc16.TwoFlipsPassIff | SD_CARD/src/device/sd_card_core.c:890-910 | the same for the actual flipping of two bits of a word that passes |
| Crc16.TwoFlipsCaught | SD_CARD/src/device/sd_card_core.c:890-910 | flipping any two distinct bits of a 512-byte block and its checksum makes the comparison fail |
| CrcPeriod.OrderIff | SD_CARD/src/device/sd_card_core.c:88-121 | a period no proper factor of which is a period divides every period; used for all three generators |
| CrcWord.AccProduct | SD_CARD/src/device/sd_card_core.c:88-121 | the shift-and-add in words by which the powers of x are computed is multiplication of remainders |
| Crc7.CommandCrc.GenerateCRCTable | SD_CARD/src/device/sd_card_core.c:1054-1085 | the two loops leave b x^7 modulo x^7 + x^3 + 1, in seven bits, at every byte b |
| Crc7.ShiftIsTimesX | SD_CARD/src/device/sd_card_core.c:1077-1082 | one turn of the inner loop, shift and conditional subtraction in eight bits, is multiplication by x modulo the generator |
| Crc7.CommandCrc.CRCAdd | SD_CARD/src/device/sd_card_core.c:1095-1098 | from a seven-bit register every index is inside the table, the result is again seven bits, and it is the remainder with the byte absorbed |
| Crc7.CommandCrc.AddAll | SD_CARD/src/device/sd_card_core.c:1095-1098 | folded over a message of any length from any register, the addition absorbs the whole message |
| Crc7.CommandCrc.AddAllIsRemainder | SD_CARD/src/device/sd_card_core.c:1095-1098 | folded from zero it is the message times x^7 modulo the generator |
| Crc7.CommandCrc.GetCRC | SD_CARD/src/device/sd_card_core.c:1108-1124 | the checksum of a command is (command x^32 + argument) x^7 modulo the generator, the argument as one 32-bit polynomial |
| Crc7.UndetectedIffMultiple | SD_CARD/src/device/sd_card_core.c:1108-1124 | of two commands with checksums, the first right, the second is right if and only if the generator divides the difference of the 47 bits |
| Crc7.BurstCaught | SD_CARD/src/device/sd_card_core.c:1108-1124 | every burst of at most seven bits in command, argument and checksum changes a right checksum into a wrong one |
| Crc7.PeriodIff | SD_CARD/src/device/sd_card_core.c:1071-1084 | x^k is 1 modulo x^7 + x^3 + 1 if and only if 127 divides k |
| Crc7.TwoBitsCaught | SD_CARD/src/device/sd_card_core.c:1108-1124 | any two flipped bits of the 47 are caught |
| Cksum.TableEntry | SD_CARD/src/device/sdcard_fs_core.c:76-127 | each of the 256 literal entries: entry j is j x^32 modulo the generator of the cksum utility (IEEE Std 1003.1) |
| Cksum.CheckCrc | SD_CARD/src/device/sdcard_fs_core.c:414-436 | both loops terminate and compute the checksum function, for every buffer shorter than 2^31 bytes whose length is passed |
| Cksum.ChecksumIsPosix | SD_CARD/src/device/sdcard_fs_core.c:414-436 | the complement of the result is the remainder of the data followed by the length octets, times x^32: the definition of cksum |
| Cksum.OctetsSpell | SD_CARD/src/device/sdcard_fs_core.c:427-431 | the octets fed after the data, low octet first, spell the length and have no leading zero |
| Cksum.SameChecksumIff | SD_CARD/src/device/sdcard_fs_core.c:414-436 | buffers of one length have the same checksum if and only if the generator divides their difference |
| Cksum.BurstChangesChecksum | SD_CARD/src/device/sdcard_fs_core.c:414-436 | buffers of one length that differ by a burst of at most 32 bits have different checksums |
| Cksum.PeriodIff | SD_CARD/src/device/sdcard_fs_core.c:76-127 | the generator is primitive: x^k is 1 modulo it if and only if 2^32 - 1 divides k |
| Cksum.TwoFlipsIff | SD_CARD/src/device/sdcard_fs_core.c:414-436 | flipping two bits of a buffer leaves its checksum as it was if and only if 2^32 - 1 divides their distance |
| Cksum.TwoFlipsChangeChecksum | SD_CARD/src/device/sdcard_fs_core.c:414-436 | so in every buffer of less than 2^29 bytes two flipped bits change the checksum |
| Spi.Bus.Send | SD_CARD/src/spi_bb_core.c:178-226 | eight clocks drive the byte on the wire, most significant bit first, and return the byte the slave sends in the same clocks |
| Spi.OneClock | SD_CARD/src/spi_bb_core.c:186-208 | what each clock keeps: bits driven and bits still to drive make up the bytes, bits read are the first of the reply |
| Spi.BitsOfSame | SD_CARD/src/spi_bb_core.c:186-208 | a byte is determined by its bits in transmission order |
| Spi.Bus.Receive | SD_CARD/src/spi_bb_core.c:331-337 | receiving returns the next byte of the slave while 0xFF is driven |
| Spi.SendAll | SD_CARD/src/spi_bb_core.c:178-226 | byte streams: as many bytes of the slave as bytes sent, each side in order |
| SdCard.Driver.AwaitToken | SD_CARD/src/device/sd_card_core.c:848-859 | the token is found exactly when it is among the first 255 bytes, and the position after it is where reading goes on |
| SdCard.TokenIff | SD_CARD/src/device/sd_card_core.c:848-859 | in numerals: a token is found at a position exactly when that byte is 0xFE, is among the next 255 and is the first such |
| SdCard.Driver.ReadBlock | SD_CARD/src/device/sd_card_core.c:861-870 | 512 bytes into the driver's buffer and, as far as the length allows, into the caller's at the right place, no other byte of it changed |
| SdCard.Driver.ReadFrame | SD_CARD/src/device/sd_card_core.c:841-910 | one turn of the read loop succeeds if and only if the token is in time and the checksum right, and then it takes exactly one block |
| SdCard.Driver.Read | SD_CARD/src/device/sd_card_core.c:818-911 | success if and only if the command was accepted and every frame has its token in time and passes its checksum; then the buffer holds the blocks' data cut to the length; bytes beyond the length are never written |
| SdCard.FramesRead | SD_CARD/src/device/sd_card_core.c:841-911 | from a card that sends its tokens in time the reader takes the data exactly when every frame passes |
| SdCard.TwoFlipsFailRead | SD_CARD/src/device/sd_card_core.c:841-911 | two bits flipped in any one frame of a multi-block read make the whole read fail |
| SdCard.BurstFailsRead | SD_CARD/src/device/sd_card_core.c:841-911 | a burst of at most 16 bits in any one frame makes the whole read fail |
| Wire.WireIsPoly | SD_CARD/src/spi_bb_core.c:186-208 | the bits driven, in time order, are the coefficients of the bytes' polynomial, highest first: the wire and the checksums read bytes in one order |
| Wire.WindowError | SD_CARD/src/spi_bb_core.c:186-208 | two wires that agree outside a window differ by a polynomial as short as the window, shifted, and by zero only if they agree in it too |
| Wire.LineBurstFailsRead | SD_CARD/src/device/sd_card_core.c:841-911 | however the line is disturbed for at most 16 clocks in a row during one block and its checksum, the whole read fails |
| SdCard.Driver.Fragment | SD_CARD/src/device/sd_card_core.c:629-638 | the driver's buffer holds exactly one block of the data, zero-padded; the last block takes the remainder of the length |
| SdCard.Driver.SendBlock | SD_CARD/src/device/sd_card_core.c:640-673 | token, 512 bytes and the checksum, low byte first, go out on the wire in that order |
| SdCard.Driver.WaitReady | SD_CARD/src/device/sd_card_core.c:684 | the busy wait skips exactly the zero bytes and ends behind the first other one |
| SdCard.Driver.OfferBlock | SD_CARD/src/device/sd_card_core.c:629-682 | one block framed on the wire at the position where the transfer stands, and whether the card took it |
| SdCard.AcceptedIff | SD_CARD/src/device/sd_card_core.c:676 | a response means acceptance exactly when it is 5 modulo 32 |
| SdCard.Driver.Write | SD_CARD/src/device/sd_card_core.c:609-685 | success if and only if every block was sent and taken; otherwise exactly the last one sent was refused; every frame sent is on the wire, with the right contents, at the position that the card's own answers give it |
| SdCard.FramesInOrder | SD_CARD/src/device/sd_card_core.c:624-685 | those positions follow one another with room for frame and response |
| SdRoundTrip.StoredIff | SD_CARD/src/device/sd_card_core.c:632-638 | what was cut into blocks, put together again, is the data if and only if the length is at most 512, or no multiple of 512, or the last 512 bytes are zero; otherwise exactly those bytes are zeros |
| Spi.AllBitsInjective | SD_CARD/src/spi_bb_core.c:186-208 | the bits on a wire determine the bytes |
| SdRoundTrip.KeptIsSent | SD_CARD/src/device/sd_card_core.c:645-673 | a card that takes 515 bytes off the wire, and keeps the 512 of the block only behind the token 0xFE of a single block, or 0xFC where the length is above 512, keeps of a frame that the writer has driven exactly the block that was sent |
| SdRoundTrip.KeptWords | SD_CARD/src/device/sd_card_core.c:609-685 | from the wire of a whole write such a card can only have kept the blocks of the data, in order |
| SdRoundTrip.WriteReadIff | SD_CARD/src/device/sd_card_core.c:818-911 | reading from a card that sends what it kept of the wire, with its own checksums, never fails, and gives the data if and only if nothing is lost |
| SdRoundTrip.WriteThenRead | SD_CARD/src/device/sd_card_core.c:609-911 | write and then read on one bus, for any card and any responses: the write succeeds exactly when the card takes every frame, and if the card then sends back what it kept of the bits driven, the read succeeds and the caller's buffer equals the data if and only if the length is at most 512, or no multiple of 512, or the lost bytes were zero |
| SdRoundTrip.WriteReadBack | SD_CARD/src/device/sd_card_core.c:609-911 | there is such a card: a whole transfer over the bus in which both calls succeed and the buffer is the data under exactly that condition, and the data with the last 512 bytes zeroed otherwise |
| SdRoundTrip.LostBlock | SD_CARD/src/device/sd_card_core.c:633-635 | a concrete failing input: 1024 ones written and read back without an error come back with the second half zeros |
| SdCard.OwnFramePassesIff | SD_CARD/src/device/sd_card_core.c:668-673 | a written frame, read back as it stands, passes the reader's comparison only if the two bytes of its checksum are equal: writer and reader use opposite byte orders |
| SdCard.OwnFrameRefused | SD_CARD/src/device/sd_card_core.c:668-673 | a concrete failing input: 511 zeros and a 1 have checksum 0x1021, and the frame as written is refused by the reader's comparison |
| BlockedPool.Pool.GetBlockedThread | IPC/IPC/pthreads/threadApi.c:7-15 | the thread in the highest occupied slot, or none when all are empty |
| BlockedPool.Pool.IsThreadIn | IPC/IPC/pthreads/threadApi.c:32-43 | the lowest index of the thread, or failure when it is nowhere |
| BlockedPool.Pool.GetEmptySlot | IPC/IPC/pthreads/threadApi.c:72-80 | the highest empty slot, or failure when there is none |
| BlockedPool.Pool.PoolAdd | IPC/IPC/pthreads/threadApi.c:128-143 | exactly the highest empty slot is filled, or nothing changes |
| BlockedPool.Pool.AddThread | IPC/IPC/pthreads/threadApi.c:145-164 | fails exactly when the thread is there, its number too large or the pool full; otherwise fills exactly the highest empty slot |
| BlockedPool.Pool.RemoveThread | IPC/IPC/pthreads/threadApi.c:96-112 | exactly the thread's slot is emptied, or nothing changes |
| BlockedPool.AddKeepsDistinct | IPC/IPC/pthreads/threadApi.c:145-164 | adding never puts a thread into the pool twice |
| BlockedPool.RemoveRemoves | IPC/IPC/pthreads/threadApi.c:96-112 | removing leaves no trace of the thread and every other thread where it was |
| BlockedPool.RemoveUndoesAdd | IPC/IPC/pthreads/threadApi.c:96-164 | removing a thread just added restores the pool |
| BlockedPool.RoomForOneMore | IPC/IPC/pthreads/threadApi.c:72-80 | a pool with a slot for every thread has an empty slot for a thread outside it |
| Runs.ReachedKeeps | IPC/IPC/pthreads/barrier.c:39-93 | what holds at the start and is kept by every step of every thread holds in every reachable state; used for all the thread programs |
| Barrier.BarrierSafe | IPC/IPC/pthreads/barrier.c:40-73 | in every reachable state of every interleaving, spurious wakeups included and whatever the pool's size: the counter is the number of threads between increment and decrement, never above 4, and so is the number of threads in the critical section |
| Barrier.OccupancyIff | IPC/IPC/pthreads/barrier.c:40-73 | so many threads are in the critical section in some run if and only if there are so many and they are at most 4 |
| Barrier.LeavingTurn | IPC/IPC/pthreads/barrier.c:55-68 | from every reachable state with the mutex free, a leaving thread's own steps lower the counter by one and leave the pool as it is; it is then about to signal the thread in the highest occupied slot of the pool, or to signal no one if and only if all slots are empty |
| Barrier.ScanFinds | IPC/IPC/pthreads/threadApi.c:7-15 | the scan as steps, undisturbed, finds what the pool's scan computes |
| Barrier.ExitTurn | IPC/IPC/pthreads/barrier.c:55-73 | a thread inside gets back to its start by its own steps, the counter one lower and nothing else changed |
| Barrier.EnterTurn | IPC/IPC/pthreads/barrier.c:40-48 | a thread that finds the mutex free and the counter below the limit gets in by its own steps, the counter one higher and nothing else changed |
| Barrier.BlockingTurn | IPC/IPC/pthreads/barrier.c:77-86 | a thread that finds the counter at the limit is added to the pool as the pool operation does it, and waits, or fails the assertion if it is refused |
| Barrier.WakingTurn | IPC/IPC/pthreads/barrier.c:86-89 | a waiting thread that wakes is taken out of the pool as the pool operation does it, and is back at its start |
| Barrier.NeverShutOut | IPC/IPC/pthreads/barrier.c:28-93 | with a slot for every thread, from every reachable state every thread can still get into the critical section, as waits may end at any time |
| Barrier.PoolSafe | IPC/IPC/pthreads/barrier.c:75-89 | with a slot for every thread the pool holds exactly the threads between being added and being removed, once each, and no thread fails the assertion |
| Barrier.RefusalIff | IPC/IPC/pthreads/barrier.c:79-82 | some run reaches assert(0) if and only if there are more threads than slots and more threads than the limit |
| Barrier.StepKept | IPC/IPC/pthreads/barrier.c:40-92 | every step of every thread keeps mutex, counter and pool invariants |
| Barrier.AddSucceeds | IPC/IPC/pthreads/threadApi.c:145-164 | in a reachable state with a slot for every thread, adding a thread succeeds and adds just that thread |
| CondRing.StepKept | IPC/IPC/pthreads/Mutexes/sequence.c:13-34 | every step keeps the mutual exclusion and the balance of prints, signals and wakeups of each thread and its predecessor |
| CondRing.Turn | IPC/IPC/pthreads/Mutexes/sequence.c:13-58 | a whole undisturbed turn: one line more, the thread asleep, and its successor about to print if it was asleep |
| Ring.Drift | IPC/IPC/pthreads/Mutexes/sequence.c:42-58 | without spurious wakeups, in every reachable state thread i has printed at most (i - j) mod N times more than thread j, hence never more than N - 1 ahead, although signals may be lost |
| Ring.DriftAttained | IPC/IPC/pthreads/Mutexes/sequence.c:42-58 | the bound is tight: for all i and j some reachable state without spurious wakeups has thread i exactly (i - j) mod N prints ahead of thread j |
| Ring.DriftIff | IPC/IPC/pthreads/Mutexes/sequence.c:13-58 | for two threads or more that bound holds in all reachable states if and only if wakeups are never spurious |
| Alternation.StrictAlternation | IPC/IPC/pthreads/Mutexes/Alternation.c:11-49 | without spurious wakeups the output of every run is a prefix of 0, 1, 0, 1, ... |
| Alternation.OutputsIff | IPC/IPC/pthreads/Mutexes/Alternation.c:11-49 | without spurious wakeups the outputs of the runs are exactly the prefixes of 0, 1, 0, 1, ...: each of them occurs |
| Alternation.AlternationIff | IPC/IPC/pthreads/Mutexes/Alternation.c:11-49 | every run alternates if and only if wakeups are never spurious |
| Alternation.SpuriousBreaks | IPC/IPC/pthreads/Mutexes/Alternation.c:11-16 | a concrete run in which a spurious wakeup makes thread 0 print twice in a row |
| Alternation.SignalCanBeLost | IPC/IPC/pthreads/Mutexes/Alternation.c:25-49 | a reachable state in which both threads sleep and no step is possible: the first signal came too early |
| ProducerConsumer.Conservation | IPC/IPC/pthreads/producer_consumer.c:39-108 | for any number of producers and consumers, in every reachable state, produced minus consumed is the number of filled slots and between 0 and 3 |
| ProducerConsumer.GiveUpJustified | IPC/IPC/pthreads/producer_consumer.c:62-65 | when a producer, still holding the mutex, decides to wait, every slot is filled; when a consumer does, none is |
| ProducerConsumer.CountsIff | IPC/IPC/pthreads/producer_consumer.c:39-108 | so many items are produced and so many consumed in some run if and only if they differ by at least 0 and at most 3 and there is a producer, and a consumer, for them |
| ProducerConsumer.ProducerTurn | IPC/IPC/pthreads/producer_consumer.c:45-55 | by its own steps a producer that finds the mutex free fills exactly the lowest slot not filled, counts one more and is back at its start |
| ProducerConsumer.ConsumerTurn | IPC/IPC/pthreads/producer_consumer.c:80-90 | the same for a consumer and the lowest filled slot |
| ProducerConsumer.IdleTurn | IPC/IPC/pthreads/producer_consumer.c:62-68 | with no slot that suits, the thread ends up asleep with the mutex free and nothing changed |
| ProducerConsumer.NeverShutOut | IPC/IPC/pthreads/producer_consumer.c:39-108 | from every reachable state every thread can still get to the start of its loop and find the mutex free, as wakeups may come at any time |
| ProducerConsumer.StepKept | IPC/IPC/pthreads/producer_consumer.c:39-108 | every step keeps conservation, mutual exclusion and what each scanning thread knows of the slots |
| LinkedList.List.AddNode | IPC/IPC/GENERIC_SHM_LOCAL/LinkedList/LinkedListApi.c:19-33 | the node becomes the first, the others follow unchanged, the count is the length |
| LinkedList.List.RemoveNode | IPC/IPC/GENERIC_SHM_LOCAL/LinkedList/LinkedListApi.c:41-78 | in all three cases exactly one position's value goes and the list stays well linked with the right count |
| LinkedList.List.Reverse | IPC/IPC/GENERIC_SHM_LOCAL/LinkedList/LinkedListApi.c:122-138 | the same nodes in exactly the reversed order, values with them, nothing lost or shared |
| LinkedList.List.Lookup | IPC/IPC/GENERIC_SHM_LOCAL/LinkedList/LinkedListApi.c:196-210 | found if and only if the key is there, and then the first node from the head with it |
| LinkedList.ReversedLinked | IPC/IPC/GENERIC_SHM_LOCAL/LinkedList/LinkedListApi.c:130-136 | when every node points to the one before it, the reversed sequence is a well linked list |
| LinkedList.ReverseTwice | IPC/IPC/GENERIC_SHM_LOCAL/LinkedList/LinkedListApi.c:122-138 | two calls of reverse restore the list node by node, values included |
| LinkedList.BuildAndLookup | IPC/IPC/GENERIC_SHM_LOCAL/LinkedList/LinkedListApi.c:19-33 | in a list built by additions, lookup returns the node of the newest value equal to the key, or null exactly when there is none |
| LinkedList.Build | IPC/IPC/GENERIC_SHM_LOCAL/LinkedList/LinkedListApi.c:35-39 | adding values one by one gives them newest first |
| SearchTree.Tree.AddTreeNode | IPC/IPC/GENERIC_SHM_LOCAL/Trees/tree.c:19-42 | the heap draws the tree grown by the node, whatever the tree; a null node changes nothing |
| SearchTree.Tree.WalkDown | IPC/IPC/GENERIC_SHM_LOCAL/Trees/tree.c:29-34 | the loop ends under the node where the recursive insertion hangs the new one |
| SearchTree.Tree.Hang | IPC/IPC/GENERIC_SHM_LOCAL/Trees/tree.c:36-39 | one pointer written turns the heap into the tree with the node inserted |
| SearchTree.Attach | IPC/IPC/GENERIC_SHM_LOCAL/Trees/tree.c:36-39 | hanging the node under that parent, and changing no other pointer, is recursive insertion |
| SearchTree.Tree.Lookup | IPC/IPC/GENERIC_SHM_LOCAL/Trees/tree.c:65-83 | non-null if and only if the key was inserted, and then the earliest node inserted with it |
| SearchTree.GrowSorts | IPC/IPC/GENERIC_SHM_LOCAL/Trees/tree.c:19-42 | after any insertions: left < node <= right everywhere, and the in-order keys are the sorted multiset of those inserted |
| SearchTree.FindEarliest | IPC/IPC/GENERIC_SHM_LOCAL/Trees/tree.c:65-73 | searching the grown tree finds the earliest node of the history with the key |
| SearchTree.FindAfterInsert | IPC/IPC/GENERIC_SHM_LOCAL/Trees/tree.c:65-73 | inserting changes the answer of a search only where there was none |
| RingQueue.Queue.constructor | IPC/IPC/GENERIC_SHM_LOCAL/Queue/Queue.c:5-10 | an empty queue with every slot NULL |
| RingQueue.Queue.Enqueue | IPC/IPC/GENERIC_SHM_LOCAL/Queue/Queue.c:28-60 | refuses exactly a null pointer or a full queue, otherwise appends; indices, count and NULL slots stay consistent, so the inner full test is unreachable |
| RingQueue.Queue.Deque | IPC/IPC/GENERIC_SHM_LOCAL/Queue/Queue.c:62-82 | NULL exactly when empty, otherwise the oldest element, removed |
| RingQueue.InOrder | IPC/IPC/GENERIC_SHM_LOCAL/Queue/Queue.c:28-82 | in any run, going by the replies, the elements delivered followed by those held are exactly the elements accepted, in order, and at most 50 are held |
| RingQueue.FirstFifty | IPC/IPC/GENERIC_SHM_LOCAL/Queue/Queue.c:28-60 | of elements only brought in, the first 50 are accepted and held in order and every later one is refused |
| RingQueue.Run | IPC/IPC/GENERIC_SHM_LOCAL/Queue/Queue.c:5-82 | the ring buffer driven through any sequence of calls replies to every one, refusals and NULLs included, as the bounded first-in first-out queue does, and ends up holding the same |
| RingQueue.Pushed | IPC/IPC/GENERIC_SHM_LOCAL/Queue/Queue.c:36-59 | filling the slot the code picks appends to what the window reads and leaves every slot outside it NULL |
| RingQueue.Popped | IPC/IPC/GENERIC_SHM_LOCAL/Queue/Queue.c:68-81 | clearing the front and moving it down removes the first element the window reads |
| RoutingTable.StrncmpIffCopy | IPC/ITC/rt.c:81-83 | strncmp of a stored buffer with a string is zero exactly when strncpy of the string would give that buffer |
| RoutingTable.SameKeyIff | IPC/ITC/rt.c:81-82 | two pairs of destination and mask are one key exactly when the masks are equal and the destinations are equal or agree in at least 16 characters |
| RoutingTable.SameRouteIff | IPC/ITC/rt.c:83-84 | two routes are one exactly when they have one time stamp, gateways equal or agreeing in 16 characters, and interfaces equal or agreeing in 32 |
| RoutingTable.Table.LookUp | IPC/ITC/rt.c:194-208 | the first entry with the key, or null when no entry has it |
| RoutingTable.Table.Insert | IPC/ITC/rt.c:65-101 | refused exactly when the key is present; otherwise a fresh entry at the head and all others unchanged, keys unique, links mutually inverse |
| RoutingTable.Table.LinkFirst | IPC/ITC/rt.c:89-100 | a new entry put first leaves the whole list linked both ways and every row as it was |
| RoutingTable.Table.Delete | IPC/ITC/rt.c:103-142 | fails exactly when the key is absent; otherwise exactly that entry leaves |
| RoutingTable.Table.Unlink | IPC/ITC/rt.c:113-141 | a non-head entry always has a predecessor, so the branch without one is unreachable; the remaining entries are linked both ways |
| RoutingTable.Table.Update | IPC/ITC/rt.c:144-168 | fails exactly when the key is absent or nothing would change; otherwise exactly that row is replaced |
| RoutingTable.Table.Overwrite | IPC/ITC/rt.c:162-166 | writing the entry over replaces exactly its row and leaves the links |
| RoutingTable.Perform | IPC/ITC/rt.c:65-168 | one call on the table is one operation on a finite map, return code included |
| RoutingTable.Run | IPC/ITC/rt.c:65-168 | any sequence of calls from the empty table leaves the map and the return codes of the map specification |
| RoutingTable.ToMapRemove | IPC/ITC/rt.c:113-141 | with unique keys, removing a row is removing its key from the map |
| RoutingTable.ToMapUpdate | IPC/ITC/rt.c:162-167 | with unique keys, replacing a row's route is updating the map at its key |
| Itoa.Reverse | IPC/IPC/GENERIC_SHM_LOCAL/Utils.c:13-23 | the first characters exactly reversed in place, the rest of the buffer untouched |
| Itoa.Itoa | IPC/IPC/GENERIC_SHM_LOCAL/Utils.c:27-66 | the buffer holds the text and its terminator and is untouched behind it |
| Itoa.WriteDigits | IPC/IPC/GENERIC_SHM_LOCAL/Utils.c:49-54 | the digit loop writes the digits, least significant first, for negative numbers too |
| Itoa.RoundTripIff | IPC/IPC/GENERIC_SHM_LOCAL/Utils.c:27-66 | for every int and base from 2 to 36 the text reads back as the number if and only if the number is not negative, or the base is 10 and the number is not INT_MIN |
| Itoa.IntMinUnreadable | IPC/IPC/GENERIC_SHM_LOCAL/Utils.c:42-46 | a concrete failing input: negating INT_MIN wraps round, and its text in base 10 is no number |
| Itoa.MinusOneInBinary | IPC/IPC/GENERIC_SHM_LOCAL/Utils.c:40-47 | a concrete failing input: -1 in base 2 is written as "/" |
| Itoa.LetterDigits | IPC/IPC/GENERIC_SHM_LOCAL/Utils.c:52 | concrete texts: 255 in base 16 is "ff", 35 in base 36 is "z", -25 in base 10 is "-25" |
| Itoa.FitsIn32 | IPC/IPC/GENERIC_SHM_LOCAL/Utils.c:27-66 | a number that is not negative needs at most 32 characters, terminator included, in every base |
| Itoa.BoundAttained | IPC/IPC/GENERIC_SHM_LOCAL/Utils.c:27-66 | INT_MAX in base 2 needs all 32 |
| Itoa.KeyCounter.AugmentNode | IPC/IPC/GENERIC_SHM_LOCAL/shm_ds.c:64-77 | the name field is the padded text of the counter, and the counter advances |
| Itoa.NamesDiffer | IPC/IPC/GENERIC_SHM_LOCAL/shm_ds.c:69-73 | names of different counts are different |
| Itoa.Names | IPC/IPC/GENERIC_SHM_LOCAL/shm_ds.c:64-77 | all names made by successive calls are pairwise distinct until the counter reaches INT_MAX |
| Cli.Memcmpi | Commad_line/cli.c:63-111 | zero exactly when the first size characters are pairwise equal or one is the lower case, 32 higher, of the other's letter; otherwise the sign of the first difference; it reads no further |
| Cli.SameNameIff | Commad_line/cli.c:80-92 | names agree exactly when they have one length and their characters are pairwise equal or differ by the 32 between a lower-case letter and its upper case |
| Cli.NameComparison | Commad_line/cli.c:136-138 | comparing with the terminator included reads past neither terminator and finds no difference exactly when the whole names agree |
| Cli.DisplayCommandList | Commad_line/cli.c:452-530 | every entry is displayed once, in order, under its number |
| Cli.EntriesAre | Commad_line/cli.c:452-530 | what has a number is exactly the built-in commands, the group's own and its subgroups |
| Cli.FindByNumber | Commad_line/cli.c:154-214 | the entry with that number, or none when the number is out of range |
| Cli.FindByName | Commad_line/cli.c:215-283 | the least number whose name matches in full, its entry, and that number left in the parameter; none when no name matches |
| Cli.BuiltinFound | Commad_line/cli.c:27-49 | every built-in name, in whatever case of its letters, is found under its own number, before any entry of the group |
| Cli.HelpFound | Commad_line/cli.c:27-49 | concretely, "help" finds number 1 in every group |
| Cli.FindCommand | Commad_line/cli.c:125-291 | what a parameter resolves to, by number or by name, and what is left in the parameter list |
| Cli.FindDisplayed | Commad_line/cli.c:452-530 | every displayed number, given back as an integer, finds the entry displayed beside it |
| Cli.ResolvesUnique | Commad_line/cli.c:125-291 | what a parameter resolves to is determined |
| Cli.DepthIsLongestPrefix | Commad_line/cli.c:333-388 | the help result is zero exactly when the whole path resolves, otherwise one more than the longest prefix that does, never more than the number of parameters |
| Cli.HelpShowsIffPath | Commad_line/cli.c:333-388 | help shows something exactly when the whole path resolves |
| Cli.HelpFollowsListing | Commad_line/cli.c:333-388 | one more parameter, a number, leads somewhere exactly when the listing has a line with that number, and then shows the usage of the command, or the listing of the group, on that line |
| Cli.HelpByName | Commad_line/cli.c:333-388 | the same for a name and the first line that has it |
| Cli.NothingBehindCommand | Commad_line/cli.c:356-370 | a parameter behind a command leads nowhere, and is the one reported |
| Cli.DisplayHelp | Commad_line/cli.c:333-388 | the recursive walk terminates, returns that depth and shows that listing or usage, and leaves the parameters' strings as they were |
| Cli.CommandHelp | Commad_line/cli.c:411-433 | success exactly when the whole path resolves; otherwise the error loop stays inside the list and names exactly the parameters up to the first that does not resolve |

## Left out

- GPIO calls, the SPI peripheral path with its chunk buffers, FAT library calls, QAPI, timing, logging and allocation failures; the peripheral path of multi-block transfers frees its buffers inside the block loop.
- Initialisation state, NULL checks, locking and chip select of `sdcard_read` and `sdcard_write`; the stop command after a multi-block read, the end token after a multi-block write and the bytes clocked after a transfer.
- SdCard.Driver.WaitReady: the card must not be busy for ever from there on; the C loop would then not end.
- SdCard.Driver.Write: a negative length, which C would turn into an enormous copy, is not modelled.
- SdRoundTrip.WriteThenRead: the card is one that keeps the 512 bytes of every frame behind the right token and computes its own checksums; how it treats the byte order of the written checksum, and the commands on the bus between writing and reading, are not modelled.
- Cksum.CheckCrc: buffers of 2^31 bytes and more, where the C loop compares a signed index with an unsigned length, are not modelled.
- Crc7.CommandCrc.GetCRC: the table must have been generated, which the driver does at initialisation; that `sdcard_command` then overwrites the checksum with a constant (`sd_card_core.c:327-330`) is not modelled.
- Liveness of the thread programs: no schedule is assumed to be fair, so nothing is promised to happen; that it can still happen is `Barrier.NeverShutOut` and `ProducerConsumer.NeverShutOut`, which use that a wait may end without a signal, and `Alternation.SignalCanBeLost` shows a deadlock when none does.
- `CS_mutex` of the barrier (it is unlocked twice and protects none of the modelled state), the fields `isWaiting` and `resume_thread_id`, failing pthread calls, the monitor thread, and all output that nothing depends on.
- Barrier.BarrierSafe: the pool operations are one step each because they run under the pool's mutex; the scan that reads the pool without it is a step per slot.
- `readers_writer.c`: readers count themselves late and the writer checks without the lock, so exclusion does not hold.
- Ownership of memory: freed and leaked nodes, payloads shared by copying, and the overflow of `node_count`. Node data are plain values.
- LinkedList.List.AddNode: into an empty list the code takes a node with whatever it points to, which would then be in the list without being counted; there the node must point nowhere.
- LinkedList.List.RemoveNode: the node must be in the list; for another one the C loop runs off the end.
- `singly_ll_remove_node_by_value`: it does not remove equal neighbours, and nothing is claimed of it.
- SearchTree.Tree.AddTreeNode: the node must be a fresh leaf. The key is an int, as the comparison reads it; the raw byte copy of `tree_lookup` and the missing return of `init_tree` are not modelled.
- The list's `ll_key_compare` is equality of abstract keys; the stack is not modelled (it admits one index too many).
- RoutingTable.Table.Insert: strings are sequences without NUL copied into fixed buffers; the mask is an unbounded int that is only compared.
- Itoa.Itoa: negating INT_MIN is undefined in C; it is modelled as wrapping round in 32 bits.
- Itoa.KeyCounter.AugmentNode: only the name field; the layout of the node's bytes around it and the overflow of the counter at INT_MAX are not modelled.
- Cli.DisplayCommandList: groups must be well formed, that is, a command count is the length of its list, a missing list has count zero and every subgroup has a command group; the text around the entries, the group's path name and a NULL group are not modelled.
- Cli.CommandHelp: only the part under the mutex; the test of the lock's result is inverted, so as written the part runs only when the lock fails.
- Registration of groups, parsing of the input line and execution of commands.
- `link_list.c`, the socket, fork, mmap, signal, message-queue and menu programs.
