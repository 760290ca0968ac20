# Cetty, verified in Dafny

A model of four parts of Cetty, a C++ port of Netty, with proofs about it.

* **The random generator** (`include/cetty/util/Random.h`). `LinearCongruential.dfy` proves that the
  48-bit step has full period, `Draws.dfy` counts how often each output occurs, and `Random.dfy` is
  the class with its two loops: the retry loop of `next` never runs twice because no seed is a fixed
  point, and the rejection loop of `nextInt(n)` ends because an accepted draw lies within one period.
  `RepeatedCalls.dfy` counts the results of successive calls.
* **The echo benchmark** (`benchmark/asio`). `EchoSession.dfy` is what the two session classes
  share, `EchoServer.dfy` and `EchoClient.dfy` are the classes, and `EchoRing.dfy` joins a client
  and a server by two FIFO byte channels of bounded capacity. Outstanding reads and writes are lists, any of which may
  make progress, fail or be reported at any time; an operation works on the block it was started on, as that block
  stands when the bytes move. That there is never more than one of each, that the blocks are
  never mixed up and that `destroy` is posted once are theorems over every run, with errors or
  without.
* **The channel buffer** (`src/cetty/buffer`). `Codec.dfy` and `ByteArray.dfy` are the big-endian
  accessors and the overlapping copy, `BufferModel.dfy` the buffer as a value with its runs,
  `ChannelBuffer.dfy` the class over a byte array, `BufferRuns.dfy` runs of its methods,
  `TypedAccess.dfy` typed writes read back.
* **The channel registry** (`include/cetty/channel/AbstractChannel.h`) in `ChannelRegistry.dfy`, and
  the round-robin pool of the threaded server in `IoServicePool.dfy`.

Each class keeps the fields of the C++ class. Its `View()` gives the state as a value, every
method is proved to take the view to a function of the old view, and the theorems are about those
functions and about runs of them. C++ exceptions are `Result` values. A byte is its bit pattern
(0 to 255), and `char` is taken to be signed where the code converts it to a number. `Numbers.dfy`,
`Bits.dfy`, `Bytes.dfy` and `Results.dfy` hold arithmetic, bit operators, byte runs and results.

## Where the code departs from its documentation

* `resetWriterIndex` is documented to throw when the reader index is beyond the mark, and does not check
  (`ChannelBuffer.ResetWriterIndex`: the indexes stay in order exactly when that guard holds;
  `BufferEdgeCases.ResetWriterIndexBeforeReader` breaks them).
* `writeByte` on a full fixed buffer throws after it has moved the writer index beyond the capacity, and
  `writeZero` throws after it has filled what room there was (`ZerosCounted` gives the writer index).
* `ensureWritableBytes` doubles an `int` without looking: `GrowthFitsInt` says when that is safe, and
  `GrowthCanOverflow` gives a demand for which it is not.

Where the documentation is silent:

* `skipBytes` accepts negative lengths, also ones that take the reader index below 0 (`SkipBackwards`).
* `discardReadBytes` leaves both marks alone when no readable byte is left, so that a reader mark can
  be stranded beyond the writer index (`DiscardMovesMarks`, `MarkLeftBehind`).
* A channel constructed with a given id is not registered, yet closing it erases whichever channel
  is registered under that id (`CloseKeepsOthers`, `RegisteredUnlessErased`, `GivenIdCanUnregister`).
* The ring of the echo benchmark deadlocks when the two channels have less room than all but three
  bytes of the client's block: both sessions keep a chunk and neither reads while it writes
  (`CleanRunGoesOn`, `DeadlockIsReached`).

## Model

| member | source | states |
|---|---|---|
| LinearCongruential.NoFixedPoint | include/cetty/util/Random.h:415-425 | no update leaves the seed unchanged, so the retry loop of `next` runs once |
| LinearCongruential.FullPeriod | include/cetty/util/Random.h:417 | from every seed every 48-bit seed is visited exactly once in 2^48 updates, which end where they began |
| LinearCongruential.ReturnsExactlyAfterPeriods | include/cetty/util/Random.h:417 | a seed recurs after exactly the multiples of 2^48 updates |
| LinearCongruential.LowBitsPeriod | include/cetty/util/Random.h:215-220 | the low k bits recur after exactly the multiples of 2^k updates: the short periods the documentation warns of |
| LinearCongruential.RawLeaps | include/cetty/util/Random.h:417 | q * 2^k updates move the seed by q * 2^k modulo 2^(k+1) |
| LinearCongruential.RawReaches | include/cetty/util/Random.h:417 | any pattern of the low k bits is reached in fewer than 2^k updates |
| LinearCongruential.StepIsInjective | include/cetty/util/Random.h:417 | two seeds never step to the same seed |
| LinearCongruential.StepBackwards | include/cetty/util/Random.h:417-433 | the step that leads to a seed is undone by subtracting 0xB and multiplying by 0xDFE05BCB1365, the inverse of the multiplier 0x5DEECE66D modulo 2^48 |
| LinearCongruential.ClosedForm | include/cetty/util/Random.h:417 | the seed after n updates in closed form, by the n-th power of the multiplier |
| Draws.WrappedTestRejects | include/cetty/util/Random.h:243-247 | the overflowing loop test repeats for exactly the draws at or above n * floor(2^31 / n) |
| Draws.OutputKeepsHighBits | include/cetty/util/Random.h:427 | the output of `next(bits)`, read as unsigned, and the bits it drops make up the seed |
| Draws.ResultOfPowerOfTwo | include/cetty/util/Random.h:238-240 | for a power of two the result is v exactly when 2^31 * v <= n * draw < 2^31 * (v + 1) |
| Draws.ResultOfOthers | include/cetty/util/Random.h:242-249 | otherwise exactly when the draw is at place v of a bucket of n draws that lies wholly below 2^31 |
| Draws.ScaledDraw | include/cetty/util/Random.h:238-240 | for a power of two the 64-bit product shifted by 31 is the quotient of the draw by 2^31 / n |
| Draws.PowerOfTwoGivesHighBits | include/cetty/util/Random.h:212-220 | `nextInt(2^j)` returns the j high-order bits of the seed |
| Draws.EveryOutputEquallyOften | include/cetty/util/Random.h:391-396 | over one period each `bits`-bit value of `next(bits)` occurs exactly 2^(48-bits) times |
| Draws.EveryResultEquallyOften | include/cetty/util/Random.h:180-182 | over one period each of the n results of `nextInt(n)` has exactly 2^17 * floor(2^31 / n) accepted draws |
| RepeatedCalls.CallsAreEven | include/cetty/util/Random.h:180-182 | from every seed, n * 2^17 * floor(2^31 / n) successive calls of `nextInt(n)` return each of the n results exactly 2^17 * floor(2^31 / n) times |
| RepeatedCalls.CallsFitPeriod | include/cetty/util/Random.h:243-247 | these calls together update the seed at most 2^48 times, rejected draws included |
| RepeatedCalls.CallsCountPeriod | include/cetty/util/Random.h:231-250 | as many calls return a result as one period has accepted draws for it |
| Bits.AndNegationFindsPowersOfTwo | include/cetty/util/Random.h:238 | `(n & -n) == n` holds for exactly the powers of two |
| Bits.AndBit | include/cetty/util/Random.h:238 | `&` sets the bits that both operands have |
| Bits.XorBit | include/cetty/util/Random.h:118 | `^` sets the bits that exactly one operand has |
| RandomGenerator.ScrambleFlips | include/cetty/util/Random.h:118 | scrambling flips the bits of 0x5DEECE66D in every argument |
| RandomGenerator.ScrambledCollides | include/cetty/util/Random.h:115-121 | two arguments of `setSeed` give the same state exactly when their low 48 bits agree |
| RandomGenerator.ScrambledTwice | include/cetty/util/Random.h:118 | scrambling is its own inverse on 48 bits, so every state can be set |
| RandomGenerator.MaskUndoesOverflow | include/cetty/util/Random.h:417 | 64-bit overflow of the product does not show after the 48-bit mask |
| RandomGenerator.SomeDrawIsKept | include/cetty/util/Random.h:243-247 | for every seed and bound a draw of the coming period is accepted |
| RandomGenerator.PowerOfTwoKeepsFirst | include/cetty/util/Random.h:238-240 | a power of two needs one draw |
| RandomGenerator.Random.constructor | include/cetty/util/Random.h:91-94 | the state is the scrambled seed |
| RandomGenerator.Random.SetSeed | include/cetty/util/Random.h:115-121 | the seed is the argument with the bits of 0x5DEECE66D flipped, cut to 48 bits |
| RandomGenerator.Random.Next | include/cetty/util/Random.h:412-428 | the seed becomes (seed * 0x5DEECE66D + 0xB) mod 2^48, its top bits are returned as an `int`; the loop ends |
| RandomGenerator.Random.NextInt | include/cetty/util/Random.h:231-250 | a value in [0, n), the result of the first accepted draw, within one period for every seed; non-positive bounds throw and draw nothing |
| RandomGenerator.Random.NextDoubleNumerator | include/cetty/util/Random.h:382-384 | the numerator is below 2^53 and holds 26 and 27 bits of two draws |
| EchoSession.RestartFindsNothingOutstanding | benchmark/asio/server.cpp:77-91 | the blocks are swapped only when no read and no write is outstanding |
| EchoSession.ApplyKeepsSeparated | benchmark/asio/server.cpp:69-126 | at most one read and one write, on different blocks; the unsent count stays in 0..2 |
| EchoSession.ApplyKeepsInv | benchmark/asio/server.cpp:69-126 | every event, also a failure, keeps separation and echo order |
| EchoSession.ApplyKeepsClean | benchmark/asio/server.cpp:69-126 | without failures reading stops only while a chunk is pending and writing only when nothing is |
| EchoSession.DeadSessionWindsDown | benchmark/asio/server.cpp:69-126 | after a reported failure every event brings the session nearer to its end |
| EchoSession.FailureChangesNothing | benchmark/asio/server.cpp:69-126 | a reported failure ends its operation and changes nothing else of the session |
| EchoServer.EchoSafety | benchmark/asio/server.cpp:48-126 | in every run of an accepted session, with any failures: written is a prefix of received, one read and one write at most, `op_count_` counts them, `destroy` posted once exactly when there are none |
| EchoServer.StartWaitsOrDestroys | benchmark/asio/server.cpp:48-67 | after `start` one read waits; when the option failed nothing can ever happen and `destroy` is posted once |
| EchoServer.CleanRunEchoesAll | benchmark/asio/server.cpp:69-126 | without failures written, being written and pending make up everything received |
| EchoServer.CountFollows | benchmark/asio/server.cpp:71-125 | `op_count_` and the posting of `destroy` follow the outstanding operations through each handler |
| EchoServer.RunKeepsInv | benchmark/asio/server.cpp:48-131 | the lifetime and echo invariant holds after every run |
| EchoServer.DestroyedIsFinal | benchmark/asio/server.cpp:124-131 | once `destroy` is posted nothing of the session can happen any more |
| EchoServer.FailedSessionEnds | benchmark/asio/server.cpp:69-131 | after a reported failure runs are bounded, and a session with nothing left has been destroyed exactly once |
| EchoServer.ServerSession.constructor | benchmark/asio/server.cpp:24-35 | the initial state, with two different blocks |
| EchoServer.ServerSession.Start | benchmark/asio/server.cpp:48-67 | one read is started, or `destroy` posted when the option fails |
| EchoServer.ServerSession.HandleRead | benchmark/asio/server.cpp:69-97 | the whole new state of the session and of the io_service |
| EchoServer.ServerSession.HandleWrite | benchmark/asio/server.cpp:99-126 | the whole new state of the session and of the io_service |
| EchoServer.ServerSession.Restart | benchmark/asio/server.cpp:80-91 | the blocks are swapped, a write of the new chunk and a read are started |
| EchoClient.ConnectEstablishesInv | benchmark/asio/client.cpp:71-142 | a connected client echoes after its own block |
| EchoClient.FailedConnectStartsNothing | benchmark/asio/client.cpp:109-142 | when connecting or setting the option fails, nothing is started |
| EchoClient.FailureChangesNothing | benchmark/asio/client.cpp:144-195 | a reported failure, or a write of no bytes, ends its operation and changes nothing else |
| EchoClient.ApplyKeepsInv | benchmark/asio/client.cpp:144-195 | every event keeps the echo order and the byte counts |
| EchoClient.CountsFollow | benchmark/asio/client.cpp:144-195 | `bytes_read_` and `bytes_written_` grow by what really moved, also when operations fail |
| EchoClient.ClientSession.constructor | benchmark/asio/client.cpp:71-85 | the write block holds i mod 128 at i |
| EchoClient.ClientSession.HandleConnect | benchmark/asio/client.cpp:109-142 | the whole block is sent and a read started, unless connecting or the option failed |
| EchoClient.ClientSession.HandleRead | benchmark/asio/client.cpp:144-169 | the whole new state of the session and of the io_service |
| EchoClient.ClientSession.HandleWrite | benchmark/asio/client.cpp:171-195 | the same, with no effect for zero bytes or an error |
| EchoRing.PatternCirculates | benchmark/asio/client.cpp:83-84 | in every run, with any failures, the k-th byte sent or received on either side is (k mod b) mod 128 |
| EchoRing.RunKeepsInv | benchmark/asio/client.cpp:109-195 | each side has received what the other wrote up to what is on the way |
| EchoRing.BytesAreConserved | benchmark/asio/client.cpp:144-195 | without failures exactly b bytes are in blocks and channels |
| EchoRing.SomeMoveIsPossible | benchmark/asio/server.cpp:69-126 | no deadlock when a channel holds at least one byte and the two together all but three bytes of the block |
| EchoRing.CleanRunGoesOn | benchmark/asio/server.cpp:69-126 | every run without failures can go on if and only if the channels have that much room |
| EchoRing.CleanRunConserves | benchmark/asio/client.cpp:144-195 | after every run without failures exactly b bytes are in blocks and channels |
| EchoRing.DeadlockIsReached | benchmark/asio/client.cpp:144-195 | with less room a run of one-byte chunks ends where nothing but a failure can happen |
| EchoRing.MovePays | benchmark/asio/client.cpp:144-195 | each move is paid for by bytes sent |
| EchoRing.RunsSendBytes | benchmark/asio/client.cpp:144-195 | no livelock: n moves without failures have sent at least (n - 1) / 4 bytes |
| ByteArray.Copy | src/cetty/buffer/Array.cpp:26-48 | range before pointer checks, then the exact bytes, for every overlap of two ranges of one Array; a throw changes nothing |
| Codec.RoundTrip | src/cetty/buffer/BigEndianHeapChannelBuffer.cpp:37-92 | a value written in w bytes reads back truncated and sign-extended, unchanged if it fits |
| Codec.EncodeAt | src/cetty/buffer/BigEndianHeapChannelBuffer.cpp:65-92 | byte k of w is the number shifted right by 8 (w - 1 - k) bits and masked |
| Codec.TruncatedFits | src/cetty/buffer/BigEndianHeapChannelBuffer.cpp:37-63 | the value read back is the one in the signed range of w bytes that is congruent modulo 2^(8w) |
| Codec.EncodeOfDecode | src/cetty/buffer/BigEndianHeapChannelBuffer.cpp:37-92 | every byte run is the encoding of the number it spells |
| Codec.EncodeLong | src/cetty/buffer/BigEndianHeapChannelBuffer.cpp:83-92 | the eight shifted bytes are the big-endian encoding |
| Codec.DecodeLong | src/cetty/buffer/BigEndianHeapChannelBuffer.cpp:54-63 | the eight shifted and joined bytes spell the big-endian number |
| Bytes.StoredAt | include/cetty/buffer/Array.h:51-54 | storing a run changes the bytes of the run and no other |
| Bytes.SplicedAt | src/cetty/buffer/Array.cpp:42-47 | a copy changes the bytes of its range and no other |
| BufferModel.DoubledIsLeast | src/cetty/buffer/DynamicChannelBuffer.cpp:62-72 | doubling stops at the least power-of-two multiple that suffices |
| BufferModel.GrownIsLeast | src/cetty/buffer/DynamicChannelBuffer.cpp:62-72 | the new capacity is the least doubling of the capacity, or of 1, that suffices |
| ChannelBuffers.GrowCapacity | src/cetty/buffer/DynamicChannelBuffer.cpp:62-72 | the doubling loop ends with that capacity without leaving an `int` |
| BufferModel.EnsuredKeeps | src/cetty/buffer/DynamicChannelBuffer.cpp:57-77 | making room keeps the bytes below the writer index, both indexes and both marks, and reallocates only for want of room |
| BufferModel.WrittenKeeps | src/cetty/buffer/DynamicChannelBuffer.cpp:57-77 | a write appends its bytes and keeps everything else |
| BufferModel.GrowthFitsInt | src/cetty/buffer/DynamicChannelBuffer.cpp:69-72 | the new capacity fits an `int` exactly when some sufficient doubling does; demands up to 2^30 are safe |
| BufferModel.GrowthCanOverflow | src/cetty/buffer/DynamicChannelBuffer.cpp:69-72 | a demand of 2^30 + 1 on one byte of capacity is not |
| BufferModel.DiscardMovesMarks | src/cetty/buffer/AbstractChannelBuffer.cpp:111-125 | a reader mark among the readable bytes follows its byte exactly when nothing was read or a byte is left |
| BufferModel.DiscardMovesWriterMark | src/cetty/buffer/AbstractChannelBuffer.cpp:111-125 | the same for the writer mark |
| BufferModel.DiscardKeepsMarksInRange | src/cetty/buffer/AbstractChannelBuffer.cpp:111-125 | a mark before the readable bytes ends at 0 when some are left; otherwise the marks stay |
| BufferModel.TakingAllReclaims | src/cetty/buffer/AbstractChannelBuffer.cpp:343-358 | reading the last byte into a new buffer makes the whole capacity writable again; reading fewer only moves the reader index |
| BufferModel.DiscardReclaims | include/cetty/buffer/ChannelBuffer.h:462-470 | discarding keeps the readable bytes, moved to 0, and makes exactly the read ones writable |
| BufferModel.RunRefinesQueue | src/cetty/buffer/AbstractChannelBuffer.cpp:75-131 | after any run of writes, reads, skips, clears, discards and growth the readable bytes are those of a plain queue and the indexes are in order |
| BufferModel.RunFits | src/cetty/buffer/DynamicChannelBuffer.cpp:57-77 | a run whose peak demand is at most 2^30 never grows the capacity beyond an `int` |
| BufferRuns.PerformAll | include/cetty/buffer/DynamicChannelBuffer.h:153-196 | any calls in a row on a dynamic buffer with such a demand give the plain queue, and have copied at most what the capacity gained |
| BufferModel.GrowthIsAmortised | src/cetty/buffer/DynamicChannelBuffer.cpp:62-76 | over any run reallocation copies at most what the capacity gained, and a grown capacity is below twice the peak demand |
| BufferModel.CopyingIsLinear | src/cetty/buffer/DynamicChannelBuffer.cpp:62-76 | copying in total is below twice the peak demand |
| BufferModel.TypedRoundTrip | src/cetty/buffer/AbstractChannelBuffer.cpp:268-321 | the encodings of any list of values, one after the other, decode to the truncated values |
| TypedAccess.WriteThenRead | include/cetty/buffer/DynamicChannelBuffer.h:153-176 | any list of typed writes to a dynamic buffer of any capacity is read back in order, truncated and sign-extended, across growth |
| TypedAccess.WriteAll | include/cetty/buffer/DynamicChannelBuffer.h:153-176 | typed writes append their encodings |
| TypedAccess.ReadAll | src/cetty/buffer/AbstractChannelBuffer.cpp:268-321 | typed reads decode in order |
| ChannelBuffers.NewBuffer | src/cetty/buffer/HeapChannelBuffer.cpp:32-44 | an empty buffer of the given capacity, or the exception for a negative one |
| ChannelBuffers.ChannelBuffer.SetReaderIndex | src/cetty/buffer/AbstractChannelBuffer.cpp:33-38 | range check, then the index |
| ChannelBuffers.ChannelBuffer.SetWriterIndex | src/cetty/buffer/AbstractChannelBuffer.cpp:52-57 | range check, then the index |
| ChannelBuffers.ChannelBuffer.Clear | src/cetty/buffer/AbstractChannelBuffer.cpp:75-77 | both indexes 0, marks and bytes kept |
| ChannelBuffers.ChannelBuffer.MarkReaderIndex | src/cetty/buffer/AbstractChannelBuffer.cpp:95-97 | only the mark changes |
| ChannelBuffers.ChannelBuffer.MarkWriterIndex | src/cetty/buffer/AbstractChannelBuffer.cpp:103-105 | only the mark changes |
| ChannelBuffers.ChannelBuffer.ResetReaderIndex | src/cetty/buffer/AbstractChannelBuffer.cpp:99-101 | back to the mark, or throws when it is out of range |
| ChannelBuffers.ChannelBuffer.ResetWriterIndex | src/cetty/buffer/AbstractChannelBuffer.cpp:107-109 | unchecked: the indexes stay in order exactly when the reader index is not beyond the mark |
| ChannelBuffers.ChannelBuffer.SkipBytes | src/cetty/buffer/AbstractChannelBuffer.cpp:429-435 | throws for too many; the indexes stay in order exactly when the reader index does not become negative |
| ChannelBuffers.ChannelBuffer.DiscardReadBytes | src/cetty/buffer/AbstractChannelBuffer.cpp:111-125 | readable bytes and marks move to the front for every overlap, and the bytes above stay |
| ChannelBuffers.ChannelBuffer.EnsureWritableBytes | src/cetty/buffer/DynamicChannelBuffer.cpp:57-77 | grows to the least doubling, keeps every byte below the writer index and both indexes; a fixed buffer throws |
| ChannelBuffers.ChannelBuffer.SetShort | src/cetty/buffer/BigEndianHeapChannelBuffer.cpp:65-68 | stores the encoding, as far as it is in range when it throws |
| ChannelBuffers.ChannelBuffer.SetMedium | src/cetty/buffer/BigEndianHeapChannelBuffer.cpp:70-74 | the same for three bytes |
| ChannelBuffers.ChannelBuffer.SetInt | src/cetty/buffer/BigEndianHeapChannelBuffer.cpp:76-81 | the same for four bytes |
| ChannelBuffers.ChannelBuffer.SetLong | src/cetty/buffer/BigEndianHeapChannelBuffer.cpp:83-92 | the same for eight bytes |
| ChannelBuffers.ChannelBuffer.SetByte | src/cetty/buffer/HeapChannelBuffer.cpp:113-115 | stores the low byte or throws |
| ChannelBuffers.ChannelBuffer.GetByte | src/cetty/buffer/HeapChannelBuffer.cpp:90-92 | the byte as a signed number, or throws |
| ChannelBuffers.ChannelBuffer.GetShort | src/cetty/buffer/BigEndianHeapChannelBuffer.cpp:37-39 | the signed number the bytes spell, or throws |
| ChannelBuffers.ChannelBuffer.GetUnsignedMedium | src/cetty/buffer/BigEndianHeapChannelBuffer.cpp:41-45 | the unsigned number the bytes spell, or throws |
| ChannelBuffers.ChannelBuffer.GetMedium | src/cetty/buffer/AbstractChannelBuffer.cpp:141-147 | its sign extension |
| ChannelBuffers.ChannelBuffer.GetInt | src/cetty/buffer/BigEndianHeapChannelBuffer.cpp:47-52 | the signed number the bytes spell, or throws |
| ChannelBuffers.ChannelBuffer.GetLong | src/cetty/buffer/BigEndianHeapChannelBuffer.cpp:54-63 | the signed number the bytes spell, or throws |
| ChannelBuffers.ChannelBuffer.ReadByte | src/cetty/buffer/AbstractChannelBuffer.cpp:268-273 | takes one byte off the front, or throws and takes none |
| ChannelBuffers.ChannelBuffer.ReadShort | src/cetty/buffer/AbstractChannelBuffer.cpp:279-284 | takes a signed short off the front, or throws and takes none |
| ChannelBuffers.ChannelBuffer.ReadUnsignedMedium | src/cetty/buffer/AbstractChannelBuffer.cpp:298-303 | takes an unsigned medium off the front, or throws and takes none |
| ChannelBuffers.ChannelBuffer.ReadMedium | src/cetty/buffer/AbstractChannelBuffer.cpp:290-296 | takes a signed medium off the front, or throws and takes none |
| ChannelBuffers.ChannelBuffer.ReadInt | src/cetty/buffer/AbstractChannelBuffer.cpp:305-310 | takes an int off the front, or throws and takes none |
| ChannelBuffers.ChannelBuffer.ReadLong | src/cetty/buffer/AbstractChannelBuffer.cpp:316-321 | takes a long off the front, or throws and takes none |
| ChannelBuffers.ChannelBuffer.WriteByte | include/cetty/buffer/DynamicChannelBuffer.h:153-156 | appends one byte after growing; on a full fixed buffer throws with the writer index out of range |
| ChannelBuffers.ChannelBuffer.WriteShort | include/cetty/buffer/DynamicChannelBuffer.h:158-161 | appends the encoding after growing; a fixed buffer without room throws and keeps its contents |
| ChannelBuffers.ChannelBuffer.WriteMedium | include/cetty/buffer/DynamicChannelBuffer.h:163-166 | the same for three bytes |
| ChannelBuffers.ChannelBuffer.WriteInt | include/cetty/buffer/DynamicChannelBuffer.h:168-171 | the same for four bytes |
| ChannelBuffers.ChannelBuffer.WriteLong | include/cetty/buffer/DynamicChannelBuffer.h:173-176 | the same for eight bytes |
| ChannelBuffers.ChannelBuffer.ReadBytes | src/cetty/buffer/AbstractChannelBuffer.cpp:360-366 | moves bytes from the front into an array, also the buffer's own, or throws and moves none |
| ChannelBuffers.ChannelBuffer.ReadBuffer | src/cetty/buffer/AbstractChannelBuffer.cpp:343-358 | moves bytes from the front into a new buffer; reading the last one clears the indexes |
| ChannelBuffers.ChannelBuffer.WriteBytes | include/cetty/buffer/DynamicChannelBuffer.h:178-181 | appends a range of an array, also the buffer's own, after growing, or throws without writing |
| ChannelBuffers.ChannelBuffer.SetZero | src/cetty/buffer/AbstractChannelBuffer.cpp:232-266 | the strides equal storing zero bytes one by one, also when they run out of range |
| ChannelBuffers.ChannelBuffer.WriteZero | include/cetty/buffer/DynamicChannelBuffer.h:193-196 | appends zero bytes after at most one growth; a fixed buffer without the room is zeroed to its end, with the writer index before the stride that threw |
| ChannelBuffers.ChannelBuffer.WriteZeroInPlace | src/cetty/buffer/AbstractChannelBuffer.cpp:516-545 | the strides append exactly the zero bytes and never grow; without the room, the same exact end state |
| ChannelBuffers.ZerosCountedByStrides | src/cetty/buffer/AbstractChannelBuffer.cpp:529-544 | where a fixed buffer stops is where stores of 8, then 4, then 1 bytes in a row stop |
| BufferEdgeCases.ResetWriterIndexBeforeReader | src/cetty/buffer/AbstractChannelBuffer.cpp:107-109 | a use after which the writer index is below the reader index |
| BufferEdgeCases.MarkLeftBehind | src/cetty/buffer/AbstractChannelBuffer.cpp:111-117 | a use after which the reader index cannot be reset to its mark |
| BufferEdgeCases.SkipBackwards | src/cetty/buffer/AbstractChannelBuffer.cpp:429-435 | a use after which the reader index is -1 |
| BufferEdgeCases.WriteByteBeyondCapacity | src/cetty/buffer/AbstractChannelBuffer.cpp:437-439 | a use after which the writer index is beyond the capacity |
| ChannelRegistry.AllIdsTaken | include/cetty/channel/AbstractChannel.h:292-306 | pigeonhole: if every probed id is taken, 2^32 channels are registered |
| ChannelRegistry.SomeIdIsFree | include/cetty/channel/AbstractChannel.h:292-306 | with fewer registered, probing from any hash finds a first free id |
| ChannelRegistry.RunKeepsRegistry | include/cetty/channel/AbstractChannel.h:185-192 | after any run of opens and closes the registry holds exactly the open channels, each under its own unique id |
| ChannelRegistry.CloseKeepsOthers | include/cetty/channel/AbstractChannel.h:232-250 | closing a channel keeps all others registered exactly when its id is free or registered to itself |
| ChannelRegistry.RegisteredUnlessErased | include/cetty/channel/AbstractChannel.h:185-250 | after any run, channels with given ids included, an open channel is registered exactly when it allocated its id and no other open channel with the same id was closed since |
| ChannelRegistry.GivenIdCanUnregister | include/cetty/channel/AbstractChannel.h:208-215 | opening, constructing with the same id and closing loses the registration of an open channel |
| ChannelRegistry.Registry.AllocateId | include/cetty/channel/AbstractChannel.h:292-306 | terminates with the first id that is free, counting up from the hash and wrapping around like an `int`, and registers the channel under it |
| ChannelRegistry.Registry.NewChannel | include/cetty/channel/AbstractChannel.h:185-192 | the whole new state of registry and channels |
| ChannelRegistry.Registry.NewChannelWithId | include/cetty/channel/AbstractChannel.h:208-215 | an open channel that is not registered |
| ChannelRegistry.Registry.SetClosed | include/cetty/channel/AbstractChannel.h:225-260 | only the first call closes, and erases whatever is registered under the channel's id |
| IoServicePools.CallsToCount | benchmark/asio/io_service_pool.cpp:57-65 | the exact number of calls that returned each service |
| IoServicePools.LoadsDifferByOne | benchmark/asio/io_service_pool.cpp:57-65 | no service is used more than once more often than another |
| IoServicePools.WindowServesEachOnce | benchmark/asio/io_service_pool.cpp:57-65 | any n calls in a row return each service once |
| IoServicePools.CreatePool | benchmark/asio/io_service_pool.cpp:17-32 | an empty pool is refused |
| IoServicePools.IoServicePool.GetIoService | benchmark/asio/io_service_pool.cpp:57-65 | the i-th call returns service i mod n |

## Left out

- ChannelBuffers.ChannelBuffer.EnsureWritableBytes: requires that the doubled capacity fits an `int`, because overflowing it is undefined in C++; `GrowthFitsInt` says when that holds.
- ByteArray.Copy: two Arrays over overlapping memory with different base pointers, as `readSlice(Array&)` can hand out, reach `memcpy`, whose result is then undefined; arrays of the model share all of their memory or none. Index sums are exact integers; that `srcIndex + length` may overflow an `int`, which is undefined in C++, is not modelled.
- ChannelBuffers.ChannelBuffer.SkipBytes: that `readerIdx + length` may overflow an `int`, which is undefined in C++, is not modelled.
- ChannelBuffers.ChannelBuffer.WriteBytes: the buffer's own array is no source when the buffer has to grow, because growing deletes it first.
- ChannelBuffers.ChannelBuffer.ReadBuffer: for 0 bytes the code returns one shared empty buffer; the model returns a new one.
- EchoRing.PatternCirculates: both block sizes are positive, since k mod 0 has no meaning; the sessions by themselves are modelled for size 0, where asio completes a read of no bytes at once.
- EchoRing.CleanRunGoesOn: says what is possible in the next move; which of the possible moves the io_service makes is open.
- ChannelRegistry.Registry.AllocateId: requires fewer than 2^32 registered channels, because with all ids taken the code never returns.
- Sockets, strands, threads, timers, name resolution, accepting and the retry over further endpoints: only completions and byte channels are modelled. Handlers of one session run one at a time.
- `nextBytes`, `nextLong`, `nextBool`, `nextFloat`, the time-based constructor of `Random` and the rounding of `nextDouble`.
- Little-endian, composite, sliced, truncated, duplicated and read-only buffers, `slice`, `readSlice` and `copy`, which share or copy memory; float, double, string and stream accessors.
- Unsigned variants of the typed reads, which mask the signed ones; reads and writes between two channel buffers, which reduce to the array forms.
- The pipeline, sink and listeners of channels other than the id deallocator; destructors.
- The handler allocator of the benchmark, which would add only easy members.
