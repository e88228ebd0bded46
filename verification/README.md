# Verified model of the OpTiMSoC host transport stack

This project models, in Dafny, the software that moves bytes and packets between a host computer
and an OpTiMSoC system on an FPGA, and proves what that software promises. `dafny verify
dfyconfig.toml` verifies everything.

| part | files | source |
|---|---|---|
| ring buffer, its two-thread use, blocking helpers | `Bits`, `Ring`, `Cbuf`, `CbufThreads`, `CbufUtil` | `external/glip/src/cbuf.c`, `util.c` |
| UART backend: byte stuffing, parser, credit protocol | `UartCodec`, `UartState`, `UartHost`, `UartLink`, `UartRound` | `external/glip/src/backend_uart/sw/backend_uart.c` |
| TCP backend | `Tcp` | `external/glip/src/backend_tcp/sw/backend_tcp.c` |
| JTAG backend | `JtagWords`, `Jtag` | `external/glip/src/backend_jtag/sw/backend_jtag.c` |
| memory access through the Memory Access Module (MAM) | `MamTransfer`, `Mam`, `MamHost` | `external/opensocdebug/software/src/libosd/cl_mam.c` |
| Debug NoC receiver, framing, register read | `DbgNocStream`, `DbgNocReceiver`, `DbgNocSender`, `DbgNocRun`, `RegisterRead` | `src/host/liboptimsochost/src/backend_dbgnoc.c` |
| routing tables of the mesh generator | `Mesh` | `external/lisnoc/tools/mesh_generate/mesh_generate.py` |
| binary to VMEM converter | `Vmem`, `Bin2Vmem` | `tools/utils/bin2vmem.c` |

The models have the form of the source. The ring buffer, the UART host, the Debug NoC receiver, the
JTAG poller, the TCP backend, the MAM functions and the VMEM printer are classes and methods over
arrays and fields, with the loops of the C code; their contracts tie the new state to pure
functions, about which the lemmas are. Where threads or two machines interleave, the model is a
state machine over single accesses to shared state, and the theorems are about all its runs:
`CbufThreads` (one reader and one writer), `UartLink` (host, target and both wires) and
`RegisterRead` (receiver and reader of a register). Sockets, the serial line, the JTAG scan chain,
the host module and the application threads on the far side of a buffer are small classes whose
behaviour follows arbitrary scripts: short transfers, failures, and turns of the application in every
look at a level and between any two calls on a buffer. What a thread does in any number of rounds is
told by a log of situations: the first one is that of the call, each determines what the round does
and leads to the next, and the last one to the state in the end.

## What the proofs found

* **A level can be misread as zero.** `cbuf_fill_level` reads the writer's pointer twice without a
  lock. If the writer fills the buffer to the brim between the two reads, the reader computes a fill
  level of 0. This is the only misreading, it happens exactly then
  (`CbufThreads.ReaderRefusedWronglyIff`, with a run in `ReaderRefusedWronglyExample`), and it always
  errs to the safe side, so FIFO order is never lost. The writing side is never refused wrongly. The
  description of the buffer calls both sides properly synchronized. Each caller has an exact
  condition on the turns of the other thread, and a run that meets it: `gb_util_cbuf_read` fails or
  returns nothing, and `gb_util_cbuf_read_b` returns 0 or a timeout with no bytes read, although the
  bytes are there (`CbufUtil.ReadMissesExample`, `CbufUtil.ReadBMissesExample`); the assertions of
  `tcp_write` fail, the second one after the bytes have been sent (`Tcp.WriteFailsExample`); the
  assertion of the UART thread about `cbuf_read` fails (`UartLink.EverySessionIsSafe`,
  `UartLink.AbortExample`); the JTAG poller, which ignores the result of `cbuf_discard`, sends bytes
  again that the target has already accepted (`Jtag.Poller.PollThread`). Nothing is lost
  (`Jtag.EveryByteArrives`), and two transfers in a row are never refused (`Jtag.RefusalsAreApart`),
  but the target may accept one and the same byte once more often than there are words in a transfer,
  and never more often than that (`Jtag.ResentAtMost`, `Jtag.ResendExample`). When a blocking read of
  the Debug NoC thread returns 0 without a byte, the thread takes stale words for a block and hands
  packets on again (`DbgNocReceivers.Receiver.ReceiveNothing`, `DbgNocRuns.EmptyReadExample`).
* **Stale credit.** `reset` of the UART backend clears the debt but not the credit. Safety survives:
  the credit equation is then off by exactly the stale credit. But a target that has used up its
  credit is served again exactly when less than one tranche was stale
  (`UartLink.ExhaustedTargetIsServedIff`); otherwise its first tranche is all it gets in the session.
  A session can end with that much (`UartLink.StaleTrancheIsReachable`).
* **MAM alignment.** A write shorter than a word that crosses a word boundary is aborted, although
  the interface promises any byte range; and addresses are compared with the address width, so a
  second burst may be refused when that width does not divide 255 words. `Mam.Accepts` is the exact
  set of accepted ranges. A transfer of odd size would lose its last byte (`MamTransfer.PacketsCarry`).
* **Debug NoC.** A register read whose request cannot be sent leaves the flag set, and a time-out may
  clear it too late; a wait that a signal interrupts goes on without the packet.
  `RegisterRead.KeptIffHarmless` says exactly when the rendezvous survives. After a failed request or a
  late time-out the receiving thread finishes no further packet, apart from one it was already released
  from, until another register is read; after an interrupted wait a read may succeed with words of no
  packet (`RegisterRead.InterruptedReadExample`). `lisnoc32_send_packets` reports success
  when the transfer fails. A wrapped packet with an even number of flits repeats the control message
  of the packet before it (`DbgNocSenders.MalformedRepeatsControl`).
* **JTAG header.** Words wider than four bytes carry counts up to 255 only. For words of one byte the
  adjustment of the transfer length keeps counts in range if and only if the target buffer has less
  than 256 words; for two to four bytes the buffer sizes keep them in range, whatever the (undefined)
  shift yields.

Where comments in the source disagree with the code, the model follows the code: `cbuf_write` and
`cbuf_reserve` refuse with -EINVAL, not -ENOMEM, and the last single-word write of a range starts on
a word boundary, although the comment on `write_single` excludes that.

## Model

| member | source | states |
|---|---|---|
| Bits.MaskIsMod | external/glip/src/cbuf.c:167-170 | masking with one less than a power of two is reduction modulo that power, for every operand |
| Bits.XorFlipsTopBit | external/glip/src/cbuf.c:662-665 | XOR with the size moves a pointer by half of the pointer range |
| Bits.PowerOfTwoTest | external/glip/src/cbuf.c:220-221 | the test `n && !(n & (n - 1))` recognises exactly the powers of two |
| Ring.PointersAreModular | external/glip/src/cbuf.c:167-170 | pointers run modulo twice the size, and the level is their difference there |
| Ring.FillLevelIsDistance | external/glip/src/cbuf.c:679-691 | the masked computation of the fill level, with its full test and its correction of negative differences, is exactly the distance of the pointers |
| Ring.ReaderLevel | external/glip/src/cbuf.c:679-691 | if the write pointer moves between the two looks, the level seen is the real one, except that it is 0 if the buffer became full in between |
| Ring.WriterLevel | external/glip/src/cbuf.c:679-691 | if the read pointer moves between the two looks, the level seen is the real one, except that it is the size if the buffer was full at the first look |
| Ring.TemporaryCopyIsStore | external/glip/src/cbuf.c:460-476 | the two copies from the temporary buffer, the first of which may copy more than was committed, store exactly the block at the write position |
| Cbufs.Cbuf.constructor | external/glip/src/cbuf.c:218-253 | every power of two gives an empty valid buffer |
| Cbufs.Cbuf.FillLevel | external/glip/src/cbuf.c:679-691 | the level is the number of bytes in the queue |
| Cbufs.Cbuf.IsFull | external/glip/src/cbuf.c:662-665 | true exactly if the queue has as many bytes as the buffer |
| Cbufs.Cbuf.IsEmpty | external/glip/src/cbuf.c:648-651 | true exactly if the queue is empty |
| Cbufs.Cbuf.CalcBufsize | external/glip/src/cbuf.c:182-195 | the power of two above the request, or the maximum if that is smaller |
| Cbufs.Cbuf.Write | external/glip/src/cbuf.c:345-370 | appends all bytes to the queue, wrapped or not, or refuses and changes nothing; refuses exactly if they do not fit |
| Cbufs.Cbuf.Reserve | external/glip/src/cbuf.c:403-435 | hands out a block of at least the requested size, in the array or in a temporary buffer, and leaves the queue as it is; refuses exactly if there is no room |
| Cbufs.Cbuf.FillReserved | external/glip/src/cbuf.c:372-389 | a client that writes through the reserved pointer does not change the queue |
| Cbufs.Cbuf.Commit | external/glip/src/cbuf.c:454-484 | appends the first n bytes of the block for every n up to the reserved size, although more may be copied: no unread byte is touched |
| Cbufs.Cbuf.Read | external/glip/src/cbuf.c:505-536 | removes and returns exactly the oldest n bytes, or refuses; refuses exactly if there are fewer |
| Cbufs.Cbuf.Peek | external/glip/src/cbuf.c:563-609 | a pointer to the oldest n bytes, joined in a temporary buffer if they wrap; the queue stays as it is |
| Cbufs.Cbuf.PeekedBlockHoldsOldest | external/glip/src/cbuf.c:549-553 | a peeked block still holds the oldest bytes after the other side has appended |
| Cbufs.Cbuf.Discard | external/glip/src/cbuf.c:625-637 | drops exactly the oldest n bytes, or refuses |
| CbufThreads.WriterSees | external/glip/src/cbuf.c:702-705 | interrupted anywhere, the writing side never sees more than the real free space; when it sees less |
| CbufThreads.ReaderSees | external/glip/src/cbuf.c:679-691 | interrupted anywhere, the reading side never sees more than the real fill; when it sees less |
| CbufThreads.StepRefinesFifo | external/glip/src/cbuf.c:345-370 | every single step of either thread is, on the queue, nothing, an append of the committed block or the removal of the bytes handed out |
| CbufThreads.EveryInterleavingIsFifo | external/glip/src/cbuf.c:108-119 | in every interleaving the reader gets a prefix of what was written, in order, the rest is in the buffer, and no slot is filled and copied at the same time |
| CbufThreads.BlockIsWhatWasStored | external/glip/src/cbuf.c:353-367 | whatever the reader does in between, a block holds exactly what the writer has stored in it, and committing it appends its first bytes and nothing else |
| CbufThreads.ReaderGetsOldest | external/glip/src/cbuf.c:516-533 | whatever the writer does in between, every copy gets the next of the oldest bytes, and the reader can go on to the size asked for |
| CbufThreads.WriterNeverRefusedWrongly | external/glip/src/cbuf.c:347-351 | a request that fits when the writer starts looking is never refused, and the writer goes on to fill its block |
| CbufThreads.ReaderRefusedWronglyIff | external/glip/src/cbuf.c:511-514 | a request for bytes that are there is refused exactly if the writer filled the buffer to the brim between the two looks; otherwise the reader goes on to copy |
| CbufThreads.ReaderRefusedWronglyExample | external/glip/src/cbuf.c:679-691 | a run in which this happens |
| CbufUtil.LookAtFill | external/glip/src/cbuf.c:679-691 | the fill level with the application writing in between |
| CbufUtil.LookAtFree | external/glip/src/cbuf.c:702-705 | the free level with the application reading in between |
| CbufUtil.ContendedRead | external/glip/src/cbuf.c:505-536 | removes the oldest bytes, or fails, exactly if the application fills the buffer to the brim during the look |
| CbufUtil.CbufRead | external/glip/src/util.c:271-289 | returns the oldest bytes that are there, up to the size, whatever the other side adds; returns nothing exactly if there is nothing or the other side fills the buffer to the brim during the first look at the level, and fails exactly if it does so during the second |
| CbufUtil.CbufReadB | external/glip/src/util.c:310-368 | removes exactly the oldest bytes it returns; 0 means all of them, except exactly if the second look of the final read misses them; a timeout is reported exactly if a wait expired or the first look misses them; for every script of the other side and of the waits, the turns in which this happens, and how many bytes are returned |
| CbufUtil.WaitingMeans | external/glip/src/util.c:341-361 | the wait ends well only when the last look saw enough, with a timeout only if there was one, cancelled only if it was |
| CbufUtil.ReadMissesExample | external/glip/src/util.c:271-289 | the two runs in which a byte that is there is not read |
| CbufUtil.ReadBMissesExample | external/glip/src/util.c:351-368 | a run that returns 0 and one that returns a timeout, without a byte that was there from the start |
| CbufUtil.CbufWrite | external/glip/src/util.c:388-395 | appends a prefix of the data, exactly as much as the first look sees room for, at least as much as fitted at the call, and never fails |
| CbufUtil.CbufWriteB | external/glip/src/util.c:416-456 | across all retries the data is appended in order, once; result, number of bytes and level in the end are determined by the turns of the reader and the ends of the waits, and 0 is returned exactly if all was written |
| CbufUtil.WritingMeans | external/glip/src/util.c:424-449 | at least what is free at the call is written; a timeout or a cancellation is reported only if there was one; with the reader at rest a call stops short only with a full buffer |
| CbufUtil.ContendedPeek | external/glip/src/cbuf.c:569-572 | fails exactly if the application fills the buffer to the brim during the look |
| CbufUtil.ContendedDiscard | external/glip/src/cbuf.c:627-629 | drops the oldest bytes or, in that case only, nothing |
| CbufUtil.ContendedWrite | external/glip/src/cbuf.c:347-351 | with enough room once it succeeds, however the reader moves |
| UartCodec.DecodeEncodeAll | external/glip/src/backend_uart/sw/backend_uart.c:803-814 | data with doubled markers, credit and reset messages in any order decode to the messages sent, and the decoder is back at a boundary |
| UartCodec.WireBytes | external/glip/src/backend_uart/sw/backend_uart.c:647-658 | the bytes of every message: the marker twice for itself, a tranche in an odd byte and its lower byte, 0x83 and 0x81 for setting and releasing the logic reset |
| UartCodec.EncodingIsUnique | external/glip/src/backend_uart/sw/backend_uart.c:647-658 | two message lists with the same bytes on the wire are equal |
| UartCodec.TrancheRoundTripIff | external/glip/src/backend_uart/sw/backend_uart.c:946-949 | encoding and decoding a tranche gives it back if and only if it is at most 0x3fff |
| UartCodec.ParseOne | external/glip/src/backend_uart/sw/backend_uart.c:926-931 | the host recovers every data byte and every tranche of 15 bits |
| UartCodec.NextMessage | external/glip/src/backend_uart/sw/backend_uart.c:679-740 | what the bytes behind a message boundary mean, including messages that are cut off |
| UartCodec.ParseAppend | external/glip/src/backend_uart/sw/backend_uart.c:673-741 | parsing a stream in two pieces is parsing it at once |
| UartCodec.ParseIsChunkIndependent | external/glip/src/backend_uart/sw/backend_uart.c:673-741 | wherever the stream of a target is cut, its messages are recovered exactly |
| UartLink.StepKeeps | external/glip/src/backend_uart/sw/backend_uart.c:743-826 | every step of host, target, wires and applications keeps the credit and debt equations and the order of both data streams |
| UartLink.EverySessionIsSafe | external/glip/src/backend_uart/sw/backend_uart.c:673-826 | in every reachable state no assertion of the parser has failed, credit is covered by free space, nothing is lost, doubled or reordered in either direction, no more is sent than was granted, and the credit equation holds up to the stale credit; the assertion about `cbuf_read` has failed if and only if the application filled the output to the brim between the full test and the subtraction in it |
| UartLink.AbortExample | external/glip/src/backend_uart/sw/backend_uart.c:790-801 | for every output buffer of two bytes or more, a run from the opening of a session in which that assertion fails |
| UartLink.MeasuredIsFillLevel | external/glip/src/cbuf.c:679-691 | the two-step look of the link model computes what the masks of the ring buffer compute |
| UartLink.WordsAreCovered | external/glip/src/backend_uart/sw/backend_uart.c:685-688 | a data word that arrives is covered by credit and by free space |
| UartLink.NoCreditMeansControl | external/glip/src/backend_uart/sw/backend_uart.c:770-779 | without credit the next message is a credit message, as the main loop asserts when the buffer is full |
| UartLink.MarkerIsCompleted | external/glip/src/backend_uart/sw/backend_uart.c:710-718 | arithmetic of the credit at a marker without its second byte: with two words granted, credit is at the target or on its way to it exactly if the host's credit exceeds the stale credit by more than the word begun, so always in the first session |
| UartLink.ExhaustedTargetIsServedIff | external/glip/src/backend_uart/sw/backend_uart.c:990-995 | an exhausted target gets new credit if and only if less than one tranche of credit was left from the session before |
| UartLink.StaleCreditStarvesTarget | external/glip/src/backend_uart/sw/backend_uart.c:819-822 | otherwise it sends at most one tranche of words in the whole session, in every run |
| UartLink.StaleTrancheIsReachable | external/glip/src/backend_uart/sw/backend_uart.c:990-995 | the first session can end with a whole tranche of credit |
| UartLink.ReceivingIsParsing | external/glip/src/backend_uart/sw/backend_uart.c:673-741 | receiving any number of bytes one by one is parsing them as one chunk |
| UartHosts.UartHost.UpdateCredit | external/glip/src/backend_uart/sw/backend_uart.c:933-959 | announces and counts the same tranche, as large as possible with what the application has read by the end of the look, and keeps the credit within the free space; nothing if the buffer was full at its start |
| UartHosts.UartHost.ParseMessages | external/glip/src/backend_uart/sw/backend_uart.c:679-740 | the loop stores and counts exactly the complete messages of a chunk and stops where the last one is cut off; an assertion fails only if there are more words than credit |
| UartHosts.UartHost.FinishMarker | external/glip/src/backend_uart/sw/backend_uart.c:706-732 | a chunk that ends behind a marker: credit is announced, message by message as specified, until two words are covered, then the message is completed; it hangs exactly if there is never room or a byte never comes |
| UartStates.GrantMeans | external/glip/src/backend_uart/sw/backend_uart.c:710-718 | what is announced there is counted; the wait ends if and only if two words are granted, sends nothing if they were, and is endless only if the application rests and there is no room |
| UartHosts.UartHost.FinishCredit | external/glip/src/backend_uart/sw/backend_uart.c:696-702 | a chunk that ends inside a credit message: the tranche is completed from one more byte |
| UartHosts.UartHost.ParseBuffer | external/glip/src/backend_uart/sw/backend_uart.c:673-741 | with its top-up reads the parser always ends at a message boundary, with exactly the unescaped data stored and the tranches added; it fails exactly if the chunk has more words than credit |
| UartHosts.UartHost.ReadPhase | external/glip/src/backend_uart/sw/backend_uart.c:768-788 | with the application reading all the while, the state at its start determines how the reading half of the main loop ends, which bytes it consumes, which credit it announces, and the state it leaves, with a full buffer as well |
| UartStates.RestingRead | external/glip/src/backend_uart/sw/backend_uart.c:768-788 | with the application at rest the first read takes as much as is there, as there is room for, and as fits the temporary buffer; one byte if there is no room |
| UartHosts.UartHost.TakeBatch | external/glip/src/backend_uart/sw/backend_uart.c:791-801 | with the application writing all the while: the size of the batch, the bytes taken, and exactly when the assertion about `cbuf_read` fails |
| UartLink.BatchIsWritePhase | external/glip/src/backend_uart/sw/backend_uart.c:790-817 | the steps of the two looks and of a batch, with writes of the application in between, are a run that sends the encoded batch and pays for it, unless the assertion fails |
| UartRounds.WritePhaseIsRun | external/glip/src/backend_uart/sw/backend_uart.c:790-817 | whatever the application does, the batch of the class is the batch of the link, the assertion fails in the one if and only if it fails in the other, and otherwise the same bytes go out |
| UartLink.AnnouncingIsUpdateCredit | external/glip/src/backend_uart/sw/backend_uart.c:950-956 | announcing a tranche and counting it is a run that sends the message and adds the credit |
| UartRounds.UpdateOnLink | external/glip/src/backend_uart/sw/backend_uart.c:933-959 | the update of the credit is a run of the link that ends where the class ends, with the application reading during the look |
| UartHosts.UartHost.WritePhase | external/glip/src/backend_uart/sw/backend_uart.c:790-817 | sends the next bytes the application wrote, as many as debt, level and buffer allow, with the marker doubled, and pays for them; with the application writing all the while, exactly when the assertion about `cbuf_read` fails, and then nothing has happened |
| UartHosts.UartHost.Round | external/glip/src/backend_uart/sw/backend_uart.c:752-823 | with both applications at work, the start of a round determines how it ends, the messages it sends, the resets requested first, and the start of the next round; if the target kept to its credit, words, tranches, credit and debt are balanced |
| UartHosts.UartHost.ThreadFunc | external/glip/src/backend_uart/sw/backend_uart.c:743-826 | over any number of rounds, with both applications at work, the bytes sent decode, in one way only, to messages whose resets are exactly those requested in these rounds and whose words are the bytes the application wrote, in order; the bytes read are complete messages, stored and counted exactly; data words sent never exceed the debt received; the rounds lead from the state at the call to that in the end, and the last one decides how the thread ends |
| UartStates.OutResets | external/glip/src/backend_uart/sw/backend_uart.c:754-761 | a round with a reset request sends a set and a released logic reset ahead of everything else, and no other reset; without one it sends none |
| UartStates.ResetsAlternate | external/glip/src/backend_uart/sw/backend_uart.c:754-761 | over any number of rounds the logic reset is set and released in turn, once for every request |
| UartStates.RestingTopUp | external/glip/src/backend_uart/sw/backend_uart.c:819-822 | with credit below a tranche at the end of a round and the application at rest, exactly what there is room for is announced, up to a tranche; with more credit, nothing |
| UartStates.QuietThreadReads | external/glip/src/backend_uart/sw/backend_uart.c:790-801 | in no round does the assertion about `cbuf_read` fail, if the application does not write |
| UartRounds.ReadingIsCovered | external/glip/src/backend_uart/sw/backend_uart.c:768-788 | in every state of the protocol, however much is read at once, no assertion of the parser can fail, and with a full buffer a credit message comes next |
| UartRounds.FirstReadIsCovered | external/glip/src/backend_uart/sw/backend_uart.c:768-788 | the same for the first read of a round when the target goes on sending, whatever credit it gets meanwhile |
| UartRounds.ReadOnLink | external/glip/src/backend_uart/sw/backend_uart.c:768-788 | the reading half of a round is a run of the link that ends where the class ends: the bytes one by one, and the credit granted while a marker waits for its second byte |
| UartRounds.GrantsAreRun | external/glip/src/backend_uart/sw/backend_uart.c:710-718 | the credit messages sent behind a marker, with the application reading in between, are announced and counted one after the other |
| UartRounds.RoundOnLink | external/glip/src/backend_uart/sw/backend_uart.c:752-823 | with a target that obeys its credit, and goes on sending during the round, no assertion of the parser fails in a round, and the balance is unconditional; the rest is as for any round |
| MamTransfer.BigEndianRoundTrip | external/opensocdebug/software/src/libosd/cl_mam.c:138-141 | an address that fits its width survives serialisation |
| MamTransfer.BigEndianByte | external/opensocdebug/software/src/libosd/cl_mam.c:138-141 | the shifted and masked bytes are its big-endian digits |
| MamTransfer.PacketsCarry | external/opensocdebug/software/src/libosd/cl_mam.c:50-80 | the packets of a transfer carry all its bytes if and only if their number is even, otherwise all but the last |
| MamTransfer.SerializeRoundTrip | external/opensocdebug/software/src/libosd/cl_mam.c:127-146 | the module recovers the request from its bytes |
| MamTransfer.RequestLayout | external/opensocdebug/software/src/libosd/cl_mam.c:127-146 | the bytes of a request: flags, byte-select mask or burst size, the address with the most significant byte first, the data |
| MamTransfer.PrefixIncomplete | external/opensocdebug/software/src/libosd/cl_mam.c:166-182 | no proper prefix of a request looks complete |
| MamTransfer.ReceivePart | external/opensocdebug/software/src/libosd/cl_mam.c:157-185 | however a request is cut into packets, the module carries it out once, with its last packet |
| MamTransfer.MaskedWriteIsSplice | external/opensocdebug/software/src/libosd/cl_mam.c:256-280 | writing the aligned word with the byte-select mask changes exactly the bytes of the data |
| MamTransfer.SpliceReadsBack | external/opensocdebug/software/src/libosd/cl_mam.c:494-539 | the meaning of a write: reading the spliced range gives the data back, and nothing else has changed |
| Mam.PartsCoverRange | external/opensocdebug/software/src/libosd/cl_mam.c:241-254 | prolog, bulk and epilog make up the range, the bulk is whole aligned words, for every start address, with the 64-bit wrap-around of the source |
| Mam.AcceptsAllButCrossing | external/opensocdebug/software/src/libosd/cl_mam.c:256-264 | with addresses no wider than data words, exactly the ranges shorter than a word that cross a word boundary are refused |
| Mam.HostMod.CutIsComplete | external/opensocdebug/software/src/libosd/cl_mam.c:409-426 | the packets of an answer, however it is cut, hold exactly its bytes |
| MamHost.IntDivCeil | external/opensocdebug/software/src/libosd/osd-private.h:161-164 | division rounding up |
| MamHost.CreateMamTransfer | external/opensocdebug/software/src/libosd/cl_mam.c:104-152 | builds the serialised request; fails exactly if the address is not a multiple of the address width |
| MamHost.PkgInTransfer | external/opensocdebug/software/src/libosd/cl_mam.c:37-85 | the packet with a given number is the corresponding piece of the transfer |
| MamHost.PacketsAreNumbered | external/opensocdebug/software/src/libosd/cl_mam.c:90-99 | the numbered pieces are the packets of the transfer, and their number is as computed |
| MamHost.SendMamTransfer | external/opensocdebug/software/src/libosd/cl_mam.c:157-185 | a transfer that was sent has been carried out exactly once; one that was not sent completely has changed nothing; it fails exactly if one of its sends does |
| MamHost.MamWrite | external/opensocdebug/software/src/libosd/cl_mam.c:190-232 | one write request, carried out exactly once on success and at most once otherwise; it fails exactly if a send fails, or the receipt of an acknowledgement asked for |
| MamHost.ByteSelect | external/opensocdebug/software/src/libosd/cl_mam.c:263-271 | the mask built bit by bit has exactly the bits of the range |
| MamHost.WriteSingle | external/opensocdebug/software/src/libosd/cl_mam.c:298-318 | writes exactly the given bytes of one word; aborts exactly if they cross the word or the word is misaligned |
| MamHost.WriteBurst | external/opensocdebug/software/src/libosd/cl_mam.c:336-376 | in bursts of at most 255 words writes exactly the given words, only the last burst synchronous; after a failure a prefix of them |
| MamHost.OsdClMamWrite | external/opensocdebug/software/src/libosd/cl_mam.c:494-539 | success means memory changed to exactly the splice of the data, with exactly one synchronous request, the last; failure means a prefix was written; which calls of the link fail determines the result, and without failures the write succeeds exactly for accepted ranges and is aborted otherwise |
| MamHost.FateWithoutFaults | external/opensocdebug/software/src/libosd/cl_mam.c:494-539 | a list of requests over a link without failures succeeds if and only if every one of them is acceptable, and is aborted otherwise |
| MamHost.PlanFits | external/opensocdebug/software/src/libosd/cl_mam.c:241-254 | the requests a range is cut into are all acceptable if and only if the range is |
| Mam.CallsMean | external/opensocdebug/software/src/libosd/cl_mam.c:157-185 | a number of calls succeed if and only if none of the failures to come falls on one of them |
| MamHost.MamRead | external/opensocdebug/software/src/libosd/cl_mam.c:378-429 | however the answer is cut into packets, the buffer gets exactly the addressed bytes, or a prefix of them after a failure |
| MamHost.ReadSingle | external/opensocdebug/software/src/libosd/cl_mam.c:431-453 | reads the addressed bytes of one word |
| MamHost.ReadBurst | external/opensocdebug/software/src/libosd/cl_mam.c:455-492 | reads whole words in bursts of at most 255 |
| MamHost.OsdClMamRead | external/opensocdebug/software/src/libosd/cl_mam.c:541-582 | success means the buffer holds exactly the addressed bytes, failure a prefix of them; the memory is unchanged; which calls of the link fail determines the result, and without failures the read succeeds exactly for accepted ranges |
| MamHost.WriteThenRead | external/opensocdebug/software/src/libosd/cl_mam.c:494-582 | a write followed by a read of the same range leaves exactly the data written in the buffer, if both succeed; on a link without failures both do for every accepted range; after a successful write the read is not aborted |
| DbgNocStream.JoinSplit | src/host/liboptimsochost/src/backend_dbgnoc.c:754-758 | joining pairs of flits undoes splitting flits of the system NoC |
| DbgNocStream.ControlFields | src/host/liboptimsochost/src/backend_dbgnoc.c:765-771 | of a flit made of its fields, a control message has exactly source and message; flits of other classes are none |
| DbgNocStream.WrapperIsAddressed | src/host/liboptimsochost/src/backend_dbgnoc.c:1191-1192 | the header of a wrapped packet has the destination in its upper five bits, the wrapping class in the next three, and nothing below |
| DbgNocStream.ParseExtend | src/host/liboptimsochost/src/backend_dbgnoc.c:677-690 | more words do not change what earlier ones meant; parsing goes on where it stopped |
| DbgNocStream.PrefixMeansCompletePackets | src/host/liboptimsochost/src/backend_dbgnoc.c:674-840 | a prefix of a stream of packets and padding, cut at any word, means exactly the packets that lie in it completely, once each and in order |
| DbgNocReceivers.JoinInto | src/host/liboptimsochost/src/backend_dbgnoc.c:754-758 | the loop joins exactly the flits behind the header and leaves the rest of the buffer alone |
| DbgNocReceivers.Receiver.HandlePacket | src/host/liboptimsochost/src/backend_dbgnoc.c:732-836 | a complete packet is handed on as the specification says, or the thread gives up exactly on unsupported ones |
| DbgNocReceivers.Receiver.ReceiveBlock | src/host/liboptimsochost/src/backend_dbgnoc.c:644-841 | after every block the thread has handed on exactly what all words received so far mean; it keeps running if and only if no packet was unsupported and the unfinished one starts in the last block; the word read behind the buffer does not matter |
| DbgNocReceivers.Receiver.ReceiveNothing | src/host/liboptimsochost/src/backend_dbgnoc.c:644-667 | after a read that returns 0 without a byte the thread goes on as if zeros and the second half of the last block had come |
| DbgNocSenders.Lisnoc16SendPackets | src/host/liboptimsochost/src/backend_dbgnoc.c:1031-1108 | puts the framed packets on the wire, or as many words of them as a failing transfer gets out, and reports that failure |
| DbgNocSenders.Lisnoc32SendPackets | src/host/liboptimsochost/src/backend_dbgnoc.c:1118-1222 | reports success exactly if the address is known and no packet is too long; only then anything is sent: the wrapped packets, every one addressed to the module given; a failing transfer is not reported |
| DbgNocSenders.WrappedRoundTrip | src/host/liboptimsochost/src/backend_dbgnoc.c:1157-1207 | wrapping, framing, parsing and joining gives back the same system NoC packets in the same order, for every list of packets of 1 to 16 flits |
| DbgNocSenders.PlainRoundTrip | src/host/liboptimsochost/src/backend_dbgnoc.c:790-798 | framing and parsing gives back the same packets of all other classes, in order |
| DbgNocSenders.SupportedStreamKeepsRunning | src/host/liboptimsochost/src/backend_dbgnoc.c:680-688 | for every stream of supported packets, cut at any block, the thread keeps running and has handed on exactly the complete packets |
| DbgNocRuns.ReceiveBlocks | src/host/liboptimsochost/src/backend_dbgnoc.c:644-841 | after any number of blocks of a framed stream of supported packets the thread is running and has handed on exactly the packets that lie completely in them |
| DbgNocRuns.EmptyReadExample | src/host/liboptimsochost/src/backend_dbgnoc.c:644-667 | a run in which such a read makes a packet be handed on twice, wherever it lies in that half |
| DbgNocSenders.MalformedRepeatsControl | src/host/liboptimsochost/src/backend_dbgnoc.c:736-836 | a packet of the wrapping class with an even number of flits makes the control message of the wrapped packet before it be handed on again |
| RegisterRead.EveryReadIsSafe | src/host/liboptimsochost/src/backend_dbgnoc.c:886-979 | in every run of harmless steps the reader looks at the shared packet only while the receiver is blocked, both semaphores balance, and every result comes from one packet of the right class and length |
| RegisterRead.StepKeeps | src/host/liboptimsochost/src/backend_dbgnoc.c:831-835 | every harmless step of either thread keeps the order of flag, token and packet |
| RegisterRead.ReceiverIsReleased | src/host/liboptimsochost/src/backend_dbgnoc.c:965-973 | without failures and time-outs the receiver is kept waiting for at most twelve steps |
| RegisterRead.AnswerIsReturned | src/host/liboptimsochost/src/backend_dbgnoc.c:942-965 | once an answer of the right class and length is announced to a waiting read, every run without time-outs ends with exactly the words of that packet returned, once |
| RegisterRead.WorkGoesOn | src/host/liboptimsochost/src/backend_dbgnoc.c:942-965 | until then the read can always make a step |
| RegisterRead.KeptIffHarmless | src/host/liboptimsochost/src/backend_dbgnoc.c:922-940 | the rendezvous survives a step if and only if sending did not fail, the flag is not cleared after the receiver has seen it, and no wait is interrupted |
| RegisterRead.HarmBlocksReceiver | src/host/liboptimsochost/src/backend_dbgnoc.c:922-940 | after a failed request, or a time-out the receiver has overtaken, the receiver finishes no further packet, apart from one it was already released from, until another register read is started |
| RegisterRead.InterruptedReadExample | src/host/liboptimsochost/src/backend_dbgnoc.c:933-961 | a run in which an interrupted wait makes a register read succeed with a word that is in no packet |
| Mesh.IdIsUnique | external/lisnoc/tools/mesh_generate/mesh_generate.py:43-43 | the keys of the table are unique |
| Mesh.Generate | external/lisnoc/tools/mesh_generate/mesh_generate.py:25-43 | the loops give every node a table with the right port for every destination, and no table to anything else |
| Mesh.Delivery | external/lisnoc/tools/mesh_generate/mesh_generate.py:31-42 | following the tables, every packet is forwarded exactly as often as the nodes are apart, first along the one and then along the other dimension, never leaves the mesh, and is delivered at its destination and nowhere before |
| Mesh.NoDeadlock | external/lisnoc/tools/mesh_generate/mesh_generate.py:31-42 | whatever channels are in use, some packet can go on |
| Mesh.NoCycle | external/lisnoc/tools/mesh_generate/mesh_generate.py:31-42 | no chain of packets waiting for each other's channels returns to its start |
| JtagWords.WordRoundTripIff | external/glip/src/backend_jtag/sw/backend_jtag.c:931-958 | a count survives the header word if and only if it is below 256 to the width, or below 256 for widths above four |
| JtagWords.CountBytes | external/glip/src/backend_jtag/sw/backend_jtag.c:931-958 | where every byte of a count is: least significant first, or the lowest byte alone in words wider than four bytes |
| JtagWords.GrowBuf | external/glip/src/backend_jtag/sw/backend_jtag.c:879-885 | the buffer grows strictly, by at most 32 KiB |
| JtagWords.CountsFit | external/glip/src/backend_jtag/sw/backend_jtag.c:903-919 | with buffers of 64 KiB counts always fit words of two to four bytes |
| JtagWords.AdjustFitsByteIff | external/glip/src/backend_jtag/sw/backend_jtag.c:848-860 | for words of one byte the adjustment keeps counts in range if and only if the target buffer has less than 256 words |
| JtagWords.AdjustMeans | external/glip/src/backend_jtag/sw/backend_jtag.c:848-860 | the number of words wanted grows by half after a well used transfer, shrinks to three tenths after a badly used one, and stays otherwise, within its bounds |
| Jtag.PayloadIsMaximal | external/glip/src/backend_jtag/sw/backend_jtag.c:903-919 | both counts are within the words wanted and the levels, and as large as they can be |
| Jtag.Poller.BuildJtagReq | external/glip/src/backend_jtag/sw/backend_jtag.c:972-1009 | the request holds the counts and exactly the oldest bytes of the write buffer; exactly when it is too small, and exactly when the peek fails |
| Jtag.Poller.BuildWithGrowth | external/glip/src/backend_jtag/sw/backend_jtag.c:827-834 | the loop enlarges the buffers until the request fits |
| Jtag.Poller.ParseJtagResp | external/glip/src/backend_jtag/sw/backend_jtag.c:1011-1024 | exactly the accepted bytes leave the write buffer and exactly the delivered bytes enter the read buffer, which never refuses; the write buffer refuses exactly if something was accepted and the application fills it to the brim during the look |
| Jtag.Poller.PollOnce | external/glip/src/backend_jtag/sw/backend_jtag.c:825-861 | one transfer from any state: which piece of what was written the target gets, whether it leaves the write buffer or the discard is refused, how many words are asked for and delivered, and that these are stored in any case; all of it, and the start of the next transfer, determined by the situation at its start |
| Jtag.Poller.PollThread | external/glip/src/backend_jtag/sw/backend_jtag.c:802-868 | over any number of transfers, with any counts the target accepts and keeps back and whatever discards are refused, every byte the target delivers is read exactly once and in order; the target receives the pieces of the transfers one after the other, and these are the bytes that left the write buffer if and only if no discard was refused; the situations lead from that at the call to that in the end |
| Jtag.RestingTransferDelivers | external/glip/src/backend_jtag/sw/backend_jtag.c:903-919 | with the reading application at rest and a target that keeps nothing back, a transfer that takes place delivers as many waiting words as are wanted and as there is room for |
| Jtag.RestingTransferSends | external/glip/src/backend_jtag/sw/backend_jtag.c:903-919 | with the writing application at rest a transfer offers all whole words there are, up to those wanted, and cannot fail |
| Jtag.PiecesAreLonger | external/glip/src/backend_jtag/sw/backend_jtag.c:1011-1024 | the pieces sent are exactly the stretch that left the write buffer if no discard was refused, and longer than it otherwise |
| Jtag.FullBufferIsServed | external/glip/src/backend_jtag/sw/backend_jtag.c:1011-1024 | a transfer that starts with a full write buffer cannot fail, and its discard is not refused |
| Jtag.RefusalsAreApart | external/glip/src/backend_jtag/sw/backend_jtag.c:1011-1024 | a refused discard leaves a full write buffer, so the next one is not refused |
| Jtag.EveryByteArrives | external/glip/src/backend_jtag/sw/backend_jtag.c:1011-1024 | the target accepts every byte that left the write buffer exactly once more often than in refused transfers, in every run |
| Jtag.ResentAtMost | external/glip/src/backend_jtag/sw/backend_jtag.c:1011-1024 | in every run a byte is accepted in at most as many refused transfers as there are words in a transfer |
| Jtag.ResendExample | external/glip/src/backend_jtag/sw/backend_jtag.c:802-868 | for every possible number of words a run that reaches this bound |
| Tcp.ReserveAll | external/glip/src/backend_tcp/sw/backend_tcp.c:118-124 | the reservation of the free level never fails |
| Tcp.ReceiveInto | external/glip/src/backend_tcp/sw/backend_tcp.c:126-142 | exactly what the socket transfers, after a short read or an error, is appended to the read buffer, while the application reads |
| Tcp.PeekAll | external/glip/src/backend_tcp/sw/backend_tcp.c:154-161 | the assertion on the peek fails exactly if something was seen at the first look and the application fills the buffer to the brim during the second |
| Tcp.SendFrom | external/glip/src/backend_tcp/sw/backend_tcp.c:163-178 | what the socket accepted is what leaves the write buffer, while the application writes; the assertion on the discard fails exactly if something was accepted and the application fills the buffer to the brim during the look |
| Tcp.Backend.TcpRead | external/glip/src/backend_tcp/sw/backend_tcp.c:108-145 | asks for as much as the look sees room for, receives exactly the next bytes the socket transfers, and never runs into an assertion |
| Tcp.Backend.TcpWrite | external/glip/src/backend_tcp/sw/backend_tcp.c:147-179 | what one call sends, and exactly when it succeeds, fails or runs into an assertion, given the turns of the application |
| Tcp.Backend.Round | external/glip/src/backend_tcp/sw/backend_tcp.c:201-213 | the situation at the start of a round determines how it ends, what it receives and sends, and the situation afterwards |
| Tcp.WriteFailsExample | external/glip/src/backend_tcp/sw/backend_tcp.c:154-178 | a run for each of the two assertions that fails; with the second one the byte has been sent |
| Tcp.Backend.ComThread | external/glip/src/backend_tcp/sw/backend_tcp.c:184-229 | under any short transfers and application turns, the bytes sent are the first bytes written, those received are the bytes read followed by the read buffer, for any number of rounds; the situations, with how much is received and sent in each round, lead from that at the call to that in the end, and the last round decides how the thread ends; no assertion fails if the application does not write |
| Tcp.RestingRoundReceives | external/glip/src/backend_tcp/sw/backend_tcp.c:118-142 | with the reading application at rest a ready socket delivers as many bytes as have come, as it transfers and as there is room for |
| Tcp.RestingRoundSends | external/glip/src/backend_tcp/sw/backend_tcp.c:147-179 | with the writing application at rest a ready socket is sent as many bytes as there are and as it transfers |
| Tcp.ReceivedAndComing | external/glip/src/backend_tcp/sw/backend_tcp.c:184-229 | over any number of rounds the bytes received and those still coming add up to the same |
| Tcp.FullNeverFails | external/glip/src/backend_tcp/sw/backend_tcp.c:154-178 | a round that starts with a full write buffer fails no assertion |
| Vmem.HexNumberValue | tools/utils/bin2vmem.c:298-299 | a printed address has the value it was printed from, at least the asked number of digits, and exactly that many if its value fits them |
| Vmem.LoadRender | tools/utils/bin2vmem.c:285-325 | loading a rendering puts every byte at its own address, for every word size and line width |
| Vmem.RenderIsLaidOut | tools/utils/bin2vmem.c:285-325 | for every number of bytes: a line break for every complete line, an address for every line begun, a space for every word begun, where the format has them |
| Vmem.AddressedLineStandsAlone | tools/utils/bin2vmem.c:287-301 | a line with an address loads to its place on its own: the address is the line number times the words per line |
| Bin2Vmem.PositionIsCounted | tools/utils/bin2vmem.c:95-101 | the running counters are exactly line, word and byte of the position |
| Bin2Vmem.ImageIsPadded | tools/utils/bin2vmem.c:328-427 | the image is padded with zeros only: not at all, to the least number of whole words that fills the rows asked for, or exactly to the address asked for, if the image ends before it |
| Bin2Vmem.Printer.Emit | tools/utils/bin2vmem.c:293-325 | one round of the loop extends the rendering by one byte |
| Bin2Vmem.Printer.CompleteWord | tools/utils/bin2vmem.c:329-349 | the uncounted fill bytes complete the last word as rendered |
| Bin2Vmem.Printer.PadRows | tools/utils/bin2vmem.c:351-383 | pads exactly to the end of the row asked for |
| Bin2Vmem.Printer.PadToAddress | tools/utils/bin2vmem.c:387-427 | pads exactly to the byte address asked for |
| Bin2Vmem.Convert | tools/utils/bin2vmem.c:285-428 | the output is the rendering of the image and the zeros each padding mode asks for, and loads to exactly these bytes |

## Left out

- CbufUtil.CbufWriteB: does not promise that a call that waits with a full buffer returns; the wait compares the fill level with 0, so it may sleep on.
- MamHost.OsdClMamWrite: ranges of 4 GiB and more, where the 32-bit offset of a burst wraps around, and ranges beyond the end of the memory.
- MamHost.OsdClMamRead: the same ranges.
- Cbufs.Cbuf.CalcBufsize: the shift of an `int`, which overflows for requests of 1 GiB and more.
- Jtag.Poller.PollThread: words of more than four bytes, for which the shift in the adjustment is undefined.
- UartHosts.UartHost.ThreadFunc: promises nothing about data words that arrive when the input buffer is full; the protocol rules them out, see `UartRounds.RoundOnLink`.
- UartRounds.ReadOnLink: bytes that the target sends during the reading half itself; `UartRounds.RoundOnLink` has them.
- The fields of the request that asks for a register.
- The first message of the target in a session is taken to be its tranche of credit: `reset` reads it itself, and drops a first byte that begins no message.
- JtagWords.AdjustFitsByteIff: the factors 0.9, 0.5, 1.5 and 0.3 are exact; the source rounds in floating point.
- DbgNocReceivers.Receiver.ReceiveBlock: partial blocks, which the source does not support, and the callbacks that pick fields out of trace packets.
- DbgNocSenders.Lisnoc16SendPackets: packets of 65536 flits and more, whose length does not fit its word.
- DbgNocSenders.Lisnoc32SendPackets: a transfer that fails within a word.
- Mesh.Delivery: the routers take the destination from a field of five bits, so meshes of more than 32 nodes cannot be addressed in full.
- Bin2Vmem.Convert: both padding modes at once, which the option parser lets through in one order, and the option parser itself.
- In the class models every call of a buffer operation is one step, except where a look at a level is interrupted by a turn of the other side; single pointer accesses are the subject of `CbufThreads`.
- Weak memory orders and torn reads of the unlocked pointers; failing allocations.
- Sockets, the serial line, libusb, OpenOCD, clocks, thread creation and cancellation; time-outs are choices of a script.
- UART baud rate detection, `check_timeout`, the drain of the line in `reset`, and a byte that arrives between its end and the release of the reset.
- `jtag_drscan_read`, whose result depends on how the answer is chunked, and the text commands to OpenOCD.
- The hardware: the target of the UART link, the MAM, the JTAG target and the wiring of the mesh are models of what their interfaces promise.
- The Cypress FX2 and FX3 backends, the gateway, the trace logger, register descriptors, the GUI and the build scripts.
