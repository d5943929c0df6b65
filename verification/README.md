# libopenvizsla, verified

This project models the logic of libopenvizsla, the host library of the OpenVizsla USB sniffer, and of its
Wireshark extcap tool, and proves what they promise. `dafny verify dfyconfig.toml` checks all of it.

| files | what they model |
|---|---|
| `Bytes`, `Stream`, `Masks` | machine integers; a resumable decoder as a fold over bytes; C's bit operations, and the arithmetic they amount to |
| `DecoderSpec`, `Decoder`, `OvPackets` | the packet and frame decoders of `src/decoder.c`: one step per byte, and the C state machines with bulk copies |
| `Wire`, `Demux` | encoders for packets and frames, and the proof that decoding is exactly their inverse |
| `Storage`, `LoopStorage` | which streams stay inside the storage the caller gives for a packet, and which sizes are always enough |
| `LoopModel`, `LoopRuns`, `LoopLimit`, `LoopEnds`, `ChaLoop` | the capture loop of `src/cha.c` with its three USB transfers: transition system, whole runs, the packet limit, how a run ends, and the class |
| `Handshake`, `StopRun`, `SyncStream` | register messages, the stop handshake and the run that waits for it, and the search for the synchronisation echo |
| `Clock`, `FilterSpec`, `Extcap`, `Capture` | the extcap tool: time conversion, NAK and SOF filter, linked queue, pcap records, a whole capture |
| `BitFile`, `BitLoader` | the bitstream header parser and the double-buffered upload of `src/bit.c` |
| `RegMap`, `MapText`, `RegParser` | the register map of `src/reg.c`: as values, what its text means, and the parser that cuts the text in place |

## How the model is built

Code that changes state is a class or a method with the fields and branches of the C code, proved equal to a function on
values; the promises are lemmas about that function.

- **Specifications.** What an encoded packet, a frame, a window of packets, a message, a text line and the end of a run
  are is written with the numbers and characters of the formats, not with the constants and predicates of the decoders
  and parsers they are compared with.
- **Decoders.** `PacketStep` and `FrameStep` consume one byte. The classes copy data in bulk, keep half-read fields in
  the shared packet and in the union, and stop at packet boundaries. The union is a tagged datatype, so reading a member
  that was not the last one written does not verify. The counters have bounded types, so no subtraction wraps. Bit
  operations are functions on the bits of a number. A callback is an element of the list a method returns: the decoders
  never read what a callback may change. The storage for data is an array of any size: what is asked is that the bytes to
  come have places in it.
- **Capture loop.** libusb is an environment that calls back once for each transfer it holds, and reports CANCELLED only
  for a transfer it was asked to cancel. A run is the list of what happens while the loop waits. The user's packet
  callback may break the loop, as any function of the packets it has been given. Bytes are taken in the order of the
  callbacks.
- **Filter.** The specification decides about each packet from the few around it. Output files are byte sequences that
  only grow. The queue is a linked list of copied records, and the packet they were copied from is overwritten.
- **Loader.** A transfer reads its buffer when it is done, so a buffer overwritten too early would send wrong bytes.

## Results that differ from what one would expect

- The decoder never checks the size of the packet's storage. A stream stays inside iff every packet's captured size does
  (`Storage.EncodedFitsIff`); no stream can overrun it iff it has 8191 bytes (`Storage.CaptureFitsIff`). The extcap tool
  gives 1024 bytes, header included: every packet with the flag TRUNC overruns them (`Storage.TruncOverruns`,
  `Storage.TruncOverrunsAt`).
- A limit of N packets is passed: N + 1 are accepted, exactly if the stream brings as many before anything else that ends
  the run (`LoopLimit.LimitPassedIff`). There is such a run for every limit, and it returns N + 1
  (`LoopLimit.LimitIsPassed`). A later run that was not reset accepts none (`LoopRuns.LimitOvershoots`).
- The result of a run need not tell why it stopped. While a stopped run drains, a failed transfer, a failing poll or a break
  overwrites the reason; a reason found in the data survives iff there is none of them (`LoopRuns.ReasonSurvives`,
  `LoopRuns.ResultSurvives`). For every limit there is a run that the limit stops and that returns -1, a fatal error, with
  all its packets accepted (`LoopLimit.LimitIsOverwritten`). In the rest of its block, a host-read-off overwrites it too
  (`LoopRuns.StoppedCalls`).
- A failed transfer or a failing poll stops a run but cancels nothing: it goes on waiting for the transfers in flight
  (`LoopRuns.FaultCancelsNothing`).
- If the very first submission fails, the wait loop never ends; otherwise it can (`LoopRuns.RunCanEndIff`).
- The synchronisation search can miss its message: it finds it exactly if the bytes before it are failed attempts, each an
  initial part of the message and a wrong byte, which is lost (`SyncStream.SyncFindsIff`). A stray first byte hides the
  message of every register (`SyncStream.StrayByteHides`); without one before it, it is found
  (`SyncStream.CleanMessageFound`).
- One step of the clock is exact iff the offset and the ticks since the last packet do not overflow 64 bits together
  (`Clock.TickExactIff`); they do exactly when a timestamp goes back by no more than the offset, or forward by almost 2^64
  (`Clock.TickExactUnlessLost`), such as back by one tick (`Clock.BackwardTickDrifts`). On the wire that is a delta that
  comes to 2^64 with the offset (`Capture.DeltaExactIff`), as the longest delta does one tick into a second
  (`Capture.LongestDeltaLosesTime`). The comment in the code speaks of a 24-bit counter; the code, and this model, use 64
  bits.
- Loading an empty bitstream waits for a transfer that was never submitted (`BitLoader.LoadFirmware`).

## Model

| member | source | states |
|---|---|---|
| `Decoder.PacketDecoder.Proc` | src/decoder.c:26-98 | from any valid state, on any bytes whose data have places in the storage: one invocation goes exactly to the first packet it can finish, consuming the bytes the fold of the byte step consumes, never the byte that only shows that an empty packet is over |
| `Decoder.PacketDecoder.CopyData` | src/decoder.c:73-92 | the bulk copy appends exactly the missing data bytes that are there, for which there must be places, and delivers header, timestamp and data when it has them all |
| `Decoder.PacketDecoder.HeaderByte` | src/decoder.c:31-72 | each header byte moves the decoder as the byte step does; a wrong magic changes nothing |
| `DecoderSpec.MagicOfPacket` | src/decoder.c:35-46 | between packets 0xa1 is skipped, 0xa0 and 0xa2 start a packet with that magic, and exactly the other bytes are rejected |
| `DecoderSpec.CapturedSizes` | include/openvizsla.h:53-55 | a header with bit 3 of its flags set captures 1027 bytes, any other its size |
| `Decoder.PacketDecoder.constructor` | src/decoder.c:10-24 | a new decoder is idle with clock 0, whatever its storage |
| `Decoder.FrameDecoder.Proc` | src/decoder.c:109-170 | the nested loops terminate, refine the fold of the byte step from any valid state, consume the whole buffer on success, and keep the callbacks made before a rejection, on any bytes whose data have places in the storage |
| `Decoder.FrameDecoder.Payload` | src/decoder.c:130-145 | handing a slice to the packet decoder does what the byte steps do, and consumes nothing only when it finishes a pending empty packet |
| `Decoder.FrameDecoder.BusFrameByte` | src/decoder.c:146-165 | a bus frame's address and value are assembled and reported at its fifth byte |
| `DecoderSpec.MagicOfFrame` | src/decoder.c:114-125 | between frames 0x55 starts a bus frame, 0xd0 an SDRAM frame, and exactly the other bytes are rejected |
| `Decoder.FrameDecoder.constructor` | src/decoder.c:100-107 | a new frame decoder is between frames with a new packet decoder |
| `Stream.ChunkInvariance` | src/decoder.c:26-170 | events and verdict depend on the bytes only, not on how they are cut into chunks |
| `Stream.RunConcat` | src/decoder.c:26-170 | decoding a then b is decoding a ++ b, for every cut and start state, on success and on error |
| `DecoderSpec.PacketRunValid` | include/decoder.h:16-40 | the packet decoder's invariant holds after any bytes: partial data below the captured size, which is at most 8191, and a partial delta below its weight |
| `DecoderSpec.FrameRunValid` | include/decoder.h:43-66 | the frame decoder's invariant holds after any bytes: 1 to 512 payload bytes outstanding inside an SDRAM frame |
| `Wire.RoundTrip` | src/decoder.c:26-98 | packets encoded with any fillers between them, then flushed by a filler if the last one is empty, are decoded to exactly those packets |
| `Wire.DeliveredTimestamp` | src/decoder.c:65-72 | packet i is delivered with its header and data, and the sum of the deltas up to its own modulo 2^64 as timestamp |
| `Wire.DecodingIsInverse` | src/decoder.c:26-98 | bytes are decoded to an idle state with given callbacks iff they are an encoding of packets those callbacks deliver |
| `Wire.Unparse` | src/decoder.c:26-98 | every byte sequence read to an idle state is an encoding, which is constructed |
| `Demux.Demultiplexing` | src/decoder.c:109-170 | for any frames cut into any chunks, the packet callbacks are those of the joined SDRAM payloads, the bus callbacks are the bus frames in order, and a rejection comes iff the payloads are rejected |
| `Demux.FramesRun` | src/decoder.c:109-170 | the callbacks come in the order of the frames, each payload decoded as a whole |
| `Demux.CaptureRoundTrip` | src/decoder.c:26-170 | packets encoded, spread over SDRAM frames among bus frames and cut anywhere are delivered unchanged |
| `Demux.FramingIsInverse` | src/decoder.c:109-170 | the streams accepted to a point between frames are exactly the serialised frames with a decodable payload |
| `Masks.ByteMasks` | src/decoder.c:57-58 | on bytes, these masks and shifts of Dafny's bit vectors are the remainders and quotients of the model |
| `Masks.OrByte` | src/decoder.c:66-66 | or-ing a byte into a number of up to seven bytes, shifted above them, adds it at its weight, in 64 bits |
| `Masks.OrSize` | src/decoder.c:57-57 | the masked and shifted high byte or-ed with the low byte is the 13-bit size |
| `Masks.HighBits` | src/decoder.c:58-58 | masking and shifting gives the top three bits |
| `Masks.OrLow` | src/decoder.c:151-151 | or-ing a byte into an address with low byte 0 adds it |
| `Masks.ClearWriteBit` | src/cha.c:536-536 | clearing bit 15 with the complement of a 32-bit int leaves the address modulo 0x8000 |
| `Masks.SetWriteBit` | src/cha.c:253-253 | or-ing 0x80 sets the top bit and leaves the others |
| `OvPackets.OvPacket.CapturedSize` | include/openvizsla.h:53-55 | the captured size is 1027 if the TRUNC bit is set, else the size |
| `Storage.AlwaysFitsIff` | src/decoder.c:56-79 | no bytes make the packet decoder write outside its storage iff that has 8191 bytes, the largest size a header can announce |
| `Storage.CaptureFitsIff` | src/decoder.c:63-63 | the same of every frame stream of a capture |
| `Storage.EncodedFitsIff` | src/decoder.c:74-79 | encoded packets stay inside the storage iff the captured data of each of them do |
| `Storage.FramesFitIff` | src/decoder.c:130-145 | frames store what their joined payloads store |
| `Storage.TruncOverruns` | tools/ovextcap/main.c:317-320 | every truncated packet, in any frames, overruns the storage of the extcap tool |
| `Storage.TruncOverrunsAt` | tools/ovextcap/main.c:317-320 | after the preamble a0 08 05 00 00 the 1013th data byte is the first outside that storage |
| `LoopRuns.InFlightAccounting` | src/cha.c:540-701 | in every reachable state active_transfers is the number of transfers in flight, a cancel is pending only if the loop has stopped, and at the end of the wait both closing assertions hold and nothing is in flight |
| `LoopRuns.ReactWaits` | src/cha.c:540-596 | each single happening keeps that invariant; a stopped loop stays stopped and accepts nothing, every callback then takes one transfer away; and a stop by data or by a break asks for all transfers to be cancelled |
| `LoopRuns.StartWaits` | src/cha.c:655-679 | the submissions establish the invariant; only three successful ones leave a running loop running, and a failed one is a fatal error |
| `LoopRuns.FatalNotStarted` | src/cha.c:649-657 | a loop with a fatal error is not started: its counters are reset, no transfer is submitted, and the result is -1 |
| `LoopRuns.Drain` | src/cha.c:566-594 | a stopped run accepts nothing and resubmits nothing; at most three more callbacks come, and the last of them completes it |
| `LoopRuns.RunCanEndIff` | src/cha.c:663-691 | a run can end iff its first submission succeeds |
| `LoopRuns.LimitOvershoots` | src/cha.c:525-526 | a run that ends in the state of the packet limit returns the number of packets it accepted, which is the limit plus one; a run that did not start running accepts none |
| `LoopLimit.LimitPassedIff` | src/cha.c:513-530 | a run accepts one packet more than its limit only if the decoded callbacks bring as many with no host-read-off before, and none up to the limit at which the callback breaks or that is flagged LAST; a run that only its stream can stop, exactly then; never more |
| `LoopLimit.LimitIsPassed` | src/cha.c:525-526 | for every limit there is a run that accepts one packet more, completes, and returns that number |
| `LoopLimit.LimitIsOverwritten` | src/cha.c:584-594 | for every limit there is a run that the limit stops after one packet more, and that returns -1 because a transfer fails while it drains |
| `LoopRuns.ResultSurvives` | src/cha.c:566-594 | a run stopped by its packet limit, a last packet or a host-read-off keeps that result iff no transfer fails, no poll fails and nobody breaks it while it drains; else it returns -1 or -2 |
| `LoopRuns.ReasonSurvives` | src/cha.c:566-594 | the state of a stopped run is changed by failed transfers, failing polls and breaks, to a fatal error or a break, and by nothing else |
| `LoopRuns.StoppedCalls` | src/cha.c:513-538 | when a loop has stopped, the other callbacks of its block change its state iff one is for a host-read-off |
| `LoopRuns.FaultCancelsNothing` | src/cha.c:584-594 | a failed transfer or a failing poll leaves a running loop stopped, with no cancel requested, and not complete |
| `LoopRuns.RefusedResubmission` | src/cha.c:566-574 | where a successful resubmission would leave the loop running, a failed one is a fatal error |
| `LoopRuns.EndToEndDelivery` | src/cha.c:513-575 | the accepted packets are a prefix of the decoding of the received stream, all of it while running; whatever ends the run, none comes after the first packet that stops it, or after any host-read-off; when data stopped it they are exactly those up to there |
| `LoopRuns.UndisturbedDelivery` | src/cha.c:513-575 | if transfers complete and are resubmitted and polling does not fail while a run is running, it accepts exactly what its stream admits, also when the callback breaks it or a decoding error ends it |
| `LoopEnds.LastPacketDecides` | src/cha.c:513-530 | of a stream without error and host-read-off, the last packet accepted decides how a run ends that nothing else stops or overwrites: -4 if it is flagged LAST, else the number accepted if that is above the limit, else -2 for the break; it is running if no packet stops it |
| `LoopEnds.RejectionIsFatal` | src/cha.c:554-561 | a run whose stream is rejected, with nothing before that stops it, ends with a fatal error and returns -1, unless it is broken |
| `LoopEnds.OffStops` | src/cha.c:532-538 | with a host-read-off anywhere among the callbacks of a block the loop is left in that state |
| `LoopEnds.BreakCancels` | src/cha.c:712-716 | a callback that breaks the loop has all its transfers cancelled at once |
| `LoopRuns.AdmittedIsPrefix` | src/cha.c:513-530 | of the decoded callbacks the packets admitted are a prefix, all of them if nothing stops the run, and no packet but the last one stops it |
| `LoopRuns.AdmittedBeforeOff` | src/cha.c:532-538 | every packet admitted comes before every host-read-off |
| `LoopRuns.StripUndoesFramed` | src/cha.c:550-564 | removing two bytes from each block of a transfer gives back its data, for any status bytes and any last block |
| `LoopRuns.ReceivedIsData` | src/cha.c:550-564 | what a run has received is the data of all blocks of all completed transfers, in order |
| `LoopStorage.RunOfStream` | src/cha.c:550-564 | if the stream a run receives fits the storage of its packet, so does every block that is decoded |
| `LoopStorage.AmpleRun` | src/cha.c:550-564 | storage of 8191 bytes is enough for every run |
| `ChaLoop.ChaLoop.PacketCallback` | src/cha.c:513-530 | the loop afterwards, with the order in which break, limit and last packet override each other |
| `ChaLoop.ChaLoop.BusFrameCallback` | src/cha.c:532-538 | the loop afterwards: stopped by a write of 0 to the host-read-go register, whether it was running or not |
| `ChaLoop.ChaLoop.ReceiveBlocks` | src/cha.c:550-564 | the blocks of a transfer are decoded one by one while the loop is running |
| `ChaLoop.ChaLoop.TransferCallback` | src/cha.c:540-596 | the loop and its transfers afterwards, for a completed, cancelled or failed transfer and either answer to the resubmission |
| `ChaLoop.ChaLoop.Run` | src/cha.c:649-701 | submission, wait and result of a run, for everything libusb may do, if the data it decodes fit the storage; -1 at once after a fatal error; no event is handled after the run is complete but a failing poll |
| `ChaLoop.ChaLoop.Wait` | src/cha.c:681-691 | events are handled until the run is complete and none after that, but a failure that the completing poll returns still counts |
| `ChaLoop.ChaLoop.SetCallback` | src/cha.c:703-710 | the user's callback is replaced and the one before returned |
| `ChaLoop.ChaLoop.BreakLoop` | src/cha.c:712-716 | the loop is stopped and all its transfers are asked to cancel |
| `ChaLoop.ChaLoop.Destroy` | src/cha.c:718-724 | no transfer is in flight when they are freed |
| `ChaLoop.ChaLoop.Rearm` | src/ov.c:270-271 | the user's callback is removed, and a finished loop is running again for the run that stops the capture, with the decoder as it was left, also after an error |
| `Handshake.TransactionChecksum` | src/cha.c:32-40 | the sum of the bytes in 8 bits |
| `Handshake.CastMessage` | src/cha.c:252-255 | the five bytes are 0x55, the address with the write bit, the value and their sum modulo 256, a bus frame to the register's write address |
| `Handshake.RegisterFrameBytes` | src/cha.c:253-255 | a register message is 0x55, the address, the value, and the sum of these four bytes modulo 256 |
| `Handshake.OtherRegisters` | src/cha.c:532-538 | a bus frame changes the loop iff it has value 0 and the address of the host-read-go register, write bit aside |
| `Handshake.WriteEcho` | src/cha.c:532-538 | the echo of a write of any value to any register stops the loop iff it writes 0 to host-read-go |
| `Handshake.StopHandshake` | src/cha.c:532-538 | the echoed message is decoded as one bus callback in any chunking, and stops the loop iff the value is 0 and the address leaves the write bit free |
| `Handshake.StopEchoEndsRun` | src/cha.c:532-575 | a run that has received that echo among whole frames is no longer running |
| `StopRun.StopRunResult` | src/ov.c:273-278 | a run without limit and callback that has received the stop echo, decodes its stream without error to packets that are not the last, and meets no fault, ends in the host-read-off and returns -5 |
| `SyncStream.SyncFindsIff` | src/cha.c:58-77 | the search succeeds iff the bytes are failed attempts, the message, and anything; an attempt is an initial part of the message and one byte that does not go on with it |
| `SyncStream.OutcomeOfReads` | src/cha.c:58-85 | over the bytes of all reads before a failure: synchronised iff they are failed attempts, the message and anything; otherwise failed at the failure, or still searching; nothing after a failure matters |
| `SyncStream.StrayByteHides` | src/cha.c:42-71 | a stray first byte before the message hides it, for the message of every register |
| `SyncStream.CleanMessageFound` | src/cha.c:66-71 | a message is found if its first byte is not among the bytes before it |
| `SyncStream.SearchReads` | src/cha.c:60-77 | the loop over the reads finds the message in the bytes before the first failing read, or fails at that read, or goes on |
| `SyncStream.Sync` | src/cha.c:42-90 | the message for a register is built with its checksum; the function succeeds iff libftdi flushes and sends, the message is found before a read fails, and libftdi flushes again |
| `FilterSpec.FilterDropsWindows` | tools/ovextcap/main.c:228-277 | over any packets and options, output then queue is the input in order less exactly the transactions answered by NAK and the idle SOFs, decided by neighbouring packet identifiers; the state depends on the last three packets |
| `FilterSpec.FlushDropsOpen` | tools/ovextcap/main.c:208-215 | the flush at the end drops only the transaction still open, and only when NAKs are filtered |
| `FilterSpec.FlagsAreOrthogonal` | tools/ovextcap/main.c:208-277 | options change neither the states nor the queue; with both off everything is written; the output with both on is the packets at the indices written with each option alone, the open transaction that is discarded included |
| `FilterSpec.FlagsAddUp` | tools/ovextcap/main.c:208-277 | every packet is in the output of both options together plus the input as often as in the outputs of each: no packet is dropped twice |
| `FilterSpec.WrittenIsSelection` | tools/ovextcap/main.c:208-277 | the output is the input at the indices that are neither dropped nor discarded in an open transaction |
| `FilterSpec.SofFilterIdempotent` | tools/ovextcap/main.c:238-248 | filtering SOFs twice is filtering them once |
| `FilterSpec.ShapeKept` | tools/ovextcap/main.c:231-233 | the queue is empty by default and after SPLIT, one OUT in state OUT, one IN or PING or an OUT with its data when a NAK is expected |
| `Extcap.HandlerData.FilterPacket` | tools/ovextcap/main.c:228-277 | the linked queue and the output are those of the filter specification, and the source's assertions hold |
| `Extcap.HandlerData.QueuePacket` | tools/ovextcap/main.c:161-187 | the list grows by a fresh copy of the bytes that forwarding the packet now would write |
| `Extcap.HandlerData.ForwardQueuedPackets` | tools/ovextcap/main.c:200-206 | the queued records are written in order and the list is empty |
| `Extcap.HandlerData.PacketHandler` | tools/ovextcap/main.c:279-310 | every packet advances the clock; a packet with a size is recorded with its time, in the debug file and through the filter |
| `Extcap.RecordReadBack` | tools/ovextcap/main.c:143-151 | a record is read back from its four header fields and its length, and what follows is untouched |
| `Extcap.RecordsInjective` | tools/ovextcap/main.c:143-151 | a file determines the packets recorded in it |
| `Capture.StartCapture` | tools/ovextcap/main.c:359-387 | for a whole capture through one shared packet that is overwritten every time, with storage that holds the data of each packet: the debug file has the record of every packet, and the output those the filter writes |
| `Capture.WireToCallback` | src/cha.c:513-575 | packets encoded, spread over SDRAM frames among bus frames, and received in transfers and blocks of any lengths are exactly the packets accepted by a fresh loop that is still running |
| `Capture.AcceptedAreWhole` | src/decoder.c:73-91 | every packet a run accepts has all the data its header announces, at most 8191 bytes |
| `Capture.AcceptedFit` | src/decoder.c:73-91 | every packet a run accepts of a stream that fits the storage fits it |
| `Capture.WireToFile` | tools/ovextcap/main.c:279-310 | of packets sent on the wire a run accepts the first ones, and the files of their capture have the records of those with a size, less what the filter drops in the output, each at the start of the capture plus the sum of the deltas up to its own |
| `Capture.AcceptedAreSent` | src/cha.c:513-575 | the packets accepted of an encoded stream are a prefix of those sent, with the sums of the deltas as timestamps, and all of them while running |
| `Capture.RecordsAreTimed` | tools/ovextcap/main.c:286-299 | for timestamps that do not decrease every record has the exact time of its own packet, rounded up to a nanosecond |
| `Capture.DeltaExactIff` | tools/ovextcap/main.c:286-289 | a packet on the wire advances the clock by its delta exactly iff delta and offset together are below 2^64 |
| `Capture.LongestDeltaLosesTime` | tools/ovextcap/main.c:286-289 | after a delta of one and one of eight bytes 0xff the clock is back at its start, 2^64 ticks late |
| `Capture.HandledClock` | tools/ovextcap/main.c:285-289 | packets without a record advance the clock too |
| `Clock.NoDrift` | tools/ovextcap/main.c:286-289 | after any packets seconds and offset are quotient and remainder of start plus device time, seconds modulo 2^32, if no step overflows 64 bits |
| `Clock.TickExactIff` | tools/ovextcap/main.c:286-289 | a step is exact iff offset plus difference is below 2^64 |
| `Clock.TickExactUnlessLost` | tools/ovextcap/main.c:286-289 | a step is exact iff the timestamp neither goes back by 1 to as many ticks as the offset shows, nor forward to within the offset of 2^64 |
| `Clock.BackwardTickDrifts` | tools/ovextcap/main.c:286-289 | one tick into a second, a timestamp that goes back by one tick loses 2^64 ticks |
| `Clock.NanosecondsRoundUp` | tools/ovextcap/main.c:290-290 | the nanoseconds are the offset rounded up, below one second |
| `Clock.PcapTimeExact` | tools/ovextcap/main.c:288-297 | the pcap time is the exact time of the tick rounded up to a nanosecond: rounding does not accumulate |
| `Clock.PcapTimeMonotone` | tools/ovextcap/main.c:288-297 | later ticks have later pcap times |
| `Clock.CaptureTime` | tools/ovextcap/main.c:279-299 | for timestamps that do not decrease the clock shows its start plus the last timestamp |
| `Clock.StartOffset` | tools/ovextcap/main.c:359-361 | the initial offset is below one second and within two ticks of the wall clock |
| `BitFile.ParseIff` | src/bit.c:40-162 | a file is parsed to given fields iff it is those fields printed, with a rest at least as long as announced |
| `BitFile.HeaderError` | src/bit.c:40-52 | a file is rejected as having a wrong header iff its first 13 bytes are not those |
| `BitFile.FieldErrors` | src/bit.c:54-87 | a string field is rejected for its key iff there are 3 bytes and the first is another key, and for too few bytes iff there are fewer than key, length and string take |
| `BitFile.LengthErrors` | src/bit.c:105-135 | the same of the length field and the bitstream |
| `BitFile.Bit.DoParse` | src/bit.c:140-155 | the cursor steps find the fields of that parse, or the error of its first failing step, with position plus remaining size constant |
| `BitFile.Bit.DoParseFieldStr` | src/bit.c:54-87 | one string field is read and stepped over, or the error told |
| `BitLoader.BitsReversed` | src/bit.c:26-38 | the table maps every byte to the byte with its bits in reverse order |
| `BitLoader.LoadFirmware` | src/bit.c:164-195 | the device is sent the bit-reversed bytes of the bitstream in order through two buffers, with nothing outstanding at the end; on a failure of libftdi an initial part; exactly an empty bitstream ends in waiting for no transfer |
| `MapText.MapAcceptedIff` | src/reg.c:57-92 | a map is accepted iff every line is empty, starts with '#', or has a word, '=' and a number below 0xffff, and every register has such a line |
| `MapText.AcceptedAddresses` | src/reg.c:70-85 | each address is the number on the last line that defines its name |
| `MapText.MapRejected` | src/reg.c:57-85 | the first line that cannot be read makes the map unparsable if it has no '=', and fails an assertion if it has one; a readable map is rejected only for a missed register |
| `MapText.CommentsChangeNothing` | src/reg.c:42-43 | a comment or an empty line, wherever it is put, changes neither the verdict nor the addresses |
| `MapText.LineIs` | src/reg.c:37-55 | which lines are ignored, malformed, and definitions of a name and a value, in terms of their characters |
| `MapText.NumeralIsRead` | src/reg.c:52-52 | blanks, sign, prefix and any number of hexadecimal digits are read as their value in 64 bits, up to the first character that is no digit |
| `MapText.NumeralExists` | src/reg.c:52-52 | every text is of that form |
| `MapText.Registers` | include/reg.h:10-32 | the names of the 15 registers, in the order of their enumeration |
| `RegMap.PrintedLineReadBack` | src/reg.c:37-55 | a line printed from a name and a hexadecimal address is read back as that definition |
| `RegMap.SplitIsInverse` | src/reg.c:70-85 | the lines are those between newlines, and joined they are the text |
| `RegParser.Reg.InitFromMap` | src/reg.c:70-92 | the parser that writes NULs into the text reads the map as the specification on values does |
| `RegParser.Reg.FromLine` | src/reg.c:37-55 | a line is cut into key and value within its own characters, and defines what the specification says |
| `RegParser.XStrChr` | src/reg.c:12-21 | the string is cut at the first occurrence, and what follows is returned |

## Left out

- What a decoder does after it has written outside its storage: the methods ask that it does not.
- Decoder.PacketDecoder.constructor: the size of the storage that the caller states, which is stored and only asserted to
  be positive, is not modelled; the storage itself is.
- ChaLoop.ChaLoop.PacketCallback: the user's callback reads the packet; one that changes its flags before the loop tests
  them is not modelled.
- Callbacks that are not set: the decoders always call; a NULL packet or bus callback is not modelled.
- Decoder.FrameDecoder.Proc: after a rejection only the packet decoder's part of the state is told, since how far the
  outstanding payload count got depends on the chunks.
- ChaLoop.ChaLoop.TransferCallback: a submission answered INTERRUPTED is repeated in C; the model has its final answer.
- ChaLoop.ChaLoop.Run: libusb's events come as a list, so a run that waits forever is one that is still waiting at the
  end of every list; `count` is unbounded, where C overflows only for the limit 2147483647.
- `cha_loop_break` from another thread or a signal handler.
- Bytes are joined in the order of the callbacks; that libusb completes transfers in order is not modelled.
- FTDI blocks have a positive maximum size, as libftdi sets it; the buffers of the transfers are values.
- The frame checksum is stored and never compared, as in the code.
- BitLoader.LoadFirmware: the retries until the DONE pin is high are not modelled; a failed transfer counts as having
  sent nothing.
- BitFile.Bit.DoParse: a string is the bytes of its field; where C code would read it, the first NUL ends it.
- RegParser.Reg.InitFromMap: a failed assertion (a line without a key, or with a value of at least 0xffff) is a verdict
  of its own, Abort; unsigned long has 64 bits; the perfect hash of src/reg.gperf is a search among its 15 names.
- Extcap.HandlerData.PacketHandler: a broken output pipe, which closes the file and breaks the loop, is not modelled;
  integers are written in little-endian byte order.
- The pcap file header, command line, extcap output, device opening, mode switching, register reads and writes over USB,
  MPSSE pins and firmware packages: foreign calls and thin wrappers around them.
