# Telescope data path and its JSON code: a model

This project models the data path of a radio telescope's transfer software and
the JSON library built into it, and proves properties of that model in Dafny
4.11. `dafny verify dfyconfig.toml` checks all of it. The model covers the C
core; the programs around it are listed under "Left out".

## What is modelled

**The broadcast ring.** One writer and up to 128 readers share a ring of bytes
with one guard slot. The writer checks for space under the lock, copies outside
it and confirms under it; readers do the same the other way round. `Ring` is
the C structure as a class, `RingLog` says when memory and offsets are a window
on the log of all bytes ever confirmed, and `RingRuns` interleaves the threads
down to single copied bytes: in every reachable state every reader has consumed
a contiguous slice of the log, no write touches an unread byte, and a reader
that stops bounds what can still be written. `RingProgress` is the other side:
what fits can be written and what is there can be read. `Session` is the same for
one thread at a time: wherever that thread does not hold the lock, `OtherThreads`
lets all the others take any number of steps.

**The stream pipeline.** `Frames` is the three-byte sample format both ways,
`Resync` finds the first millisecond in a stream that starts anywhere,
`Earliest` picks the start on a circle of 1000 ms, `Processor` lines four lossy
streams up by counters modulo 1000, and `Alignment` gives every frame its true
index and proves that losses never shift later data in time, and exactly when:
if and only if no loss lasts longer than a second. `ProcessorThread` is the
thread itself on its four input rings and its output ring, `RowOutput` how rows
go into a ring. `RowStream` shows that the averager, which looks for no
boundaries, reads whole rows, and exactly when; `Averager` is that thread from
ring to ring. `Pipeline` puts them together: every averaged value is the mean of
the samples the streams delivered for the true milliseconds of its block.

**Wire and plan.** `Wire` has the packets, sockets that fragment at will, and
the receiver; `Sender` and `FileConsumer` are the two four-state consumers of a
server ring, each pass of which does what `Watching` says on what it sees;
`Sender.Transfer` composes sender, connection and receiver.
`Scheduler` is the server's main loop as a timed machine over the plan.

**JSON.** `Json` has trees and the pure renderer, `JsonString` the two scans of
string literals, `JsonGrammar` what the parser accepts as functions on the rest
of the text, `JsonParser` the parser as it runs, `JsonRoundTrip` the round trip,
`JsonPrint` the printer on its growing buffer, `JsonCompare` the comparison,
`JsonConsistent` what it decides when keys repeat, `JsonList` the doubly linked
children, and `JsonMinify` minifying in place. `JsonRfc` has the printed text byte by byte, and
`JsonMinifyPieces` what minifying takes out. What it keeps is in `JsonMinified`
and `JsonErased`; `JsonLiterals`, `JsonQuotes`, `JsonMinifyLoss` and
`JsonMinifyExact` say exactly which texts keep their tree.

## Where the code and its documentation differ

- `data_transfer/cJSON.h:168` advises five bytes more than a text needs for
  printing into a given buffer. The code needs the text, its NUL and exactly one
  byte more, for every tree modelled (`JsonPrint.PrintPreallocated`).
- `data_transfer/cJSON.h:263-265` describes minifying as removing blank
  characters. A string that ends in a backslash, as in `["\\","a b"]`, can make it
  remove a blank inside another string (`JsonMinified.MinifyCanChangeMeaning`).
  `JsonMinifyExact.KeepsMeaningIffUntouched` is exact: a text keeps its tree if and
  only if minifying drops no byte that the parser has inside a string, which both
  scans run side by side tell beforehand (`JsonMinified.Untouched`).
- The scheduler's query looks more than 10 s ahead, so it misses events that are
  10 s or less apart, though `web_server/plan_to_db.php:35-41` lets such plans in.
  `Scheduler.FollowsPlanIffWellSpaced` is exact: for items whose recording starts
  ten minutes after aiming (`web_server/plan_to_db.php:28`) and that do not touch,
  the run records exactly the plan if and only if all events are more than 10 s
  apart. `Scheduler.ShortRecordingNeverEnds` is what a short recording leads to.
- `cJSON_Compare` is described as comparing two items for equality
  (`data_transfer/cJSON.h:259-260`), but with repeated keys a tree may not equal
  its own copy. `JsonConsistent.ReflexiveIffConsistent` says exactly which do.
- Nothing in the processor notices a loss of more than a second;
  `Alignment.LongLossShifts` shows what happens then.

## Model

| member | source | states |
|---|---|---|
| `Ring.CircularBuffer.constructor` | data_transfer/CircularBuffer.c:5-30 | an initialised ring: memory full of 48, head 0, no readers, not recording |
| `Ring.CircularBuffer.MemWrite` | data_transfer/CircularBuffer.c:44-73 | one or two copies leave exactly the source laid down from the head on, wrapping, and every other byte as it was; the head does not move |
| `Ring.CircularBuffer.ConfirmWrite` | data_transfer/CircularBuffer.c:75-80 | the head moves on by the length, modulo the ring |
| `Ring.CircularBuffer.SpaceForWriter` | data_transfer/CircularBuffer.c:82-114 | the loop over the readers computes the space of the slowest one |
| `Ring.WriterSpace` | data_transfer/CircularBuffer.c:82-114 | it is a lower bound of every reader's space, attained by one of them or by the empty ring |
| `Ring.SpaceForIsFree` | data_transfer/CircularBuffer.c:88-105 | the unsigned wrap-around arithmetic is the capacity less one, less what this reader has not read |
| `Ring.CircularBuffer.Available` | data_transfer/CircularBuffer.c:123-137 | available data from the two offsets |
| `Ring.AvailableIsUnread` | data_transfer/CircularBuffer.c:123-137 | which is exactly what was written and not read, for any absolute positions less than a ring apart |
| `Ring.CircularBuffer.ReadData` | data_transfer/CircularBuffer.c:139-156 | where a read starts and how much of it is in one piece |
| `Ring.ReadLengthIsContiguous` | data_transfer/CircularBuffer.c:139-156 | a read of available bytes stays inside memory, is cut only at its end, and is never cut to nothing |
| `Ring.CircularBuffer.ConfirmRead` | data_transfer/CircularBuffer.c:116-121 | one reader's offset moves on, the others stay |
| `Ring.CircularBuffer.Register` | data_transfer/client_behaviours.c:232-236 | a new reader gets the next number and starts at the head |
| `Ring.CircularBuffer.AlignToHead` | data_transfer/server_network_consumer.c:229-229 | the end of a drain puts the reader at the head |
| `Ring.WrittenAt` | data_transfer/CircularBuffer.c:44-73 | byte j of a write lands j slots after the head, modulo the ring |
| `Ring.WrittenElsewhere` | data_transfer/CircularBuffer.c:44-73 | slots the write does not reach keep their bytes |
| `RingLog.GrantRoom` | data_transfer/client_behaviours.c:177-179 | the room the space check grants is occupied by no reader's unread bytes |
| `RingLog.RoomIsExact` | data_transfer/CircularBuffer.c:82-114 | n bytes fit exactly when no reader is more than a ring less one behind n bytes on: neither more nor less room could be granted |
| `RingLog.FlightMissesUnread` | data_transfer/client_behaviours.c:183-183 | no slot of the in-flight region is a slot of an unread byte |
| `RingLog.Confirm` | data_transfer/client_behaviours.c:184-187 | confirming a complete copy appends exactly the copied bytes to the log |
| `RingLog.WholeCopy` | data_transfer/CircularBuffer.c:44-73 | MemWrite's two copies put every byte of the source where the log will need it and disturb no unread byte |
| `RingLog.AvailableIsBacklog` | data_transfer/CircularBuffer.c:123-137 | what a reader is told is available is the log's length less its position |
| `RingLog.PeekIsLog` | data_transfer/client_behaviours.c:1163-1166 | a byte peeked at any unread distance past the tail is the log's byte at that distance |
| `RingRuns.StepKeepsInv` | data_transfer/client_behaviours.c:177-188 | every step of every thread, down to one byte copied outside the lock, keeps the ring a faithful window on the log |
| `RingRuns.RunKeepsInv` | data_transfer/client_behaviours.c:294-319 | so does every run |
| `RingRuns.CopiesAreTheLog` | data_transfer/client_behaviours.c:307-319 | in every reachable state each reader has consumed one contiguous slice of the log from where it joined, and the bytes it copied are that slice's bytes |
| `RingRuns.HalfCopiesAreTheLog` | data_transfer/client_behaviours.c:311-313 | a byte read in the middle of an unlocked copy is already the log's byte, whatever the writer is copying |
| `RingRuns.WritesMissUnread` | data_transfer/client_behaviours.c:181-183 | in every reachable state the region being written meets no unread region |
| `RingRuns.BacklogBound` | data_transfer/CircularBuffer.c:82-156 | the log is never more than data_len - 1 ahead of a reader, and available data is that distance |
| `RingRuns.RunsOnlyAdvance` | data_transfer/CircularBuffer.c:75-121 | the log only grows, no reader goes back, an unmoved reader stays |
| `RingRuns.StalledReaderStopsWriter` | data_transfer/CircularBuffer.c:82-114 | a reader that stops confirming bounds all the bytes any later run can confirm |
| `RingProgress.LogIsConfirmed` | data_transfer/client_behaviours.c:177-188 | whatever the interleaving, the log grows by exactly the sources that the writer begins and confirms |
| `RingProgress.WriterCanWrite` | data_transfer/client_behaviours.c:177-188 | from every reachable state an idle writer can put any source that fits at the end of the log, by a run of its own steps, and has the rest of the room left |
| `RingProgress.ReaderCanRead` | data_transfer/client_behaviours.c:294-319 | from every reachable state a reader between copies can read any number of its unread bytes up to the end of memory; it has the log's bytes then, and nothing else has changed |
| `RingProgress.ReaderCanSkip` | data_transfer/client_behaviours.c:1115-1120 | it can also pass any number of them over |
| `RingProgress.ReaderCanAlign` | data_transfer/file_consumer.c:143-144 | or all there are at once |
| `Session.BufferSession.OtherThreads` | data_transfer/client_behaviours.c:177-188 | any number of steps of the writer and the other readers keep the session valid, extend the log and leave this reader's position |
| `RingLog.RoomStays` | data_transfer/client_behaviours.c:177-183 | readers that go on, or join where the log ends, only make room |
| `Session.BufferSession.Offer` | data_transfer/client_behaviours.c:177-188 | check, copy outside the lock, confirm: the log grows by the whole source exactly when it fits with the readers where they stood at the check, and not at all otherwise; they only went on to there, so a source that fitted when the call began is accepted |
| `Session.BufferSession.TakeBlock` | data_transfer/client_behaviours.c:1123-1148 | a block that may wrap is taken out byte by byte under interference: the result is the log's slice, and the reader moves by exactly that |
| `Session.BufferSession.TakePiece` | data_transfer/client_behaviours.c:307-319 | one piece of available bytes is the log's next slice, all of what was asked for or as much as lies before the end of memory |
| `Session.BufferSession.Peek` | data_transfer/client_behaviours.c:1163-1166 | a peeked byte is the log's byte although other threads run |
| `Session.BufferSession.Await` | data_transfer/client_behaviours.c:294-305 | every wake-up is spent on a check that found too little in a recording going on: none when the bytes are there at the call, and the wait ends with the first check that finds enough or the recording over, unless all wake-ups are spent |
| `Session.BufferSession.Align` | data_transfer/server_network_consumer.c:229-229 | the reader is put at the end of the log |
| `Frames.MasksAreQuotients` | data_transfer/client_behaviours.c:105-105 | the header and sample masks on eight-bit words are the quotients and remainders used here |
| `Frames.HeaderBits` | data_transfer/client_behaviours.c:105-105 | the header test is 0xAA and the mask 0xFC of the second byte giving 0x80 |
| `Frames.OrIsSum` | data_transfer/server_producer.c:58-65 | the producer's ors and shifts of single bytes are the sums used here |
| `Frames.ShiftsAreProducts` | data_transfer/client_behaviours.c:450-450 | the shifts that put three bytes together, and the producer's raw value, are products and sums on 32-bit words |
| `Frames.BytesAreQuotients` | data_transfer/server_producer.c:54-60 | the shifts and masks that take a raw value apart are quotients and remainders on 32-bit words |
| `Frames.DecodeFrame` | data_transfer/client_behaviours.c:447-458 | the loop over a frame and the swap of halves: the 22 bits of sample i, shifted left by 8 * (3 - gain), land at (i + 512) % 1024 |
| `Frames.EncodeFrame` | data_transfer/server_producer.c:52-66 | the producer's loop lays out every sample and the header where the readers look for them |
| `Frames.EncodedFrameDecodes` | data_transfer/server_producer.c:50-66 | what is encoded passes the header test, keeps its millisecond, and decodes to raw * 2^(8*(3-gain)), sample i at (i + 512) % 1024, with powers of two by doubling |
| `Frames.DecodedSample` | data_transfer/client_behaviours.c:449-458 | the same of any frame: place, gain and value of every sample |
| `Frames.SampleRoundTrip` | data_transfer/server_producer.c:58-60 | a 22-bit sample and its gain survive the three bytes they are spread over |
| `Frames.SwapTwice` | data_transfer/client_behaviours.c:456-458 | the half swap is its own inverse |
| `Frames.SamplesAreSmall` | data_transfer/client_behaviours.c:449-451 | every decoded sample is below 2^46 |
| `Resync.Scan` | data_transfer/client_behaviours.c:1097-1154 | the scan stops at the first match within eight milliseconds, having peeked only at unread bytes |
| `Resync.GetValidMillisecond` | data_transfer/client_behaviours.c:1072-1161 | success returns the 3075 log bytes at the least matching position at or after the reader's start, on a check that found the flag up and ten milliseconds, and leaves the reader just behind them; a stop has discarded no match and found the flag down; waiting on happens only when eight milliseconds were flushed in every round or less than ten are left of what was there, so not when a match lies in the first k rounds and their bytes are there at the call; under every interleaving |
| `Resync.ScanAndTake` | data_transfer/client_behaviours.c:1097-1159 | one round takes the first match or flushes exactly eight milliseconds without one |
| `Resync.WellFramedDiscard` | data_transfer/client_behaviours.c:1099-1159 | on a well-framed stream at most the phase offset, so fewer than 3075 bytes, is discarded before a millisecond is delivered, and nothing when aligned |
| `Resync.WellFramedGivingUp` | data_transfer/client_behaviours.c:1082-1159 | nor is more discarded when none is delivered |
| `Earliest.SortAscending` | data_transfer/client_behaviours.c:1178-1179 | the counters are sorted and are the same counters |
| `Earliest.GetEarliestMs` | data_transfer/client_behaviours.c:1173-1212 | the answer is a member from which the arc covering all counters is shortest, and a gap of 1000 less that arc ends at it; of several such the smallest, but the smallest counter of all only if it is the only one; -1 for none |
| `Earliest.LargestGapIsShortestCover` | data_transfer/client_behaviours.c:1184-1209 | the counter after a largest circular gap starts a shortest covering arc, 1000 less the gap long |
| `Earliest.GapsFitBesideCover` | data_transfer/client_behaviours.c:1184-1209 | no gap is larger than what a shortest cover leaves of the circle |
| `Earliest.ArcReaches` | data_transfer/client_behaviours.c:1184-1209 | the covering arc is the distance to the counter farthest round |
| `Earliest.ShortestCoverStartsFirst` | data_transfer/client_behaviours.c:1173-1212 | if each gap between consecutive true times is smaller than what their span leaves of a second, the answer is the truly earliest one's counter |
| `Earliest.StartsFirstIffSmallGaps` | data_transfer/client_behaviours.c:1173-1212 | with all true times within a second of the first, every shortest cover starts at the first one if and only if the gaps are that small |
| `Earliest.HalfCircleIsEnough` | data_transfer/client_behaviours.c:1173-1212 | true times less than 500 ms apart have such gaps |
| `Processor.FillRow` | data_transfer/client_behaviours.c:440-460 | a row is zeroed and each stream's slot is filled with its decoded frame exactly when that frame carries the current counter |
| `ProcessorThread.FetchUsed` | data_transfer/client_behaviours.c:482-492 | exactly the streams that were used fetch again out of their rings, and there is no more when one of them has nothing more; no row so far changes |
| `ProcessorThread.FetchFirst` | data_transfer/client_behaviours.c:419-423 | each stream's first frame is the first match in its ring's log from where its reader stood |
| `ProcessorThread.OneRow` | data_transfer/client_behaviours.c:438-496 | one pass keeps every row written equal to the machine's row of its step, on what the four rings delivered |
| `ProcessorThread.ProcessRecording` | data_transfer/client_behaviours.c:416-503 | on four input rings and an output ring under interleaving: each frame fetched is the next match in its log, the bytes written are the machine's rows for the steps for which the ring had room, in order, each with its own step as stamp, from the earliest first frame until some used stream runs out; it gives up only for a reason it can show: a counter that is no millisecond, less than ten milliseconds left of what was there, or all its tries used |
| `ProcessorThread.PatienceSuffices` | data_transfer/client_behaviours.c:435-503 | with more tries than the logs hold milliseconds, only the first two of these reasons are left |
| `ProcessorThread.GrowKeepsPast` | data_transfer/client_behaviours.c:482-492 | what is fetched later changes no earlier row and no earlier end |
| `ProcessorThread.AlignedFeedMissesNothing` | data_transfer/client_behaviours.c:1099-1159 | from a header of a well-framed log on, the n-th fetch delivers exactly the n-th millisecond |
| `RowOutput.WriteRow` | data_transfer/client_behaviours.c:462-478 | a row goes out as stamp and data, each confirmed, exactly when the ring has room for it and one byte more behind the rows kept before |
| `RowOutput.NoRowDropped` | data_transfer/client_behaviours.c:463-464 | with room for all rows at the start no row is dropped |
| `Processor.RecordingEnds` | data_transfer/client_behaviours.c:438-503 | with finitely many frames delivered some used stream runs out, so the loop of a recording ends |
| `Processor.Progress` | data_transfer/client_behaviours.c:438-503 | every step fetches a frame or brings a waiting one closer, so the loop of a recording ends |
| `Processor.CurrentIsWrapped` | data_transfer/client_behaviours.c:494-496 | the counter in step k is the start plus k modulo 1000 |
| `Alignment.EachUsedOnTime` | data_transfer/client_behaviours.c:442-492 | with no loss longer than a second each frame is used in the row of its true index |
| `Alignment.OnTimeIffShortLosses` | data_transfer/client_behaviours.c:442-492 | a stream's frames all land in the rows of their true indices if and only if no step of its indices exceeds 1000 |
| `Alignment.LongLossShifts` | data_transfer/client_behaviours.c:482-492 | after a loss longer than a second the next frame is used too early |
| `Alignment.UsedExactlyOnce` | data_transfer/client_behaviours.c:482-492 | a frame given up was used in exactly one row, its own |
| `Alignment.StartsAtFirst` | data_transfer/client_behaviours.c:419-432 | four streams that start within a second, with gaps as small as that, are started at the true index of the earliest |
| `Alignment.TimeAlignment` | data_transfer/client_behaviours.c:419-503 | slot i of row k is stream i's decoded frame of true index first + k if it delivered one, and all zeros otherwise |
| `Alignment.EachFrameOnce` | data_transfer/client_behaviours.c:482-492 | for four streams: no fetched frame is emitted twice or passed over |
| `Alignment.KeptStepsAreOrdered` | data_transfer/client_behaviours.c:462-478 | dropped rows do not move the stamps of later ones |
| `RowStream.RowRoundTrip` | data_transfer/client_behaviours.c:468-473 | a row survives its bytes: stamp and 4096 unsigned 64-bit little-endian numbers, 32776 bytes |
| `RowStream.StepKeepsInv` | data_transfer/client_behaviours.c:462-478 | every step of processor and averager keeps the log whole rows plus at most one stamp, and a reading averager on row boundaries |
| `RowStream.IdleLogIsWholeRows` | data_transfer/client_behaviours.c:506-510 | whenever the recording flag is down the processed log is a multiple of 32776 bytes |
| `RowStream.ReadsAreRows` | data_transfer/client_behaviours.c:826-869 | in every run each block the averager reads is exactly one processor row, in order, across restarts |
| `RowStream.ReadsRightIffBetweenRows` | data_transfer/client_behaviours.c:794-869 | an averager reads the processor's rows in every run until it drains if and only if it registered with no stamp pending |
| `RowStream.MidRowRegistrationMisreads` | data_transfer/client_behaviours.c:794-869 | registered between a stamp and its data, every block it reads until it drains is one row's data, its first value taken for the stamp, with the next row's stamp behind |
| `RowStream.MidRowPosition` | data_transfer/client_behaviours.c:794-799 | a reader that joins between a stamp and its data stands eight bytes into a row |
| `Averager.Accumulate` | data_transfer/client_behaviours.c:879-885 | the loop adds one row to 64-bit accumulators, wrap-around included |
| `Averager.Divide` | data_transfer/client_behaviours.c:888-897 | the loop divides every accumulator by the ratio |
| `Averager.NextRow` | data_transfer/client_behaviours.c:836-869 | the next row read under interleaving is the next 32776 bytes of the ring's log; a row that is unread at the call is taken at once |
| `Averager.AverageRecording` | data_transfer/client_behaviours.c:826-924 | from ring to ring under interleaving: the rows are the log's blocks from where the reader stood, until the recording has ended and less than a row is left, and otherwise as many as were asked for or all that were there at the call; each whole block of `ratio` of them for which there was room gives one output, stamped with the second of its first row; a partial block is dropped |
| `Averager.MeanIsExact` | data_transfer/client_behaviours.c:879-897 | for 46-bit samples and up to 2^18 rows the sums cannot wrap and the output is the element-wise floor mean |
| `Averager.ProcessorRowsAreSmall` | data_transfer/client_behaviours.c:447-458 | the processor's rows are rows of the byte ring and every element is below 2^46 |
| `Averager.EveryBlockIsMean` | data_transfer/client_behaviours.c:887-923 | with room, output b is the mean of rows b*ratio to (b+1)*ratio and the number of outputs is the number of whole blocks |
| `Pipeline.GaplessIndexes` | data_transfer/client_behaviours.c:1099-1159 | what a ring with successive milliseconds delivers has successive true indices |
| `Pipeline.RowIsTrue` | data_transfer/client_behaviours.c:416-478 | every row written holds, stream by stream, what was delivered for its true millisecond, and zeros where nothing was |
| `Pipeline.BlocksAreRows` | data_transfer/client_behaviours.c:462-869 | the blocks read back from a row boundary of the output log are the rows written from there on |
| `Pipeline.AveragesAreTrue` | data_transfer/client_behaviours.c:416-924 | end to end: every value of every average is the floor mean, over the rows of its block, of what that stream delivered for their true milliseconds, and its stamp is the second of the first |
| `Wire.BigRoundTrip` | data_transfer/NetworkProtocol.h:21-25 | the value field survives network byte order |
| `Wire.NetworkOrder` | data_transfer/NetworkProtocol.h:21-25 | byte k of the value field counts 256 to the power 3 - k |
| `Wire.PacketBytes` | data_transfer/NetworkProtocol.h:7-25 | the bytes of each kind of packet |
| `Wire.Socket.RecvExact` | data_transfer/client_behaviours.c:1006-1024 | all the bytes asked for, however recv fragments them, or failure exactly when the stream ends first |
| `Wire.Socket.SendAll` | data_transfer/client_behaviours.c:1026-1051 | all bytes are sent once and in order however send fragments them |
| `Wire.ReceiveData` | data_transfer/client_behaviours.c:163-192 | a payload the sender may send comes in one receive and is kept whole or dropped whole, kept exactly when it fits with the readers where they stood at the check, and always when it fitted before |
| `Wire.Receive` | data_transfer/client_behaviours.c:131-207 | for any fragmentation exactly the packets sent are decoded, the ring's log grows by the payloads that were kept, each exactly when it fits behind those before it with the readers where they stood, who only go on, and the ring's flag and recording number are what the packets told |
| `Wire.LastDecides` | data_transfer/client_behaviours.c:152-201 | the last START or END decides flag and number |
| `Wire.KeptAllIffAllFit` | data_transfer/client_behaviours.c:181-188 | nothing is dropped if and only if every payload fits behind all payloads before it |
| `Wire.RoomForAllIsEnough` | data_transfer/client_behaviours.c:181-188 | which is so whenever all of them together fit at the start |
| `Sender.SendFromRing` | data_transfer/server_network_consumer.c:181-183 | a DATA packet carries the reader's next log slice, 1 to 15000 bytes, read from ring memory outside the lock |
| `Sender.Drain` | data_transfer/server_network_consumer.c:194-243 | after each check of the drain but the last one DATA packet goes out, of the smaller of 1000 bytes and what the check found, up to the end of memory; END goes out exactly when a check finds nothing left |
| `Sender.Finish` | data_transfer/server_network_consumer.c:226-239 | aligning the tail to the head skips nothing there |
| `Sender.ServeStep` | data_transfer/server_network_consumer.c:125-249 | one pass sends what it has to on what it sees: INACTIVE with the flag down and nothing under way, START with the number seen when the flag is up, one DATA packet when 15000 bytes are there and the flag is still up after the wait, none otherwise, and with the flag down the rest and END; grammar and conservation are kept |
| `Sender.Announce` | data_transfer/server_network_consumer.c:148-162 | START carries the recording's number at that moment |
| `Sender.AwaitChunk` | data_transfer/server_network_consumer.c:163-193 | the wait for 15000 bytes, and the packet that follows it or does not |
| `Sender.Serve` | data_transfer/server_network_consumer.c:93-249 | in every run the packets are those its passes have to send on what they saw, pass after pass; they follow the grammar, and their payloads are exactly the log's slice since registration |
| `Sender.ShapeIsPrefix` | data_transfer/server_network_consumer.c:125-249 | what has been sent is a prefix of (INACTIVE | START DATA* END)* |
| `Sender.Transfer` | data_transfer/client_behaviours.c:131-207 | end to end: the client ring's log gains the server reader's slice, less whole payloads that did not fit; all of it exactly when every payload fits as it comes in, and always when the slice fits the client ring at the start; what the server's log held when a drain had caught up has been sent; the client's flag and number mirror the recording announced |
| `Sender.StatusMirrors` | data_transfer/client_behaviours.c:152-201 | for packets of the grammar the client's flag is up exactly while the last recording announced has not ended |
| `Watching.DrainReadsAll` | data_transfer/server_network_consumer.c:194-229 | a drain that has caught up has read all that the log held at its last check, and so all it held when the drain began |
| `FileConsumer.Consume` | data_transfer/file_consumer.c:42-153 | in every run exactly the recordings seen to begin with their record flag set have a file, with all the bytes consumed in them, and the recordings together are the log's slice since registration; each pass takes what it has to on what it sees |
| `FileConsumer.ConsumeStep` | data_transfer/file_consumer.c:42-153 | one pass, by the flag it sees: a new recording with or without a file, one piece when 15000 bytes are there and the flag is still up after the wait, or the drain |
| `FileConsumer.Drain` | data_transfer/file_consumer.c:119-150 | after each check of the drain but the last one piece is written, of the smaller of 1000 bytes and what the check found, up to the end of memory; the reader is left at the end of the log, with nothing skipped |
| `FileConsumer.FileIsSlice` | data_transfer/file_consumer.c:92-150 | every file is one unbroken slice of the log |
| `Scheduler.NextItem` | data_transfer/db_transfer.c:166-171 | the query gives a selected item with the least observation start, and none exactly when none is selected |
| `Scheduler.QueryWindow` | data_transfer/db_transfer.c:166-171 | it finds nothing exactly when no event is more than 10 and less than 300 seconds away |
| `Scheduler.ItemById` | data_transfer/db_transfer.c:269-271 | the cancel check finds an item with the id, and none exactly when there is none |
| `Scheduler.Server.Pass` | data_transfer/server.c:110-210 | one pass of the loop tells every session the same and is one step of the timed machine |
| `Scheduler.Server.Run` | data_transfer/server.c:110-210 | any number of passes is that many steps |
| `Scheduler.PassKeepsPlan` | data_transfer/server.c:118-205 | each pass leaves the server resting, aiming or recording as the plan says, later than before |
| `Scheduler.EveryMomentIsCovered` | data_transfer/server.c:110-210 | every moment from the start on falls into the sleep of some pass |
| `Scheduler.RecordsExactlyThePlan` | data_transfer/server.c:106-205 | with more than ten seconds between events, the recording flag is at every moment up exactly when some item is due, and the sessions hold that item |
| `Scheduler.FollowsPlanIffWellSpaced` | data_transfer/server.c:106-205 | for plans as the web form makes them, every moment of the run is right if and only if every recording lasts, and every two items lie, more than ten seconds apart |
| `Scheduler.ShortRecordingOverruns` | data_transfer/db_transfer.c:168-170 | a recording of ten seconds or less is over before its end can be found, and the flag is still up then |
| `Scheduler.CloseItemIsMissed` | data_transfer/db_transfer.c:168-170 | an item that starts ten seconds or less after another one ends is not recorded as planned |
| `Scheduler.ShortRecordingNeverEnds` | data_transfer/db_transfer.c:168-170 | alone in the plan, a recording of ten seconds or less is started on time from the beginning of the run, and its flag stays up for good |
| `Scheduler.CancelledStopsIffNothingNear` | data_transfer/server.c:118-140 | the flag of a cancelled recording goes down at once if and only if no other item has an event in the query's window |
| `JsonString.Utf8RoundTrip` | data_transfer/cJSON.c:776-800 | every code point is read back from its encoding, whose first byte tells the length (RFC 3629, section 3) |
| `JsonString.ContinuationByte` | data_transfer/cJSON.c:805-805 | the encoder's masks on a word are 0x80 plus its low six bits |
| `JsonString.PairMasks` | data_transfer/cJSON.c:758-758 | the masks and shifts of a surrogate pair are the remainders, product and sum used here, on 32-bit words |
| `JsonString.SurrogateOffsets` | data_transfer/cJSON.c:758-758 | and these give the code point of RFC 2781, section 2.2 |
| `JsonString.StepFits` | data_transfer/cJSON.c:845-861 | one decoding step writes no more than the first scan's reserve shrinks by, even where the two scans segment the text differently |
| `JsonString.DecodedFits` | data_transfer/cJSON.c:844-939 | on every literal the decoded text fits the reserve of the first scan |
| `JsonString.LiteralDecodes` | data_transfer/cJSON.c:875-930 | every well-formed literal (RFC 8259, section 7, paired surrogates) decodes to the UTF-8 of its characters |
| `JsonString.LiteralEnds` | data_transfer/cJSON.c:838-857 | the first scan finds the closing quote of every well-formed literal |
| `JsonString.LiteralParses` | data_transfer/cJSON.c:824-951 | so such a literal parses to that text, whatever follows it |
| `JsonString.EscapingIsLiteral` | data_transfer/cJSON.c:1000-1068 | what the printer escapes is a well-formed literal that means the original bytes |
| `JsonString.StringRoundTrip` | data_transfer/cJSON.c:824-1073 | printing a NUL-free string and parsing it back gives the string |
| `JsonRfc.ShortEscapes` | data_transfer/cJSON.c:887-906 | the escapes of one character that are read, and their bytes |
| `JsonRfc.HexDigits` | data_transfer/cJSON.c:666-700 | a hexadecimal digit, in upper or lower case, stands for its place among the sixteen |
| `JsonRfc.FourDigits` | data_transfer/cJSON.c:666-700 | and four of them for the number they make up |
| `JsonRfc.SurrogateBits` | data_transfer/cJSON.c:703-760 | the ranges of the surrogate halves are their top six bits, 110110 and 110111 |
| `JsonRfc.NumberCharacters` | data_transfer/cJSON.c:325-354 | the characters that are collected for a number |
| `JsonRfc.IntegerRead` | data_transfer/cJSON.c:372-404 | of a sign and digits, with nothing or another sign behind them, the number that they stand for is read |
| `JsonParser.ParseBuffer.SkipWhitespace` | data_transfer/cJSON.c:1090-1113 | skips bytes up to 32, and at the end of the buffer steps back onto the last byte |
| `JsonParser.ParseBuffer.ParseHex4` | data_transfer/cJSON.c:666-699 | four hexadecimal digits as a number, 0 if one is not a digit |
| `JsonParser.ParseBuffer.FindEnd` | data_transfer/cJSON.c:841-857 | the first scan finds the closing quote if there is one and counts the escapes before it, inside the buffer |
| `JsonParser.ParseBuffer.Utf16Codepoint` | data_transfer/cJSON.c:714-759 | the code point and length of a \u literal or pair, 0 exactly where it is malformed |
| `JsonParser.ParseBuffer.EncodeUtf8` | data_transfer/cJSON.c:771-816 | the loop from the last byte to the first appends the UTF-8 of the code point |
| `JsonParser.ParseBuffer.Decode` | data_transfer/cJSON.c:866-930 | the second scan decodes the literal or fails exactly where decoding is undefined, and writes only inside what the first scan reserved, on every input |
| `JsonParser.ParseBuffer.DecodeLiteral` | data_transfer/cJSON.c:859-935 | exactly what the first scan reserved is allocated, and the output's C string is the decoded text up to a NUL |
| `JsonParser.ParseBuffer.ParseString` | data_transfer/cJSON.c:824-951 | succeeds exactly when the grammar's string does, with its text and the offset just after it |
| `JsonParser.ParseBuffer.CountNumber` | data_transfer/cJSON.c:325-362 | the loop collects exactly the run of characters a number may have |
| `JsonParser.ParseBuffer.ParseNumber` | data_transfer/cJSON.c:307-411 | consumes exactly the integer that the collected characters begin with |
| `JsonParser.ParseBuffer.ParseValue` | data_transfer/cJSON.c:1368-1420 | succeeds exactly when the grammar's value does, with its tree, its rest and the depth restored; never reads outside the buffer |
| `JsonParser.ParseBuffer.ParseArray` | data_transfer/cJSON.c:1497-1592 | the same for arrays, nesting limit included |
| `JsonParser.ParseBuffer.ParseItems` | data_transfer/cJSON.c:1526-1566 | the loop over the elements is the grammar's list |
| `JsonParser.ParseBuffer.ParseObject` | data_transfer/cJSON.c:1662-1777 | the same for objects |
| `JsonParser.ParseBuffer.ParseMembers` | data_transfer/cJSON.c:1693-1749 | the loop over the members is the grammar's list |
| `JsonParser.ParseWithLength` | data_transfer/cJSON.c:1147-1224 | the document parser: byte order mark, white space, value, and the terminator if required |
| `JsonRoundTrip.IntegerRoundTrip` | data_transfer/cJSON.c:375-383 | the decimal text of every 32-bit integer reads back as it |
| `JsonRoundTrip.ValueRoundTrip` | data_transfer/cJSON.c:1368-1896 | the text of any value at any depth, followed by anything that cannot continue a number, parses to the value and leaves what follows |
| `JsonRoundTrip.PrintParseRoundTrip` | data_transfer/cJSON.c:1227-1315 | parsing the formatted or unformatted text of any tree nested at most 1000 deep gives the tree, member order and duplicate keys included |
| `Json.RenderIsText` | data_transfer/cJSON.c:1423-1494 | rendered text contains no NUL |
| `JsonRfc.Names` | data_transfer/cJSON.c:1423-1446 | the texts of null, true and false |
| `JsonRfc.NumberText` | data_transfer/cJSON.c:596-663 | a number's text is its decimal digits without leading zeros, after a minus sign if it is negative |
| `JsonRfc.StringText` | data_transfer/cJSON.c:954-1073 | a string's text is its bytes between quotes, with quotes, backslashes and control characters escaped as in section 7 of RFC 8259, and nothing else |
| `JsonRfc.ArrayText` | data_transfer/cJSON.c:1595-1659 | an array's text is its items' between brackets, with commas, and formatted a space, between them |
| `JsonRfc.ObjectText` | data_transfer/cJSON.c:1780-1896 | an object's text is its members' between braces, key, colon and value, with commas between them; formatted, each on a line of its own, with a tab behind the colon and one for each level before the key |
| `JsonPrint.PrintBuffer.Ensure` | data_transfer/cJSON.c:490-573 | room is granted exactly when the buffer can grow that far; it grows to twice what is needed, or to the most there can be, and keeps every earlier byte |
| `JsonPrint.PrintBuffer.UpdateOffset` | data_transfer/cJSON.c:576-586 | offset plus strlen is the end of the text |
| `JsonPrint.PrintBuffer.Write` | data_transfer/cJSON.c:647-660 | bytes go only where room was granted and leave everything before them alone |
| `JsonPrint.PrintBuffer.PrintNumber` | data_transfer/cJSON.c:596-663 | the decimal text, its NUL, and the offset moved to its end; the 26-byte temporary is large enough |
| `JsonPrint.PrintBuffer.CountEscapes` | data_transfer/cJSON.c:977-1000 | the first pass counts exactly what escaping adds |
| `JsonPrint.PrintBuffer.PrintStringPtr` | data_transfer/cJSON.c:954-1073 | the quoted, escaped text and its NUL, inside the grant computed by the first pass |
| `JsonPrint.PrintBuffer.PrintValue` | data_transfer/cJSON.c:1423-1494 | for every tree and buffer: succeeds exactly when nesting and room allow, and then the bytes up to the NUL are the rendered text after what was there before |
| `JsonPrint.PrintBuffer.PrintArray` | data_transfer/cJSON.c:1595-1659 | the same for arrays, the nesting limit included |
| `JsonPrint.PrintBuffer.PrintMember` | data_transfer/cJSON.c:1814-1872 | one member: indentation, key, colon, value, comma and line end |
| `JsonPrint.PrintBuffer.PrintObject` | data_transfer/cJSON.c:1780-1896 | the same for objects |
| `JsonPrint.PrintPreallocated` | data_transfer/cJSON.c:1348-1365 | succeeds exactly when the buffer has room for the text, its NUL and one byte more |
| `JsonPrint.PrintBuffered` | data_transfer/cJSON.c:1317-1346 | gives the same text whatever size it starts with, and fails exactly for a negative size, too deep nesting or text near 2^31 |
| `JsonPrint.Print` | data_transfer/cJSON.c:1239-1315 | gives exactly the rendered text, as a C string of its own |
| `JsonPrint.PrintAndParse` | data_transfer/cJSON.c:1227-1315 | printing and parsing, both as they run, give back the tree |
| `JsonCompare.IntegersCompareExactly` | data_transfer/cJSON.c:589-593 | the relative tolerance is exact on 32-bit integers |
| `JsonCompare.CaseInsensitiveStrcmp` | data_transfer/cJSON.c:133-154 | 0 exactly when the lengths agree and at each place the bytes do, or one is a letter 65..90 and the other is it plus 32 |
| `JsonCompare.GetObjectItem` | data_transfer/cJSON.c:1951-1981 | the cursor loop finds the first member whose key is the same in that sense, or the same bytes when case counts |
| `JsonCompare.FoldIsSameKey` | data_transfer/cJSON.c:133-154 | folded keys are equal exactly when the keys are the same in that sense |
| `JsonCompare.CompareNodes` | data_transfer/cJSON.c:3072-3195 | the loops compute the comparison relation and terminate |
| `JsonCompare.CompareIsPermutation` | data_transfer/cJSON.c:3141-3195 | with distinct keys, true exactly when the trees are equal up to the order of object members at every level |
| `JsonCompare.CompareIsEquivalence` | data_transfer/cJSON.c:3072-3195 | so it is reflexive, symmetric and transitive there |
| `JsonCompare.DuplicateKeysBreakReflexivity` | data_transfer/cJSON.c:3158-3172 | with a key twice and different values a tree does not equal a copy of itself |
| `JsonConsistent.ReflexiveIffConsistent` | data_transfer/cJSON.c:3072-3195 | a tree equals a copy of itself if and only if no repeated key has two meanings, at any level |
| `JsonConsistent.ReorderingIsEqualIffConsistent` | data_transfer/cJSON.c:3141-3195 | two trees that are the same up to the order of members compare equal exactly when they are consistent in that sense |
| `JsonConsistent.CompareIsSameMeaning` | data_transfer/cJSON.c:3141-3195 | on such trees the comparison is equality of meaning, an object being a map from its keys |
| `JsonConsistent.EqualMeansSame` | data_transfer/cJSON.c:3141-3195 | what equals such a tree is one, and means the same |
| `JsonConsistent.CompareIsSymmetric` | data_transfer/cJSON.c:3141-3195 | the comparison is symmetric on all trees |
| `JsonConsistent.CompareIsTransitive` | data_transfer/cJSON.c:3072-3195 | and transitive on all trees |
| `JsonConsistent.ConsistentTogether` | data_transfer/cJSON.c:3141-3195 | trees that compare equal are consistent together or not at all |
| `JsonConsistent.DistinctIsConsistent` | data_transfer/cJSON.c:3141-3195 | trees with distinct keys are consistent |
| `JsonList.GetArraySize` | data_transfer/cJSON.c:1899-1920 | the number of children |
| `JsonList.GetArrayItem` | data_transfer/cJSON.c:1922-1949 | the item at a place, NULL outside the list |
| `JsonList.AddItemToArray` | data_transfer/cJSON.c:2027-2058 | appending makes the sequence longer by the item if the list was empty or the item's next was NULL, and breaks the list otherwise |
| `JsonList.InsertItemInArray` | data_transfer/cJSON.c:2334-2366 | inserting puts the item at its place or at the end |
| `JsonList.DetachItemViaPointer` | data_transfer/cJSON.c:2258-2292 | detaching removes exactly that node and leaves it pointing nowhere |
| `JsonList.ReplaceItemViaPointer` | data_transfer/cJSON.c:2368-2415 | replacing updates exactly that place |
| `JsonList.DetachItemFromArray` | data_transfer/cJSON.c:2294-2302 | the same by index, nothing happening outside the list |
| `JsonList.ReplaceItemInArray` | data_transfer/cJSON.c:2417-2425 | the same by index |
| `JsonList.RunEdits` | data_transfer/cJSON.c:2027-2425 | after any run of edits the children are the sequence the edits make, with next chain, prev links and the head's link to the tail intact |
| `JsonMinify.SkipOnelineComment` | data_transfer/cJSON.c:2875-2886 | stops behind the line's end or at the NUL |
| `JsonMinify.SkipMultilineComment` | data_transfer/cJSON.c:2888-2900 | stops behind the comment's end or at the NUL |
| `JsonMinify.MinifyString` | data_transfer/cJSON.c:2902-2922 | copies up to the first quote that is not right after a backslash, or up to the NUL |
| `JsonMinify.Minify` | data_transfer/cJSON.c:2924-2970 | in place, the write cursor never ahead of the read cursor: the array then begins with what is left of the text, NUL included |
| `JsonMinify.MinShape` | data_transfer/cJSON.c:2924-2970 | which is a C string no longer than the text |
| `JsonMinifyPieces.MinLeavesPieces` | data_transfer/cJSON.c:2924-2970 | however a text is cut up into blanks, comments, slashes that open none, literals and other bytes, minifying leaves the literals and the other bytes, in order |
| `JsonMinifyPieces.CutUp` | data_transfer/cJSON.c:2875-2922 | and every text can be so cut up |
| `JsonMinifyPieces.MinIsTrimmed` | data_transfer/cJSON.c:2935-2957 | a minified text has no tab, line feed, carriage return, space or slash outside of its strings |
| `JsonMinified.MinTwice` | data_transfer/cJSON.c:2924-2970 | minifying twice is minifying once, on every text |
| `JsonMinified.StringsAgree` | data_transfer/cJSON.c:2902-2922 | minifier and parser agree where a string ends if and only if its closing quote is not right after a backslash or nothing follows it |
| `JsonMinified.UntouchedErases` | data_transfer/cJSON.c:2924-2970 | where minifying drops no byte that the parser has inside a literal, it drops white space outside of literals and nothing else |
| `JsonErased.ValueErased` | data_transfer/cJSON.c:1368-1777 | a value is read the same, with a rest so related, when white space between tokens is dropped |
| `JsonErased.TextErased` | data_transfer/cJSON.c:1147-1224 | so is a whole text that parses up to its NUL |
| `JsonLiterals.TextReads` | data_transfer/cJSON.c:1147-1224 | the literals of a text that parses, read off without its grammar, are the strings and keys of its tree in order |
| `JsonQuotes.QuotesOnlyFall` | data_transfer/cJSON.c:2924-2970 | minifying leaves no more quotes around literals than the text had, comments and escapes included |
| `JsonMinifyLoss.CommentRead` | data_transfer/cJSON.c:2875-2900 | a comment that the minifier sees inside a literal ends at a token of that literal, or takes quotes away |
| `JsonMinifyLoss.Lag` | data_transfer/cJSON.c:2902-2970 | once a literal has lost a byte, what is left of it never decodes to the same, whatever is dropped or runs together behind |
| `JsonMinifyExact.BodyUntouched` | data_transfer/cJSON.c:2902-2970 | a literal that decodes to the same has been copied byte by byte |
| `JsonMinifyExact.UntouchedKeepsMeaning` | data_transfer/cJSON.c:2924-2970 | every text that parses up to its NUL, and of whose literals minifying drops no byte, keeps its tree |
| `JsonMinifyExact.KeepsMeaningIffUntouched` | data_transfer/cJSON.c:2924-2970 | of the texts without a NUL in a literal exactly those keep their tree: both scans side by side decide it |
| `JsonMinifyExact.MinifiedText` | data_transfer/cJSON.c:2924-2970 | the same said of the C string that is left |
| `JsonMinifyExact.NulHidesLoss` | data_transfer/cJSON.c:824-951 | with a NUL in a literal a byte dropped behind it can go unseen |
| `JsonMinifyExact.TidyIsUntouched` | data_transfer/cJSON.c:2902-2922 | texts whose closing quotes do not come right after a backslash lose nothing of their literals |
| `JsonMinified.MinifyCanChangeMeaning` | data_transfer/cJSON.c:2911-2920 | a text with a string that ends in a backslash parses to a different tree after minifying |

## Left out

- Weak memory: all steps are sequentially consistent, and condition variables may wake at any time, so nothing is claimed about when a waiting thread goes on.
- The bound `wakeups` in `Resync`, `Session.Await`, `Sender` and `FileConsumer` limits how often a thread runs its endless loop, in `ProcessorThread` and `Averager` as well; everything is proved for every bound, and what a bound is spent on is part of each contract.
- Masks and shifts: the lemmas on bit vectors in `Frames` and `JsonString` tie them to the quotients and remainders on unbounded integers used everywhere else; the 64-bit wrap-around of the averager is explicit.
- The ring's API returns `int`; rings of 2^31 bytes or more, fewer than 2 bytes, and more than 128 registrations are outside the model.
- Sockets, name resolution, USB, SQLite, curl, files and directories, `sendfile` and the file header: `recv` and `send` fragment arbitrarily, a file is the bytes written to it, a query is a predicate with an order.
- Failing sends, and a connection that ends inside a packet, in which the code makes no progress or leaves a lock twice released.
- ProcessorThread.ProcessRecording: stops, with what it has written so far, when a first fetch fails, whose result the code ignores, and when a match carries a counter of 1000 or more, which the ten bits of a header could. The drain after a recording and the wait for all four flags before it are not in this method; `RowStream` has the effect of both on the rows.
- Averager.AverageRecording: one recording; the drain after it is a step of `RowStream`. Ratios below 1, for which no block is ever completed, are left out.
- Pipeline.AveragesAreTrue: speaks of an averager that stands on a row boundary of what one recording wrote, as `RowStream.ReadsRightIffBetweenRows` gives it, and of streams with true indices, losses of at most a second, and starts within a second of each other with small gaps (`Earliest.SmallGaps`).
- Earliest.SortAscending: the library sort is modelled by an insertion sort; callers use only that the result is the sorted counters.
- Wire.Receive: packets a sender may send, then a clean close; the unknown-magic exit is not reached on such a connection.
- Scheduler.RecordsExactlyThePlan: the plan is fixed during a run and work between sleeps takes no time; replacing the plan between passes is left out, and cancelling is one pass (`Scheduler.CancelledStopsIffNothingNear`).
- JsonGrammar.ReadInteger: `strtod` is modelled where it reads an integer of 32 bits; texts with fractions, exponents or larger numbers count as not accepted here.
- JsonParser.ParseBuffer.ParseValue: builds trees as values, not as linked nodes, and says nothing about the error position after a failure; `JsonList` has the linked form.
- JsonPrint.PrintBuffer.PrintValue: prints trees as values; numbers are 32-bit integers; NULL strings, raw items and allocation failure are left out, and growth is the library's `realloc`.
- JsonCompare.CompareNodes: compares values, so the shortcut for one and the same node is absent; by `JsonConsistent.ReflexiveIffConsistent` it changes nothing exactly on consistent trees. NULL keys and raw items are left out.
- JsonCompare.CompareIsPermutation: for distinct keys; `JsonConsistent.ReorderingIsEqualIffConsistent` says exactly what holds without them.
- JsonList.InsertItemInArray: an item appended to a list that is not empty must not point anywhere, because appending keeps its `next`; `JsonList.AddItemToArray` says exactly when that matters.
- JsonList.ReplaceItemViaPointer: releasing the replaced item's memory is left out, as are references and hooks.
- JsonMinifyExact.KeepsMeaningIffUntouched: for texts of which no literal decodes to a NUL; `JsonMinifyExact.NulHidesLoss` shows why. That an untouched text keeps its tree holds with them too (`JsonMinifyExact.UntouchedKeepsMeaning`).
- `data_transfer/client_producer.c`, the configuration, the status writers, the web pages and the plotting scripts are out of scope: the model is of the data path, the plan and the JSON library.
