# Verification of the Chronos Go SDK core

This project models the parts of the Chronos Go SDK whose behaviour is hardest to see from one
function at a time, and proves properties of them that span functions, runs and interleavings.
`dafny verify dfyconfig.toml` checks everything.

## What is modelled

**The spool log** (`spool/segment.go`). `Frames` holds the binary frame codec over `Crc32` and
`JsonHeader`, with `CrcTable` and `GoldenFrame` for which CRC-32 and which bytes those are;
`SegmentName` and `Generations` the naming and listing of segments. Two models of the log share
them. `SpoolMachine` is the multi-writer protocol as a step machine: the directory maps generations
to inodes, inodes outlive their names, each writer has a program counter through `openActive`,
`Stat`, `rotate`, `enforceSegmentBudget` and the one `Write`, and every system call is one step, so
an arbitrary event list is an arbitrary interleaving with any number of writers and with an agent
that deletes segments. `SpoolOrder`, `SpoolBudget`, `SpoolSize`, `SpoolContents`, `SpoolDrops` and
`SpoolLosses` prove what every run keeps; `SpoolReached` and `SpoolWrap` give runs that show where
the size limit is exact and where it ends, over `SpoolFill`, what one writer leaves behind that
appends over and over; `SegmentListing` is `openActive` on a directory of arbitrary file names.
`SegmentLog` is the log one writer sees, a class that changes its directory and drop counters in
place; `SpoolFifo` proves it a queue that only loses from the front, and `SpoolSolo` proves that an
undisturbed Append of the machine is exactly its Append.

**The span buffer** (`span_buffer.go`). `SpanBuffer` has the buffer and the client as classes that
change their fields, and the sequential theorem; `SpanFlow` is the step machine with any number of
flushes in flight.

**The Kafka batch consumer** (`contrib/sarama/batch.go`). `Consume` is the accumulate-and-flush
loop driven by an arbitrary list of select outcomes. `BatchSpans` is the life of the spans of one
batch, under any policy, for an arbitrary handler: a script of ContextFor and Each calls nested to
any depth, each function of which may return, fail or panic. Its class `Batch` runs such a script
on mutable fields and is proved equal to the functions the theorems are about.

**Propagation** (`propagation.go`, `tracing.go`, `contrib/sarama/sarama.go`). `Traceparent`,
`Tracestate` and `Baggage` are the parsers, printers and normalisers on bytes, the last two over
`Members`; `Tracing` has spans and contexts as linked lists; `Carrier` carries them over Kafka
headers.

**Two smaller pieces.** `WallSampler` (`profile_wall.go`) is the capped table of stacks against a
plain count. `MySqlDsn` (`sql_dsn.go`) is the MySQL connection string reader.

Strings are byte sequences. Integer widths are written out where they matter: `PutUint16` and
`PutUint32`, the 32-bit CRC register, and the wrap-around of a uint64 generation.

## Where the code departs from its documentation, or a natural claim fails

- A segment can exceed `SegmentMaxBytes` by more than one frame: W writers that all pass `Stat`
  one byte below the threshold and then all write bring it to exactly SegmentMaxBytes - 1 + W
  frames (`SpoolReached.SizeLimitIsReached`), which `SpoolSize.SegmentSizeLimit` proves to be the
  most. A writer that loses a rotation also appends without a second `Stat`, however full the
  segment is that it opens (spool/segment.go:187-198): `SpoolReached.LoserOverfills`.
- The limit ends where the generation counter does. It holds over every run in which no rotation
  of the last generation a uint64 holds is lost, and once one is, the loser alone can grow that
  segment past any size: `SpoolWrap.LostLastDefeatsSizeLimit`.
- An append loses only what the budget drops and enqueues its frame if and only if it does not
  rotate to a generation that is free because the counter wrapped:
  `SpoolFifo.EnqueuesUnlessItWraps`.
- `droppedFrames` counts one per segment the budget drops (spool/segment.go:217-220). In a
  directory within the budget, that is the number of frames lost if and only if nothing is dropped
  or the one segment dropped held exactly one (`SpoolFifo.CountsFramesWithinBudget`); of several,
  if none was empty, if and only if each did (`SpoolFifo.CountsSegmentsNotFrames`).
  `SpoolFifo.EightFramesCountedOnce` is what one writer's own appends lead to.
- `droppedBytes` grows by what the `Stat` before a removal saw. While the name stays the same
  inode's, that is what was removed if and only if nobody wrote to it in between
  (`SpoolDrops.CountsWhatItStatted`); if the name was re-created meanwhile, bytes may be counted
  that were not removed (`SpoolDrops.RecreatedBetweenStatAndRemove`). Both are reached from an
  empty directory: `SpoolDrops.UndercountIsReached`, `SpoolDrops.OvercountIsReached`.
- A `Write` to a segment that was removed or shipped meanwhile returns success and moves no
  counter. `SpoolLosses.EveryFrameAccounted` gives every accepted frame one of five places over
  every run, these lost writes among them, and `SpoolLosses.SilentLossIsReached` a run with one.
- `generationOf` also accepts names `segmentName` never prints. Opening by generation then misses
  the file that was listed; `SegmentName.ListedNameIsOpenedName` says exactly for which names the
  two agree, and `SegmentListing.ReturnsUnlessStuck` exactly when `openActive`, and so Append,
  rescans for ever.
- At its cap the span buffer asks the spool no more (span_buffer.go:66-70, 119-125), and only
  there: `SpanBuffer.NeverAskedIffAtCap`.
- Spans keep their order with at most one flush in flight, and with no larger number
  (span_buffer.go:97-110): `SpanFlow.OneFlightKeepsOrder`. With more, a run is in order if and only
  if each write that succeeds is of the oldest batch in flight and each that fails of the youngest,
  or finds no room: `SpanFlow.OrderKeptExactly`.
- `ProcessBatch` dereferences its first and last message unguarded
  (contrib/sarama/batch.go:437-458): a nil one panics before the handler runs, and a nil last one
  leaves a batch span that never ends. `BatchSpans.RunRecordsEverySpan` says that this is the only
  way to lose one; `BatchSpans.NilLastLosesBatchSpan` is an input.
- `NormalizeBaggage` is not idempotent: percent-encoding can lengthen a header past the 8192 bytes
  the next pass accepts (propagation.go:315). `Baggage.IdempotentWhenItFits` is the exact
  condition, `Baggage.BaggageOutgrowsItsCap` an input, and `Carrier.SecondHopIsExact` what it
  means for a chain of publishes.

## Model

| member | source | states |
|---|---|---|
| Frames.EncodeFrame | spool/segment.go:82-108 | Succeeds exactly on frames that name signal and encoding, with a payload of at most 8 MiB and a header of at most 65535 bytes, with the frame's bytes; the error is the first of these checks to fail |
| Frames.RefusalSaysWhy | spool/segment.go:83-95 | Which frames are turned down, and with which error, in numbers |
| GoldenFrame.GoldenVector | spool/segment_test.go:19-29 | The frame of trace, json, abc123 and {} is, byte for byte, the one the readers in other languages agree on |
| Frames.DecodeFrames | spool/segment.go:289-322 | The loop over offsets computes the recursive meaning of a log: frames up to the first error, that error, or the first incomplete frame |
| Frames.FramesTakeTheirPrefix | spool/segment.go:293-319 | Each frame decoded takes at least the 14 bytes of its prefix |
| Frames.Uint16RoundTrip | spool/segment.go:103 | Two little-endian bytes give back any 16-bit length |
| Frames.Uint32RoundTrip | spool/segment.go:104-105 | Four little-endian bytes give back any 32-bit value |
| Frames.RoundTrip | spool/segment.go:82-108 | Decoding the concatenation of any list of encoded frames returns the list and no error |
| Frames.RoundTripWithJsonReader | spool/segment.go:289-322 | With the JSON reader of JsonHeader and nothing assumed, every list of encodable frames is read back with its strings made UTF-8, and exactly if and only if they were |
| Frames.LogInjective | spool/segment.go:289-322 | Two logs with the same bytes hold the same frames |
| Frames.WholeFramesIsGreatest | spool/segment.go:293-303 | The frames counted as wholly inside n bytes are exactly those whose log fits in n bytes |
| Frames.DecodePrefix | spool/segment.go:289-322 | A log cut at any byte decodes without an error to exactly the frames wholly inside the cut |
| Frames.CorruptionDetected | spool/segment.go:304-307 | Changing one frame's body within four consecutive bytes makes the decoder return every earlier frame and a checksum error at that frame, whatever follows |
| Frames.BoundaryIsLost | spool/segment.go:294-297 | Bytes behind whole frames that do not start with CHRN end the decoding there with the frames so far and a lost boundary |
| Frames.HeaderIsBad | spool/segment.go:308-311 | So does a whole frame whose header cannot be read, with a bad header at that frame |
| Crc32.FeedAllLinear | spool/segment.go:105 | Section 3.2.9 of IEEE 802.3: the difference of two registers evolves by the difference of the bytes fed |
| Crc32.FeedAllInjective | spool/segment.go:105 | Equal registers after equal bytes were equal before |
| Crc32.BurstToZero | spool/segment.go:105 | At most four bytes drive the register to zero from one state only, the one that spells them |
| Crc32.BurstDetected | spool/segment.go:105 | Any change confined to four consecutive bytes changes the checksum |
| CrcTable.FeedIsLookup | spool/segment.go:105 | Feeding a byte is the table step of section 3.2.9 of IEEE 802.3: the entry of the low byte against the rest moved down, every entry being the xor of the eight single-bit ones, given as numbers |
| CrcTable.SingleBitShifts | spool/segment.go:105 | Each single-bit entry is what eight steps of the register make of that bit |
| CrcTable.CheckValue | spool/segment.go:105 | The checksum of 123456789 is 0xCBF43926 |
| JsonHeader.ReadEscaped | spool/segment.go:89 | Section 7 of RFC 8259: reading an escaped string gives the string back, U+FFFD standing for bytes that are not UTF-8, and stops at its closing quote |
| JsonHeader.SanitizedIffValid | spool/segment.go:89 | A string survives unchanged if and only if it is valid UTF-8 |
| JsonHeader.ReadMarshalledHeader | spool/segment.go:74-89 | The three-field header is read back with its strings made UTF-8, so as written if and only if all three are valid UTF-8 |
| SegmentName.GenerationOfSegmentName | spool/segment.go:110-124 | Every uint64 generation is read back from its own name |
| SegmentName.SegmentNameInjective | spool/segment.go:110-112 | Two generations never share a name |
| SegmentName.NamesAsPrinted | spool/segment.go:110-112 | Generation 1 is segment-000001.spool and generation 1234567 segment-1234567.spool |
| SegmentName.ListedNameIsOpenedName | spool/segment.go:110-124 | A listed name is the one opening its generation will look for, if and only if its digits are those %06d prints |
| SegmentListing.ReturnsUnlessStuck | spool/segment.go:152-182 | An undisturbed openActive returns, in its first turn, if and only if some file of the newest listed generation has the name segmentName prints; otherwise it never does |
| SegmentListing.OneDigitTooMany | spool/segment.go:110-124 | A directory whose one file has its number padded one digit too wide, in which it never returns |
| Generations.AscendingUnique | spool/segment.go:126-140 | A set of generations has one ascending list |
| Generations.AscendingDrop | spool/segment.go:211-213 | Removing the k oldest generations removes the first k of the list |
| SpoolMachine.RunWriterValid | spool/segment.go:152-270 | Every step of every writer keeps each name on an inode of its generation and each descriptor on an inode that exists |
| SpoolOrder.VictimsOlder | spool/segment.go:206-213 | What a budget scan condemns is older than the newest segment it saw |
| SpoolOrder.NewestNeverDecreases | spool/segment.go:152-222 | Over every run with an agent that spares the newest segment, the newest generation never decreases |
| SpoolOrder.BudgetSparesNewest | spool/segment.go:206-222 | In every state of such a run, the segment a writer is about to remove, from a scan however stale, is not the newest |
| SpoolBudget.BudgetFromAnyStart | spool/segment.go:187-222 | From any start within the budget and whatever the agent deletes, the directory holds at most MaxSegments + 1 segments plus one per writer between its create in rotate and the end of its own budget pass |
| SpoolBudget.BudgetHolds | spool/segment.go:187-222 | With an agent that spares the newest segment and a directory that is not empty, the extra one goes |
| SpoolBudget.BudgetFromStart | spool/segment.go:187-222 | The same from every start with one to four segments and nobody inside Append |
| SpoolSize.BoundedRunning | spool/segment.go:152-198 | In every state of a run in which no rotation of the last generation is lost, each inode over the threshold has spent one armed writer per frame beyond it |
| SpoolSize.SegmentSizeLimit | spool/segment.go:242-263 | With W writers no segment, linked or not, exceeds SegmentMaxBytes - 1 + W(14 + 65535 + 8 MiB) bytes, rotation losers that skip Stat included, unless a rotation of the last uint64 generation is lost |
| SpoolSize.SegmentSizeLimitOfShortRuns | spool/segment.go:242-263 | The same under a condition on the start alone: fewer steps than generations left |
| SpoolReached.SizeLimitIsReached | spool/segment.go:242-263 | For every W a run from an empty directory, in which the agent takes no step, that brings a segment to exactly that limit |
| SpoolSolo.Loser | spool/segment.go:187-198 | The writer that lost its rotation, left alone, appends to the newest segment whatever its size, and counts nothing |
| SpoolReached.LoserOverfills | spool/segment.go:187-198 | A run from an empty directory to a state in which writer 1 stands at the rotation of segment 1, segment 2 exists and is full, and from which writer 1's turns alone bring segment 2 to more than one frame over the threshold |
| SpoolWrap.WrapDefeatsSizeLimit | spool/segment.go:187-192 | With generation zero and the last generation taken, n undisturbed appends grow the last segment by exactly n frames, full or not |
| SpoolWrap.LostLastDefeatsSizeLimit | spool/segment.go:187-192 | From any state in which a writer is about to lose a rotation of the last generation, that writer alone can bring the last segment past any size |
| SpoolContents.IntactAlways | spool/segment.go:229-270 | In every reachable state each inode's bytes are the concatenation of the whole frames written to it, in write order |
| SpoolContents.FramesConserved | spool/segment.go:229-270 | Over every run, the frames Append accepted are those on disk, unlinked inodes included, plus those in flight, as multisets |
| SpoolContents.EverySegmentDecodes | spool/segment.go:289-322 | In every reachable snapshot each segment decodes without an error to exactly the frames written to that inode, in order |
| SpoolDrops.DropsAreCounted | spool/segment.go:206-235 | Over every run droppedFrames grows by the frames refused plus the segments writers removed, and each segment created is still there, was shipped, or was removed and counted once |
| SpoolDrops.BytesAreCounted | spool/segment.go:206-235 | Over every run droppedBytes grows by the payloads refused and the sizes seen by the Stat before each removal |
| SpoolDrops.GrowsIffWritten | spool/segment.go:252-263 | Over any run an inode never shrinks, and keeps its size if and only if nobody writes to it |
| SpoolDrops.CountsWhatItStatted | spool/segment.go:213-220 | Whatever happens between a writer's Stat and its Remove, droppedBytes grows by the size at the Stat; while the name is the same inode's, that is the size removed if and only if nobody wrote to it in between |
| SpoolDrops.WrittenBetweenStatAndRemove | spool/segment.go:213-220 | A frame written in between is removed uncounted |
| SpoolDrops.RecreatedBetweenStatAndRemove | spool/segment.go:187-220 | If the agent ships the victim in between and a stalled rotation re-creates its name, the removal counts the shipped bytes and removes none |
| SpoolDrops.UndercountIsReached | spool/segment.go:187-220 | A run from an empty directory, in which the agent takes no step, to the state of the first case |
| SpoolDrops.OvercountIsReached | spool/segment.go:187-220 | One to the state of the second |
| SpoolLosses.EveryFrameAccounted | spool/segment.go:206-270 | Over every run, as multisets: frames in named inodes and in flight at the end, plus those in segments writers removed, in segments the agent shipped, and written to inodes that had lost their name, are those present at the start plus those Append accepted |
| SpoolLosses.WriteShowsIfNamed | spool/segment.go:252-270 | A Write returns without moving either counter, and leaves what can be listed as it was if and only if the descriptor's name is gone or another inode's |
| SpoolLosses.SilentLossIsReached | spool/segment.go:187-270 | A run from an empty directory, in which the agent takes no step, to such a Write |
| SegmentLog.SpoolDirectory.OpenActive | spool/segment.go:152-182 | Opens the newest generation, creating generation 1 in an empty directory and changing nothing otherwise |
| SegmentLog.SpoolDirectory.EnforceSegmentBudget | spool/segment.go:206-222 | Removes exactly the oldest beyond four; counts one per segment and the bytes each held |
| SegmentLog.SpoolDirectory.Rotate | spool/segment.go:187-198 | Creates and returns the successor and enforces the budget, or returns the newest if the successor exists |
| SegmentLog.SpoolDirectory.Append | spool/segment.go:229-270 | New directory and both drop counters, on success, rotation, budget drop and refusal |
| SegmentLog.SpoolDirectory.Read | spool/segment.go:325-339 | The frames of the segments oldest first, up to the first segment with an error |
| SpoolFifo.ContentsAreQueue | spool/segment.go:325-339 | Reading a sound directory returns its queue and no error |
| SpoolFifo.ReadStopsAtDamage | spool/segment.go:325-339 | Read returns the frames before the first segment that does not decode, that segment's own before the damage, and its error, whatever is behind it |
| SpoolFifo.BudgetKeepsNewest | spool/segment.go:206-222 | The budget leaves four segments, or all there are, unchanged, each newer than every one it dropped |
| SpoolFifo.AppendEnqueues | spool/segment.go:229-270 | The queue before an append followed by the new frame is exactly the frames of the segments the budget dropped followed by the queue after it: nothing else is lost and order is kept |
| SpoolFifo.EnqueuesUnlessItWraps | spool/segment.go:187-270 | For a frame not queued yet that equation holds if and only if the append does not rotate to a generation free only because the counter wrapped |
| SpoolFifo.LastAloneWraps | spool/segment.go:187-192 | A sound directory in which the next append wraps |
| SpoolFifo.CountsSegmentsNotFrames | spool/segment.go:206-222 | If no dropped segment is empty, an append counts at most the frames it drops, and exactly those if and only if each segment held one |
| SpoolFifo.CountsFramesWithinBudget | spool/segment.go:206-222 | From a directory within the budget an append drops one segment at most, and counts exactly the frames it loses if and only if it drops none or that one held one |
| SpoolFifo.EightFramesCountedOnce | spool/segment.go:206-270 | After 32 appends of a frame of the largest size from an empty directory, the next one drops eight frames and counts one |
| SpoolFifo.ShipLosesFront | spool/segment.go:126-140 | Deleting the k oldest segments loses exactly their frames, at the front of the queue |
| SpoolFifo.QueueIsSuffix | spool/segment.go:206-270 | Over any sequence of appends, none of which wraps, and deletions the queue is a suffix of what it was followed by what was appended |
| SpoolFifo.ReadReturnsSuffix | spool/segment.go:325-339 | From an empty directory, if no append wraps, Read returns a suffix of the whole append history, in order, without an error |
| SpoolFifo.ReadReturnsSuffixOfShortRuns | spool/segment.go:325-339 | The same under a condition on the number of operations alone: at most the generations there are |
| SpoolSolo.UndisturbedAppend | spool/segment.go:229-270 | From every valid state of the machine, an Append left alone returns, with the directory and the drop counters of the sequential Append |
| SpoolSolo.RepeatedAppends | spool/segment.go:229-270 | n Appends of one writer left alone are n of the sequential Append, and leave every other writer where it was |
| SpanBuffer.Spans.constructor | span_buffer.go:42-60 | For every pair of arguments, the corrected batch size and cap, with 1 <= batch size <= cap |
| SpanBuffer.EffectiveSizes | span_buffer.go:42-60 | The batch size is the one asked for, 200 if none is, but no more than the cap asked for; the cap is the one asked for, or one batch |
| SpanBuffer.Spans.Add | span_buffer.go:63-74 | Banks the span, or counts it at the cap; answers whether a banked span filled a batch |
| SpanBuffer.Spans.Take | span_buffer.go:77-92 | Splits off everything, or the smaller of a batch and what is there, at the head |
| SpanBuffer.Spans.Requeue | span_buffer.go:97-110 | Puts back at the head what still fits and counts the rest |
| SpanBuffer.RequeueKeepsWhatFits | span_buffer.go:97-110 | As many of the first spans of the batch as fit are back at the head, up to the cap exactly, and the rest is counted |
| SpanBuffer.Client.FlushSpanBatch | span_buffer.go:139-162 | One document per flush, or the buffer as it was if the write fails; true exactly if there was nothing to write or the spool took it |
| SpanBuffer.Client.EnqueueSpan | span_buffer.go:119-129 | Adds, and flushes one batch exactly when the span filled it |
| SpanBuffer.Client.FlushSpans | span_buffer.go:135-137 | Everything buffered becomes one document, or stays |
| SpanBuffer.FlushOffersOneBatch | span_buffer.go:139-162 | A flush that is not of everything offers the spool the first batchSize spans, or what there is; they are gone if it accepts and all still there if not |
| SpanBuffer.InlineDocumentsAreBatches | span_buffer.go:119-129 | From any state and for every spool, each document an inline flush writes has at least one span and at most a batch |
| SpanBuffer.ChunksPartition | span_buffer.go:77-92 | Cutting N spans into batches of k gives ceil(N / k) non-empty pieces of at most k that concatenate to the N spans |
| SpanBuffer.SequentialRun | span_buffer.go:42-162 | For every pair of constructor arguments, N spans and then FlushSpans with an accepting spool write ceil(N / k) documents of at most k spans, in order, dropping none |
| SpanBuffer.TakeThenRequeue | span_buffer.go:77-110 | Taking a batch and putting it straight back changes nothing |
| SpanBuffer.AtCapNeverRetries | span_buffer.go:66-70 | At the cap any number of further spans are only counted, and the spool is not asked again |
| SpanBuffer.NeverAskedIffAtCap | span_buffer.go:63-74 | No sequence of spans makes the client ask the spool again if and only if the buffer is at its cap |
| SpanBuffer.AskedIffFilled | span_buffer.go:119-129 | A span makes it ask if and only if it is banked and fills the batch |
| SpanFlow.ConservedAlways | span_buffer.go:63-110 | Over every interleaving of any number of flushers, spans ended = written + in flight + buffered + dropped as multisets, the counter counts the last part, and the buffer is within its cap |
| SpanFlow.SpansConserved | span_buffer.go:42-162 | The same from every constructor call |
| SpanFlow.InlineFlushesAreBatches | span_buffer.go:77-92 | Over every interleaving of inline flushes nothing longer than a batch is in flight or written |
| SpanFlow.AllEnqueuedIsRun | span_buffer.go:119-162 | What a client on its own does, with any spool, is a run of the flow with at most one flush in flight |
| SpanFlow.ClientKeepsOrder | span_buffer.go:42-162 | So, for every pair of constructor arguments and every spool, written followed by buffered is a subsequence of the spans in order, short by exactly the dropped count |
| SpanFlow.OrderKept | span_buffer.go:97-110 | If each write that succeeds is of the oldest batch in flight and each that fails of the youngest or without room, then in every state written, then in flight, then buffered is a subsequence of the order spans ended in, short by exactly the dropped count |
| SpanFlow.OrderKeptIff | span_buffer.go:63-110 | For spans that each end once, one event keeps the order if and only if it is such a write or no write |
| SpanFlow.OrderKeptExactly | span_buffer.go:63-110 | And a run is in order throughout if and only if all its events are |
| SpanFlow.SpansInOrder | span_buffer.go:63-162 | So it is from every constructor call over every run with at most one flush in flight |
| SpanFlow.OneFlightKeepsOrder | span_buffer.go:63-162 | For every constructor call, all runs with at most k flushes in flight keep the order if and only if k is at most one |
| SpanFlow.TwoFlushesReorder | span_buffer.go:139-162 | For every constructor call a run with two flushes in flight and no failure that writes two spans in the wrong order |
| SpanFlow.TwoFailedFlushesReorder | span_buffer.go:97-110 | For every constructor call with a cap of at least two, a run of two failed flushes after which the buffer holds two spans in the wrong order |
| Consume.ConsumeClaim | contrib/sarama/batch.go:551-613 | The loop's flushes, pending batch and exit are those of the select machine on every list of events |
| Consume.EveryMessageFlushedOnce | contrib/sarama/batch.go:551-613 | For every interleaving of messages, ticks, shutdown and handler errors: flushed batches then pending batch are the messages taken, each once and in order, nothing pending once it has returned; the byte counter is exact; each batch is non-empty, none of its proper prefixes full, and flushed as full exactly when it is; the first failing flush is the last |
| Consume.LimitsAreKept | contrib/sarama/batch.go:151-156 | On every list of events: with a record limit no flushed batch is longer and the pending one is shorter; with a byte limit every proper prefix of a flushed batch and the pending one are lighter; a batch is flushed as full if and only if it is as long as the one or as heavy as the other |
| Consume.TriggerSaysWhy | contrib/sarama/batch.go:566-611 | Each flush is of what was pending, under the name of what made it: full, max-wait, channel-closed or shutdown |
| Consume.NothingHeldPast | contrib/sarama/batch.go:587-611 | A tick, a closed channel and the end of the session each leave nothing pending, and the last two end the loop |
| BatchSpans.Batch.constructor | contrib/sarama/batch.go:414-460 | Opens the batch span under the caller's context unless there is no message; says whether a nil first or last message panicked, and with the span started or not |
| BatchSpans.PanicsOnNilEnds | contrib/sarama/batch.go:431-458 | newBatch panics if and only if there are messages and the first or the last is nil |
| BatchSpans.RunBatch | contrib/sarama/batch.go:402-411 | newBatch, and run unless it panicked |
| BatchSpans.Batch.Start | contrib/sarama/batch.go:334-355 | Hands out the message's context and span, minting them the first time only |
| BatchSpans.Batch.ContextFor | contrib/sarama/batch.go:260-278 | New state and context handed back, for nil, known and new messages under each policy |
| BatchSpans.Batch.Each | contrib/sarama/batch.go:290-326 | The loop over messages, with whatever the function does to the batch inside it, stopping at the first error or panic |
| BatchSpans.Batch.End | contrib/sarama/batch.go:376-389 | Ends every message span and then the batch span |
| BatchSpans.Batch.Run | contrib/sarama/batch.go:464-493 | Runs any handler script between the eager minting and the end, on every exit |
| BatchSpans.MintedStep | contrib/sarama/batch.go:334-355 | Minting gives the message the next span, started under its own headers, and keeps one span a message |
| BatchSpans.EndedStep | tracing.go:121-154 | Ending a span again records nothing; the first time records it once, by the span and not by its id |
| BatchSpans.AskedStep | contrib/sarama/batch.go:260-278 | ContextFor keeps the invariant and never takes back a context or a record |
| BatchSpans.LeftStep | contrib/sarama/batch.go:306-326 | The span an Each iteration opened has ended on every exit of the function |
| BatchSpans.EachStep | contrib/sarama/batch.go:290-303 | Each keeps the invariant for every handler; if it finishes, the span of every message of the batch has ended |
| BatchSpans.EachStopsAtFirst | contrib/sarama/batch.go:290-326 | Each visits the messages in turn up to the first whose function ends in an error or a panic, and ends with that outcome in the state behind it; it returns if and only if there is none |
| BatchSpans.EachIgnoresRest | contrib/sarama/batch.go:298-300 | After an error or a panic, whatever messages and functions follow make no difference to state or outcome |
| BatchSpans.PanicStopsActions | contrib/sarama/batch.go:306-326 | A handler goes on after any action but a panic, and after one it runs no further action |
| BatchSpans.EachPanicReachesCaller | contrib/sarama/batch.go:464-493 | An Each panic that nobody recovers makes ProcessBatch end in a panic, whatever the handler would have done next |
| BatchSpans.OnlyErrorsMark | contrib/sarama/batch.go:318-325 | An iteration marks its own span failed exactly when its function returned an error, and no other |
| BatchSpans.EachKeepsItsSpan | contrib/sarama/batch.go:314-318 | While Each is at a message, asking for another does not end its span |
| BatchSpans.AskedAgain | contrib/sarama/batch.go:264-266 | Asking again for a message, after any further actions, hands back the same context and changes nothing |
| BatchSpans.AskedForNone | contrib/sarama/batch.go:260-269 | Asking for nil, or for anything under Never, hands back the batch's context and changes nothing |
| BatchSpans.RunRecordsEverySpan | contrib/sarama/batch.go:402-493 | For any policy, messages, handler, ids and exit: every message span is recorded exactly once and the batch span once and last, if and only if it is not the case that the first message is there and the last is nil; no message has two spans, traced = contexts = spans, Never mints none, Always mints one for every message, the batch span is marked failed exactly on an error or a panic, and a batch that does not open panics with nothing recorded |
| BatchSpans.NilLastLosesBatchSpan | contrib/sarama/batch.go:437-458 | One message and a nil behind it: the batch span is started and never recorded |
| BatchSpans.BatchSpanOf | contrib/sarama/batch.go:431-448 | The batch span starts a sampled trace of its own where none is active and is the active span's child otherwise; it is the active span of the batch's context, and stays the batch span |
| BatchSpans.RunFollowsPublishes | contrib/sarama/batch.go:334-363 | After any run, a message span with a valid traceparent has the header's trace id, flag, tracestate and baggage and the header's span id as its parent, and all work started from the message's context continues it |
| BatchSpans.AtMostOneOpen | contrib/sarama/batch.go:268-277 | From any state in which no message span is running but perhaps the one ContextFor opened last, ContextFor alone leads only to such states |
| BatchSpans.OneMessageAtATime | contrib/sarama/batch.go:260-278 | So under OnDemand at every moment of a handler that only calls ContextFor no message span is running but perhaps that of the last message asked for |
| BatchSpans.OverlapsUnlessOpen | contrib/sarama/batch.go:268-277 | Asking for a new message leaves at most one message span running if and only if none was running but perhaps the one ContextFor opened last; one that Each has open stays open |
| Tracing.WorkContinues | tracing.go:45-82 | In any tree of work under an active span of a trace, every span is in that trace with its flag, tracestate and baggage, and is the child of the nearest span around it |
| Tracing.WorkStartsTrace | tracing.go:52-64 | Where no trace is active it is one new trace: with the id made for its first span, which has no parent, and every span in it sampled and carrying nothing |
| Tracing.RemoteBecomesActive | propagation.go:167-181 | A remote context without a trace id or a span id is put aside; any other is the active span from then on |
| Traceparent.ParsesExactlyVersion00 | propagation.go:92-115 | The parser accepts exactly version 00 of section 3.2 of W3C Trace Context, after trimming, and reads off its fields |
| Traceparent.AllZeroIsZero | propagation.go:150-157 | An id is refused as zero if and only if the number it spells is zero |
| Traceparent.SampledIsLowBit | propagation.go:108-114 | The sampled flag is the low bit of the number the flags spell |
| Traceparent.LowerHexDigits | propagation.go:136-147 | The digits accepted are the hex digits in lower case |
| Strings.TrimSpaceIs | propagation.go:93 | Trimming takes white space off both ends and all of it |
| Strings.SpacesAreEncoded | propagation.go:93 | White space is the UTF-8 of the code points Unicode calls so |
| Traceparent.ParseInvertsFormat | propagation.go:125-134 | Formatting well-formed ids and a flag and parsing gives them back |
| Traceparent.FormattedFields | propagation.go:125-134 | What is formatted is version 00, field by field, with flags 01 or 00 |
| Members.KeptStep | propagation.go:236-259 | One more list member is kept exactly if it is valid, its key new and the cap not reached |
| Members.FirstOfEachOrigin | propagation.go:251-256 | Every kept entry is a valid member whose key no earlier one has |
| Members.KeyIsKept | propagation.go:251-256 | No key of a valid member is lost before the cap |
| Members.NormalizedTwice | propagation.go:231-261 | A list of at most cap members with distinct keys, rendered and normalised, is itself |
| Tracestate.NormalizeTracestate | propagation.go:231-261 | The loop yields the first 32 valid members with distinct keys, in input order (section 3.3 of W3C Trace Context) |
| Tracestate.KeepsThirtyTwo | propagation.go:231-261 | As many members as there are valid keys, up to 32, from the front |
| Tracestate.KeyCharacters | propagation.go:283-294 | The characters of a key behind its first |
| Tracestate.LengthLimits | propagation.go:264-308 | A simple key of 1 to 256 characters, a tenant of 1 to 241, a system of 1 to 14, a value of 1 to 256, and no other length |
| Tracestate.LeadingDigits | propagation.go:264-282 | A tenant may start with a digit; a simple key and a system may not |
| Tracestate.Idempotent | propagation.go:231-308 | Normalising twice is normalising once, on every byte string |
| Baggage.PercentDecode | propagation.go:371-389 | The loop decodes every well-formed escape and leaves every other byte |
| Baggage.PercentEncode | propagation.go:393-407 | The loop escapes every byte that is not unreserved |
| Baggage.EscapeIsUpperHex | propagation.go:393-407 | A byte other than letters, digits and -_.~ becomes a percent sign and its two hex digits in upper case |
| Baggage.DecodeInvertsEncode | propagation.go:371-407 | Section 2.1 of RFC 3986: decoding undoes encoding on every byte string |
| Baggage.NormalizeBaggage | propagation.go:313-351 | The loop yields the first 64 valid members with distinct keys, values re-encoded, and nothing of a header over 8192 bytes |
| Baggage.HeaderLimits | propagation.go:313-351 | Nothing of a header over 8192 bytes; otherwise as many members as there are valid keys, up to 64, from the front |
| Baggage.LengthLimits | propagation.go:330-344 | A key of 1 to 256 characters and a decoded value of 1 to 4096, and no other length |
| Baggage.PropertiesAreDropped | propagation.go:322-326 | What stands behind a member's first semicolon is dropped with the white space before it |
| Baggage.IdempotentWhenItFits | propagation.go:313-351 | Normalising twice is normalising once if and only if the first result is at most 8192 bytes |
| Baggage.BaggageOutgrowsItsCap | propagation.go:315 | A header inside the cap on which it is not |
| Carrier.ProducerMessage.SetHeader | contrib/sarama/sarama.go:220-233 | Appends one header unless it is empty or the key is there in any letter case |
| Carrier.EqualFoldIsFolded | contrib/sarama/sarama.go:224-229 | A key counts as a header's name if and only if it folds to it: upper case to lower, and the two characters outside ASCII that fold into it |
| Carrier.ProducerMessage.Inject | contrib/sarama/sarama.go:209-215 | The four headers, in order, of the context's active span and the stamp |
| Carrier.Extract | contrib/sarama/sarama.go:378-403 | The last header of each name in any letter case, parsed and normalised; nothing of the companions without a valid traceparent |
| Carrier.InjectRespectsCaller | contrib/sarama/sarama.go:220-233 | Injecting only appends, only the four names, and none the caller wrote in any case |
| Carrier.ExtractInvertsInject | contrib/sarama/sarama.go:209-403 | Over headers without the four names, extracting what was injected gives ids, flag and stamp back with the companions in normal form; it is the span's exact context if and only if they were in normal form |
| Carrier.MessageContinuesPublish | contrib/sarama/sarama.go:337-368 | A message with a valid traceparent is processed as a child of the publish, whatever span is active, and so on for all work under it |
| Carrier.MessageWithoutPublish | contrib/sarama/sarama.go:337-368 | A message without a valid traceparent is processed in the trace active at the consumer, or in a new sampled one if none is, and so is all work under it |
| Carrier.RootReachesConsumer | contrib/sarama/sarama.go:209-403 | A trace started here reaches the next consumer sampled, with its ids and no companions |
| Carrier.SecondHopIsExact | contrib/sarama/sarama.go:209-403 | A span with a well-formed id, started from an extracted context, reaches the next consumer exactly, if and only if its baggage is at most 8192 bytes |
| WallSampler.Sampler.Sample | profile_wall.go:107-134 | The table and the drop counter stay those of the plain count over all non-empty stacks since the last drain |
| WallSampler.Sampler.Drain | profile_wall.go:170-182 | Hands over each kept bucket once, most ticks first, with both counters, and resets |
| WallSampler.LiveIsAllButEmpty | profile_wall.go:118-122 | Every stack but the empty one is counted, as often as it was sampled, in order |
| WallSampler.KeysByFirstAppearance | profile_wall.go:118-133 | The count's keys are the distinct hashes in order of first appearance |
| WallSampler.TableSnoc | profile_wall.go:118-133 | One more stack is a tick of its bucket, a new bucket, or nothing when the table is full |
| WallSampler.Conservation | profile_wall.go:118-133 | Ticks of all buckets plus drops are the non-empty stacks seen |
| WallSampler.DropsOnlyWhenFull | profile_wall.go:128-131 | Nothing is dropped if and only if the distinct hashes fit the table |
| MySqlDsn.ParseMySqlDsn | sql_dsn.go:211-249 | The reassignments compute the split at the last slash, the last at-sign and the first parenthesis |
| MySqlDsn.TargetIsExact | sql_dsn.go:211-249 | For every user and password, the target read off the driver's grammar is that grammar's name, host and port, and the user up to its first colon |
| MySqlDsn.ServerDefaults | sql_dsn.go:236-248 | Without an address the server is 127.0.0.1 on port 3306, without a port on port 3306; a unix socket has its path for a host and no port |
| MySqlDsn.UnixInAnyCase | sql_dsn.go:239-242 | The protocol is unix if and only if it lowers to it |
| MySqlDsn.HostAlone | sql_dsn.go:243-248 | A host without a port, in brackets or not, is reached on port 3306 |
| MySqlDsn.UserIsWhole | sql_dsn.go:227-232 | The user comes through whole if and only if it holds no colon |
| MySqlDsn.PasswordPlaysNoPart | sql_dsn.go:224-233 | Replacing the password by any other changes nothing of the target |
| MySqlDsn.HostAndPort | sql_dsn.go:254-268 | A host and a port joined by a colon are split again |
| MySqlDsn.BracketedHost | sql_dsn.go:254-262 | A bracketed host is split from its port, whatever colons it holds |

## Left out

- Frames.RoundTrip: `json.Unmarshal` is a parameter, assumed only to read back the headers the encoder wrote; RoundTripWithJsonReader meets that with a reader of this project's own, which accepts that layout only.
- SpoolMachine: a directory scan, a Stat, a Remove, an open and a Write are each one atomic step that succeeds when its file is there; short and torn writes, other I/O errors, MkdirAll and the empty directory name are not modelled. Names are canonical, one per generation; SegmentListing has the others.
- SpoolMachine: the drop counters are the sum over all writers and do not wrap at 2^64.
- Which segment a write reaches: a stalled writer may re-create a generation the agent has already removed, so no claim is made that every write goes to the newest segment.
- SpoolFifo.ReadReturnsSuffix: Read sees one snapshot.
- Consume.ConsumeClaim: timers and channels are an arbitrary list of select outcomes; Stop, drain and Reset, the overflow of the byte counter, and a handler that panics through the loop are not modelled.
- BatchSpans.RunRecordsEverySpan: enabled clients only; attributes and status texts are not modelled beyond which spans are marked failed; calls to a batch after its run has ended are not modelled.
- Tracing: ids are an arbitrary function of the span's number; span names, timings and resource attributes, and Adopt, are not modelled.
- Carrier.ExtractInvertsInject: the enqueued-at stamp is an opaque string; its floating-point format and WaitMilliseconds are not modelled.
- WallSampler.Sampler.Sample: the snapshot and the stack hash are parameters; stacks whose hashes collide share a bucket, as in the source.
- WallSampler.Sampler.Drain: the sort is an insertion sort standing for the library's; only the descending order and the contents are promised.
- MySqlDsn.TargetIsExact: parts that hold the delimiter that ends them are outside the grammar; keyword, semicolon and URL connection strings are not modelled.
- The network, AWS, HTTP and SQL driver wrappers, redaction, logging, metrics, configuration and pprof conversion: thin code over libraries.
