# A verified model of the file writer's data paths

The file writer consumes messages from Kafka and stores them in NeXus/HDF5 files. This project
models the parts of it that hold state or do arithmetic, and proves what they promise over all
inputs and all runs. Kafka and HDF5 appear only as their effects: a poll is an input, a dataset
is an extent and a map from positions to values.

| module | what it models |
|---|---|
| `Grid`, `LinearIndex` | N-dimensional positions, row-major order, boxes of cells; the linearisation loop in its own integer widths |
| `HistogramSlice`, `HistogramRecord`, `HistogramWriter`, `HistogramShadow`, `HistogramRuns`, `HistogramFlags` | hs00: histograms assembled from slices, at most four at a time, in reused file rows |
| `StreamMessage`, `SourceFilter`, `FilterMeaning`, `PartitionFilter`, `Partition`, `PartitionRuns`, `MessageWriter`, `Pipeline` | the way of a message from a Kafka poll to the writer modules |
| `EventWriter`, `CueSchedule` | the index and cue arrays of the event, log and area detector writers |
| `JsonArray`, `MultiDimDataset`, `ChunkSize` | ragged JSON arrays made dense, datasets that grow in every dimension, chunk sizes |
| `JobLifecycle`, `JobCreator`, `Throttle`, `FileSizeTimer` | commands and published messages of a job, setting up its modules, pausing on a full queue, estimating the file size |

A class has a predicate `Valid` that every method keeps, so what follows from `Valid` holds in
every reachable state. Ghost fields record the history a property speaks about (messages
received, blocks written, messages published). Calls of other threads come as methods that may
run between any two steps.

## Main results

- **Histograms.** A record is full exactly when its blocks tile the histogram
  (`FullMeansTiled`, by counting cells of disjoint boxes). Whatever is evicted, live timestamps
  own distinct rows which are exactly `0..n`, `n <= 4`, and a full row, like the copy in "data",
  shows values of its own record only, although rows are reused without being cleared. From any
  state a timestamp can be completed exactly when none of its missing cells lies in the shadow of a
  claim (`CanCompleteIff`). Then parts for the missing cells are all accepted, in any order and
  among other messages, unless the timestamp gets too old or is evicted, and "data" ends as the whole
  histogram (`AssembleAll`); otherwise no run of messages completes it before it is evicted
  (`RunWhileBlocked`).
- **Stream pipeline.** Over any interleaving of polls, requests, writes and jobs of other
  partitions (`RunSteps`), what a source's filter transmits is fixed by the positions and the
  nanosecond timestamps of what it received (`TransmissionMeaning`, `EndedMeaning`): no invalid or
  repeated messages, a cut after the first message that passes the stop time, every message from the
  start time on plus the last one before it. `FinishAndDrain` carries this through to the executed
  writes: each executed once and counted once, and a writer module gets exactly its source's
  messages, in order. No run finishes a partition by time before its stop time and the leeway are
  past, and without a stop time none does at all (`RunUpTo`, `RunWithoutStopTime`).
- **Event data.** Decoding what the ev42 writer stored returns the messages; it does so exactly
  when the offsets match the ids up to a point where they end. Cues agree with the arrays.
- **N-dimensional data.** Row-major linearisation is a bijection; the loop computes it exactly on
  the arrays whose strides fit. Ragged JSON, growing datasets and chunk sizes are proved against
  definitions that do not follow the code.
- **Jobs.** Published messages bracket every job; a stop time that is past stays final; a stop at
  once ends its job in the same round. The list of streams that grows while being walked is the
  breadth-first expansion, with every extra module at a position computed from the numbers of
  enabled ones.

## Where the code falls short of the property

Each of these is kept as the code has it, with a concrete input and the exact condition.

- The overlap test adds in 32 bits. It finds every collision exactly when the histogram has no
  cells or every dimension is below 2^32 (`CollisionsDetectedIff`; its proof gives the one-cell
  slice at offset 2^32 - 1, which does not overlap itself).
- A slice of size zero can be reported as overlapping although it touches no cell
  (`EmptySliceReportedOverlapping`; `OverlapMeaning` is exact).
- A histogram without dimensions counts as full before its one value arrives and never after
  (`FullMeansTiled`).
- A slice stays claimed when its file write fails. Sent again it is rejected as taken exactly when
  it has cells, no sum wraps and it is not too old by then (`WriteAgain`).
- A claim that writes no cell, because it is empty, too large or failed, can keep a histogram from
  being completed. What the overlap test sees of a claim is its shadow: its first cell and, along
  each dimension, what lies between its offset and the 32-bit sum of offset and size
  (`OverlapIffShadow`, `TakenIffShadow`). Such a claim takes away that the timestamp can be completed
  exactly when a cell that is missing at that time lies in its shadow, and no other message of its
  timestamp does (`ClaimObstructsIff`); from then on no message brings it back before the record is evicted
  (`WriteWhileBlocked`, `RunWhileBlocked`). While nothing is written that means: exactly when the
  claim starts inside the histogram (`ObstructsTilingIff`). `EmptySliceBlocks` and
  `OversizedSliceBlocks` are such claims in a histogram of four cells, `ClaimAtWrittenCell` is one
  that starts at a cell written before, `ClaimInNobodysWay` one that obstructs nothing.
- The age check adds 40 seconds in 64 bits. It compares with 40 seconds whatever the largest
  timestamp seen exactly for timestamps up to 40 seconds before 2^64; a later one counts as old even
  when it is the largest itself (`AgeCheckRightIff`).
- A row's "full" mark is never cleared. A row is marked while its histogram is incomplete exactly
  when it was marked before its timestamp took it over (`StaleFlagIff`, `ArriveInUsedRow`);
  `StaleFullFlag` is a run of five timestamps that ends so.
- `posToIndex` multiplies strides in an `int`: right exactly when every stride in use is below
  2^31 (`IndexRightIff`; wrong in the second row of `SecondRowIsWrong`).
- The row size in `MultiDimDataset` is accumulated in an `int` too. The number of rows is right for
  every chunk size exactly when a row has less than 2^31 elements (`OneStepRightIff`); for rows of
  65536 by 65536 the code divides by zero (`SquareRowsDivideByZero`).
- ev42 messages with time-of-flight and detector vectors of different length are only warned about
  and shift the offsets of later messages (`UnmatchedOffsetsDrift`; exact in `RoundTripIff`).
- With a cue interval of zero an event writer takes a cue from a message without events and reads
  its time-of-flight vector at index 2^32 - 1 (`CueSafetyIff`, whose proof gives a run of two
  messages).
- f142 and f144 record the time of a message before they reject an unknown value type. A cue points
  at the entry it was taken from exactly when no earlier message was rejected
  (`CuePointsAtItsTimeIff`; `MisplacedCue`).
- A start that fails while setting up its status topic leaves its new controller running; its end
  is announced under the placeholder job name (`StoppedWithoutJob`; exact in `SetToIdle`).
- The handler means to answer a stop command that names this service when it finds no job or another
  job. It evaluates that condition before it has decoded the command, so these commands, and only
  these, are not answered as meant (`AnswerAsMeantIff`; `UnansweredStop`).
- An ev44 cue gets the time of its message's first pulse. That is the time of the cued event exactly
  when no event belongs to a later pulse (`CueTime44RightIff`; `CueOfFirstPulse`).

## Model

| member | source | states |
|---|---|---|
| `Grid.IndexBijective` | src/MultiVector.h:24-34 | row-major index is a bijection from in-range positions onto `0..Volume`, with `Position` as inverse |
| `Grid.IndexOrder` | src/MultiVector.h:24-34 | indices are ordered like positions, earlier coordinates first; with the bijection this leaves no other row-major index |
| `Grid.ValueAt` | src/WriterModule/hs00/WriterTyped.h:402-425 | the `i`-th value of a block lands at the `i`-th position of its box |
| `Grid.CellCount` | src/WriterModule/hs00/Shape.cpp:38-47 | a box has as many distinct cells as the product of its sizes |
| `LinearIndex.PosToIndex` | src/MultiVector.h:24-34 | the loop over reversed copies, in `int` and 64-bit arithmetic, equals the row-major index wherever strides fit |
| `LinearIndex.IndexRightIff` | src/MultiVector.h:24-34 | for an array that fits in memory, the computed index is right at every position if and only if every stride in use is below 2^31 |
| `LinearIndex.SecondRowIsWrong` | src/MultiVector.h:24-34 | in an array of 2 by 2^31 elements the second row starts at index 2^64 - 2^31 instead of 2^31 |
| `HistogramSlice.Slice.DoesOverlap` | src/WriterModule/hs00/Slice.cpp:25-47 | throws on incompatible shapes, otherwise true exactly when the test holds along every dimension, sums wrapping at 32 bits |
| `HistogramSlice.OverlapMeaning` | src/WriterModule/hs00/Slice.cpp:36-46 | without wrap-around two slices share a cell if and only if the test says so and neither is empty |
| `HistogramSlice.CollisionsDetectedIff` | src/WriterModule/hs00/Slice.cpp:36-46 | every collision between slices inside a histogram is found if and only if it has no cells or all dimensions are below 2^32 |
| `HistogramSlice.EmptySliceReportedOverlapping` | src/WriterModule/hs00/Slice.cpp:36-46 | a concrete slice without cells that is reported as overlapping |
| `HistogramRecord.LayoutIsPairwise` | src/WriterModule/hs00/HistogramRecord.cpp:24-36 | accepted blocks lie inside the histogram and are pairwise disjoint |
| `HistogramRecord.CoveredCount` | src/WriterModule/hs00/HistogramRecord.cpp:40-42 | disjoint blocks cover exactly as many cells as they hold items |
| `HistogramRecord.ItemsCountTheTiling` | src/WriterModule/hs00/HistogramRecord.cpp:40-44 | the item count never exceeds the volume and equals it if and only if the blocks tile the histogram |
| `HistogramRecord.AssembledValue` | src/WriterModule/hs00/WriterTyped.h:402-425 | no block overwrites another: the assembled image shows every value of every block |
| `HistogramRecord.TotalItems` | src/WriterModule/hs00/Shape.cpp:38-47 | the product of the dimensions modulo 2^64, but zero for a histogram without dimensions |
| `HistogramRecord.Record.HasEmptySlice` | src/WriterModule/hs00/HistogramRecord.cpp:24-32 | true exactly when no stored slice overlaps, false only with a witness, exception only for an incompatible shape |
| `HistogramRecord.Record.FreeSliceExtends` | src/WriterModule/hs00/HistogramRecord.cpp:24-36 | a slice that passed the test is disjoint from everything written, so the layout and the count extend |
| `HistogramRecord.Record.FullMeansTiled` | src/WriterModule/hs00/HistogramRecord.cpp:40-44 | in every state the count is the number of distinct cells covered, and full means tiled, with the exception for no dimensions |
| `HistogramRecord.Product64` | src/WriterModule/hs00/WriterTyped.h:354-357 | the product of a shape modulo 2^64 |
| `HistogramWriter.CheckMessage` | src/WriterModule/hs00/WriterTyped.h:308-365 | the first failed check, in order, or the slice a message describes; offsets of the wrong length are ignored |
| `HistogramWriter.BlockFits` | src/WriterModule/hs00/WriterTyped.h:354-360 | a checked message whose slice is inside carries exactly that slice's values |
| `HistogramWriter.SliceOfIff` | src/WriterModule/hs00/WriterTyped.h:308-365 | a message passes if and only if its timestamp is not zero, types, rank and numbers of values are right and no offset plus size, in 32 bits, exceeds its dimension; the slice is the shape sent, at the offset or the origin |
| `HistogramWriter.SliceInside` | src/WriterModule/hs00/WriterTyped.h:340-353 | with an offset and no sum that wraps, the slice of a message that passed lies inside the histogram |
| `HistogramWriter.AgeCheckRightIff` | src/WriterModule/hs00/WriterTyped.h:366 | a message is too old exactly when it is more than 40 seconds behind, whatever the largest timestamp, if and only if its timestamp plus 40 seconds is below 2^64 |
| `HistogramWriter.Writer.Write` | src/WriterModule/hs00/WriterTyped.h:296-445 | every outcome, and the state after it: a rejected check changes nothing; otherwise the timestamp is admitted or the smallest of four evicted, the slice claimed, the block written to the timestamp's row and to no other, its stamp set, and "data" replaced when the record is full; other live records are untouched and `Valid` is kept; it is rejected for its age exactly when the largest timestamp seen is more than 40 seconds ahead, and only a message with the right types, numbers of values and a slice inside reaches the file |
| `HistogramWriter.Writer.RecordFor` | src/WriterModule/hs00/WriterTyped.h:371-391 | finds the record, or evicts the smallest of four and takes over its row, or adds a row; all other records stay |
| `HistogramWriter.Writer.ReuseOldest` | src/WriterModule/hs00/WriterTyped.h:376-380 | the row of the smallest timestamp is handed on and the invariant over all rows survives |
| `HistogramWriter.Writer.StoreSlice` | src/WriterModule/hs00/WriterTyped.h:392-445 | taken, failed or written, with the effect of each; a slice stays claimed when its write fails |
| `HistogramWriter.Writer.StaleFlagIff` | src/WriterModule/hs00/WriterTyped.h:374-445 | in every state, while its histogram is incomplete, a row is marked full if and only if the mark was there when its timestamp took it over; every mark stems from a timestamp that was complete in the row |
| `HistogramFlags.ArriveInUsedRow` | src/WriterModule/hs00/WriterTyped.h:374-445 | with four alive, the first slice of a new timestamp takes over the smallest one's row, which, while the new histogram is incomplete, is marked full if and only if it was marked before |
| `HistogramFlags.StaleFullFlag` | src/WriterModule/hs00/WriterTyped.h:374-445 | one whole histogram and four halves of later timestamps end with a row marked full whose histogram is half sent |
| `HistogramWriter.Writer.CopyLatestToData` | src/WriterModule/hs00/WriterTyped.h:96-164 | "data" becomes the whole row of a full record |
| `HistogramWriter.Writer.RowsAreOwnedOnce` | src/WriterModule/hs00/WriterTyped.h:374-391 | in every state live timestamps own distinct rows, the rows are exactly `0..n` with `n` records, at most four |
| `HistogramWriter.Writer.FullRowIsPure` | src/WriterModule/hs00/WriterTyped.h:374-445 | every cell of a full record's row shows a value of a block of this record, sent for its timestamp |
| `HistogramWriter.Writer.DataIsOneHistogram` | src/WriterModule/hs00/WriterTyped.h:481-483 | in every state "data" is one whole histogram, all of it sent for one timestamp |
| `HistogramShadow.OverlapIffShadow` | src/WriterModule/hs00/Slice.cpp:36-46 | a slice of any size, wrapping or not, overlaps one with cells inside the histogram, by the test, if and only if one of those cells is in its shadow |
| `HistogramShadow.TakenIffShadow` | src/WriterModule/hs00/HistogramRecord.cpp:24-32 | a slice with cells is rejected as taken if and only if one of its cells is in the shadow of some claim |
| `HistogramShadow.CompletionFreeIff` | src/WriterModule/hs00/HistogramRecord.cpp:24-32 | of any parts for exactly the missing cells, none is rejected because of the claims if and only if no missing cell is in a shadow |
| `HistogramShadow.CompletableIff` | src/WriterModule/hs00/HistogramRecord.cpp:24-32 | such parts, none of them rejected, exist if and only if no missing cell is in the shadow of a claim |
| `HistogramShadow.ObstructsTilingIff` | src/WriterModule/hs00/Slice.cpp:36-46 | a slice of any size overlaps no part of a complete tiling, by the test, if and only if its first cell is not a cell of the histogram |
| `HistogramShadow.OpenAfterPart` | src/WriterModule/hs00/HistogramRecord.cpp:24-36 | while no missing cell is in a shadow, the next part is free, and once it is claimed and written the same holds for the remaining parts |
| `HistogramRuns.AssembleAll` | src/WriterModule/hs00/WriterTyped.h:296-486 | from any state in which no missing cell is in a shadow, parts for exactly the missing cells, in any order, are all accepted if their file writes succeed, unless the timestamp is evicted or too old by then; in between there may be messages of other timestamps, and of its own ones whose shadow holds no cell still to come; "data" ends as exactly these parts and what was written before; while nothing newer by more than 40 seconds is seen, only an eviction can stop it |
| `HistogramRuns.CanCompleteIff` | src/WriterModule/hs00/WriterTyped.h:392-401 | in every state of the writer, parts for the missing cells that no claim rejects exist if and only if no missing cell is in a shadow |
| `HistogramRuns.ClaimObstructsIff` | src/WriterModule/hs00/WriterTyped.h:296-445 | after any message, whatever its outcome, its timestamp can be completed if and only if it could before and the message did not claim, without adding a cell, a slice with a missing cell in its shadow |
| `HistogramRuns.WriteWhileBlocked` | src/WriterModule/hs00/WriterTyped.h:296-486 | no message, of whatever timestamp, unblocks a timestamp, unless it evicts its record |
| `HistogramRuns.RunWhileBlocked` | src/WriterModule/hs00/WriterTyped.h:296-486 | over any run of messages, a timestamp with a missing cell in a shadow is not complete before its record is evicted |
| `HistogramRuns.EmptySliceBlocks` | src/WriterModule/hs00/WriterTyped.h:397-401 | a slice without cells is written and then keeps the whole histogram from being accepted |
| `HistogramRuns.ClaimAtWrittenCell` | src/WriterModule/hs00/WriterTyped.h:397-401 | in a histogram of two by two, an empty slice at a written cell is accepted, and the next message is rejected whenever its slice lies inside and has the cell beside that one |
| `HistogramRuns.ClaimInNobodysWay` | src/WriterModule/hs00/WriterTyped.h:397-401 | in a histogram of four cells, an empty slice at a written cell is accepted and the other half is accepted after it |
| `HistogramRuns.SelfOverlapIff` | src/WriterModule/hs00/Slice.cpp:36-46 | a slice overlaps itself, by the test, if and only if it has cells and no sum wraps |
| `HistogramRuns.WriteAgain` | src/WriterModule/hs00/WriterTyped.h:397-425 | a message claimed once is rejected as taken the second time if and only if it is not too old by then, has cells, and no sum wraps |
| `HistogramRuns.OversizedSliceBlocks` | src/WriterModule/hs00/WriterTyped.h:340-353 | in a histogram of four cells, a slice of five without an offset passes the checks, fails to be written, and every slice with cells after it is rejected |
| `StreamMessage.DeliveryCount` | src/Stream/SourceFilter.h:42-47 | enqueued writes are transmitted messages times destinations |
| `StreamMessage.DeliveriesTo` | src/Stream/SourceFilter.h:42-47 | a destination gets every transmitted message as often as it is listed, in order: exactly the messages if once, nothing if never |
| `SourceFilter.Filter.SendMessage` | src/Stream/SourceFilter.h:42-47 | one job per destination, in order, goes to the end of this producer's queue and no other queue changes |
| `SourceFilter.Filter.FilterMessage` | src/Stream/SourceFilter.cpp:41-76 | keeps `Valid`: received = transmitted + discarded + buffered, the messages sent are the specified transmission of everything received, and the source is done exactly when a message ended it; a valid message that is no unwanted repeat is passed on if and only if it reaches the start time, for whole microseconds `timestamp >= start`, and it then ends the source if and only if `timestamp >= stop + 1000` |
| `SourceFilter.MicrosReach` | src/Stream/SourceFilter.cpp:60-71 | comparing the timestamp cut to microseconds with a time is comparing nanoseconds with the next whole microsecond, above zero, and below it with the one before |
| `FilterMeaning.TransmissionMeaning` | src/Stream/SourceFilter.cpp:41-76 | a filter transmits exactly the messages at these positions, each once and in order: valid, no unwanted repeat of the valid message before, and at the start time or later, or directly before such a message, or last when the filter is destroyed |
| `FilterMeaning.KeptMeaning` | src/Stream/SourceFilter.cpp:43-58 | invalid messages and unwanted repeats are dropped, and nothing else |
| `FilterMeaning.EndedMeaning` | src/Stream/SourceFilter.cpp:60-71 | a source ends if and only if such a message has reached the start time and passed the stop time in force when it arrived |
| `SourceFilter.Filter.Close` | src/Stream/SourceFilter.cpp:28-39 | destruction sends exactly the pending message, completing the specified transmission |
| `SourceFilter.NextChosen` | src/Stream/SourceFilter.cpp:60-75 | one more message: an early one replaces the pending one, one in time sends both in order |
| `SourceFilter.ClosingSendsPending` | src/Stream/SourceFilter.cpp:28-39 | a closed stream's transmission is that of the open one plus the pending message |
| `PartitionFilter.RunStartIsMaximal` | src/Stream/PartitionFilter.cpp:33-39 | the run of equal outcomes used by the stop rule is the longest one ending the history |
| `PartitionFilter.Clamped` | src/Stream/PartitionFilter.cpp:19-22 | the clamped stop time plus leeway never overflows and is never before the stop time, and the clamped time is never later; unchanged where there was room |
| `PartitionFilter.Filter.ShouldStopPartition` | src/Stream/PartitionFilter.cpp:45-64 | over any history: a message never stops, an error stops if and only if its unbroken run began more than the limit ago, the others if and only if stop time plus leeway is past; a forced stop always |
| `PartitionFilter.Filter.HasTopicTimedOut` | src/Stream/PartitionFilter.cpp:25-31 | true exactly when the current run of timeouts outlasted the limit |
| `Partition.CutMeaning` | src/Stream/Partition.cpp:241-249 | a filter's events are the shortest prefix in which its source ended, or all of them |
| `Partition.RouteMeaning` | src/Stream/Partition.cpp:241-245 | the events of a source are those at exactly the positions with its hash, in order |
| `Partition.Partition.ProcessMessage` | src/Stream/Partition.cpp:207-250 | every live filter of the source sees the message once, finished filters are destroyed, and what each filter has seen stays the cut of its routed history |
| `Partition.Partition.EraseFinished` | src/Stream/Partition.cpp:246-249 | exactly the finished filters are removed, with their last message sent, and the order of the others is kept |
| `Partition.Partition.SetFilterStops` | src/Stream/Partition.cpp:92-100 | every live filter gets the new stop time and nothing already transmitted is affected |
| `Partition.Partition.PollForMessage` | src/Stream/Partition.cpp:155-205 | when it polls, when it finishes and when it reschedules, with the state after each |
| `Partition.Partition.RunNext` | src/ThreadedExecutor.h:45-85 | one executor round: nothing once the exit task ran, else a high-priority task if there is one, and the effect of any task on any state |
| `Partition.Partition.RunSteps` | src/Stream/Partition.cpp:79-106 | over every interleaving of rounds, requests, writer steps and jobs of other partitions, the invariant holds; finishing, stopping and exiting are final, and after a forced stop or exit no poll is made |
| `Partition.Partition.OnePollOutstanding` | src/Stream/Partition.cpp:104-106 | in every state exactly one poll task from start to finish and none after; every polled message was processed |
| `PartitionRuns.PollRound` | src/Stream/Partition.cpp:155-205 | a poll finishes the partition if and only if: an end of the partition or a timeout comes after stop time and leeway by the clock, a message by its own time or leaves no source, or errors have outlasted the limit |
| `PartitionRuns.RunUpTo` | src/Stream/Partition.cpp:155-205 | over any run whose clock readings and message times lie before stop time and leeway, a partition finishes only by a forced stop, for lack of sources, or by errors |
| `PartitionRuns.RunWithoutStopTime` | src/Stream/PartitionFilter.cpp:19-22 | a partition built with the largest time there is, for any leeway, is never finished by time |
| `Partition.Partition.Destroy` | src/Stream/SourceFilter.cpp:28-28 | after destruction each filter transmitted exactly what its source's events call for, and the jobs queued are those deliveries |
| `MessageWriter.Writer.AddMessage` | src/Stream/MessageWriter.cpp:53-55 | the job goes to the end of its producer's queue; enqueued = executed + queued is kept per producer |
| `MessageWriter.Writer.CountWrite` | src/Stream/MessageWriter.cpp:59-86 | every outcome counts once, and the error counter of each source and schema equals its number of failures |
| `MessageWriter.Writer.FlushOperation` | src/Stream/MessageWriter.cpp:93-101 | after a flush `now < next <= now + interval` if and only if it came less than 2^31 - 1 intervals late, and then the schedule keeps its phase |
| `MessageWriter.Writer.CheckTime` | src/Stream/MessageWriter.cpp:106-110 | at most 201 jobs run between two checks of the flush time |
| `MessageWriter.Writer.WriteOne` | src/Stream/MessageWriter.cpp:104-111 | the head of a producer's queue is executed and its outcome counted once; the flush time is looked at after the 201st job and not before |
| `MessageWriter.Writer.AddAll` | src/Stream/MessageWriter.cpp:53-55 | jobs of several producers each end up in their own producer's order |
| `MessageWriter.Writer.WriteOperation` | src/Stream/MessageWriter.cpp:102-112 | the drain ends with empty queues although others keep adding; everything enqueued until then was executed once in order, and done plus errors equal that count |
| `MessageWriter.Writer.FlushBound` | src/Stream/MessageWriter.cpp:92-101 | over any run that was never that late, flushes times interval do not exceed the time elapsed |
| `Pipeline.FinishAndDrain` | src/Stream/MessageWriter.cpp:113-121 | end to end, with other partitions adding jobs during the drain: the writes executed for the partition are exactly the deliveries of what its sources call for; a destination of one filter gets exactly that filter's messages, in order, as often as it is listed; and writes done plus errors equal jobs enqueued |
| `EventWriter.RoundTripIff` | src/WriterModule/ev42/ev42_Writer.cpp:135-149 | pulse times and ids always decode; whole messages decode if and only if offsets match ids up to a point where they end |
| `EventWriter.RoundTrip` | src/WriterModule/ev42/ev42_Writer.cpp:135-149 | messages with vectors of equal length, empty ones included, decode to themselves |
| `EventWriter.UnmatchedOffsetsDrift` | src/WriterModule/ev42/ev42_Writer.cpp:141-144 | two concrete messages that do not decode to themselves |
| `EventWriter.CueNeverFarBehind` | src/WriterModule/ev44/ev44_Writer.cpp:111-124 | over any run, events written never exceed the last cue plus the interval |
| `EventWriter.CueSafetyIff` | src/WriterModule/ev42/ev42_Writer.cpp:149-156 | a message without events is never asked for its last one if and only if the interval is at least one |
| `EventWriter.CueAt` | src/WriterModule/ev42/ev42_Writer.cpp:150-156 | every cue is right, and cues `i` and `j` are at least `(j - i)` intervals apart |
| `EventWriter.CueAgreesWithArrays` | src/WriterModule/ev42/ev42_Writer.cpp:150-156 | a cue's timestamp is `event_time_zero` of the owning message plus `event_time_offset` at the cue index, if the vectors match up to that message |
| `EventWriter.Writer42.Write` | src/WriterModule/ev42/ev42_Writer.cpp:135-156 | the datasets always encode the messages written, and a cue is added exactly when due; with too few offsets its time is whatever lies beyond them |
| `EventWriter.CueTime44RightIff` | src/WriterModule/ev44/ev44_Writer.cpp:108-124 | an ev44 cue has the time of the event it points at if and only if no event of its message belongs to a pulse after the first |
| `EventWriter.CueOfFirstPulse` | src/WriterModule/ev44/ev44_Writer.cpp:117-124 | a message of two pulses whose cue for an event at 106 says 6 |
| `CueSchedule.LogWriter.Write` | src/WriterModule/f144/f144_Writer.cpp:345-355 | after `n` writes there are `n / interval` cues, the `k`-th at `(k + 1) * interval - 1`; a rejected message still records its time |
| `CueSchedule.CuedIff` | src/WriterModule/f144/f144_Writer.cpp:345-355 | an accepted write is cued if and only if it completes an interval |
| `CueSchedule.LogWriter.CuePointsAtItsTimeIff` | src/WriterModule/f142/f142_Writer.cpp:377-387 | a cue points at the entry it was taken from if and only if every message before that one was accepted |
| `CueSchedule.MisplacedCue` | src/WriterModule/f142/f142_Writer.cpp:264-268 | two writes after which the only cue points at the wrong time |
| `CueSchedule.AreaWriter.Write` | src/WriterModule/ADAr/ADAr_Writer.cpp:192-200 | the counting schedule yields the same closed form, and each cue time equals the time array there |
| `CueSchedule.SchedulesAgree` | src/WriterModule/NDAr/NDAr_Writer.cpp:145-153 | given the same times, the dividing and the counting schedule record the same cues |
| `JsonArray.FindInnerSize` | src/HDFOperations.cpp:22-35 | raises each dimension to the longest array at that depth and appends exactly the missing levels |
| `JsonArray.DetermineArrayDimensions` | src/HDFOperations.cpp:45-52 | dimension `k` is the length of the longest array at depth `k` |
| `JsonArray.ArrayBounds` | src/HDFOperations.cpp:22-35 | no array found along a path of `k` indices is longer than dimension `k` |
| `JsonArray.LongestArray` | src/HDFOperations.cpp:22-35 | some array found along a path of `k` indices is as long as dimension `k` |
| `JsonArray.InnerLevelsNonEmpty` | src/HDFOperations.cpp:22-35 | only the last dimension can be zero |
| `JsonArray.ExtentToSize` | src/MultiVector.h:19-22 | the number of cells modulo 2^64 |
| `JsonArray.MultiVector.At` | src/MultiVector.h:48-58 | throws exactly when out of range, otherwise addresses the computed index, which is the row-major cell where strides fit |
| `JsonArray.PopulateMultiVector` | src/HDFOperations.h:81-94 | throws exactly when the last dimension is empty and there is a scalar; otherwise, where strides fit, writes every scalar to its cell and changes no other |
| `JsonArray.JsonArrayToMultiArray` | src/HDFOperations.h:96-102 | fails exactly as above; otherwise has the dimensions of the value and, where strides fit, every cell holds the scalar that belongs there or the default |
| `JsonArray.EveryScalarHasItsCell` | src/HDFOperations.h:81-94 | every scalar is at its zero-padded path, in range, and no two share a cell |
| `JsonArray.OnlyScalarsAreFound` | src/HDFOperations.h:81-94 | a cell that is not the padded path of a scalar keeps the default |
| `JsonArray.PaddedPathsDistinct` | src/HDFOperations.h:81-94 | distinct scalars have distinct padded paths |
| `MultiDimDataset.Enlarged` | src/NeXusDataset/ExtensibleDataset.h:323-345 | one more row, every other extent the maximum of old and new |
| `MultiDimDataset.WidestIsLeastBound` | src/NeXusDataset/ExtensibleDataset.h:334-345 | the extent of a dimension is the least bound of the initial and all appended sizes |
| `MultiDimDataset.Dataset.AppendArray` | src/NeXusDataset/ExtensibleDataset.h:321-349 | the wrong rank is refused and changes nothing; otherwise the frame is added and all extents and rows stay as specified |
| `MultiDimDataset.Dataset.Read` | src/NeXusDataset/ExtensibleDataset.h:321-349 | after any appends row `k` reads as the `k`-th array inside its shape and zero outside |
| `ChunkSize.NestedDivision` | src/WriterModule/hs00/WriterTyped.h:219-222 | dividing twice is dividing by the product |
| `ChunkSize.RowsPerChunk` | src/WriterModule/hs00/WriterTyped.h:217-225 | as many whole rows as fit into the requested size, and one when none does |
| `ChunkSize.HistogramRows` | src/WriterModule/hs00/WriterTyped.h:217-225 | the dividing loop yields that number; it divides by zero exactly when a dimension is zero |
| `ChunkSize.ElementsPerRow` | src/NeXusDataset/ExtensibleDataset.h:382-384 | the product of the dimensions, reduced to a 32-bit `int` |
| `ChunkSize.DatasetRows` | src/NeXusDataset/ExtensibleDataset.h:381-392 | the rows for every row size: by the reduced size, or a division by zero; the right number below 2^31 |
| `ChunkSize.OneStepRightIff` | src/NeXusDataset/ExtensibleDataset.h:381-392 | for rows of less than 2^63 elements the number is right for every chunk size if and only if a row has less than 2^31 |
| `ChunkSize.SquareRowsDivideByZero` | src/NeXusDataset/ExtensibleDataset.h:382-385 | rows of 65536 by 65536 elements divide by zero |
| `JobLifecycle.StoppedExactlyOnce` | src/CommandSystem/Handler.cpp:76-93 | between two consecutive successful starts there is exactly one stopped message and it names the first job |
| `JobLifecycle.SinceStart` | src/CommandSystem/Handler.cpp:76-93 | after a start the job is open until a single stopped message for it |
| `JobLifecycle.PastStopTimeIsFinal` | src/Master.cpp:78-89 | once the recorded stop time is past, only stopping at once can still be recorded |
| `JobLifecycle.Master.HandleStartCommand` | src/CommandSystem/Handler.cpp:161-283 | the first failed check decides the response and its code; a job starts if and only if the service is idle, the command came by the right topic for the service it names, its id is valid and its job can be created; other services' commands change nothing |
| `JobLifecycle.Master.HandleStopCommand` | src/CommandSystem/Handler.cpp:296-397 | the same for stop commands: the stop time is recorded and the controller told if and only if the command is for the current job, well formed and not too late; a command for another service or job changes nothing |
| `JobLifecycle.AnswerAsMeantIff` | src/CommandSystem/Handler.cpp:325-341 | the answer differs from the one that was meant if and only if the command names this service and does not find its job |
| `JobLifecycle.UnansweredStop` | src/CommandSystem/Handler.cpp:325-341 | any stop command that names this service and does not find its job publishes nothing and changes nothing, where a failure response was meant |
| `JobLifecycle.Master.StartWriting` | src/Master.cpp:42-63 | starts only from idle; a failing status topic leaves a controller without a job |
| `JobLifecycle.Master.StopNow` | src/Master.cpp:65-76 | the controller is stopped and the recorded stop time becomes zero, which is past |
| `JobLifecycle.Master.SetStopTime` | src/Master.cpp:78-89 | accepted exactly while the recorded stop time is not past |
| `JobLifecycle.Master.SetToIdle` | src/Master.cpp:109-135 | announces the end of the current job, or of a controller without one, exactly once |
| `JobLifecycle.Master.Run` | src/Master.cpp:101-107 | a round only appends to what was published, keeps it bracketed and leaves no finished controller behind; a stop at once for the current job ends it in that round, a startable job from the pool is running after it unless it is already done; without commands the job ends if and only if there is an error, a stop at once, or no stream left past the stop time |
| `JobLifecycle.Master.EndIfDone` | src/StreamController.cpp:62-67 | the job ends exactly on an error, after a stop at once, or when no stream is left and a stop time other than zero is past |
| `JobLifecycle.StoppedWithoutJob` | src/Master.cpp:49-58 | a failed start whose controller ends in the next round, announced as the end of no job |
| `JobCreator.ExtractMdatModules` | src/JobCreator.cpp:107-117 | the metadata modules move out; each part is the members at exactly its positions, in increasing order |
| `JobCreator.ExtractSettings` | src/JobCreator.cpp:84-105 | exactly the settings at the positions of the validly configured modules, each once and in increasing order of position |
| `JobCreator.KeepMeaning` | src/JobCreator.cpp:107-117 | a selection is the members at exactly the wanted positions, in increasing order |
| `JobCreator.SplitSettings` | src/JobCreator.cpp:140-146 | links and streams, each the members at exactly its positions, in increasing order |
| `JobCreator.SortedExactlyOnce` | src/JobCreator.cpp:127-146 | nothing is lost or duplicated: metadata, or once a link or a stream |
| `JobCreator.ExpandStreams` | src/JobCreator.cpp:148-181 | with an acyclic relation the loop ends, and yields the breadth-first generations of the original list, or fails exactly when one of them cannot be created; enabled extra module `k` of stream `i` is at the length of the original list plus the number of those enabled by all streams before `i`, plus `k` |
| `JobCreator.SpawnedTotal` | src/WriterModuleBase.h:106-114 | each generation accounts for exactly the streams that remain, which is why the loop ends |
| `JobCreator.ShippedIsAcyclic` | src/WriterModuleBase.cpp:14-30 | with the extra modules that the writer modules offer, the relation is acyclic whatever is configured, and extras have no extras |
| `JobCreator.ExpandShipped` | src/JobCreator.cpp:148-181 | so the loop ends for every list, with the list followed by the enabled extras of its members in order, each at its place in the file and with an empty configuration, as many as are enabled; or fails exactly when one of them cannot be created |
| `Throttle.Controller.ThrottleIfWriteQueueIsFull` | src/StreamController.cpp:178-192 | pauses above the limit, resumes below four fifths of it, otherwise leaves the state |
| `Throttle.Controller.ResumesAreBounded` | src/StreamController.cpp:178-192 | over any run pauses and resumes alternate, and resumes times a fifth of the limit never exceed the writes dequeued |
| `FileSizeTimer.Timer.Check` | src/StreamController.cpp:68-75 | the size is estimated exactly when an interval has passed; the last calculation time catches up to less than an interval ago if and only if fewer than 2^31 have, and then keeps its phase |
| `FileSizeTimer.Timer.EstimatesAreBounded` | src/StreamController.cpp:68-75 | over any run that was never that late, there is at most one estimate per interval elapsed, and the one at the start |

## Left out

- Kafka consumers and producers, HDF5 calls, flatbuffer decoding, metrics, logging, the status service, the command line: plumbing over other libraries; polls, decoded messages and clock readings are inputs here.
- The decoder in `EventWriter.Decode` is not in the repository: it reads the arrays the way the NeXus base class NXevent_data describes them.
- The ev44 writer as a class: its counters and cue positions are those of ev42 and are covered by `CueNeverFarBehind` and `CueSafetyIff`, its cue times by `CueTime44RightIff`; its arrays are appended one per field.
- EventWriter.CueTime44RightIff: requires increasing pulse times, sorted pulse indices that start at 0, and vectors of equal length; sums are not reduced to 64 bits.
- ADC debug data of ev42, and minimum, maximum, mean and ns10 handling of f142 and f144.
- HistogramWriter.Writer.Write: leaves out the "errors" dataset and the info datasets.
- HistogramWriter.Writer.constructor: requires every dimension below 2^32 and a volume below 2^64, since the overlap test is unsound beyond (`CollisionsDetectedIff`), and starts with an empty dataset rather than a reopened file.
- SourceFilter.Filter.FilterMessage: requires valid messages to have a timestamp other than 0, which decoding rejects; the model does not say what a filter does with one.
- PartitionFilter.Filter.SetStopTime: requires room for the leeway below the largest time, which the constructors make and this method does not; the overflow otherwise is not modelled.
- Partition.Partition.constructor: takes the filters as built; grouping the writer modules by hash into filters is not modelled, nor are offset checks and counters.
- Pipeline.FinishAndDrain: for a destination listed with several filters only the messages are stated, not their order among the filters.
- EventWriter.RoundTripIff: requires fewer than 2^32 events, as the index datasets are 32 bits wide; larger values are stored clipped.
- EventWriter.Writer42.constructor: requires an interval of at least one; what happens otherwise is in `CueSafetyIff`.
- CueSchedule.LogWriter.constructor: requires an interval of at least one, as the source divides by it.
- JsonArray.JsonArrayToMultiArray: scalars are integers; JSON objects, string conversion and arrays of strings are not modelled, and a write past the end of the data has no effect here.
- ChunkSize.OneStepRightIff: rows of 2^63 elements or more, which no dataset can have, are not considered.
- Throttle.Controller.ThrottleIfWriteQueueIsFull: takes the factor 0.8F as four fifths.
- JobCreator.ExpandStreams: creation, attributes and initialisation of a module are one step that succeeds or fails; a rank witnesses that the relation is acyclic.
- Alternative command and status topics, the metadata published with a job, and the destruction order when a job is stopped at once.
