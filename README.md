# LEMI serial protocol: a verified model

This project models the per-connection protocol object of the MARTAS LEMI magnetometer
driver (`LemiProtocol`). The object receives an unframed byte stream from a LEMI data
logger, cuts it into 153-byte records, decodes each record into ten time-stamped
sub-samples, checks the GPS clock against the receive clock, then batches and publishes
the decoded lines.

The model has these modules:

- `Bytes`: the byte type and the two string operations framing uses, `startswith` and
  `find` with a start offset.
- `Bcd`: `h2d`, the binary-coded-decimal digit conversion, with its inverse.
- `Calendar`: the date-times `datetime(...)` accepts, and their distance in microseconds
  from 2000-01-01. This is proved order-preserving and injective.
- `FrameLayout`: the struct layout `<4cB6B8hb30f3BcB`. The model computes its size (153),
  its value count (55) and each value's offset. A frame then decodes into ten samples
  stamped 0.1 s apart from the GPS time minus 300 ms.
- `Median`: the delay estimate, the median of a sorted permutation of the delay window.
- `ClockReconciler`: what `processLemiData` does to the clock state for one frame:
  - the ten-entry GPS-state window and its majority vote;
  - the 1000-entry window of non-zero GPS/receive-clock differences and its median
    estimate;
  - the counter of consecutive large differences.

  `Observe` gives the whole effect of one frame. `ObserveAll` gives the effect of
  several frames in order.
- `Framing`: `dataReceived`'s treatment of the buffer, stated on values.
  `Reassemble(tag, buffer, ok)` says which 153-byte slices go to the decoder and what the
  buffer holds afterwards. `ok` is the decoder's success test; the protocol passes
  `Decodable`, which holds exactly when the GPS date-time is a valid calendar value.
- `Aggregator`: the publish stage. Without stacking, every block is published at once.
  With stacking, blocks are collected. The dictionary and the header go out whenever
  the message counter is 0. The stage as written drops a block under stacking (see
  "Findings"); `PublishStep` is the corrected stage, and `PublishStepAsWritten` the code's.
- `LemiProtocol`: the class `Protocol`. Its fields are the buffer, the clock state and
  the publish counters, which its methods update in place:
  - `ProcessLemiData` updates the clock fields and builds the lines in a loop.
  - `ReadAligned` and `ReadMisaligned` are the two repair loops over the buffer.
  - `DataReceived` is one arrival of a chunk.

  Each method is proved against the functions of the modules above. The lemmas about
  those functions therefore hold for the object's state.

Time is in integer microseconds. The receive clock reading `now` is a parameter of
`DataReceived`. The six BCD date bytes are decoded with `h2d`. The model assumes that the file
operations of lines 150-169 succeed (see "Left out"). Under that assumption, calendar
validity decides whether a frame decodes: the `datetime(...)` call at line 193 is then
the only exception a 153-byte record can raise inside `processLemiData`. Such an
exception has these effects:

- The GPS window has been updated already.
- The delay analysis fails silently, because its `try` swallows the undefined `gpstime`.
- Building the lines raises out of the method.
- `dataReceived`'s handler then empties the buffer, and the chunk is lost.
- A block decoded earlier in the same call is still published.

Behaviours of the code as written, proved about the model:

- An untagged slice can be decoded. In the misaligned loop, when the first tag after the
  leading one lies at offset 306 or later, bytes 153..305 go to the decoder without a
  header (`Framing.ResyncDecodesUntaggedSlice`).
- A frame can be deleted undecoded. This happens to any complete tag-led frame followed
  by 1 to 152 bytes in which the tag does not occur again from offset 6 on: a next tag
  cut by the chunk boundary, a corrupted next tag, or a partial frame without one. The
  buffer then becomes the new chunk alone (`Framing.FrameBeforeUntaggedTailIsLost`, and
  `Framing.FrameBeforeCutTagIsLost` for the cut tag).
- A buffer of at most 153 bytes is never searched, whatever its prefix
  (`Framing.ShortBufferGrows`).
- With stacking, the block of the call that flushes the collection is dropped
  (`Aggregator.StackCycle`). This is listed under "Findings"; the class uses the corrected
  stage.

Where the design specification of the system and the code differ, the model follows the
code:

- The chunk is appended after the buffer is examined, not before.
- The tag is `sensor[0] + sensor[4:7]`, up to four bytes, not three.
- An untagged slice in the aligned loop stops the loop and discards the chunk. It does
  not fall through to a resync.
- A wrongly headed buffer is repaired only when it is longer than 153 bytes.
- A decode failure ends the call and empties the buffer. It does not skip the frame and
  continue with the next one.
- A zero GPS/receive difference is not stored in the delay window.
- The majority vote takes an arbitrary most frequent value (Python's `set` order). It is
  not necessarily the first one seen.

The design specification has the `stack`-th call publish its collection. The code publishes
it one call later and drops that call's block; the class follows the design here, and the
code's stage is kept as `Aggregator.PublishStepAsWritten` (see "Findings").

## Model

| member | source | states |
|---|---|---|
| Bytes.FindFrom | MARTAS/libmqtt/lemiprotocol.py:328-355 | `find(tag, start)` returns the lowest offset at or after start where the tag occurs, or -1 when there is none; no earlier offset matches |
| Bcd.H2d | MARTAS/libmqtt/lemiprotocol.py:123-131 | h2d of one byte; H2dOfDigits, H2dToBcd and ToBcdH2d state that it gives 10a + b for decimal nibbles a and b and is the inverse of the BCD encoding on 0..99 |
| Bcd.H2dOfDigits | MARTAS/libmqtt/lemiprotocol.py:124-131 | h2d(16a + b) = 10a + b for decimal digits a and b |
| Bcd.H2dToBcd | MARTAS/libmqtt/lemiprotocol.py:124-131 | h2d decodes the BCD byte of every two-digit value back to that value |
| Bcd.ToBcdH2d | MARTAS/libmqtt/lemiprotocol.py:124-131 | every byte with two decimal nibbles is the BCD encoding of its h2d value, which is below 100 |
| Calendar.IsValid | MARTAS/libmqtt/lemiprotocol.py:193 | the arguments `datetime(...)` accepts: year 1..9999, month 1..12, day up to the month length, hour, minute and second in range; DaysInMonth bounds the month length |
| Calendar.ToMicros | MARTAS/libmqtt/lemiprotocol.py:193 | microseconds from 2000-01-01 of a valid date-time; ToMicrosMonotone, ToMicrosInjective and NextDayIsOneDayLater state that it preserves calendar order, is injective and puts consecutive days exactly one day apart |
| Calendar.DaysInMonth | MARTAS/libmqtt/lemiprotocol.py:193 | the day bound `datetime` checks lies between 28 and 31 |
| Calendar.ToMicrosMonotone | MARTAS/libmqtt/lemiprotocol.py:213-215 | a valid date-time that is earlier in calendar order has a strictly smaller microsecond timestamp, so the differences taken at 213-215 compare instants |
| Calendar.ToMicrosInjective | MARTAS/libmqtt/lemiprotocol.py:193 | two valid date-times with the same timestamp are equal |
| Calendar.NextDayIsOneDayLater | MARTAS/libmqtt/lemiprotocol.py:213-215 | the count has no gaps: the next calendar day of every valid date-time but 9999-12-31, across month and year ends, is valid and lies exactly 86 400 000 000 µs later, so the differences at 213-215 are true elapsed times |
| FrameLayout.FormatSize | MARTAS/libmqtt/lemiprotocol.py:174 | the struct format occupies 153 bytes, the frame length |
| FrameLayout.FormatValueCount | MARTAS/libmqtt/lemiprotocol.py:174 | unpacking a frame gives 55 values |
| FrameLayout.DateOffsetsMatchFormat | MARTAS/libmqtt/lemiprotocol.py:193 | tuple values 5..10 are single bytes at offsets 5..10 |
| FrameLayout.FloatOffsetsMatchFormat | MARTAS/libmqtt/lemiprotocol.py:183-188 | float j of the 30 oversampled readings (tuple index 20 + j) is four bytes at offset 28 + 4j |
| FrameLayout.TemperatureOffsetsMatchFormat | MARTAS/libmqtt/lemiprotocol.py:189-190 | the two temperatures (tuple indices 11 and 12) are int16 values at offsets 11 and 13 |
| FrameLayout.TrailerOffsetsMatchFormat | MARTAS/libmqtt/lemiprotocol.py:191-192 | the supply voltage (index 52) and the GPS state (index 53) are the single bytes at offsets 150 and 151 |
| FrameLayout.Int16Le | MARTAS/libmqtt/lemiprotocol.py:189-190 | a little-endian `h` value lies in -32768..32767 |
| FrameLayout.Int16RoundTrip | MARTAS/libmqtt/lemiprotocol.py:174 | decoding the two bytes written for a 16-bit value gives the value back |
| FrameLayout.Int16RoundTripBytes | MARTAS/libmqtt/lemiprotocol.py:174 | re-encoding a decoded `h` value gives the same two bytes |
| FrameLayout.DateFields | MARTAS/libmqtt/lemiprotocol.py:193 | the date-time from `h2d` of bytes 5..10, year 2000 + yy; DateOffsetsMatchFormat places those bytes and SampleTimesFromBcd inverts the BCD encoding of a valid date |
| FrameLayout.GpsTime | MARTAS/libmqtt/lemiprotocol.py:193 | the GPS time minus 300 ms, None when the date-time is invalid; SampleTimesFromBcd states its value for BCD-encoded dates |
| FrameLayout.SampleAt | MARTAS/libmqtt/lemiprotocol.py:238-250 | sub-sample i: stamped base + i * 100 ms, with the axis floats 3i..3i+2, the two temperatures and the voltage; the offset lemmas place those fields |
| FrameLayout.Samples | MARTAS/libmqtt/lemiprotocol.py:236-252 | the ten sub-samples in order; SampleTimesFromBcd states their stamps and BuildLines is proved to build them |
| FrameLayout.SampleTimesFromBcd | MARTAS/libmqtt/lemiprotocol.py:238-241 | when the date bytes are the BCD encodings of a valid date-time, the frame decodes and sub-sample i is stamped at that date-time (year 2000 + yy) - 300 000 µs + i * 100 000 µs |
| Median.Sort | MARTAS/libmqtt/lemiprotocol.py:221 | the delays are ordered as a sorted permutation of the window, of the same length |
| Median.MedianOf | MARTAS/libmqtt/lemiprotocol.py:219-221 | `np.median` of a non-empty window; MedianWithinWindow, MedianSplitsWindow and MedianPositive state that it lies within the window, splits it in halves and is positive for positive delays |
| Median.MedianWithinWindow | MARTAS/libmqtt/lemiprotocol.py:219-221 | the median lies between two elements of the window, and is one of them when the count is odd |
| Median.MedianSplitsWindow | MARTAS/libmqtt/lemiprotocol.py:219-221 | the estimate is a median of the window: at least half of the delays lie at or below it and at least half at or above it |
| Median.MedianPositive | MARTAS/libmqtt/lemiprotocol.py:216-221 | a window of positive delays has a positive median |
| ClockReconciler.Push | MARTAS/libmqtt/lemiprotocol.py:204-205 | append then keep the last cap entries: at most cap entries, ending with the new one |
| ClockReconciler.PushRecent | MARTAS/libmqtt/lemiprotocol.py:217-218 | appending to the last cap entries of a history gives the last cap entries of the longer history |
| ClockReconciler.Majority | MARTAS/libmqtt/lemiprotocol.py:206 | the authoritative state occurs in the window, and at least as often as any other value |
| ClockReconciler.StrictMajorityWins | MARTAS/libmqtt/lemiprotocol.py:206 | a state held by more than half of the window is the authoritative one |
| ClockReconciler.GpsStep | MARTAS/libmqtt/lemiprotocol.py:204-209 | the window is the old window with the new state pushed (ten kept); gpsstate1 equals gpsstate2, occurs in the window and is a most frequent value; a change notice is issued exactly when it differs from the previous gpsstate2, and it names the newest state; nothing else changes |
| ClockReconciler.DelayStep | MARTAS/libmqtt/lemiprotocol.py:213-229 | a non-zero \|gps - now\| is pushed (1000 kept) and a zero one is not; the estimate changes only when more than 100 are held, and is then the median of the window; the counter is incremented when the difference minus 2.304 s exceeds 3 s and reset to 0 otherwise; the clock invariant (bounded windows, positive delays, non-negative estimate) is preserved; nothing else changes |
| ClockReconciler.Observe | MARTAS/libmqtt/lemiprotocol.py:178-252 | processLemiData on one frame: it yields lines exactly when the date-time is valid, and those are the ten samples from the GPS time; the clock invariant is preserved |
| ClockReconciler.ObserveWindows | MARTAS/libmqtt/lemiprotocol.py:195-218 | the GPS window takes the frame's state even when the date-time is invalid; the delay window changes only for a decodable frame with a non-zero difference |
| ClockReconciler.ObserveAll | MARTAS/libmqtt/lemiprotocol.py:178-231 | processLemiData on several frames in order; GpsWindowIsRecent, DelayWindowIsRecent and TimeCountFollowsAnomalies state the windows and the counter after any run |
| ClockReconciler.GpsWindowIsRecent | MARTAS/libmqtt/lemiprotocol.py:204-205 | after any run of frames, the GPS window is the last ten states of the whole history, in order |
| ClockReconciler.DelayWindowIsRecent | MARTAS/libmqtt/lemiprotocol.py:213-218 | after any run of frames, the delay window is the last 1000 non-zero differences of the decodable frames, in arrival order |
| ClockReconciler.ObserveCounter | MARTAS/libmqtt/lemiprotocol.py:224-231 | an undecodable frame leaves the counter alone; a decodable one increments it on an anomaly and resets it to 0 otherwise |
| ClockReconciler.TimeCountFollowsAnomalies | MARTAS/libmqtt/lemiprotocol.py:224-229 | after any run of frames, the counter is the count obtained from the anomaly history of the decodable frames |
| ClockReconciler.CounterIsTrailingRun | MARTAS/libmqtt/lemiprotocol.py:224-229 | started at 0, the counter is the number of consecutive anomalies that end with the newest observation |
| ClockReconciler.TimeCountAsWritten | MARTAS/libmqtt/lemiprotocol.py:224-231 | one frame's update of the counter as written: the text '0' stays through an anomaly, an integer is incremented, and a below-threshold frame stores 0; AsWrittenCounter states its run |
| ClockReconciler.AsWrittenAfter | MARTAS/libmqtt/lemiprotocol.py:224-231 | the counter as written after a run of anomaly flags from start-up; AsWrittenCounter and AsWrittenMissesFirstAnomaly state it |
| ClockReconciler.AsWrittenCounter | MARTAS/libmqtt/lemiprotocol.py:224-231 | as written, the counter stays the text '0' through the anomalies before the first below-threshold frame, and afterwards counts the trailing run |
| ClockReconciler.AsWrittenMissesFirstAnomaly | MARTAS/libmqtt/lemiprotocol.py:225 | one anomaly from the initial state leaves the counter as written at '0', where the intended counter is 1 |
| Framing.ExactFrame | MARTAS/libmqtt/lemiprotocol.py:289-293 | a tag-led buffer of exactly 153 bytes is handed to the decoder once, then replaced by the chunk, or emptied when decoding raises |
| Framing.ShortBufferGrows | MARTAS/libmqtt/lemiprotocol.py:357-358 | any other buffer of at most 153 bytes is not searched and nothing is decoded; the chunk is appended |
| Framing.ConcatHanded | MARTAS/libmqtt/lemiprotocol.py:316-323 | the aligned loop hands over at most N slices, slice j being bytes 153j..153j+152, each starting with the tag |
| Framing.ConcatStop | MARTAS/libmqtt/lemiprotocol.py:316-326 | without an exception, an aligned loop that hands over m < N slices stopped at an untagged slice, with flag set and the buffer from slice m on left; when all N are handed over, the buffer is empty and flag is clear |
| Framing.ConcatenatedFrames | MARTAS/libmqtt/lemiprotocol.py:310-326 | a tag-led buffer longer than 153 whose length is a multiple of 153: its slices are decoded front to back while each starts with the tag; the first untagged slice leaves the remainder from it on and discards the chunk; when every slice decodes, the buffer becomes the chunk |
| Framing.AllConcatenatedFramesDecoded | MARTAS/libmqtt/lemiprotocol.py:310-326 | N tagged, decodable frames arriving together are all decoded and the buffer becomes the chunk |
| Framing.MisalignedOrWrongHeader | MARTAS/libmqtt/lemiprotocol.py:328-355 | for a buffer over 153 that is misaligned or wrongly headed, the tag is searched from offset 6. No tag: nothing is decoded and the buffer becomes the chunk. Tag at k < 153: the first k bytes are dropped and the chunk is discarded. Tag at k >= 153 on a tag-led buffer: the first 153 bytes are decoded first. Tag at k >= 153 on a wrongly headed buffer: the first k bytes are dropped and the chunk is discarded |
| Framing.ResyncHandsFront | MARTAS/libmqtt/lemiprotocol.py:329-334 | a resync pass that finds the next tag at 153 or beyond hands the front slice to the decoder |
| Framing.ResyncDecodesUntaggedSlice | MARTAS/libmqtt/lemiprotocol.py:328-334 | when the first tag after the leading one lies at offset 306 or later, the second slice, which has no tag, is handed to the decoder |
| Framing.FrameBeforeUntaggedTailIsLost | MARTAS/libmqtt/lemiprotocol.py:328-337 | a complete tag-led frame followed by 1 to 152 bytes with no tag from offset 6 on is deleted undecoded, and the buffer becomes the chunk |
| Framing.FrameBeforeCutTagIsLost | MARTAS/libmqtt/lemiprotocol.py:328-337 | in particular, a complete tag-led frame followed by fewer bytes than the tag has is deleted undecoded, and the buffer becomes the chunk |
| Framing.ConcatShape | MARTAS/libmqtt/lemiprotocol.py:316-326 | the aligned loop hands over consecutive front slices and leaves a non-overlapping suffix; every slice but the last decodes; it raises exactly when the last one does not |
| Framing.ResyncShape | MARTAS/libmqtt/lemiprotocol.py:328-343 | the same for the resync loop |
| Framing.ConcatFrames | MARTAS/libmqtt/lemiprotocol.py:316-326 | the aligned loop as a function; ConcatHanded, ConcatStop and ConcatShape state what it hands over and leaves |
| Framing.ResyncFrames | MARTAS/libmqtt/lemiprotocol.py:328-343 | the resync loop as a function; ResyncHandsFront, ResyncDecodesUntaggedSlice and ResyncShape state what it hands over and leaves |
| Framing.Reassemble | MARTAS/libmqtt/lemiprotocol.py:287-363 | the whole treatment of the buffer; ReassembleFromFront, BufferIsSuffixThenChunk, ExactFrame, ShortBufferGrows, ConcatenatedFrames and MisalignedOrWrongHeader state its frames, remainder and exception |
| Framing.ReassembleFromFront | MARTAS/libmqtt/lemiprotocol.py:287-363 | whatever the buffer holds, the frames decoded in one call are consecutive 153-byte slices from its front, in order; the remainder is a suffix that does not overlap them; the call raises exactly when the last frame handed over does not decode |
| Framing.BufferIsSuffixThenChunk | MARTAS/libmqtt/lemiprotocol.py:287-363 | after every call, what is left of the old buffer is a suffix of it; the new buffer is that suffix, followed by the chunk when flag stayed 0, or empty after an exception, as `NewBuffer` defines it |
| Aggregator.SendCycle | MARTAS/libmqtt/lemiprotocol.py:380-391 | without stacking, from count 0, metacnt successive publications carry the blocks in order, send the dictionary and the header exactly once, and bring count back to 0 |
| Aggregator.InitialAggInvariant | MARTAS/libmqtt/lemiprotocol.py:83-85 | the initial counters satisfy the publish invariant |
| Aggregator.PublishStepAsWritten | MARTAS/libmqtt/lemiprotocol.py:366-391 | one call's publish stage as written; AsWrittenStepInvariant, StackCollects, StackCycle and AsWrittenLosesFlushingBlock state it |
| Aggregator.PublishAllAsWritten | MARTAS/libmqtt/lemiprotocol.py:366-391 | successive calls as written; StackCollects, StackCycle and AsWrittenLosesFlushingBlock state it |
| Aggregator.PublishStep | MARTAS/libmqtt/lemiprotocol.py:366-391 | one call's publish stage, corrected; PublishStepInvariant, UnstackedPublishesEveryBlock and PublishStepKeepsEverySample state it |
| Aggregator.PublishAll | MARTAS/libmqtt/lemiprotocol.py:366-391 | successive calls, corrected; UnstackedCadence, SendCycle, PublishAllKeepsEverySample, StackCollectsBelowStack and StackPublishesEveryStack state it |
| Aggregator.PublishStepInvariant | MARTAS/libmqtt/lemiprotocol.py:366-391 | every corrected publish step keeps the invariant: datacnt counts datalst and is at most stack, count stays below metacnt, with stacking count is 0, and without it datalst is empty and metacnt is 10; and after a stacked step metacnt is 1 |
| Aggregator.AsWrittenStepInvariant | MARTAS/libmqtt/lemiprotocol.py:366-391 | the same invariant for the step as written |
| Aggregator.UnstackedPublishesEveryBlock | MARTAS/libmqtt/lemiprotocol.py:380-391 | without stacking, each block is published at once, with the dictionary and the header exactly when count is 0; count advances modulo 10 |
| Aggregator.UnstackedCadence | MARTAS/libmqtt/lemiprotocol.py:380-391 | without stacking, after n blocks from the initial state, the data messages carry exactly those blocks in order, the dictionary was sent ceil(n / 10) times, and count is n mod 10 |
| Aggregator.StackCollects | MARTAS/libmqtt/lemiprotocol.py:370-374 | as written, with stacking, the first `stack` blocks after an empty collection are collected in order and nothing is published |
| Aggregator.StackCycle | MARTAS/libmqtt/lemiprotocol.py:370-391 | as written, with stacking, call stack + 1 publishes the first `stack` blocks joined in order, followed by the dictionary and the header; its own block is not included; the collection is empty again |
| Aggregator.AsWrittenLosesFlushingBlock | MARTAS/libmqtt/lemiprotocol.py:375-379 | as written, when the flushing block is non-empty, the samples published and still collected after stack + 1 calls are not the samples received |
| Aggregator.StackCollectsBelowStack | MARTAS/libmqtt/lemiprotocol.py:370-374 | corrected, with stacking, fewer than `stack` blocks after an empty collection are collected in order and nothing is published |
| Aggregator.StackPublishesEveryStack | MARTAS/libmqtt/lemiprotocol.py:370-391 | corrected, with stacking, the `stack`-th call publishes all `stack` blocks joined in order, followed by the dictionary and the header, and empties the collection |
| Aggregator.PublishStepKeepsEverySample | MARTAS/libmqtt/lemiprotocol.py:366-391 | one corrected step: the samples published followed by those collected are those collected before followed by the new block |
| Aggregator.PublishAllKeepsEverySample | MARTAS/libmqtt/lemiprotocol.py:366-391 | corrected, over any run of calls and any stack setting: the invariant holds, and the samples published followed by those still collected are the ones collected at the start followed by every block, in order |
| LemiProtocol.SolTag | MARTAS/libmqtt/lemiprotocol.py:108 | the tag is the first byte of the sensor id followed by bytes 4..6, as many of them as exist |
| LemiProtocol.TagOfLemi036 | MARTAS/libmqtt/lemiprotocol.py:108 | sensor "LEMI036_1_0002" has the tag "L036" |
| LemiProtocol.BuildLines | MARTAS/libmqtt/lemiprotocol.py:236-252 | the line loop builds exactly the ten samples of the frame, stamped from the GPS time |
| LemiProtocol.Protocol.constructor | MARTAS/libmqtt/lemiprotocol.py:79-113 | a new object has the tag, an empty buffer and empty windows, estimate 0, counters 0 and metacnt 10 |
| LemiProtocol.Protocol.UpdateGpsState | MARTAS/libmqtt/lemiprotocol.py:204-209 | the GPS fields become GpsStep of the old ones, with the notice it gives |
| LemiProtocol.Protocol.AnalyseDelay | MARTAS/libmqtt/lemiprotocol.py:211-229 | the delay fields become DelayStep of the old ones |
| LemiProtocol.Protocol.ProcessLemiData | MARTAS/libmqtt/lemiprotocol.py:133-256 | the clock fields, the notice and the lines are those of Observe on the old clock; the object invariant is kept |
| LemiProtocol.Protocol.Publish | MARTAS/libmqtt/lemiprotocol.py:366-391 | the publish fields and the messages are those of the corrected PublishStep; the object invariant is kept |
| LemiProtocol.Protocol.DecodeFrame | MARTAS/libmqtt/lemiprotocol.py:292-293 | one decoding appends the frame to those handed over; the clock, the notices and the last successful block track ObserveAll; it reports whether the call raised |
| LemiProtocol.Protocol.ReadAlignedFront | MARTAS/libmqtt/lemiprotocol.py:317-326 | one pass of the aligned loop advances the buffer along ConcatFrames by one slice, or ends it as ConcatFrames does |
| LemiProtocol.Protocol.ReadAligned | MARTAS/libmqtt/lemiprotocol.py:316-326 | the aligned loop hands over ConcatFrames' frames and sets flag, raises and leaves the buffer as ConcatFrames says; the clock state tracks the frames decoded |
| LemiProtocol.Protocol.ReadMisalignedFront | MARTAS/libmqtt/lemiprotocol.py:329-343 | one pass of the resync loop advances the buffer along ResyncFrames, or ends it as ResyncFrames does |
| LemiProtocol.Protocol.ReadMisaligned | MARTAS/libmqtt/lemiprotocol.py:328-343 | the resync loop hands over ResyncFrames' frames and sets flag, raises and leaves the buffer as ResyncFrames says; the clock state tracks the frames decoded |
| LemiProtocol.Protocol.Repair | MARTAS/libmqtt/lemiprotocol.py:287-356 | the whole-frame and repair branches produce Reassemble's frames, remainder, flag and exception |
| LemiProtocol.Protocol.DataReceived | MARTAS/libmqtt/lemiprotocol.py:259-391 | the frames decoded and the new buffer are Reassemble's; the clock fields and the GPS notices are those of observing the decoded frames in order; when some decoding succeeded, the messages and the publish fields are the corrected PublishStep of the last successful block under the final estimate; otherwise nothing is published and the publish fields are unchanged |

## Left out

- File storage (lines 141-169) is not modelled: the buffer directory, the per-day `.bin` files, the header line and the packed receive time. The model assumes that the unguarded file operations succeed: the path built from the configured directory (150), `os.makedirs` (152-153), and opening the day file to write its header (160-163). If one of them fails, the exception leaves `processLemiData` before line 204, and the model does not capture what follows:
  - the frame's GPS state never enters the window, and the delay window and the counter are untouched;
  - `dataReceived`'s handler (360-363) empties the buffer and drops the chunk;
  - a block decoded earlier in the same call is still published.
  The record write at 164-169 is guarded, and its failure changes no state.
- `datetime.utcnow()` (line 141) is the parameter `now`. The model takes one reading per `dataReceived` call, where the code reads the clock again for every frame.
- The float arithmetic is not modelled: the bias fields (180-182), the ×1000 and ÷1000 axis scaling (183-188, 244-246), and the temperature and voltage scaling (189-191, 247-249). The axis values are kept as their raw four-byte float fields; temperatures and voltage are kept as their raw integers.
- The time differences are integer microseconds rather than float seconds, and the estimate is the median of integers. The threshold test `delta - 2.304 > 3` is the exact integer test, so a float rounding at the boundary is not modelled.
- `ClockReconciler.Majority`: the code breaks ties in Python's `set` iteration order, which the model does not fix. The contract says "a most frequent value"; the definition picks the earliest one of the window.
- The line text is not modelled. This covers `acs.timeToArray`, `str`, the ',' and ';' joins (243-252, 377) and the dictionary and header strings (156-157, 386). A block is its sequence of samples, and joining blocks is their concatenation. A dictionary message carries only the delay estimate.
- Logging and `print` are not modelled (136, 199-200, 208 text, 227, 306-354 messages, 361). The warning at line 227 names the undefined `sensorid` and `secdiff`, so it raises when the counter first reaches 1. That exception is swallowed at line 230 after the counter has been updated, so it has no effect on the state.
- The length check at 135-136 and the unpack failure at 175-176 cannot happen for 153-byte frames, which are the only input the caller gives. The `np.median` failure at 222-223 cannot happen for a non-empty window.
- MQTT publishing (384-388) becomes the returned `Message` sequence. The topic, QoS (93-96) and the `client` object are not modelled.
- An unparseable `stack` setting (line 369) is not modelled. That `int()` sits outside the `try` and would raise out of `dataReceived`; `stack` is an integer field.
- Debug mode (98-105, 305-320) only logs and is not modelled.
- `connectionMade` and `connectionLost` (118-122) only log and are not modelled.
- MARTAS/MQTT/WebScripts/pusher.js and MARTAS/WebScripts/miniwebserver.py are network plumbing and are not part of this model.

## Findings

| source | as written | input that shows it | evidently intended | confidence | as-written member | corrected member |
|---|---|---|---|---|---|---|
| MARTAS/libmqtt/lemiprotocol.py:109 | `errorcnt['time']` starts as the text `'0'`, so `+= 1` at line 225 raises a TypeError, which line 230 swallows; the counter stays `'0'` until the first below-threshold frame stores the integer 0 | one frame whose GPS time is more than 5.304 s from the receive clock, right after start-up: the counter stays `'0'` and the warning at 226-227 is never reached | an integer counter starting at 0 that counts the consecutive large differences | not executed | ClockReconciler.AsWrittenMissesFirstAnomaly | ClockReconciler.CounterIsTrailingRun |
| MARTAS/libmqtt/lemiprotocol.py:375-379 | with stacking, the call that finds `stack` blocks collected replaces its own `dataarray` with the joined collection, so its own block is never published nor collected | stack 2 and three successful calls with non-empty blocks: only the first two blocks are ever published | the block joins the collection and the call that completes `stack` blocks publishes them, so no sample is lost | not executed | Aggregator.AsWrittenLosesFlushingBlock | Aggregator.PublishAllKeepsEverySample |

The model's `Protocol` keeps the corrected integer counter `timeCount`, starting at 0, and publishes
through the corrected `Aggregator.PublishStep`. `ClockReconciler.AsWrittenCounter` gives the as-written counter for every input.
