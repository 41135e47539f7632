# audio-frame-buffer: a Dafny model of the ring core

This project models the core of `audio-frame-buffer`. The library is a single-producer /
single-consumer ring buffer of multi-channel audio frames, kept in one shared sample array.
The model covers four parts:

- **The segment enumerator** (`AudioFrameBuffer.enumFrameSegments`). A request for
  `availableFrames` frames from a cursor is cut into contiguous segments that never cross the
  end of the storage. The callback is asked, for each segment, how many of its frames it
  processed; it also receives the number of frames processed so far in the call. The loop throws
  `RangeError` when the callback claims more than the segment holds. It stops after a short
  return. It returns the total processed and the next cursor.
- **The frame segment** (`FrameBufferSegment`). A bounds-checked (frame, channel) view of a
  window of the shared samples. `get`/`set` address sample `frame * channels + channel` of the
  window.
- **The writer and the reader.** Each has a private cursor. Each derives `availableFrames` from
  the shared usage counter. Each runs the enumerator from its cursor and then updates the
  counters: the writer adds to the usage counter and to the total written; the reader subtracts
  from the usage counter and adds to the total read.
- **The shared context.** It holds the sample storage of `frameCount * channelCount` samples
  and the three counters (`usedFramesInBuffer`, `totalReadFrames`, `totalWriteFrames`), all
  starting at 0.

Layout of the project:

| file | module | contents |
|---|---|---|
| `results.dfy` | `Results` | `Result` and the two `RangeError`s |
| `arithmetic.dfy` | `Arithmetic` | `Min`, multiplication and modulo facts used by the layout and the cursor |
| `layout.dfy` | `Layout` | interleaved layout: channel `c` of frame `f` is sample `f * ch + c` |
| `ring.dfy` | `Ring` | the storage as a ring of frames; runs from a cursor; overwriting a run |
| `ring_core.dfy` | `RingCore` | the callback as an oracle, the reference enumeration `Enumerate` and its properties |
| `frame_segment.dfy` | `Segments` | `FrameSegment` with `Get`/`Set` |
| `shared_context.dfy` | `SharedContext` | `FrameBufferContext`: storage, counters, and the pending frames |
| `frame_buffer.dfy` | `Buffers` | `FrameBuffer` and its `EnumFrameSegments` loop |
| `writer.dfy` | `Writers` | `FrameBufferWriter` |
| `reader.dfy` | `Readers` | `FrameBufferReader` |
| `scenarios.dfy` | `Scenarios` | a writer and a reader used in turn, and the library's scenarios |

How the model is built:

- **The callback is a pure oracle.** Its type is `SegmentCallback = (nat, nat, nat) -> nat`. It
  takes the segment's first frame in the storage, its length and the offset, and returns the
  number of frames processed.
- **The enumerator has a reference definition.** `EnumFrameSegments` is the `while` loop of the
  source. It also returns the list of callback invocations it made (`Visit`s). Its postcondition
  says the result and that list equal the recursive reference `RingCore.Enumerate`. Every
  property of the enumerator is then a lemma about `Enumerate`.
- **The data the callbacks move is modelled beside the counters.**
  - For a write, `produce(k, c)` gives channel `c` of the `k`-th frame of the call. The writer
    stores those frames through `FrameSegment.Set`, segment by segment.
  - For a read, the reader fetches the frames through `FrameSegment.Get`.
- **The context has ghost bookkeeping.** The context's invariant keeps
  `totalWriteFrames == totalReadFrames + usedFramesInBuffer` and `usedFramesInBuffer <= capacity`.
  Its ghost `Pending()` is the list of frames written and not yet read, oldest first. Each
  cursor equals its total modulo the capacity.
- **What follows from this.**
  - `Write` appends the produced frames to `Pending()`.
  - `Read` returns a prefix of `Pending()` and removes it.
  - So frames come out in the order they went in, including across the wrap.

## Model

| member | source | states |
|---|---|---|
| `Buffers.FrameBuffer.constructor` | src/audio-frame-buffer.ts:21-25 | the frame count is the sample count divided by the samples per frame, which is the context's capacity |
| `Arithmetic.DivExact` | src/audio-frame-buffer.ts:24 | `floor(frameCount * ch / ch) == frameCount`, so the derived frame count loses nothing |
| `RingCore.Enumerate` | src/audio-frame-buffer.ts:60-77 | the reference enumeration: a segment is offered exactly when frames of the request remain, and the returned cursor lies in `[0, frameCount)` |
| `Buffers.FrameBuffer.EnumFrameSegments` | src/audio-frame-buffer.ts:55-78 | the loop returns the same outcome (`RangeError`, or total and next cursor) and makes the same callback invocations, in order, as the reference enumeration |
| `RingCore.EnumerateStep` | src/audio-frame-buffer.ts:61-76 | the definition of `Enumerate` unfolded by one iteration, kept as a rewriting step for the other lemmas: a claim over the segment length throws; a short return stops with the total and cursor advanced; a full return continues from the advanced cursor |
| `RingCore.EnumerateNeverWraps` | src/audio-frame-buffer.ts:63 | every segment offered is non-empty and satisfies `frameIndex + frames <= frameCount` |
| `RingCore.EnumerateAsksCallback` | src/audio-frame-buffer.ts:63-66 | every segment is `min(frameCount - cursor, remaining)` long and its count is the callback's answer for it |
| `RingCore.EnumerateWithinRequest` | src/audio-frame-buffer.ts:61-63 | every segment lies within the request: `offset + frames <= availableFrames` |
| `RingCore.EnumerateFirstSegment` | src/audio-frame-buffer.ts:60-66 | the first segment starts at the cursor and is passed the offset processed so far |
| `RingCore.EnumerateChained` | src/audio-frame-buffer.ts:65-72 | each segment's offset is the previous one plus its processed count, and it starts where the cursor moved to, modulo the capacity |
| `RingCore.EnumerateCursor` | src/audio-frame-buffer.ts:72 | each segment starts at the first cursor advanced by the frames processed before it, modulo the capacity |
| `RingCore.EnumerateOffsetIsProcessedSoFar` | src/audio-frame-buffer.ts:65-71 | the offset passed with each segment equals the frames processed before it in the call, and the total is the sum of all processed counts |
| `RingCore.EnumerateErrorIffOverClaim` | src/audio-frame-buffer.ts:68-70 | the call ends in `RangeError` exactly when the last callback claimed more frames than its segment held (both directions) |
| `RingCore.EnumerateErrorReports` | src/audio-frame-buffer.ts:69 | the error carries the claimed count and the segment length |
| `RingCore.EnumerateStopsOnShortReturn` | src/audio-frame-buffer.ts:73-75 | every segment but the last was consumed whole: after a short return no further segment is offered |
| `RingCore.EnumerateShortfall` | src/audio-frame-buffer.ts:61-75 | a successful call that processed less than requested ended with a short return |
| `RingCore.EnumerateOkWithinSegments` | src/audio-frame-buffer.ts:68-75 | on success no callback claimed more than its segment |
| `RingCore.EnumerateTotalBounds` | src/audio-frame-buffer.ts:61-71 | on success `totalProcessedFrames <= availableFrames` |
| `RingCore.EnumerateTotalAtLast` | src/audio-frame-buffer.ts:71-77 | on success the total is the last segment's offset plus its processed count |
| `RingCore.EnumerateNextCursor` | src/audio-frame-buffer.ts:72-77 | on success `nextFrameIndex == (frameIndex + totalProcessedFrames) % frameCount` |
| `RingCore.EnumerateVisitCount` | src/audio-frame-buffer.ts:61-75 | the loop terminates: there are at most as many segments as frames requested |
| `RingCore.EnumerateOneSegment` | src/audio-frame-buffer.ts:63 | a request that fits before the end of the storage uses at most one segment |
| `RingCore.EnumerateAtMostTwoSegments` | src/audio-frame-buffer.ts:61-76 | a request of at most the capacity uses at most two segments; two segments means `[cursor, frameCount)` then a run from frame 0 |
| `RingCore.EnumerateFullConsumption` | src/audio-frame-buffer.ts:61-76 | a callback that always consumes its whole segment processes the whole request, and the cursor advances by it |
| `RingCore.EnumerateUpTo` | src/audio-frame-buffer.ts:61-76 | a callback that stops at `limit` frames processes `min(limit, availableFrames)` frames |
| `RingCore.EnumerateFromCursor` | src/audio-frame-buffer.ts:55-78 | for a call: no wrap inside a segment, error iff over-claim, total within the request, cursor advanced by the total, at most two segments when the request fits |
| `RingCore.EnumerateCovers` | src/audio-frame-buffer.ts:60-77 | a successful call's segments account, in order and with no gap, for the frames it reports processed |
| `Segments.FrameSegment.constructor` | src/frame-buffer-segment.ts:45-49 | the segment views the shared storage from frame `frameNumber`, with the given channel and frame counts |
| `Segments.FrameSegment.Samples` | src/frame-buffer-segment.ts:47 | the window is storage indices `[frameNumber*channels, (frameNumber+frameCount)*channels)`, so its length is `frameCount*channels` |
| `Segments.FrameSegment.Get` | src/frame-buffer-segment.ts:59-64 | `RangeError` exactly when `frame` or `channel` is negative or at or over its limit; otherwise storage element `(frameNumber+frame)*channels + channel` |
| `Segments.FrameSegment.Set` | src/frame-buffer-segment.ts:73-78 | out of range: `RangeError` and the storage unchanged; in range: exactly storage element `(frameNumber+frame)*channels + channel` becomes `value` |
| `Segments.SetThenGet` | src/frame-buffer-segment.ts:59-78 | `set(f, c, v)` followed by `get(f, c)` yields `v`, or `RangeError` out of range |
| `SharedContext.FrameBufferContext.constructor` | src/frame-buffer-context.ts:31-41 | storage of `frameCount * channelCount` samples, all three counters 0, nothing pending |
| `SharedContext.FrameBufferContext.WriteIndex` | src/frame-buffer-writer.ts:76-81 | the writer's position is `used` frames past the reader's, modulo the capacity |
| `Writers.FrameBufferWriter.constructor` | src/frame-buffer-writer.ts:14-28 | the writer's cursor starts at 0 |
| `Writers.FrameBufferWriter.AvailableFrames` | src/frame-buffer-writer.ts:35-37 | free frames plus used frames equal the capacity |
| `Writers.FrameBufferWriter.TotalFrames` | src/frame-buffer-writer.ts:44-48 | the frames ever written are those read plus those still in use |
| `Writers.FrameBufferWriter.Write` | src/frame-buffer-writer.ts:76-82 | runs the enumerator from the cursor over the free frames, and its callback invocations are those of that enumeration; on `RangeError` the cursor, `used`, the totals and the pending frames are unchanged; on success it returns the total, the cursor moves to the next index, `used` and the written total grow by exactly the total, `used <= capacity` is kept, and the produced frames are appended to the pending ones |
| `Writers.FrameBufferWriter.Publish` | src/frame-buffer-writer.ts:78-81 | after the enumeration: the cursor moves, `used` and the written total grow by `n`, the written frames join the pending ones |
| `Writers.FrameBufferWriter.CopyIn` | src/frame-buffer-writer.ts:77 | the callbacks' frames are stored, segment by segment, at the positions from the cursor on |
| `Writers.FrameBufferWriter.FillVisit` | src/audio-frame-buffer.ts:65-66 | the segment built for one callback invocation receives that invocation's frames, at the positions that follow the frames stored before it |
| `Writers.FrameBufferWriter.FillSegment` | src/frame-buffer-segment.ts:73-78 | storing the frames of one segment through `set` overwrites the next frames from the cursor |
| `Writers.StoreFrame` | src/frame-buffer-segment.ts:73-78 | storing all channels of one frame through `set` changes that frame of the storage and no other |
| `Readers.FrameBufferReader.constructor` | src/audio-frame-buffer-reader.ts:14-28 | the reader's cursor starts at 0 |
| `Readers.FrameBufferReader.AvailableFrames` | src/audio-frame-buffer-reader.ts:34-36 | the readable frames are the used frames: at most the capacity, and written minus read |
| `Readers.FrameBufferReader.TotalFrames` | src/audio-frame-buffer-reader.ts:43-47 | the frames ever read are those written less those still in use |
| `Readers.FrameBufferReader.Read` | src/audio-frame-buffer-reader.ts:75-81 | runs the enumerator from the cursor over the used frames, and its callback invocations are those of that enumeration; on `RangeError` nothing changes; on success it returns the total, the oldest pending frames in order, the cursor moves to the next index, `used` shrinks and the read total grows by exactly the total |
| `Readers.FrameBufferReader.Release` | src/audio-frame-buffer-reader.ts:77-79 | after the enumeration: the cursor moves, `used` shrinks and the read total grows by `n`, and the first `n` pending frames leave |
| `Writers.WriteSegmentsAreFree` | src/audio-frame-buffer.ts:63-66 | every frame of every segment a write offers its callback, including frames after the count it returns, lies in the storage at a position the reader's cursor reaches only after all the pending frames |
| `Ring.RingSeqOutsideRun` | src/frame-buffer-writer.ts:76-77 | storing into a position beyond the `used` frames from the reader's cursor leaves the pending frames unchanged, so what a write callback stores into its segment stays invisible until published |
| `Readers.ReadSegmentsArePending` | src/audio-frame-buffer.ts:63-66 | every segment a read offers its callback lies within the storage and within the frames in use, and holds, frame for frame, the pending frames at its offset: the whole segment, not only the frames the callback goes on to consume |
| `Readers.FrameBufferReader.CopyOut` | src/audio-frame-buffer-reader.ts:76 | what the read callbacks consume, segment by segment, is the first `n` pending frames |
| `Readers.FrameBufferReader.FetchSegment` | src/frame-buffer-segment.ts:59-64 | reading the frames of one segment through `get` yields the next frames from the cursor |
| `Readers.FetchFrame` | src/frame-buffer-segment.ts:59-64 | reading all channels of one frame through `get` yields that frame of the storage |
| `Scenarios.AvailableFramesAddUp` | src/audio-frame-buffer-reader.ts:34-36 | writer `availableFrames` plus reader `availableFrames` equals the capacity |
| `Scenarios.TakeUpTo` | tests/audio-frame-buffer-reader-writer.test.ts:104-113 | a callback that stops at `limit` takes at most what it is offered and never passes `limit` |
| `Scenarios.WrapSplitsAtBoundary` | tests/audio-frame-buffer.test.ts:44-55 | from 5 frames before the end, a 10-frame request is offered as 5 frames up to the end, then a run from frame 0; 10 frames processed, cursor at 5 |
| `Scenarios.WriteUpTo` | src/frame-buffer-writer.ts:76-82 | a write whose callback stops at `n` frames, with `n` at most the free frames, writes exactly `n` frames, which join the pending ones; the cursor and both counters move by `n`; its invocations are those of the enumeration over the free frames |
| `Scenarios.ReadUpTo` | src/audio-frame-buffer-reader.ts:75-81 | a read whose callback stops at `n` frames, with `n` at most the used frames, returns exactly the `n` oldest pending frames, which leave; the cursor and both counters move by `n`; its invocations are those of the enumeration over the used frames |
| `Scenarios.WriteThenReadRound` | src/audio-frame-buffer-reader.ts:75-81 | on an empty buffer, writing `n` leaves the reader `n` available frames; reading `n` then returns the frames written, moves both cursors by `n` and leaves the buffer empty; it also returns the callback invocations of both calls |
| `Scenarios.WriteThenRead` | tests/audio-frame-buffer-reader-writer.test.ts:21-49 | on a fresh buffer, write `n` and read `n`: both report `n`, the reader has `n` frames available between the two calls, the frames read are the frames written, both totals are `n` |
| `Scenarios.WrapRoundSegments` | tests/audio-frame-buffer-reader-writer.test.ts:102-131 | from 5 frames before the end of a storage of at least 10 frames, a callback that stops at 10 is offered 5 frames and then the rest of the free storage from frame 0 when writing, 5 and 5 when reading; the cursor ends at 5 |
| `Scenarios.WrapRound` | tests/audio-frame-buffer-reader-writer.test.ts:102-131 | on an empty buffer with both cursors 5 frames before the end, writing 10 then reading 10 returns the frames written; the write's callbacks are offered 5 frames up to the end and then the rest of the storage from frame 0, the read's 5 and 5; both cursors end at frame 5 |
| `Scenarios.WrapAround` | tests/audio-frame-buffer-reader-writer.test.ts:76-132 | write `capacity-5`, read all, write 10, read 10: each read returns the frames of the write before it; the callbacks of the second write and of the second read are offered 5 frames up to the end and then a run from frame 0; both cursors end at 5 |

## Left out

- Concurrency is not modelled. `Atomics` loads, adds and subtracts become plain field updates,
  and `write` and `read` calls interleave one whole call at a time. Memory ordering between the
  producer and the consumer is not modelled.
- Samples are a generic element type `T`, not `Float32`. Nothing in the core does arithmetic on
  sample values.
- The counters are `nat`. The wrap-around of the 32-bit usage counter and of the 64-bit totals is
  not modelled.
- The callback is a pure function of (segment start, segment length, offset) returning a `nat`.
  Not modelled:
  - a count that depends on the storage contents or on earlier calls;
  - a negative or non-integer count;
  - a callback that throws.
- Writers.FrameBufferWriter.Write: the frames the callbacks write are given by
  `produce(k, c)`, where `k` is the frame's position in the call. So the value of a sample cannot
  depend on how the call was split into segments. A callback that also uses its segment-local
  index, as the library's tests do (`offset + frame * channelCount + channel`), is expressible
  only by choosing `produce` for each call from the split, which the cursor and the free frames
  fix before the call (`k * channelCount + c` for one segment, and past a boundary at `s`,
  `s + (k - s) * channelCount + c`).
- Writers.FrameBufferWriter.Write: a write callback is handed its whole segment and may store
  into every frame of it, not only into the frames it reports. The library's tests do this: they
  fill all the frames offered and return fewer. The model stores only the reported frames, which
  are `Produced(n)`. Stores past the returned count are not modelled. What the model does prove
  about them is in `Writers.WriteSegmentsAreFree` and `Ring.RingSeqOutsideRun`: every frame of
  every offered segment is free, and storing into a free frame leaves the pending frames as they
  were. So such stores are invisible to the reader until a later write claims those frames.
- Writers.FrameBufferWriter.Write: the model stores the frames only after the enumeration has
  succeeded, so a `RangeError` leaves the storage as it was. In the source, callbacks before the
  failing one may already have written samples into the frames they were offered. By the same two
  lemmas those frames are free, so the pending frames are unchanged. The postcondition therefore
  promises only that the pending frames are unchanged, not the storage.
- Readers.FrameBufferReader.Read: on a `RangeError` the model returns no frames. In the source,
  callbacks before the failing one have already seen their frames. Those frames stay pending and
  are offered again by the next read, so a caller can see them twice. The model does not capture
  this repeat.
- Readers.FrameBufferReader.Read: read callbacks only read. A read callback that writes into its
  segment, which the source allows, is not modelled.
- Segments.FrameSegment.Get and Segments.FrameSegment.Set take integer indices. In the source the
  indices are JavaScript numbers. A `NaN` index passes the bounds check, because every comparison
  with it is false; `get` then returns `undefined` and `set` stores nothing. A fractional index
  also passes; with 2 channels, `get(0.5, 0)` reads channel 1 of frame 0 and `set(0.5, 0, v)`
  overwrites it. Non-integer and `NaN` indices are not modelled.
- Direct access to a segment's `samples` array bypassing `get`/`set` is modelled only as the
  read-only view `FrameSegment.Samples`.
- SharedContext.FrameBufferContext.constructor: requires positive `frameCount` and
  `channelCount`. The source does not validate them; with a channel count of 0 its frame count
  is not a number. Invalid configuration is not modelled.
- Writers.FrameBufferWriter.constructor and Readers.FrameBufferReader.constructor: require a
  context whose next write (or read) is due at frame 0, which holds for a fresh context. The
  source does not check this: a second writer or reader on a context already in use starts its
  cursor at 0, out of step with the data. That misuse is not modelled.
- Buffers.FrameBuffer.EnumFrameSegments: requires `frameIndex < frameCount`. The source's only
  callers pass their own cursor, which the model proves always lies in that range.
- Segments.FrameSegment.constructor: requires the window to lie inside the storage. JavaScript's
  `subarray` would silently clamp a window that does not. The enumerator only builds windows
  inside the storage.
- The shared-memory layout over `SharedArrayBuffer` and the partitioner package are left out.
  Only the storage size and the zeroed counters are taken from the context.
  src/create-audio-frame-buffer-context.ts reads `params.frameBufferSize`, which its parameter
  type does not declare; that file is not part of this model.
- The source has two copies of every module: `AudioFrameBuffer*` and `FrameBuffer*`. They differ
  only in name, and one copy is modelled. src/frame-buffer.ts is not part of this model; the
  writer uses the enumerator of src/audio-frame-buffer.ts.
- Export wiring (src/index.ts) and the parameter type declarations are left out.
