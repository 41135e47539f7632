/**
 * One writer and one reader over the same context, used in turn: what the two sides see of the
 * shared counters, and the write-then-read runs of the library's own scenarios, including one that
 * wraps at the end of the storage.
 */
module Scenarios {
  import opened Results
  import opened Arithmetic
  import opened RingCore
  import opened SharedContext
  import opened Writers
  import opened Readers

  /** How many of the `frames` offered at `offset` a callback takes when it stops at `limit` frames. */
  function TakeUpTo(limit: nat, frames: nat, offset: nat): (taken: nat)
    ensures taken <= frames && (offset <= limit ==> offset + taken <= limit)
  {
    if offset <= limit then Min(frames, limit - offset) else 0
  }

  /** A callback that processes what it is offered until `limit` frames of the call are done. */
  function UpTo(limit: nat): SegmentCallback {
    (start: nat, frames: nat, offset: nat) => TakeUpTo(limit, frames, offset)
  }

  /** The free frames the writer sees and the used frames the reader sees always add up to the capacity. */
  lemma AvailableFramesAddUp<T(0)>(writer: FrameBufferWriter<T>, reader: FrameBufferReader<T>)
    requires writer.Valid() && reader.Valid() && writer.context == reader.context
    ensures writer.AvailableFrames() + reader.AvailableFrames() == writer.context.capacity
  {
  }

  /**
   * A request of 10 or more frames from 5 frames before the end of the storage, taken 10 frames at
   * most, is offered as two segments: the 5 frames up to the end, then a run from frame 0 of which
   * 5 frames are taken; the cursor ends at frame 5.
   */
  lemma {:induction false} WrapSplitsAtBoundary(frameCount: nat, availableFrames: nat)
    requires 5 <= frameCount && 10 <= availableFrames <= frameCount
    ensures Enumerate(frameCount, frameCount - 5, availableFrames, 0, UpTo(10)).visits
      == [Visit(frameCount - 5, 5, 0, 5), Visit(0, availableFrames - 5, 5, 5)]
    ensures Enumerate(frameCount, frameCount - 5, availableFrames, 0, UpTo(10)).result == Ok(Enumeration(10, 5))
  {
    var process := UpTo(10);
    EnumerateStep(frameCount, frameCount - 5, availableFrames, 0, process, 5, 5);
    ModBelowTwice(frameCount, frameCount);
    var current := Min(frameCount, availableFrames - 5);
    EnumerateStep(frameCount, 0, availableFrames, 5, process, current, 5);
    ModBelowTwice(5, frameCount);
    if current == 5 {
      assert Enumerate(frameCount, 5 % frameCount, availableFrames, 10, process) == Trace(Ok(Enumeration(10, 5 % frameCount)), []);
    }
  }

  /**
   * A write whose callback stops at `n <=` the free frames: it writes exactly `n` frames, the
   * ones `produce` gives, which join the pending frames; its invocations are those of the
   * enumeration from the writer's cursor over the free frames.
   */
  method WriteUpTo<T(0)>(writer: FrameBufferWriter<T>, n: nat, produce: (nat, nat) -> T) returns (written: nat, ghost visits: seq<Visit>)
    requires writer.Valid() && n <= writer.AvailableFrames()
    modifies writer, writer.context, writer.context.samples
    ensures writer.Valid() && written == n
    ensures visits == Enumerate(writer.context.capacity, old(writer.frameIndex), old(writer.AvailableFrames()), 0, UpTo(n)).visits
    ensures writer.frameIndex == (old(writer.frameIndex) + n) % writer.context.capacity
    ensures writer.context.usedFramesInBuffer == old(writer.context.usedFramesInBuffer) + n
    ensures writer.context.totalWriteFrames == old(writer.context.totalWriteFrames) + n
    ensures writer.context.totalReadFrames == old(writer.context.totalReadFrames)
    ensures writer.context.Pending() == old(writer.context.Pending()) + Produced(writer.context.samplesPerFrame, n, produce)
  {
    EnumerateUpTo(writer.context.capacity, writer.frameIndex, writer.AvailableFrames(), 0, n, UpTo(n));
    var w;
    w, visits := writer.Write(UpTo(n), produce);
    written := w.value;
  }

  /**
   * A read whose callback stops at `n <=` the used frames: it reads exactly the `n` oldest pending
   * frames, which leave; its invocations are those of the enumeration from the reader's cursor
   * over the used frames.
   */
  method ReadUpTo<T(0)>(reader: FrameBufferReader<T>, n: nat) returns (read: nat, frames: seq<seq<T>>, ghost visits: seq<Visit>)
    requires reader.Valid() && n <= reader.AvailableFrames()
    modifies reader, reader.context
    ensures reader.Valid() && read == n
    ensures visits == Enumerate(reader.context.capacity, old(reader.frameIndex), old(reader.AvailableFrames()), 0, UpTo(n)).visits
    ensures frames == old(reader.context.Pending())[..n]
    ensures reader.frameIndex == (old(reader.frameIndex) + n) % reader.context.capacity
    ensures reader.context.usedFramesInBuffer == old(reader.context.usedFramesInBuffer) - n
    ensures reader.context.totalReadFrames == old(reader.context.totalReadFrames) + n
    ensures reader.context.totalWriteFrames == old(reader.context.totalWriteFrames)
    ensures reader.context.Pending() == old(reader.context.Pending())[n..]
  {
    EnumerateUpTo(reader.context.capacity, reader.frameIndex, reader.AvailableFrames(), 0, n, UpTo(n));
    var r;
    r, frames, visits := reader.Read(UpTo(n));
    read := r.value;
  }

  /**
   * One round on an empty buffer whose writer and reader share `context`: the writer writes `n`
   * frames, whose samples `produce` gives, after which the reader has `n` frames available
   * (`readable`), and the reader then takes `n` frames. Both cursors move
   * on by `n`, both totals grow by `n`, the reader gets back exactly the frames written, and the
   * buffer is empty again. `writeVisits` and `readVisits` are the callback invocations the write
   * and the read made: those of the enumeration from each cursor over the whole free storage and
   * over the `n` used frames.
   */
  method WriteThenReadRound<T(0)>(writer: FrameBufferWriter<T>, reader: FrameBufferReader<T>, n: nat, produce: (nat, nat) -> T)
    returns (written: nat, readable: nat, read: nat, frames: seq<seq<T>>, ghost writeVisits: seq<Visit>, ghost readVisits: seq<Visit>)
    requires writer.Valid() && reader.Valid() && writer.context == reader.context
    requires writer.context.Pending() == [] && n <= writer.context.capacity
    modifies writer, reader, writer.context, writer.context.samples
    ensures writer.Valid() && reader.Valid() && writer.context.Pending() == []
    ensures written == n && readable == n && read == n
    ensures writeVisits == Enumerate(writer.context.capacity, old(writer.frameIndex), writer.context.capacity, 0, UpTo(n)).visits
    ensures readVisits == Enumerate(writer.context.capacity, old(reader.frameIndex), n, 0, UpTo(n)).visits
    ensures frames == Produced(writer.context.samplesPerFrame, n, produce)
    ensures writer.frameIndex == (old(writer.frameIndex) + n) % writer.context.capacity
    ensures reader.frameIndex == (old(reader.frameIndex) + n) % writer.context.capacity
    ensures writer.context.totalWriteFrames == old(writer.context.totalWriteFrames) + n
    ensures writer.context.totalReadFrames == old(writer.context.totalReadFrames) + n
  {
    var context := writer.context;
    ghost var start := reader.frameIndex;
    ModBelowTwice(start, context.capacity);
    assert writer.frameIndex == start && writer.AvailableFrames() == context.capacity;
    written, writeVisits := WriteUpTo(writer, n, produce);
    assert context.Pending() == Produced(context.samplesPerFrame, n, produce);
    assert reader.Valid() && reader.frameIndex == start;
    readable := reader.AvailableFrames();
    read, frames, readVisits := ReadUpTo(reader, n);
  }

  /**
   * A fresh buffer of `frameCount` frames of `channelCount` channels: the writer writes `n` frames,
   * whose samples `produce` gives, then the reader reads them. Both calls report `n` frames, the
   * reader has `n` frames available between the two calls, the reader gets back exactly the frames
   * written, and both totals end at `n`.
   */
  method WriteThenRead<T(0)>(frameCount: nat, channelCount: nat, n: nat, produce: (nat, nat) -> T)
    returns (written: nat, readable: nat, read: nat, frames: seq<seq<T>>, totalWritten: nat, totalRead: nat)
    requires 0 < frameCount && 0 < channelCount && n <= frameCount
    ensures written == n && readable == n && read == n
    ensures frames == Produced(channelCount, n, produce)
    ensures totalWritten == n && totalRead == n
  {
    var context := new FrameBufferContext<T>(frameCount, channelCount);
    var writer := new FrameBufferWriter(context);
    var reader := new FrameBufferReader(context);
    ghost var writeVisits, readVisits;
    written, readable, read, frames, writeVisits, readVisits := WriteThenReadRound(writer, reader, n, produce);
    totalWritten := writer.TotalFrames();
    totalRead := reader.TotalFrames();
  }

  /**
   * The enumerations of the second round of the wrap-around run, from 5 frames before the end of a
   * storage of `capacity >= 10` frames with a callback that stops at 10: over the whole free
   * storage, and over the 10 frames then in use. Both cursors end at frame 5.
   */
  lemma WrapRoundSegments(capacity: nat)
    requires 10 <= capacity
    ensures Enumerate(capacity, capacity - 5, capacity, 0, UpTo(10)).visits
      == [Visit(capacity - 5, 5, 0, 5), Visit(0, capacity - 5, 5, 5)]
    ensures Enumerate(capacity, capacity - 5, 10, 0, UpTo(10)).visits
      == [Visit(capacity - 5, 5, 0, 5), Visit(0, 5, 5, 5)]
    ensures (capacity - 5 + 10) % capacity == 5
  {
    WrapSplitsAtBoundary(capacity, capacity);
    WrapSplitsAtBoundary(capacity, 10);
    ModBelowTwice(capacity - 5 + 10, capacity);
  }

  /**
   * The second round of the wrap-around run: on an empty buffer whose cursors stand 5 frames before
   * the end of the storage, write 10 frames and read 10. The write's callbacks are offered the 5
   * frames up to the end and then the rest of the free storage from frame 0; the read's callbacks
   * the 5 frames up to the end and then 5 from frame 0. The read returns the frames written, and
   * both cursors end at frame 5.
   */
  method WrapRound<T(0)>(writer: FrameBufferWriter<T>, reader: FrameBufferReader<T>, produce: (nat, nat) -> T)
    returns (frames: seq<seq<T>>, ghost writeSegments: seq<Visit>, ghost readSegments: seq<Visit>)
    requires writer.Valid() && reader.Valid() && writer.context == reader.context
    requires writer.context.Pending() == [] && 10 <= writer.context.capacity
    requires reader.frameIndex == writer.context.capacity - 5
    modifies writer, reader, writer.context, writer.context.samples
    ensures frames == Produced(writer.context.samplesPerFrame, 10, produce)
    ensures writeSegments == [Visit(writer.context.capacity - 5, 5, 0, 5), Visit(0, writer.context.capacity - 5, 5, 5)]
    ensures readSegments == [Visit(writer.context.capacity - 5, 5, 0, 5), Visit(0, 5, 5, 5)]
    ensures writer.frameIndex == 5 && reader.frameIndex == 5
  {
    ghost var cap := writer.context.capacity;
    ModBelowTwice(reader.frameIndex, cap);
    assert writer.frameIndex == cap - 5;
    ghost var writeTrace := Enumerate(cap, cap - 5, cap, 0, UpTo(10));
    ghost var readTrace := Enumerate(cap, cap - 5, 10, 0, UpTo(10));
    var written, readable, read;
    written, readable, read, frames, writeSegments, readSegments := WriteThenReadRound(writer, reader, 10, produce);
    assert writeSegments == writeTrace.visits && readSegments == readTrace.visits;
    WrapRoundSegments(cap);
  }

  /**
   * The wrap-around run on a fresh buffer of `frameCount >= 10` frames: write `frameCount - 5`
   * frames and read them all, then write 10 more and read 10. Each read returns exactly the frames
   * of the write before it. The second write's callbacks are offered the 5 frames up to the end of
   * the storage and then a run from frame 0 (`writeSegments`); the second read's likewise, 5 frames
   * each (`readSegments`); both cursors end at frame 5.
   */
  method WrapAround<T(0)>(frameCount: nat, channelCount: nat, first: (nat, nat) -> T, second: (nat, nat) -> T)
    returns (firstRead: seq<seq<T>>, secondRead: seq<seq<T>>, writerIndex: nat, readerIndex: nat,
             ghost writeSegments: seq<Visit>, ghost readSegments: seq<Visit>)
    requires 10 <= frameCount && 0 < channelCount
    ensures firstRead == Produced(channelCount, frameCount - 5, first)
    ensures secondRead == Produced(channelCount, 10, second)
    ensures writeSegments == [Visit(frameCount - 5, 5, 0, 5), Visit(0, frameCount - 5, 5, 5)]
    ensures readSegments == [Visit(frameCount - 5, 5, 0, 5), Visit(0, 5, 5, 5)]
    ensures writerIndex == 5 && readerIndex == 5
  {
    var context := new FrameBufferContext<T>(frameCount, channelCount);
    var writer := new FrameBufferWriter(context);
    var reader := new FrameBufferReader(context);
    var _, _, _, got, _, _ := WriteThenReadRound(writer, reader, frameCount - 5, first);
    firstRead := got;
    ModBelowTwice(frameCount - 5, frameCount);
    secondRead, writeSegments, readSegments := WrapRound(writer, reader, second);
    writerIndex := writer.frameIndex;
    readerIndex := reader.frameIndex;
  }
}
