/**
 * The reading side: a private cursor, the readable frames given by the shared usage counter, and
 * `Read`, which runs the enumerator over the frames in use and then releases what was read.
 */
module Readers {
  import opened Results
  import opened Arithmetic
  import opened Layout
  import opened Ring
  import opened RingCore
  import opened Segments
  import opened SharedContext
  import opened Buffers

  /** Frame `j` of `segment`, one channel at a time through `Get`. */
  method FetchFrame<T>(segment: FrameSegment<T>, ghost frameCount: nat, j: nat) returns (frame: seq<T>)
    requires segment.Valid() && segment.channels > 0
    requires segment.buffer.Length == frameCount * segment.channels
    requires j < segment.frameCount
    ensures segment.frameNumber + j < frameCount
    ensures frame == Frames(segment.buffer[..], segment.channels, frameCount)[segment.frameNumber + j]
  {
    var ch := segment.channels;
    ghost var f := segment.frameNumber + j;
    MulCancel(segment.frameNumber + segment.frameCount, frameCount, ch);
    FrameFits(f, frameCount, ch);
    frame := [];
    var c := 0;
    while c < ch
      invariant c <= ch
      invariant frame == segment.buffer[f * ch .. f * ch + c]
    {
      var sample := segment.Get(j, c);
      frame := frame + [sample.value];
      c := c + 1;
    }
  }

  /**
   * What a read callback is shown: every segment offered to it holds, frame for frame, the pending
   * frames at its offset. This is the whole segment, including the frames after the count the
   * callback returns.
   */
  lemma ReadSegmentsArePending<T(0)>(reader: FrameBufferReader<T>, process: SegmentCallback)
    requires reader.Valid()
    ensures forall v :: v in reader.Outcome(process).visits ==>
      && v.frameIndex + v.frames <= reader.context.capacity
      && v.offset + v.frames <= reader.AvailableFrames()
      && Frames(reader.context.samples[..], reader.context.samplesPerFrame, reader.context.capacity)[v.frameIndex .. v.frameIndex + v.frames]
         == reader.context.Pending()[v.offset .. v.offset + v.frames]
  {
    var context := reader.context;
    var cap, from, avail := context.capacity, reader.frameIndex, reader.AvailableFrames();
    var visits := reader.Outcome(process).visits;
    var fs := Frames(context.samples[..], context.samplesPerFrame, cap);
    assert context.Pending() == RingSeq(fs, from, avail);
    EnumerateNeverWraps(cap, from, avail, 0, process);
    EnumerateWithinRequest(cap, from, avail, 0, process);
    EnumerateCursor(cap, from, avail, 0, process);
    forall v | v in visits
      ensures v.frameIndex + v.frames <= cap && v.offset + v.frames <= avail
      ensures fs[v.frameIndex .. v.frameIndex + v.frames] == context.Pending()[v.offset .. v.offset + v.frames]
    {
      var i :| 0 <= i < |visits| && visits[i] == v;
      RingSeqSlice(fs, from, avail, v.frameIndex, v.offset, v.frames);
    }
  }

  class FrameBufferReader<T(0)> {
    const frameBuffer: FrameBuffer<T>
    const context: FrameBufferContext<T>
    /** The reader's cursor: the frame the next read starts at. */
    var frameIndex: nat

    /** The frame buffer views the context's storage, and the cursor follows the frames ever read. */
    ghost predicate Valid()
      reads this, context
    {
      && context.Valid()
      && frameBuffer.buffer == context.samples
      && frameBuffer.samplesPerFrame == context.samplesPerFrame
      && frameBuffer.frameCount == context.capacity
      && frameIndex == context.ReadIndex()
    }

    /** A reader whose cursor starts at frame 0, which is where the context's next read is due. */
    constructor (context: FrameBufferContext<T>)
      requires context.Valid() && context.ReadIndex() == 0
      ensures Valid() && this.context == context && frameIndex == 0
    {
      frameBuffer := new FrameBuffer(context);
      this.context := context;
      frameIndex := 0;
    }

    /** The frames that can be read: those written and not yet read, at most the capacity. */
    function AvailableFrames(): (n: nat)
      reads this, context
      requires Valid()
      ensures n <= context.capacity && context.totalReadFrames + n == context.totalWriteFrames
    {
      context.usedFramesInBuffer
    }

    /** The frames ever read: those ever written less those still in use. */
    function TotalFrames(): (n: nat)
      reads this, context
      requires Valid()
      ensures n + context.usedFramesInBuffer == context.totalWriteFrames
    {
      context.totalReadFrames
    }

    /** The enumeration a read performs: over the frames in use, from the reader's cursor. */
    ghost function Outcome(process: SegmentCallback): Trace
      reads this, context
      requires Valid()
    {
      Enumerate(context.capacity, frameIndex, AvailableFrames(), 0, process)
    }

    /**
     * Runs the enumerator from the cursor over the frames in use. The callback `process` decides how
     * many frames of each segment are read; `frames` are those frames, oldest first. On success the
     * cursor moves past them, the usage counter shrinks and the read total grows by their number,
     * and they leave the pending frames; on a `RangeError` nothing changes.
     */
    method Read(process: SegmentCallback) returns (r: Result<nat, RangeError>, frames: seq<seq<T>>, ghost visits: seq<Visit>)
      requires Valid()
      modifies this, context
      ensures Valid()
      ensures visits == old(Outcome(process)).visits
      ensures r.Ok? <==> old(Outcome(process)).result.Ok?
      ensures r.Err? ==> old(Outcome(process)).result == Err(r.error) && frames == []
      ensures r.Err? ==> frameIndex == old(frameIndex)
      ensures r.Err? ==> context.usedFramesInBuffer == old(context.usedFramesInBuffer)
      ensures r.Err? ==> context.totalReadFrames == old(context.totalReadFrames)
      ensures r.Ok? ==> r.value == old(Outcome(process)).result.value.totalProcessedFrames
      ensures r.Ok? ==> r.value <= old(AvailableFrames())
      ensures r.Ok? ==> frames == old(context.Pending())[..r.value]
      ensures r.Ok? ==> frameIndex == (old(frameIndex) + r.value) % context.capacity
      ensures r.Ok? ==> context.usedFramesInBuffer == old(context.usedFramesInBuffer) - r.value
      ensures r.Ok? ==> context.totalReadFrames == old(context.totalReadFrames) + r.value
      ensures context.Pending() == old(context.Pending())[if r.Ok? then r.value else 0..]
      ensures context.totalWriteFrames == old(context.totalWriteFrames)
    {
      ghost var cap, from, avail := context.capacity, frameIndex, AvailableFrames();
      var result, offered := frameBuffer.EnumFrameSegments(frameIndex, AvailableFrames(), process);
      visits := offered;
      if result.Err? {
        assert old(context.Pending())[0..] == context.Pending();
        r, frames := Err(result.error), [];
        return;
      }
      var n := result.value.totalProcessedFrames;
      EnumerateFromCursor(cap, from, avail, process);
      EnumerateCovers(cap, from, avail, process);
      frames := CopyOut(offered, n);
      Release(n, result.value.nextFrameIndex);
      r := Ok(n);
    }

    /**
     * The part of a read after the enumeration: the cursor moves to `nextFrameIndex`, the usage
     * counter shrinks and the read total grows by `n`, and the first `n` pending frames leave.
     */
    method Release(n: nat, nextFrameIndex: nat)
      requires Valid() && n <= AvailableFrames()
      requires nextFrameIndex == (frameIndex + n) % context.capacity
      modifies this, context
      ensures Valid()
      ensures frameIndex == (old(frameIndex) + n) % context.capacity
      ensures context.usedFramesInBuffer == old(context.usedFramesInBuffer) - n
      ensures context.totalReadFrames == old(context.totalReadFrames) + n
      ensures context.totalWriteFrames == old(context.totalWriteFrames)
      ensures context.Pending() == old(context.Pending())[n..]
    {
      ghost var fs := Frames(context.samples[..], context.samplesPerFrame, context.capacity);
      ghost var used := context.usedFramesInBuffer;
      RingSeqDrop(fs, frameIndex, used, n);
      ModAddMod(context.totalReadFrames, n, context.capacity);
      frameIndex := nextFrameIndex;
      context.usedFramesInBuffer := context.usedFramesInBuffer - n;
      context.totalReadFrames := context.totalReadFrames + n;
      assert Frames(context.samples[..], context.samplesPerFrame, context.capacity) == fs;
    }

    /**
     * What the read callbacks consume: the `n` frames from the cursor on, each fetched through the
     * segment that holds it; these are the first `n` pending frames.
     */
    method CopyOut(visits: seq<Visit>, n: nat) returns (frames: seq<seq<T>>)
      requires Valid()
      requires Covers(context.capacity, frameIndex, AvailableFrames(), n, visits)
      ensures n <= AvailableFrames()
      ensures frames == context.Pending()[..n]
    {
      ghost var fs := Frames(context.samples[..], context.samplesPerFrame, context.capacity);
      frames := [];
      var i := 0;
      ghost var k: nat := 0;
      while i < |visits|
        invariant i <= |visits| && k <= AvailableFrames()
        invariant i < |visits| ==> visits[i].offset == k
        invariant i == |visits| ==> k == n
        invariant frames == RingSeq(fs, frameIndex, k)
      {
        var v := visits[i];
        CoversAt(context.capacity, frameIndex, AvailableFrames(), n, visits, i);
        MulMonotone(v.frameIndex + v.frames, context.capacity, context.samplesPerFrame);
        var segment := new FrameSegment(context.samples, context.samplesPerFrame, v.frameIndex, v.frames);
        frames := FetchSegment(segment, v.offset, v.processed, fs, frames);
        k := k + v.processed;
        i := i + 1;
      }
      assert context.Pending()[..n] == RingSeq(fs, frameIndex, n);
    }

    /**
     * Appends the first `count` frames of `segment`, which starts `k0` frames past the cursor, to
     * the `k0` frames from the cursor already fetched.
     */
    method FetchSegment(segment: FrameSegment<T>, k0: nat, count: nat, ghost fs: seq<seq<T>>, fetched: seq<seq<T>>)
      returns (frames: seq<seq<T>>)
      requires Valid() && segment.Valid()
      requires segment.buffer == context.samples && segment.channels == context.samplesPerFrame
      requires count <= segment.frameCount && k0 + count <= AvailableFrames()
      requires segment.frameNumber == (frameIndex + k0) % context.capacity
      requires fs == Frames(context.samples[..], context.samplesPerFrame, context.capacity)
      requires fetched == RingSeq(fs, frameIndex, k0)
      ensures frames == RingSeq(fs, frameIndex, k0 + count)
    {
      ghost var cap := context.capacity;
      MulCancel(segment.frameNumber + segment.frameCount, cap, context.samplesPerFrame);
      frames := fetched;
      var j := 0;
      while j < count
        invariant j <= count
        invariant frames == RingSeq(fs, frameIndex, k0 + j)
      {
        var frame := FetchFrame(segment, cap, j);
        CursorWithinSegment(frameIndex, k0, j, cap);
        assert RingSeq(fs, frameIndex, k0 + j + 1) == RingSeq(fs, frameIndex, k0 + j) + [frame];
        frames := frames + [frame];
        j := j + 1;
      }
    }
  }
}
