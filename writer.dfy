/**
 * The writing side: a private cursor, the free frames derived from the shared usage counter, and
 * `Write`, which runs the enumerator over the free frames and then publishes what was written.
 */
module Writers {
  import opened Results
  import opened Arithmetic
  import opened Ring
  import opened RingCore
  import opened Segments
  import opened SharedContext
  import opened Buffers

  /** The frames a producer supplies: channel `c` of the `k`-th frame of the call is `produce(k, c)`. */
  function Produced<T>(ch: nat, n: nat, produce: (nat, nat) -> T): (frames: seq<seq<T>>)
    ensures |frames| == n
    ensures forall k :: 0 <= k < n ==> |frames[k]| == ch
    ensures forall k, c :: 0 <= k < n && 0 <= c < ch ==> frames[k][c] == produce(k, c)
  {
    seq(n, k requires 0 <= k => seq(ch, c requires 0 <= c => produce(k, c)))
  }

  /** Stores `frame` as frame `j` of `segment`, one channel at a time through `Set`. */
  method StoreFrame<T>(segment: FrameSegment<T>, ghost frameCount: nat, j: nat, frame: seq<T>)
    requires segment.Valid() && segment.channels > 0
    requires segment.buffer.Length == frameCount * segment.channels
    requires j < segment.frameCount && |frame| == segment.channels
    modifies segment.buffer
    ensures segment.frameNumber + j < frameCount
    ensures Frames(segment.buffer[..], segment.channels, frameCount)
      == old(Frames(segment.buffer[..], segment.channels, frameCount))[segment.frameNumber + j := frame]
  {
    var ch := segment.channels;
    ghost var f := segment.frameNumber + j;
    ghost var s0 := segment.buffer[..];
    MulCancel(segment.frameNumber + segment.frameCount, frameCount, ch);
    var c := 0;
    while c < ch
      invariant c <= ch
      invariant forall i :: 0 <= i < |s0| ==>
        segment.buffer[i] == if f * ch <= i < f * ch + c then frame[i - f * ch] else s0[i]
    {
      var _ := segment.Set(j, c, frame[c]);
      c := c + 1;
    }
    FramesAfterFrameStore(s0, segment.buffer[..], ch, frameCount, f, frame);
  }

  /**
   * Where a write callback may store: every frame of every segment offered to it, including the
   * frames after the count it returns, lies in the storage at a position the reader's cursor
   * reaches only after all the pending frames. Storing there leaves the pending frames as they
   * were (`Ring.RingSeqOutsideRun`).
   */
  lemma WriteSegmentsAreFree<T(0)>(writer: FrameBufferWriter<T>, process: SegmentCallback)
    requires writer.Valid()
    ensures forall v, p :: v in writer.Outcome(process).visits && v.frameIndex <= p < v.frameIndex + v.frames ==>
      && p < writer.context.capacity
      && Distance(writer.context.capacity, writer.context.ReadIndex(), p) >= writer.context.usedFramesInBuffer
  {
    var context := writer.context;
    var cap, from, avail := context.capacity, writer.frameIndex, writer.AvailableFrames();
    var ri, used := context.ReadIndex(), context.usedFramesInBuffer;
    var visits := writer.Outcome(process).visits;
    EnumerateNeverWraps(cap, from, avail, 0, process);
    EnumerateWithinRequest(cap, from, avail, 0, process);
    EnumerateCursor(cap, from, avail, 0, process);
    forall v | v in visits
      ensures forall p :: v.frameIndex <= p < v.frameIndex + v.frames ==> p < cap && Distance(cap, ri, p) >= used
    {
      var i :| 0 <= i < |visits| && visits[i] == v;
      StretchBeyondRun(cap, ri, used, from, v.offset, v.frameIndex, v.frames);
    }
  }

  class FrameBufferWriter<T(0)> {
    const frameBuffer: FrameBuffer<T>
    const context: FrameBufferContext<T>
    /** The writer's cursor: the frame the next write starts at. */
    var frameIndex: nat

    /** The frame buffer views the context's storage, and the cursor follows the frames ever written. */
    ghost predicate Valid()
      reads this, context
    {
      && context.Valid()
      && frameBuffer.buffer == context.samples
      && frameBuffer.samplesPerFrame == context.samplesPerFrame
      && frameBuffer.frameCount == context.capacity
      && frameIndex == context.WriteIndex()
    }

    /** A writer whose cursor starts at frame 0, which is where the context's next write is due. */
    constructor (context: FrameBufferContext<T>)
      requires context.Valid() && context.WriteIndex() == 0
      ensures Valid() && this.context == context && frameIndex == 0
    {
      frameBuffer := new FrameBuffer(context);
      this.context := context;
      frameIndex := 0;
    }

    /** The frames that can be written before the storage is full. */
    function AvailableFrames(): (n: nat)
      reads this, context
      requires Valid()
      ensures n + context.usedFramesInBuffer == context.capacity
    {
      frameBuffer.frameCount - context.usedFramesInBuffer
    }

    /** The frames ever written: those read so far and those still in use. */
    function TotalFrames(): (n: nat)
      reads this, context
      requires Valid()
      ensures n == context.totalReadFrames + context.usedFramesInBuffer
    {
      context.totalWriteFrames
    }

    /** The enumeration a write performs: over the free frames, from the writer's cursor. */
    ghost function Outcome(process: SegmentCallback): Trace
      reads this, context
      requires Valid()
    {
      Enumerate(context.capacity, frameIndex, AvailableFrames(), 0, process)
    }

    /**
     * Runs the enumerator from the cursor over the free frames. The callback `process` decides how
     * many frames of each segment are written; `produce` supplies them. On success the cursor moves
     * past the frames written and both the usage counter and the written total grow by their number;
     * on a `RangeError` nothing changes.
     */
    method Write(process: SegmentCallback, produce: (nat, nat) -> T) returns (r: Result<nat, RangeError>, ghost visits: seq<Visit>)
      requires Valid()
      modifies this, context, context.samples
      ensures Valid()
      ensures visits == old(Outcome(process)).visits
      ensures r.Ok? <==> old(Outcome(process)).result.Ok?
      ensures r.Err? ==> old(Outcome(process)).result == Err(r.error)
      ensures r.Err? ==> frameIndex == old(frameIndex)
      ensures r.Err? ==> context.usedFramesInBuffer == old(context.usedFramesInBuffer)
      ensures r.Err? ==> context.totalWriteFrames == old(context.totalWriteFrames)
      ensures r.Ok? ==> r.value == old(Outcome(process)).result.value.totalProcessedFrames
      ensures r.Ok? ==> r.value <= old(AvailableFrames())
      ensures r.Ok? ==> frameIndex == (old(frameIndex) + r.value) % context.capacity
      ensures r.Ok? ==> context.usedFramesInBuffer == old(context.usedFramesInBuffer) + r.value
      ensures r.Ok? ==> context.totalWriteFrames == old(context.totalWriteFrames) + r.value
      ensures r.Ok? ==> context.Pending() == old(context.Pending()) + Produced(context.samplesPerFrame, r.value, produce)
      ensures r.Err? ==> context.Pending() == old(context.Pending())
      ensures context.totalReadFrames == old(context.totalReadFrames)
    {
      ghost var cap, from, avail := context.capacity, frameIndex, AvailableFrames();
      var result, offered := frameBuffer.EnumFrameSegments(frameIndex, AvailableFrames(), process);
      visits := offered;
      if result.Err? {
        r := Err(result.error);
        return;
      }
      var n := result.value.totalProcessedFrames;
      EnumerateFromCursor(cap, from, avail, process);
      EnumerateCovers(cap, from, avail, process);
      Publish(offered, n, result.value.nextFrameIndex, produce);
      r := Ok(n);
    }

    /**
     * The part of a write after the enumeration: the callbacks' frames are in the storage, the
     * cursor moves to `nextFrameIndex`, and the usage counter and the written total grow by `n`.
     */
    method Publish(visits: seq<Visit>, n: nat, nextFrameIndex: nat, produce: (nat, nat) -> T)
      requires Valid() && n <= AvailableFrames()
      requires Covers(context.capacity, frameIndex, AvailableFrames(), n, visits)
      requires nextFrameIndex == (frameIndex + n) % context.capacity
      modifies this, context, context.samples
      ensures Valid()
      ensures frameIndex == (old(frameIndex) + n) % context.capacity
      ensures context.usedFramesInBuffer == old(context.usedFramesInBuffer) + n
      ensures context.totalWriteFrames == old(context.totalWriteFrames) + n
      ensures context.totalReadFrames == old(context.totalReadFrames)
      ensures context.Pending() == old(context.Pending()) + Produced(context.samplesPerFrame, n, produce)
    {
      ghost var cap, ch := context.capacity, context.samplesPerFrame;
      ghost var readIndex, used := context.ReadIndex(), context.usedFramesInBuffer;
      ghost var before := Frames(context.samples[..], ch, cap);
      ghost var run := Produced(ch, n, produce);
      assert context.Pending() == RingSeq(before, readIndex, used);
      CopyIn(visits, n, produce, before);
      ghost var after := Frames(context.samples[..], ch, cap);
      assert after == Overwritten(before, frameIndex, run);
      RingSeqAfterOverwrite(before, readIndex, used, frameIndex, run);
      ModAddMod(context.totalWriteFrames, n, cap);
      frameIndex := nextFrameIndex;
      context.usedFramesInBuffer := context.usedFramesInBuffer + n;
      context.totalWriteFrames := context.totalWriteFrames + n;
      assert context.ReadIndex() == readIndex;
      assert Frames(context.samples[..], ch, cap) == after;
    }

    /**
     * The storage is `before` with the first `k` frames of the call stored from the cursor on.
     */
    ghost predicate Filled(before: seq<seq<T>>, k: nat, produce: (nat, nat) -> T)
      reads this, context, context.samples
      requires Valid()
    {
      && |before| == context.capacity && k <= context.capacity
      && Frames(context.samples[..], context.samplesPerFrame, context.capacity)
        == Overwritten(before, frameIndex, Produced(context.samplesPerFrame, k, produce))
    }

    /**
     * What the write callbacks store: the `k`-th frame of the call, `k < n`, goes to the `k`-th frame
     * from the cursor, each through the segment that holds it.
     */
    method CopyIn(visits: seq<Visit>, n: nat, produce: (nat, nat) -> T, ghost before: seq<seq<T>>)
      requires Valid()
      requires Covers(context.capacity, frameIndex, AvailableFrames(), n, visits)
      requires before == Frames(context.samples[..], context.samplesPerFrame, context.capacity)
      modifies context.samples
      ensures Filled(before, n, produce)
    {
      assert Produced(context.samplesPerFrame, 0, produce) == [];
      assert Overwritten(before, frameIndex, []) == before;
      var i := 0;
      ghost var k: nat := 0;
      while i < |visits|
        invariant i <= |visits|
        invariant i < |visits| ==> visits[i].offset == k
        invariant i == |visits| ==> k == n
        invariant Filled(before, k, produce)
      {
        var v := visits[i];
        CoversAt(context.capacity, frameIndex, AvailableFrames(), n, visits, i);
        FillVisit(v, produce, before);
        k := k + v.processed;
        i := i + 1;
      }
    }

    /**
     * The stores of one callback: over the segment offered in visit `v`, which starts `v.offset`
     * frames past the cursor, frames `v.offset .. v.offset + v.processed - 1` of the call.
     */
    method FillVisit(v: Visit, produce: (nat, nat) -> T, ghost before: seq<seq<T>>)
      requires Valid() && WithinStorage(context.capacity, v) && v.processed <= v.frames
      requires v.offset + v.frames <= AvailableFrames()
      requires v.frameIndex == (frameIndex + v.offset) % context.capacity
      requires Filled(before, v.offset, produce)
      modifies context.samples
      ensures Filled(before, v.offset + v.processed, produce)
    {
      MulMonotone(v.frameIndex + v.frames, context.capacity, context.samplesPerFrame);
      var segment := new FrameSegment(context.samples, context.samplesPerFrame, v.frameIndex, v.frames);
      FillSegment(segment, v.offset, v.processed, produce, before);
    }

    /**
     * Stores frames `k0 .. k0 + count - 1` of the call as the first `count` frames of `segment`,
     * which starts `k0` frames past the cursor.
     */
    method FillSegment(segment: FrameSegment<T>, k0: nat, count: nat, produce: (nat, nat) -> T, ghost before: seq<seq<T>>)
      requires Valid() && segment.Valid()
      requires segment.buffer == context.samples && segment.channels == context.samplesPerFrame
      requires count <= segment.frameCount && k0 + count <= AvailableFrames()
      requires segment.frameNumber == (frameIndex + k0) % context.capacity
      requires Filled(before, k0, produce)
      modifies context.samples
      ensures Filled(before, k0 + count, produce)
    {
      ghost var cap := context.capacity;
      var ch := context.samplesPerFrame;
      MulCancel(segment.frameNumber + segment.frameCount, cap, ch);
      var j := 0;
      while j < count
        invariant j <= count
        invariant Filled(before, k0 + j, produce)
      {
        var k := k0 + j;
        var frame := seq(ch, c requires 0 <= c => produce(k, c));
        ghost var stored := Frames(context.samples[..], ch, cap);
        CursorWithinSegment(frameIndex, k0, j, cap);
        StoreFrame(segment, cap, j, frame);
        ProducedOneMore(before, frameIndex, ch, k, produce, stored, Frames(context.samples[..], ch, cap));
        j := j + 1;
      }
    }
  }

  /** Storing the call's frame `k` at the `k`-th frame from the cursor extends the overwritten run by one. */
  lemma ProducedOneMore<T>(before: seq<seq<T>>, from: nat, ch: nat, k: nat, produce: (nat, nat) -> T, fs: seq<seq<T>>, fs': seq<seq<T>>)
    requires from < |before| && k < |before|
    requires fs == Overwritten(before, from, Produced(ch, k, produce))
    requires fs' == fs[(from + k) % |before| := seq(ch, c requires 0 <= c => produce(k, c))]
    ensures fs' == Overwritten(before, from, Produced(ch, k + 1, produce))
  {
    var frame := seq(ch, c requires 0 <= c => produce(k, c));
    assert Produced(ch, k + 1, produce) == Produced(ch, k, produce) + [frame];
    OverwriteOneMore(before, from, Produced(ch, k, produce), frame);
  }
}
