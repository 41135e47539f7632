/** The frame buffer over the shared storage, and its ring enumerator. */
module Buffers {
  import opened Results
  import opened Arithmetic
  import opened RingCore
  import opened SharedContext

  class FrameBuffer<T(0)> {
    const buffer: array<T>
    const samplesPerFrame: nat
    /** The storage size in frames. */
    const frameCount: nat

    /** The frame buffer of `context`: its storage, sized in whole frames. */
    constructor (context: FrameBufferContext<T>)
      requires context.Valid()
      ensures buffer == context.samples && samplesPerFrame == context.samplesPerFrame
      ensures frameCount == context.capacity
    {
      buffer := context.samples;
      samplesPerFrame := context.samplesPerFrame;
      DivExact(context.capacity, context.samplesPerFrame);
      frameCount := context.samples.Length / context.samplesPerFrame;
    }

    /**
     * Offers the `availableFrames` frames from `frameIndex` on to `process` as segments that never
     * cross the end of the storage, stopping after a short return; returns the outcome and the
     * callback invocations made, which are exactly those of the reference `Enumerate`, whose
     * properties the `RingCore` lemmas state.
     */
    method EnumFrameSegments(frameIndex: nat, availableFrames: nat, process: SegmentCallback)
      returns (r: Result<Enumeration, RangeError>, visits: seq<Visit>)
      requires frameIndex < frameCount
      ensures Trace(r, visits) == Enumerate(frameCount, frameIndex, availableFrames, 0, process)
    {
      var totalProcessedFrames: nat := 0;
      var index: nat := frameIndex;
      visits := [];
      while totalProcessedFrames < availableFrames
        invariant index < frameCount && totalProcessedFrames <= availableFrames
        invariant Enumerate(frameCount, frameIndex, availableFrames, 0, process)
          == Then(visits, Enumerate(frameCount, index, availableFrames, totalProcessedFrames, process))
        decreases availableFrames - totalProcessedFrames
      {
        var currentFrames := Min(frameCount - index, availableFrames - totalProcessedFrames);
        var processedFrames := process(index, currentFrames, totalProcessedFrames);
        var visit := Visit(index, currentFrames, totalProcessedFrames, processedFrames);
        ghost var previous := visits;
        ghost var here := Enumerate(frameCount, index, availableFrames, totalProcessedFrames, process);
        EnumerateStep(frameCount, index, availableFrames, totalProcessedFrames, process, currentFrames, processedFrames);
        visits := visits + [visit];
        if processedFrames > currentFrames {
          r := Err(ProcessedExceedsSegment(processedFrames, currentFrames));
          assert Trace(r, visits) == Then(previous, here);
          return;
        }
        var nextFrameIndex := (index + processedFrames) % frameCount;
        ghost var tail := Enumerate(frameCount, nextFrameIndex, availableFrames, totalProcessedFrames + processedFrames, process);
        totalProcessedFrames := totalProcessedFrames + processedFrames;
        index := nextFrameIndex;
        if processedFrames < currentFrames {
          r := Ok(Enumeration(totalProcessedFrames, index));
          assert Trace(r, visits) == Then(previous, here);
          return;
        }
        ThenAppend(previous, visit, tail);
      }
      assert Enumerate(frameCount, index, availableFrames, totalProcessedFrames, process) == Trace(Ok(Enumeration(totalProcessedFrames, index)), []);
      r := Ok(Enumeration(totalProcessedFrames, index));
    }

  }
}
