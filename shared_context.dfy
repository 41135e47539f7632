/**
 * The state shared by one writer and one reader: the sample storage and the three counters
 * (frames in use, frames ever read, frames ever written), all starting at zero.
 */
module SharedContext {
  import opened Arithmetic
  import opened Ring

  class FrameBufferContext<T(0)> {
    /** The interleaved sample storage, `capacity * samplesPerFrame` samples. */
    const samples: array<T>
    /** The channel count. */
    const samplesPerFrame: nat
    /** The storage size in frames. */
    ghost const capacity: nat
    /** Frames written and not yet read. */
    var usedFramesInBuffer: nat
    var totalReadFrames: nat
    var totalWriteFrames: nat

    /**
     * The storage holds whole frames, the frames in use fit in it, and every frame ever written
     * has either been read or is still in use.
     */
    ghost predicate Valid()
      reads this
    {
      && capacity > 0 && samplesPerFrame > 0
      && samples.Length == capacity * samplesPerFrame
      && usedFramesInBuffer <= capacity
      && totalWriteFrames == totalReadFrames + usedFramesInBuffer
    }

    /** Where the next frame will be read: the reader's cursor. */
    ghost function ReadIndex(): (i: nat)
      reads this
      requires Valid()
      ensures i < capacity
    {
      totalReadFrames % capacity
    }

    /** Where the next frame will be written: the writer's cursor, `used` frames past the reader's. */
    ghost function WriteIndex(): (i: nat)
      reads this
      requires Valid()
      ensures i < capacity && i == (ReadIndex() + usedFramesInBuffer) % capacity
    {
      ModAddMod(totalReadFrames, usedFramesInBuffer, capacity);
      totalWriteFrames % capacity
    }

    /** The frames written and not yet read, oldest first. */
    ghost function Pending(): (p: seq<seq<T>>)
      reads this, samples
      requires Valid()
      ensures |p| == usedFramesInBuffer
    {
      RingSeq(Frames(samples[..], samplesPerFrame, capacity), ReadIndex(), usedFramesInBuffer)
    }

    /** A context of `frameCount` frames of `channelCount` samples, with every counter at zero. */
    constructor (frameCount: nat, channelCount: nat)
      requires frameCount > 0 && channelCount > 0
      ensures Valid() && fresh(samples)
      ensures capacity == frameCount && samplesPerFrame == channelCount
      ensures usedFramesInBuffer == 0 && totalReadFrames == 0 && totalWriteFrames == 0
      ensures Pending() == []
    {
      samples := new T[frameCount * channelCount];
      samplesPerFrame := channelCount;
      capacity := frameCount;
      usedFramesInBuffer := 0;
      totalReadFrames := 0;
      totalWriteFrames := 0;
    }
  }
}
