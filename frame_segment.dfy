/** A bounds-checked (frame, channel) view of a run of frames in the shared sample storage. */
module Segments {
  import opened Results
  import opened Arithmetic

  class FrameSegment<T> {
    /** The whole shared sample storage; the segment's `samples` are a window of it. */
    const buffer: array<T>
    /** The first frame of the window within the storage. */
    const frameNumber: nat
    const channels: nat
    const frameCount: nat

    /** The window lies inside the storage. */
    ghost predicate Valid() {
      (frameNumber + frameCount) * channels <= buffer.Length
    }

    constructor (buffer: array<T>, channelCount: nat, frameNumber: nat, frameCount: nat)
      requires (frameNumber + frameCount) * channelCount <= buffer.Length
      ensures Valid()
      ensures this.buffer == buffer && this.channels == channelCount
      ensures this.frameNumber == frameNumber && this.frameCount == frameCount
    {
      this.buffer := buffer;
      this.channels := channelCount;
      this.frameNumber := frameNumber;
      this.frameCount := frameCount;
    }

    /** The window `samples`: storage indices `[frameNumber * channels, (frameNumber + frameCount) * channels)`. */
    function Samples(): (s: seq<T>)
      reads buffer
      requires Valid()
      ensures |s| == frameCount * channels
      ensures forall i :: 0 <= i < |s| ==> s[i] == buffer[frameNumber * channels + i]
    {
      buffer[frameNumber * channels .. (frameNumber + frameCount) * channels]
    }

    predicate InBounds(frame: int, channel: int) {
      0 <= frame < frameCount && 0 <= channel < channels
    }

    /** Channel `channel` of frame `frame` of the segment, or `RangeError` outside it. */
    function Get(frame: int, channel: int): (r: Result<T, RangeError>)
      reads buffer
      requires Valid()
      ensures r.Ok? <==> 0 <= frame < frameCount && 0 <= channel < channels
      ensures r.Err? ==> r.error == IndexOutOfBounds(frame, channel)
      ensures r.Ok? ==> (frameNumber + frame) * channels + channel < buffer.Length
      ensures r.Ok? ==> r.value == buffer[(frameNumber + frame) * channels + channel]
    {
      if frame < 0 || frame >= frameCount || channel < 0 || channel >= channels then
        Err(IndexOutOfBounds(frame, channel))
      else
        FrameFits(frame, frameCount, channels);
        Ok(Samples()[frame * channels + channel])
    }

    /** Stores `value` as channel `channel` of frame `frame`, or fails with `RangeError` and stores nothing. */
    method Set(frame: int, channel: int, value: T) returns (r: Result<(), RangeError>)
      requires Valid()
      modifies buffer
      ensures r.Ok? <==> 0 <= frame < frameCount && 0 <= channel < channels
      ensures r.Err? ==> r.error == IndexOutOfBounds(frame, channel) && buffer[..] == old(buffer[..])
      ensures r.Ok? ==> (frameNumber + frame) * channels + channel < buffer.Length
      ensures r.Ok? ==> buffer[..] == old(buffer[..])[(frameNumber + frame) * channels + channel := value]
    {
      if frame < 0 || frame >= frameCount || channel < 0 || channel >= channels {
        return Err(IndexOutOfBounds(frame, channel));
      }
      FrameFits(frame, frameCount, channels);
      buffer[frameNumber * channels + frame * channels + channel] := value;
      r := Ok(());
    }
  }

  /** Reading back a sample just stored in a segment yields the stored value. */
  method SetThenGet<T>(segment: FrameSegment<T>, frame: int, channel: int, value: T) returns (r: Result<T, RangeError>)
    requires segment.Valid()
    modifies segment.buffer
    ensures r == if segment.InBounds(frame, channel) then Ok(value) else Err(IndexOutOfBounds(frame, channel))
  {
    var _ := segment.Set(frame, channel, value);
    r := segment.Get(frame, channel);
  }
}
