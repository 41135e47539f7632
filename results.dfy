/** Outcomes of the operations that the source reports by throwing `RangeError`. */
module Results {

  /** Either a value or the error that the source would have thrown. */
  datatype Result<+R, +E> = Ok(value: R) | Err(error: E)

  /** The two `RangeError`s of the core. */
  datatype RangeError =
    /** `get`/`set` on a segment with a frame or channel index outside the segment. */
    | IndexOutOfBounds(frame: int, channel: int)
    /** A segment callback claimed more frames than the segment it was offered holds. */
    | ProcessedExceedsSegment(processedFrames: nat, segmentFrames: nat)
}
