/**
 * The interleaved layout of the shared sample storage: a buffer of `frameCount * ch` samples
 * in which channel `c` of frame `f` is sample `f * ch + c`.
 */
module Layout {
  import opened Arithmetic

  /** Channel `c` of frame `f`. */
  function Sample<T>(s: seq<T>, ch: nat, frameCount: nat, f: nat, c: nat): T
    requires |s| == frameCount * ch && f < frameCount && c < ch
  {
    FrameFits(f, frameCount, ch);
    s[f * ch + c]
  }

  /** The `ch` samples of frame `f`. */
  function FrameAt<T>(s: seq<T>, ch: nat, frameCount: nat, f: nat): (frame: seq<T>)
    requires |s| == frameCount * ch && f < frameCount
    ensures |frame| == ch
    ensures forall c :: 0 <= c < ch ==> frame[c] == Sample(s, ch, frameCount, f, c)
  {
    FrameFits(f, frameCount, ch);
    s[f * ch .. f * ch + ch]
  }
}
