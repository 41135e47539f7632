/**
 * The storage seen frame by frame as a ring: frame positions `0 .. frameCount - 1`, a cursor that
 * advances modulo `frameCount`, the run of frames starting at a cursor, and the storage after a run
 * of frames from a cursor has been overwritten.
 */
module Ring {
  import opened Arithmetic
  import opened Layout

  /** The storage as a sequence of frames. */
  function Frames<T>(s: seq<T>, ch: nat, frameCount: nat): (fs: seq<seq<T>>)
    requires |s| == frameCount * ch
    ensures |fs| == frameCount
    ensures forall f :: 0 <= f < frameCount ==> fs[f] == FrameAt(s, ch, frameCount, f)
  {
    seq(frameCount, f requires 0 <= f < frameCount => FrameAt(s, ch, frameCount, f))
  }

  /** How far the cursor must advance from position `from` to reach position `p`. */
  function Distance(frameCount: nat, from: nat, p: nat): (d: nat)
    requires from < frameCount && p < frameCount
    ensures d < frameCount
  {
    if p >= from then p - from else p + frameCount - from
  }

  /** Advancing the cursor by `k < frameCount` positions lands at distance `k`. */
  lemma DistanceOfAdvance(frameCount: nat, from: nat, k: nat)
    requires from < frameCount && k < frameCount
    ensures (from + k) % frameCount < frameCount
    ensures Distance(frameCount, from, (from + k) % frameCount) == k
  {
    ModBelowTwice(from + k, frameCount);
  }

  /** The `n` frames of ring `fs` from position `start` on, wrapping at its end. */
  function RingSeq<T>(fs: seq<T>, start: nat, n: nat): (r: seq<T>)
    requires start < |fs|
    ensures |r| == n
    ensures forall j :: 0 <= j < n ==> r[j] == fs[(start + j) % |fs|]
  {
    seq(n, j => fs[(start + j) % |fs|])
  }

  /** Ring `fs` with the `|run|` positions from cursor `from` on replaced by the frames of `run`. */
  function Overwritten<T>(fs: seq<T>, from: nat, run: seq<T>): (r: seq<T>)
    requires from < |fs| && |run| <= |fs|
    ensures |r| == |fs|
  {
    seq(|fs|, p requires 0 <= p < |fs| =>
      if Distance(|fs|, from, p) < |run| then run[Distance(|fs|, from, p)] else fs[p])
  }

  /** Overwriting one more frame is one more update, at the position the cursor has reached. */
  lemma OverwriteOneMore<T>(fs: seq<T>, from: nat, run: seq<T>, x: T)
    requires from < |fs| && |run| < |fs|
    ensures (from + |run|) % |fs| < |fs|
    ensures Overwritten(fs, from, run + [x]) == Overwritten(fs, from, run)[(from + |run|) % |fs| := x]
  {
    var m := |fs|;
    var q := (from + |run|) % m;
    DistanceOfAdvance(m, from, |run|);
    var a := Overwritten(fs, from, run + [x]);
    var b := Overwritten(fs, from, run)[q := x];
    forall p | 0 <= p < m
      ensures a[p] == b[p]
    {
      if p == q {
        assert Distance(m, from, p) == |run|;
      } else {
        assert Distance(m, from, p) != |run|;
      }
    }
  }

  /**
   * Writing `run` at the cursor that follows `used` frames from `start` appends `run` to those
   * frames, provided everything fits in the ring.
   */
  lemma RingSeqAfterOverwrite<T>(fs: seq<T>, start: nat, used: nat, from: nat, run: seq<T>)
    requires start < |fs| && used + |run| <= |fs| && from == (start + used) % |fs|
    ensures from < |fs|
    ensures RingSeq(Overwritten(fs, from, run), start, used + |run|) == RingSeq(fs, start, used) + run
  {
    var m := |fs|;
    ModBelowTwice(start + used, m);
    var a := RingSeq(Overwritten(fs, from, run), start, used + |run|);
    var b := RingSeq(fs, start, used) + run;
    forall j | 0 <= j < used + |run|
      ensures a[j] == b[j]
    {
      var p := (start + j) % m;
      ModBelowTwice(start + j, m);
      if j < used {
        assert Distance(m, from, p) >= |run|;
      } else {
        ModAddMod(start + used, j - used, m);
        DistanceOfAdvance(m, from, j - used);
      }
    }
  }

  /** Dropping the first `n` frames of a run is the run from the cursor advanced by `n`. */
  lemma RingSeqDrop<T>(fs: seq<T>, start: nat, used: nat, n: nat)
    requires start < |fs| && n <= used
    ensures (start + n) % |fs| < |fs|
    ensures RingSeq(fs, (start + n) % |fs|, used - n) == RingSeq(fs, start, used)[n..]
  {
    var a := RingSeq(fs, (start + n) % |fs|, used - n);
    var b := RingSeq(fs, start, used)[n..];
    forall j | 0 <= j < used - n
      ensures a[j] == b[j]
    {
      RingSeqDropAt(fs, start, used, n, j);
    }
  }

  lemma RingSeqDropAt<T>(fs: seq<T>, start: nat, used: nat, n: nat, j: nat)
    requires start < |fs| && n + j < used
    ensures (start + n) % |fs| < |fs|
    ensures RingSeq(fs, (start + n) % |fs|, used - n)[j] == RingSeq(fs, start, used)[n + j]
  {
    var m := |fs|;
    var p := (start + n) % m;
    ModAddMod(start + n, j, m);
    assert (p + j) % m == (start + (n + j)) % m;
    var a := RingSeq(fs, p, used - n);
    var b := RingSeq(fs, start, used);
    assert a[j] == fs[(p + j) % m];
    assert b[n + j] == fs[(start + (n + j)) % m];
  }

  /**
   * A stretch of the run from `start` that does not cross the end of the ring is a slice of the
   * ring itself: the `len` frames `off` past the cursor are those from position `p` on.
   */
  lemma RingSeqSlice<T>(fs: seq<T>, start: nat, used: nat, p: nat, off: nat, len: nat)
    requires start < |fs| && off + len <= used
    requires p == (start + off) % |fs| && p + len <= |fs|
    ensures fs[p .. p + len] == RingSeq(fs, start, used)[off .. off + len]
  {
    var a := fs[p .. p + len];
    var b := RingSeq(fs, start, used)[off .. off + len];
    forall j | 0 <= j < len
      ensures a[j] == b[j]
    {
      CursorWithinSegment(start, off, j, |fs|);
      assert b[j] == fs[(start + (off + j)) % |fs|];
    }
  }

  /**
   * Replacing a frame at a position the cursor reaches only after the `used` frames from `start`
   * leaves those frames as they were.
   */
  lemma RingSeqOutsideRun<T>(fs: seq<T>, start: nat, used: nat, p: nat, x: T)
    requires start < |fs| && used <= |fs| && p < |fs| && Distance(|fs|, start, p) >= used
    ensures RingSeq(fs[p := x], start, used) == RingSeq(fs, start, used)
  {
    var a := RingSeq(fs[p := x], start, used);
    var b := RingSeq(fs, start, used);
    forall j | 0 <= j < used
      ensures a[j] == b[j]
    {
      DistanceOfAdvance(|fs|, start, j);
    }
  }

  /**
   * A stretch of `len` positions that starts `off` past cursor `from`, which stands `used` positions
   * past `start`, and does not cross the end of the ring lies entirely beyond those `used` positions.
   */
  lemma StretchBeyondRun(frameCount: nat, start: nat, used: nat, from: nat, off: nat, q: nat, len: nat)
    requires start < frameCount && from == (start + used) % frameCount
    requires q == (from + off) % frameCount && q + len <= frameCount && used + off + len <= frameCount
    ensures forall p :: q <= p < q + len ==> Distance(frameCount, start, p) >= used
  {
    forall p | q <= p < q + len
      ensures Distance(frameCount, start, p) >= used
    {
      var j := p - q;
      CursorWithinSegment(from, off, j, frameCount);
      ModAddMod(start + used, off + j, frameCount);
      DistanceOfAdvance(frameCount, start, used + off + j);
    }
  }

  /** Storing the `ch` samples of one frame changes that frame of the storage and no other. */
  lemma FramesAfterFrameStore<T>(s: seq<T>, s': seq<T>, ch: nat, frameCount: nat, f: nat, frame: seq<T>)
    requires |s| == frameCount * ch && |s'| == |s| && f < frameCount && |frame| == ch
    requires forall i :: 0 <= i < |s| ==> s'[i] == if f * ch <= i < f * ch + ch then frame[i - f * ch] else s[i]
    ensures Frames(s', ch, frameCount) == Frames(s, ch, frameCount)[f := frame]
  {
    var a := Frames(s', ch, frameCount);
    var b := Frames(s, ch, frameCount)[f := frame];
    forall g | 0 <= g < frameCount
      ensures a[g] == b[g]
    {
      forall c | 0 <= c < ch
        ensures a[g][c] == b[g][c]
      {
        FrameFits(g, frameCount, ch);
        FrameFits(f, frameCount, ch);
        var i := g * ch + c;
        if f * ch <= i < f * ch + ch {
          FlatIndexInjective(g, c, f, i - f * ch, ch);
        }
      }
    }
  }

  /** Inside a segment that starts `k0` frames past the cursor and does not wrap, frame `j` is `k0 + j` past it. */
  lemma CursorWithinSegment(from: nat, k0: nat, j: nat, frameCount: nat)
    requires from < frameCount && (from + k0) % frameCount + j < frameCount
    ensures (from + k0 + j) % frameCount == (from + k0) % frameCount + j
  {
    ModAddMod(from + k0, j, frameCount);
    ModBelowTwice((from + k0) % frameCount + j, frameCount);
  }
}
