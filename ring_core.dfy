/**
 * The ring enumerator: a request for `availableFrames` frames starting at a cursor is cut into
 * contiguous segments that never cross the end of the storage, and a caller-supplied callback
 * is asked, segment by segment, how many frames of each it processed.
 */
module RingCore {
  import opened Results
  import opened Arithmetic

  /**
   * The callback, as a pure oracle: given the segment's first frame in the storage, its length
   * in frames and the number of frames processed before it in this call, the number of frames
   * of the segment it processed.
   */
  type SegmentCallback = (nat, nat, nat) -> nat

  /** One invocation of the callback: the segment offered, the offset passed, the count returned. */
  datatype Visit = Visit(frameIndex: nat, frames: nat, offset: nat, processed: nat)

  /** What the enumerator returns when no `RangeError` is thrown. */
  datatype Enumeration = Enumeration(totalProcessedFrames: nat, nextFrameIndex: nat)

  /** The outcome of an enumeration together with the callback invocations it made, in order. */
  datatype Trace = Trace(result: Result<Enumeration, RangeError>, visits: seq<Visit>)

  function Then(vs: seq<Visit>, t: Trace): Trace {
    Trace(t.result, vs + t.visits)
  }

  /** Visits recorded before `[v]` and then `t`'s are those recorded before `v` followed by `t`'s. */
  lemma ThenAppend(vs: seq<Visit>, v: Visit, t: Trace)
    ensures Then(vs, Then([v], t)) == Then(vs + [v], t)
  {
    assert vs + ([v] + t.visits) == (vs + [v]) + t.visits;
  }

  /** Frames reported processed by a sequence of visits. */
  function Processed(vs: seq<Visit>): nat {
    if |vs| == 0 then 0 else Processed(vs[..|vs| - 1]) + vs[|vs| - 1].processed
  }

  function Last(vs: seq<Visit>): Visit
    requires |vs| > 0
  {
    vs[|vs| - 1]
  }

  /**
   * Reference definition of the enumeration, continued from cursor `frameIndex` after `done`
   * frames of the request have been processed. A segment is offered exactly when frames of the
   * request remain, and the cursor returned always lies within the storage.
   */
  function Enumerate(frameCount: nat, frameIndex: nat, availableFrames: nat, done: nat, process: SegmentCallback): (t: Trace)
    requires frameIndex < frameCount
    ensures |t.visits| > 0 <==> done < availableFrames
    ensures t.result.Ok? ==> t.result.value.nextFrameIndex < frameCount
    decreases availableFrames - done
  {
    if done >= availableFrames then
      Trace(Ok(Enumeration(done, frameIndex)), [])
    else
      var current := Min(frameCount - frameIndex, availableFrames - done);
      var processed := process(frameIndex, current, done);
      var visit := Visit(frameIndex, current, done, processed);
      if processed > current then
        Trace(Err(ProcessedExceedsSegment(processed, current)), [visit])
      else
        var next := (frameIndex + processed) % frameCount;
        if processed < current then
          Trace(Ok(Enumeration(done + processed, next)), [visit])
        else
          Then([visit], Enumerate(frameCount, next, availableFrames, done + processed, process))
  }

  /** One step of the enumeration: the segment offered at the cursor, and what follows from the callback's answer. */
  lemma EnumerateStep(frameCount: nat, frameIndex: nat, availableFrames: nat, done: nat, process: SegmentCallback, current: nat, processed: nat)
    requires frameIndex < frameCount && done < availableFrames
    requires current == Min(frameCount - frameIndex, availableFrames - done) && processed == process(frameIndex, current, done)
    ensures processed > current ==>
      Enumerate(frameCount, frameIndex, availableFrames, done, process) == Trace(Err(ProcessedExceedsSegment(processed, current)), [Visit(frameIndex, current, done, processed)])
    ensures processed < current ==>
      Enumerate(frameCount, frameIndex, availableFrames, done, process) == Trace(Ok(Enumeration(done + processed, (frameIndex + processed) % frameCount)), [Visit(frameIndex, current, done, processed)])
    ensures processed == current ==>
      Enumerate(frameCount, frameIndex, availableFrames, done, process) == Then([Visit(frameIndex, current, done, processed)], Enumerate(frameCount, (frameIndex + processed) % frameCount, availableFrames, done + processed, process))
  {
  }

  /** Segment `v` is non-empty and ends at or before the end of the storage. */
  predicate WithinStorage(frameCount: nat, v: Visit) {
    1 <= v.frames && v.frameIndex + v.frames <= frameCount
  }

  /**
   * Segment `v` is the longest run from its cursor that neither crosses the end of the storage nor
   * exceeds what is left of the request, and its count is the callback's answer for it.
   */
  predicate OfferedByRule(frameCount: nat, availableFrames: nat, process: SegmentCallback, v: Visit) {
    && v.processed == process(v.frameIndex, v.frames, v.offset)
    && v.frames <= frameCount - v.frameIndex
    && v.frames <= availableFrames - v.offset
    && (v.frames == frameCount - v.frameIndex || v.frames == availableFrames - v.offset)
  }

  /** Every segment offered is non-empty and ends at or before the end of the storage. */
  lemma {:induction false} EnumerateNeverWraps(frameCount: nat, frameIndex: nat, availableFrames: nat, done: nat, process: SegmentCallback)
    requires frameIndex < frameCount
    ensures forall v :: v in Enumerate(frameCount, frameIndex, availableFrames, done, process).visits ==> WithinStorage(frameCount, v)
    decreases availableFrames - done
  {
    if done < availableFrames {
      var current := Min(frameCount - frameIndex, availableFrames - done);
      var processed := process(frameIndex, current, done);
      EnumerateStep(frameCount, frameIndex, availableFrames, done, process, current, processed);
      if processed == current {
        var next := (frameIndex + processed) % frameCount;
        EnumerateNeverWraps(frameCount, next, availableFrames, done + processed, process);
      }
    }
  }

  /** Every segment offered follows the cutting rule, and its count is the callback's answer for it. */
  lemma {:induction false} EnumerateAsksCallback(frameCount: nat, frameIndex: nat, availableFrames: nat, done: nat, process: SegmentCallback)
    requires frameIndex < frameCount
    ensures forall v :: v in Enumerate(frameCount, frameIndex, availableFrames, done, process).visits ==> OfferedByRule(frameCount, availableFrames, process, v)
    decreases availableFrames - done
  {
    if done < availableFrames {
      var current := Min(frameCount - frameIndex, availableFrames - done);
      var processed := process(frameIndex, current, done);
      EnumerateStep(frameCount, frameIndex, availableFrames, done, process, current, processed);
      if processed == current {
        var next := (frameIndex + processed) % frameCount;
        EnumerateAsksCallback(frameCount, next, availableFrames, done + processed, process);
      }
    }
  }

  /**
   * Segment `b` follows segment `a`: its offset is `a`'s plus the frames processed in `a`, and its
   * first frame is where the cursor stands once those frames are passed, modulo the capacity.
   */
  predicate Chained(frameCount: nat, a: Visit, b: Visit)
    requires frameCount > 0
  {
    b.offset == a.offset + a.processed && b.frameIndex == (a.frameIndex + a.processed) % frameCount
  }

  /** The first segment starts at the cursor, with offset `done`. */
  lemma EnumerateFirstSegment(frameCount: nat, frameIndex: nat, availableFrames: nat, done: nat, process: SegmentCallback)
    requires frameIndex < frameCount
    ensures |Enumerate(frameCount, frameIndex, availableFrames, done, process).visits| > 0 ==> Enumerate(frameCount, frameIndex, availableFrames, done, process).visits[0].offset == done && Enumerate(frameCount, frameIndex, availableFrames, done, process).visits[0].frameIndex == frameIndex
  {
  }

  /** Every segment lies within the request: at or after `done`, ending at or before `availableFrames`. */
  lemma {:induction false} EnumerateWithinRequest(frameCount: nat, frameIndex: nat, availableFrames: nat, done: nat, process: SegmentCallback)
    requires frameIndex < frameCount
    ensures forall v :: v in Enumerate(frameCount, frameIndex, availableFrames, done, process).visits ==> done <= v.offset && v.offset + v.frames <= availableFrames
    decreases availableFrames - done
  {
    if done < availableFrames {
      var current := Min(frameCount - frameIndex, availableFrames - done);
      var processed := process(frameIndex, current, done);
      EnumerateStep(frameCount, frameIndex, availableFrames, done, process, current, processed);
      if processed == current {
        var next := (frameIndex + processed) % frameCount;
        EnumerateWithinRequest(frameCount, next, availableFrames, done + processed, process);
        assert Enumerate(frameCount, frameIndex, availableFrames, done, process).visits == [Visit(frameIndex, current, done, processed)] + Enumerate(frameCount, next, availableFrames, done + processed, process).visits;
      }
    }
  }

  /** Each segment is chained to the one before it. */
  lemma {:induction false} EnumerateChained(frameCount: nat, frameIndex: nat, availableFrames: nat, done: nat, process: SegmentCallback)
    requires frameIndex < frameCount
    ensures forall i :: 0 <= i < |Enumerate(frameCount, frameIndex, availableFrames, done, process).visits| - 1 ==> Chained(frameCount, Enumerate(frameCount, frameIndex, availableFrames, done, process).visits[i], Enumerate(frameCount, frameIndex, availableFrames, done, process).visits[i + 1])
    decreases availableFrames - done
  {
    if done < availableFrames {
      var current := Min(frameCount - frameIndex, availableFrames - done);
      var processed := process(frameIndex, current, done);
      EnumerateStep(frameCount, frameIndex, availableFrames, done, process, current, processed);
      if processed == current {
        var next := (frameIndex + processed) % frameCount;
        EnumerateChained(frameCount, next, availableFrames, done + processed, process);
        EnumerateFirstSegment(frameCount, next, availableFrames, done + processed, process);
        var rest := Enumerate(frameCount, next, availableFrames, done + processed, process).visits;
        var vs := Enumerate(frameCount, frameIndex, availableFrames, done, process).visits;
        assert vs == [Visit(frameIndex, current, done, processed)] + rest;
        forall i | 0 <= i < |vs| - 1
          ensures Chained(frameCount, vs[i], vs[i + 1])
        {
          assert vs[i + 1] == rest[i];
          if i > 0 {
            assert vs[i] == rest[i - 1];
          }
        }
      }
    }
  }


  /** In a chain of visits starting at cursor `start` with offset `done`, each visit's first frame is fixed by its offset. */
  lemma ChainCursor(frameCount: nat, start: nat, done: nat, vs: seq<Visit>)
    requires start < frameCount && |vs| > 0 && vs[0].offset == done && vs[0].frameIndex == start
    requires forall i :: 0 <= i < |vs| - 1 ==> Chained(frameCount, vs[i], vs[i + 1])
    ensures forall i :: 0 <= i < |vs| ==> done <= vs[i].offset && vs[i].frameIndex == (start + vs[i].offset - done) % frameCount
  {
    ModBelowTwice(start, frameCount);
    var i := 0;
    while i < |vs| - 1
      invariant i < |vs|
      invariant forall k :: 0 <= k <= i ==> done <= vs[k].offset && vs[k].frameIndex == (start + vs[k].offset - done) % frameCount
    {
      assert Chained(frameCount, vs[i], vs[i + 1]);
      ModAddMod(start + vs[i].offset - done, vs[i].processed, frameCount);
      i := i + 1;
    }
  }

  /** In a chain of visits whose first offset is `done`, each offset is `done` plus the frames processed before it. */
  lemma ChainPrefixSums(frameCount: nat, done: nat, vs: seq<Visit>)
    requires frameCount > 0 && |vs| > 0 && vs[0].offset == done
    requires forall i :: 0 <= i < |vs| - 1 ==> Chained(frameCount, vs[i], vs[i + 1])
    ensures forall i :: 0 <= i < |vs| ==> vs[i].offset == done + Processed(vs[..i])
  {
    assert vs[..0] == [];
    var i := 0;
    while i < |vs| - 1
      invariant i < |vs|
      invariant forall k :: 0 <= k <= i ==> vs[k].offset == done + Processed(vs[..k])
    {
      assert Chained(frameCount, vs[i], vs[i + 1]);
      assert vs[..i + 1][..i] == vs[..i];
      i := i + 1;
    }
  }

  /** Each segment starts where the cursor stands after the frames processed before it, modulo the capacity. */
  lemma EnumerateCursor(frameCount: nat, frameIndex: nat, availableFrames: nat, done: nat, process: SegmentCallback)
    requires frameIndex < frameCount
    ensures forall i :: 0 <= i < |Enumerate(frameCount, frameIndex, availableFrames, done, process).visits| ==>
      done <= Enumerate(frameCount, frameIndex, availableFrames, done, process).visits[i].offset && Enumerate(frameCount, frameIndex, availableFrames, done, process).visits[i].frameIndex == (frameIndex + Enumerate(frameCount, frameIndex, availableFrames, done, process).visits[i].offset - done) % frameCount
  {
    EnumerateFirstSegment(frameCount, frameIndex, availableFrames, done, process);
    EnumerateChained(frameCount, frameIndex, availableFrames, done, process);
    if |Enumerate(frameCount, frameIndex, availableFrames, done, process).visits| > 0 {
      ChainCursor(frameCount, frameIndex, done, Enumerate(frameCount, frameIndex, availableFrames, done, process).visits);
    }
  }

  /** Only the last segment may be short: every earlier one was consumed whole. */
  lemma {:induction false} EnumerateStopsOnShortReturn(frameCount: nat, frameIndex: nat, availableFrames: nat, done: nat, process: SegmentCallback)
    requires frameIndex < frameCount
    ensures forall i :: 0 <= i < |Enumerate(frameCount, frameIndex, availableFrames, done, process).visits| - 1 ==> Enumerate(frameCount, frameIndex, availableFrames, done, process).visits[i].processed == Enumerate(frameCount, frameIndex, availableFrames, done, process).visits[i].frames
    decreases availableFrames - done
  {
    if done < availableFrames {
      var current := Min(frameCount - frameIndex, availableFrames - done);
      var processed := process(frameIndex, current, done);
      EnumerateStep(frameCount, frameIndex, availableFrames, done, process, current, processed);
      if processed == current {
        var next := (frameIndex + processed) % frameCount;
        EnumerateStopsOnShortReturn(frameCount, next, availableFrames, done + processed, process);
        var rest := Enumerate(frameCount, next, availableFrames, done + processed, process).visits;
        var vs := Enumerate(frameCount, frameIndex, availableFrames, done, process).visits;
        assert vs == [Visit(frameIndex, current, done, processed)] + rest;
        forall i | 0 <= i < |vs| - 1
          ensures vs[i].processed == vs[i].frames
        {
          if i > 0 {
            assert vs[i] == rest[i - 1];
          }
        }
      }
    }
  }

  /** A `RangeError` is raised exactly when the last callback claimed more frames than its segment holds. */
  lemma {:induction false} EnumerateErrorIffOverClaim(frameCount: nat, frameIndex: nat, availableFrames: nat, done: nat, process: SegmentCallback)
    requires frameIndex < frameCount
    ensures Enumerate(frameCount, frameIndex, availableFrames, done, process).result.Err? <==> |Enumerate(frameCount, frameIndex, availableFrames, done, process).visits| > 0 && Last(Enumerate(frameCount, frameIndex, availableFrames, done, process).visits).processed > Last(Enumerate(frameCount, frameIndex, availableFrames, done, process).visits).frames
    decreases availableFrames - done
  {
    if done < availableFrames {
      var current := Min(frameCount - frameIndex, availableFrames - done);
      var processed := process(frameIndex, current, done);
      EnumerateStep(frameCount, frameIndex, availableFrames, done, process, current, processed);
      if processed == current {
        var next := (frameIndex + processed) % frameCount;
        EnumerateErrorIffOverClaim(frameCount, next, availableFrames, done + processed, process);
        var rest := Enumerate(frameCount, next, availableFrames, done + processed, process);
        if |rest.visits| > 0 {
          assert Last([Visit(frameIndex, current, done, processed)] + rest.visits) == Last(rest.visits);
        }
      }
    }
  }

  /** The `RangeError` reports the last callback's count and the length of its segment. */
  lemma {:induction false} EnumerateErrorReports(frameCount: nat, frameIndex: nat, availableFrames: nat, done: nat, process: SegmentCallback)
    requires frameIndex < frameCount
    ensures Enumerate(frameCount, frameIndex, availableFrames, done, process).result.Err? ==>
      Enumerate(frameCount, frameIndex, availableFrames, done, process).result.error == ProcessedExceedsSegment(Last(Enumerate(frameCount, frameIndex, availableFrames, done, process).visits).processed, Last(Enumerate(frameCount, frameIndex, availableFrames, done, process).visits).frames)
    decreases availableFrames - done
  {
    if done < availableFrames {
      var current := Min(frameCount - frameIndex, availableFrames - done);
      var processed := process(frameIndex, current, done);
      EnumerateStep(frameCount, frameIndex, availableFrames, done, process, current, processed);
      if processed == current {
        var next := (frameIndex + processed) % frameCount;
        EnumerateErrorReports(frameCount, next, availableFrames, done + processed, process);
        var rest := Enumerate(frameCount, next, availableFrames, done + processed, process);
        if |rest.visits| > 0 {
          assert Last([Visit(frameIndex, current, done, processed)] + rest.visits) == Last(rest.visits);
        }
      }
    }
  }


  /** On success the total lies between `done` and the request. */
  lemma {:induction false} EnumerateTotalBounds(frameCount: nat, frameIndex: nat, availableFrames: nat, done: nat, process: SegmentCallback)
    requires frameIndex < frameCount && done <= availableFrames
    ensures Enumerate(frameCount, frameIndex, availableFrames, done, process).result.Ok? ==> done <= Enumerate(frameCount, frameIndex, availableFrames, done, process).result.value.totalProcessedFrames <= availableFrames
    decreases availableFrames - done
  {
    if done < availableFrames {
      var current := Min(frameCount - frameIndex, availableFrames - done);
      var processed := process(frameIndex, current, done);
      EnumerateStep(frameCount, frameIndex, availableFrames, done, process, current, processed);
      if processed == current {
        var next := (frameIndex + processed) % frameCount;
        EnumerateTotalBounds(frameCount, next, availableFrames, done + processed, process);
      }
    }
  }

  /** On success the total is where the last segment's count ends, or `done` without segments. */
  lemma {:induction false} EnumerateTotalAtLast(frameCount: nat, frameIndex: nat, availableFrames: nat, done: nat, process: SegmentCallback)
    requires frameIndex < frameCount
    ensures Enumerate(frameCount, frameIndex, availableFrames, done, process).result.Ok? ==>
      Enumerate(frameCount, frameIndex, availableFrames, done, process).result.value.totalProcessedFrames == (if |Enumerate(frameCount, frameIndex, availableFrames, done, process).visits| == 0 then done else Last(Enumerate(frameCount, frameIndex, availableFrames, done, process).visits).offset + Last(Enumerate(frameCount, frameIndex, availableFrames, done, process).visits).processed)
    decreases availableFrames - done
  {
    if done < availableFrames {
      var current := Min(frameCount - frameIndex, availableFrames - done);
      var processed := process(frameIndex, current, done);
      EnumerateStep(frameCount, frameIndex, availableFrames, done, process, current, processed);
      if processed == current {
        var next := (frameIndex + processed) % frameCount;
        EnumerateTotalAtLast(frameCount, next, availableFrames, done + processed, process);
        var rest := Enumerate(frameCount, next, availableFrames, done + processed, process);
        if |rest.visits| > 0 {
          assert Last([Visit(frameIndex, current, done, processed)] + rest.visits) == Last(rest.visits);
        }
      }
    }
  }

  /** On success the next cursor is the start advanced by the frames processed, modulo the capacity. */
  lemma {:induction false} EnumerateNextCursor(frameCount: nat, frameIndex: nat, availableFrames: nat, done: nat, process: SegmentCallback)
    requires frameIndex < frameCount && done <= availableFrames
    ensures Enumerate(frameCount, frameIndex, availableFrames, done, process).result.Ok? ==> done <= Enumerate(frameCount, frameIndex, availableFrames, done, process).result.value.totalProcessedFrames
    ensures Enumerate(frameCount, frameIndex, availableFrames, done, process).result.Ok? ==>
      Enumerate(frameCount, frameIndex, availableFrames, done, process).result.value.nextFrameIndex == (frameIndex + Enumerate(frameCount, frameIndex, availableFrames, done, process).result.value.totalProcessedFrames - done) % frameCount
    decreases availableFrames - done
  {
    ModBelowTwice(frameIndex, frameCount);
    if done < availableFrames {
      var current := Min(frameCount - frameIndex, availableFrames - done);
      var processed := process(frameIndex, current, done);
      EnumerateStep(frameCount, frameIndex, availableFrames, done, process, current, processed);
      if processed == current {
        var next := (frameIndex + processed) % frameCount;
        EnumerateNextCursor(frameCount, next, availableFrames, done + processed, process);
        var rest := Enumerate(frameCount, next, availableFrames, done + processed, process);
        if rest.result.Ok? {
          ModAddMod(frameIndex + processed, rest.result.value.totalProcessedFrames - done - processed, frameCount);
        }
      }
    }
  }

  /** A successful call stops short of the request only after a short return. */
  lemma {:induction false} EnumerateShortfall(frameCount: nat, frameIndex: nat, availableFrames: nat, done: nat, process: SegmentCallback)
    requires frameIndex < frameCount
    ensures Enumerate(frameCount, frameIndex, availableFrames, done, process).result.Ok? && Enumerate(frameCount, frameIndex, availableFrames, done, process).result.value.totalProcessedFrames < availableFrames ==>
      |Enumerate(frameCount, frameIndex, availableFrames, done, process).visits| > 0 && Last(Enumerate(frameCount, frameIndex, availableFrames, done, process).visits).processed < Last(Enumerate(frameCount, frameIndex, availableFrames, done, process).visits).frames
    decreases availableFrames - done
  {
    if done < availableFrames {
      var current := Min(frameCount - frameIndex, availableFrames - done);
      var processed := process(frameIndex, current, done);
      EnumerateStep(frameCount, frameIndex, availableFrames, done, process, current, processed);
      if processed == current {
        var next := (frameIndex + processed) % frameCount;
        EnumerateShortfall(frameCount, next, availableFrames, done + processed, process);
        var rest := Enumerate(frameCount, next, availableFrames, done + processed, process);
        if |rest.visits| > 0 {
          assert Last([Visit(frameIndex, current, done, processed)] + rest.visits) == Last(rest.visits);
        }
      }
    }
  }


  /** The offset passed with each segment is `done` plus the frames processed in the segments before it. */
  lemma EnumerateOffsetIsProcessedSoFar(frameCount: nat, frameIndex: nat, availableFrames: nat, done: nat, process: SegmentCallback)
    requires frameIndex < frameCount && done <= availableFrames
    ensures forall i :: 0 <= i < |Enumerate(frameCount, frameIndex, availableFrames, done, process).visits| ==> Enumerate(frameCount, frameIndex, availableFrames, done, process).visits[i].offset == done + Processed(Enumerate(frameCount, frameIndex, availableFrames, done, process).visits[..i])
    ensures Enumerate(frameCount, frameIndex, availableFrames, done, process).result.Ok? ==> Enumerate(frameCount, frameIndex, availableFrames, done, process).result.value.totalProcessedFrames == done + Processed(Enumerate(frameCount, frameIndex, availableFrames, done, process).visits)
  {
    var vs := Enumerate(frameCount, frameIndex, availableFrames, done, process).visits;
    EnumerateFirstSegment(frameCount, frameIndex, availableFrames, done, process);
    EnumerateChained(frameCount, frameIndex, availableFrames, done, process);
    EnumerateTotalAtLast(frameCount, frameIndex, availableFrames, done, process);
    if |vs| > 0 {
      ChainPrefixSums(frameCount, done, vs);
      assert vs[..|vs|] == vs;
    }
  }

  /** When what is left of the request fits before the end of the storage, at most one segment is offered. */
  lemma EnumerateOneSegment(frameCount: nat, frameIndex: nat, availableFrames: nat, done: nat, process: SegmentCallback)
    requires frameIndex < frameCount && availableFrames - done <= frameCount - frameIndex
    ensures |Enumerate(frameCount, frameIndex, availableFrames, done, process).visits| <= 1
  {
  }

  /**
   * A request of at most the capacity uses at most two segments; when it uses two, the first runs
   * from the cursor to the end of the storage and the second starts at frame 0.
   */
  lemma {:induction false} EnumerateAtMostTwoSegments(frameCount: nat, frameIndex: nat, availableFrames: nat, done: nat, process: SegmentCallback)
    requires frameIndex < frameCount && availableFrames - done <= frameCount
    ensures |Enumerate(frameCount, frameIndex, availableFrames, done, process).visits| <= 2
    ensures |Enumerate(frameCount, frameIndex, availableFrames, done, process).visits| == 2 ==>
      && Enumerate(frameCount, frameIndex, availableFrames, done, process).visits[0].frameIndex == frameIndex
      && Enumerate(frameCount, frameIndex, availableFrames, done, process).visits[0].frameIndex + Enumerate(frameCount, frameIndex, availableFrames, done, process).visits[0].frames == frameCount
      && Enumerate(frameCount, frameIndex, availableFrames, done, process).visits[1].frameIndex == 0
  {
    if done < availableFrames {
      var current := Min(frameCount - frameIndex, availableFrames - done);
      var processed := process(frameIndex, current, done);
      EnumerateStep(frameCount, frameIndex, availableFrames, done, process, current, processed);
      if processed == current {
        var next := (frameIndex + processed) % frameCount;
        if current == frameCount - frameIndex {
          ModBelowTwice(frameCount, frameCount);
          assert next == 0;
        }
        EnumerateOneSegment(frameCount, next, availableFrames, done + processed, process);
      }
    }
  }

  /**
   * If the callback always consumes the whole segment offered, the whole request is processed and
   * the cursor ends advanced by it.
   */
  lemma {:induction false} EnumerateFullConsumption(frameCount: nat, frameIndex: nat, availableFrames: nat, done: nat, process: SegmentCallback)
    requires frameIndex < frameCount && done <= availableFrames
    requires forall start: nat, frames: nat, offset: nat :: process(start, frames, offset) == frames
    ensures Enumerate(frameCount, frameIndex, availableFrames, done, process).result == Ok(Enumeration(availableFrames, (frameIndex + availableFrames - done) % frameCount))
    decreases availableFrames - done
  {
    ModBelowTwice(frameIndex, frameCount);
    if done < availableFrames {
      var current := Min(frameCount - frameIndex, availableFrames - done);
      var next := (frameIndex + current) % frameCount;
      EnumerateFullConsumption(frameCount, next, availableFrames, done + current, process);
      ModAddMod(frameIndex + current, availableFrames - done - current, frameCount);
    }
  }

  /**
   * A callback that takes what it is offered until `limit` frames of the call are processed
   * processes `min(limit, availableFrames)` frames.
   */
  lemma {:induction false} EnumerateUpTo(frameCount: nat, frameIndex: nat, availableFrames: nat, done: nat, limit: nat, process: SegmentCallback)
    requires frameIndex < frameCount && done <= availableFrames && done <= limit
    requires forall start: nat, frames: nat, offset: nat ::
      process(start, frames, offset) == if offset <= limit then Min(frames, limit - offset) else 0
    ensures Enumerate(frameCount, frameIndex, availableFrames, done, process).result == Ok(Enumeration(Min(limit, availableFrames), (frameIndex + Min(limit, availableFrames) - done) % frameCount))
    decreases availableFrames - done
  {
    ModBelowTwice(frameIndex, frameCount);
    if done < availableFrames {
      var current := Min(frameCount - frameIndex, availableFrames - done);
      var processed := Min(current, limit - done);
      EnumerateStep(frameCount, frameIndex, availableFrames, done, process, current, processed);
      var next := (frameIndex + processed) % frameCount;
      if processed == current {
        EnumerateUpTo(frameCount, next, availableFrames, done + processed, limit, process);
        ModAddMod(frameIndex + processed, Min(limit, availableFrames) - done - processed, frameCount);
      }
    }
  }

  /** On success no callback claimed more frames than its segment held. */
  lemma EnumerateOkWithinSegments(frameCount: nat, frameIndex: nat, availableFrames: nat, done: nat, process: SegmentCallback)
    requires frameIndex < frameCount
    ensures Enumerate(frameCount, frameIndex, availableFrames, done, process).result.Ok? ==> forall v :: v in Enumerate(frameCount, frameIndex, availableFrames, done, process).visits ==> v.processed <= v.frames
  {
    var vs := Enumerate(frameCount, frameIndex, availableFrames, done, process).visits;
    EnumerateStopsOnShortReturn(frameCount, frameIndex, availableFrames, done, process);
    EnumerateErrorIffOverClaim(frameCount, frameIndex, availableFrames, done, process);
    if Enumerate(frameCount, frameIndex, availableFrames, done, process).result.Ok? {
      forall v | v in vs
        ensures v.processed <= v.frames
      {
        var i :| 0 <= i < |vs| && vs[i] == v;
        if i < |vs| - 1 {
          assert vs[i].processed == vs[i].frames;
        }
      }
    }
  }

  /**
   * The enumeration terminates: every segment but the last processes at least one frame, so there
   * are at most as many segments as frames requested.
   */
  lemma {:induction false} EnumerateVisitCount(frameCount: nat, frameIndex: nat, availableFrames: nat, done: nat, process: SegmentCallback)
    requires frameIndex < frameCount && done <= availableFrames
    ensures |Enumerate(frameCount, frameIndex, availableFrames, done, process).visits| <= availableFrames - done
    decreases availableFrames - done
  {
    if done < availableFrames {
      var current := Min(frameCount - frameIndex, availableFrames - done);
      var processed := process(frameIndex, current, done);
      EnumerateStep(frameCount, frameIndex, availableFrames, done, process, current, processed);
      if processed == current {
        var next := (frameIndex + processed) % frameCount;
        EnumerateVisitCount(frameCount, next, availableFrames, done + processed, process);
        assert Enumerate(frameCount, frameIndex, availableFrames, done, process).visits == [Visit(frameIndex, current, done, processed)] + Enumerate(frameCount, next, availableFrames, done + processed, process).visits;
      }
    }
  }

  /**
   * What a call of the enumerator, which starts with nothing processed, promises: no segment crosses
   * the end of the storage, a `RangeError` exactly when the last callback over-claims, a total within
   * the request, the cursor advanced by the total, and at most two segments for a request that fits.
   */
  lemma EnumerateFromCursor(frameCount: nat, frameIndex: nat, availableFrames: nat, process: SegmentCallback)
    requires frameIndex < frameCount
    ensures forall v :: v in Enumerate(frameCount, frameIndex, availableFrames, 0, process).visits ==> WithinStorage(frameCount, v)
    ensures Enumerate(frameCount, frameIndex, availableFrames, 0, process).result.Err? <==> |Enumerate(frameCount, frameIndex, availableFrames, 0, process).visits| > 0 && Last(Enumerate(frameCount, frameIndex, availableFrames, 0, process).visits).processed > Last(Enumerate(frameCount, frameIndex, availableFrames, 0, process).visits).frames
    ensures Enumerate(frameCount, frameIndex, availableFrames, 0, process).result.Ok? ==> Enumerate(frameCount, frameIndex, availableFrames, 0, process).result.value.totalProcessedFrames <= availableFrames
    ensures Enumerate(frameCount, frameIndex, availableFrames, 0, process).result.Ok? ==>
      Enumerate(frameCount, frameIndex, availableFrames, 0, process).result.value.nextFrameIndex == (frameIndex + Enumerate(frameCount, frameIndex, availableFrames, 0, process).result.value.totalProcessedFrames) % frameCount
    ensures availableFrames <= frameCount ==> |Enumerate(frameCount, frameIndex, availableFrames, 0, process).visits| <= 2
  {
    EnumerateNeverWraps(frameCount, frameIndex, availableFrames, 0, process);
    EnumerateErrorIffOverClaim(frameCount, frameIndex, availableFrames, 0, process);
    EnumerateTotalBounds(frameCount, frameIndex, availableFrames, 0, process);
    EnumerateNextCursor(frameCount, frameIndex, availableFrames, 0, process);
    if availableFrames <= frameCount {
      EnumerateAtMostTwoSegments(frameCount, frameIndex, availableFrames, 0, process);
    }
  }

  /**
   * The visits account for the `n` frames of the call, from cursor `from` on, in order and with no
   * gap: the first has offset 0, each is chained to the one before it, the last ends at `n`, and
   * each lies, without wrapping, where the cursor stands after the frames before it.
   */
  ghost predicate Covers(frameCount: nat, from: nat, availableFrames: nat, n: nat, visits: seq<Visit>)
    requires frameCount > 0
  {
    && (|visits| > 0 ==> visits[0].offset == 0)
    && (forall i :: 0 <= i < |visits| - 1 ==> Chained(frameCount, visits[i], visits[i + 1]))
    && n == (if |visits| == 0 then 0 else Last(visits).offset + Last(visits).processed)
    && (forall v :: v in visits ==>
          WithinStorage(frameCount, v) && v.processed <= v.frames && v.offset + v.frames <= availableFrames)
    && (forall i :: 0 <= i < |visits| ==> visits[i].frameIndex == (from + visits[i].offset) % frameCount)
  }

  /** What `Covers` says of visit `i`: where it lies, and where the next visit or the total starts. */
  lemma CoversAt(frameCount: nat, from: nat, availableFrames: nat, n: nat, visits: seq<Visit>, i: nat)
    requires frameCount > 0 && Covers(frameCount, from, availableFrames, n, visits) && i < |visits|
    ensures WithinStorage(frameCount, visits[i]) && visits[i].processed <= visits[i].frames
    ensures visits[i].offset + visits[i].frames <= availableFrames
    ensures visits[i].frameIndex == (from + visits[i].offset) % frameCount
    ensures i + 1 < |visits| ==> visits[i + 1].offset == visits[i].offset + visits[i].processed
    ensures i + 1 == |visits| ==> n == visits[i].offset + visits[i].processed
  {
    assert visits[i] in visits;
    if i + 1 < |visits| {
      assert Chained(frameCount, visits[i], visits[i + 1]);
    }
  }

  // The three lemmas below restate general ones at `done = 0`, each in the exact shape of one
  // conjunct of `Covers`. With them `EnumerateCovers` is proved from a few matching facts. Given
  // the general lemmas directly, the solver has to instantiate their quantifiers at `done = 0`
  // itself, which makes that proof several times costlier.

  /**
   * For a call, which starts with nothing processed: the first segment has offset 0, each is chained
   * to the one before it, and all of them lie within the request.
   */
  lemma EnumerateChainFromStart(frameCount: nat, frameIndex: nat, availableFrames: nat, process: SegmentCallback)
    requires frameIndex < frameCount
    ensures |Enumerate(frameCount, frameIndex, availableFrames, 0, process).visits| > 0 ==> Enumerate(frameCount, frameIndex, availableFrames, 0, process).visits[0].offset == 0
    ensures forall i :: 0 <= i < |Enumerate(frameCount, frameIndex, availableFrames, 0, process).visits| - 1 ==> Chained(frameCount, Enumerate(frameCount, frameIndex, availableFrames, 0, process).visits[i], Enumerate(frameCount, frameIndex, availableFrames, 0, process).visits[i + 1])
    ensures forall v :: v in Enumerate(frameCount, frameIndex, availableFrames, 0, process).visits ==> v.offset + v.frames <= availableFrames
  {
    EnumerateFirstSegment(frameCount, frameIndex, availableFrames, 0, process);
    EnumerateChained(frameCount, frameIndex, availableFrames, 0, process);
    EnumerateWithinRequest(frameCount, frameIndex, availableFrames, 0, process);
  }

  /** For a successful call, the total is where the last segment's count ends, or 0 without segments. */
  lemma EnumerateEndsAtTotal(frameCount: nat, frameIndex: nat, availableFrames: nat, process: SegmentCallback)
    requires frameIndex < frameCount
    ensures Enumerate(frameCount, frameIndex, availableFrames, 0, process).result.Ok? ==>
      Enumerate(frameCount, frameIndex, availableFrames, 0, process).result.value.totalProcessedFrames == (if |Enumerate(frameCount, frameIndex, availableFrames, 0, process).visits| == 0 then 0 else Last(Enumerate(frameCount, frameIndex, availableFrames, 0, process).visits).offset + Last(Enumerate(frameCount, frameIndex, availableFrames, 0, process).visits).processed)
  {
    EnumerateTotalAtLast(frameCount, frameIndex, availableFrames, 0, process);
  }

  /** For a call, each segment starts at the cursor advanced by its offset, modulo the capacity. */
  lemma EnumerateCursorFromStart(frameCount: nat, frameIndex: nat, availableFrames: nat, process: SegmentCallback)
    requires frameIndex < frameCount
    ensures forall i :: 0 <= i < |Enumerate(frameCount, frameIndex, availableFrames, 0, process).visits| ==> Enumerate(frameCount, frameIndex, availableFrames, 0, process).visits[i].frameIndex == (frameIndex + Enumerate(frameCount, frameIndex, availableFrames, 0, process).visits[i].offset) % frameCount
  {
    EnumerateCursor(frameCount, frameIndex, availableFrames, 0, process);
  }

  /** A successful enumeration covers the frames it reports processed. */
  lemma EnumerateCovers(frameCount: nat, frameIndex: nat, availableFrames: nat, process: SegmentCallback)
    requires frameIndex < frameCount
    ensures Enumerate(frameCount, frameIndex, availableFrames, 0, process).result.Ok? ==>
      Covers(frameCount, frameIndex, availableFrames, Enumerate(frameCount, frameIndex, availableFrames, 0, process).result.value.totalProcessedFrames, Enumerate(frameCount, frameIndex, availableFrames, 0, process).visits)
  {
    EnumerateChainFromStart(frameCount, frameIndex, availableFrames, process);
    EnumerateEndsAtTotal(frameCount, frameIndex, availableFrames, process);
    EnumerateOkWithinSegments(frameCount, frameIndex, availableFrames, 0, process);
    EnumerateNeverWraps(frameCount, frameIndex, availableFrames, 0, process);
    EnumerateCursorFromStart(frameCount, frameIndex, availableFrames, process);
  }
}
