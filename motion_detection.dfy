/**
 The frame loop of `detect_movement`. Every pass of the loop bumps
 `frame_count`; even-numbered frames only shift the frame pair, odd-numbered
 frames are classified and fed to the segmentation state machine. The loop
 ends after an odd-numbered frame when the `q` key is pressed or the next read
 fails; an interval still open then is appended ending at the capture's final
 position.

 The classifier's verdict, the capture position, the key press and the read
 result are inputs here: each pass of the loop is one `Tick`.
 */
module MotionDetection {
  import opened Segmenter

  /** What one pass of the loop observes: the classifier's verdict for the
      current frame pair, the capture position read by the state machine, and
      whether the loop breaks after this frame (`q` pressed or the next read
      failed). Only odd-numbered frames consult any of the three. */
  datatype Tick = Tick(motion: bool, pos: int, stop: bool)

  function SampleOf(t: Tick): Sample
  {
    Sample(t.pos, t.motion)
  }

  /** Frame number `frameCount` (1-based) is classified: 1, 3, 5, ... */
  predicate Processed(frameCount: nat)
  {
    frameCount % 2 == 1
  }

  /** The samples the state machine sees from the ticks at index `i` on
      (frame number `i + 1` on): every processed frame, in order, up to and
      including the first processed frame that ends the loop. */
  function Sampled(ticks: seq<Tick>, i: nat): (r: seq<Sample>)
    requires i <= |ticks|
    ensures |r| <= |ticks| - i
    decreases |ticks| - i
  {
    if i == |ticks| then []
    else if !Processed(i + 1) then Sampled(ticks, i + 1)
    else if ticks[i].stop then [SampleOf(ticks[i])]
    else [SampleOf(ticks[i])] + Sampled(ticks, i + 1)
  }

  /** Starting at an odd-numbered frame (even index `i`), sample `j` comes
      from index `i + 2 * j`, and no sample but the last comes from a frame
      that ends the loop. No odd-numbered frame is skipped either: the
      samples stop only at a frame that ends the loop or when the ticks run
      out, and there is at least one unless no tick is left. */
  lemma SampledAt(ticks: seq<Tick>, i: nat)
    requires i <= |ticks| && i % 2 == 0
    ensures forall j :: 0 <= j < |Sampled(ticks, i)| ==>
              i + 2 * j < |ticks| && Sampled(ticks, i)[j] == SampleOf(ticks[i + 2 * j])
    ensures forall j :: 0 <= j < |Sampled(ticks, i)| - 1 ==> !ticks[i + 2 * j].stop
    ensures var r := Sampled(ticks, i);
            && (r == [] <==> i == |ticks|)
            && (r != [] ==> LastSampled(i, |r|) < |ticks|)
            && (r != [] ==> ticks[LastSampled(i, |r|)].stop || LastSampled(i, |r|) + 2 >= |ticks|)
  {
    SampledPositions(ticks, i);
    SampledComplete(ticks, i);
  }

  /** The index of the last of `n` samples taken from index `i` on. */
  function LastSampled(i: nat, n: nat): (k: int)
    requires n > 0
    ensures k == i + 2 * (n - 1)
  {
    if n == 1 then i else LastSampled(i, n - 1) + 2
  }

  /** Every sample is the odd-numbered frame it should be, in order. */
  lemma {:induction false} SampledPositions(ticks: seq<Tick>, i: nat)
    requires i <= |ticks| && i % 2 == 0
    ensures forall j :: 0 <= j < |Sampled(ticks, i)| ==>
              i + 2 * j < |ticks| && Sampled(ticks, i)[j] == SampleOf(ticks[i + 2 * j])
    ensures forall j :: 0 <= j < |Sampled(ticks, i)| - 1 ==> !ticks[i + 2 * j].stop
    decreases |ticks| - i
  {
    if i + 2 <= |ticks| && !ticks[i].stop {
      var r := Sampled(ticks, i);
      var rest := Sampled(ticks, i + 2);
      assert r == [SampleOf(ticks[i])] + rest by {
        assert Sampled(ticks, i + 1) == rest;
      }
      SampledPositions(ticks, i + 2);
      forall j | 0 < j < |r|
        ensures i + 2 * j < |ticks| && r[j] == SampleOf(ticks[i + 2 * j])
        ensures j < |r| - 1 ==> !ticks[i + 2 * j].stop
      {
        assert r[j] == rest[j - 1] && i + 2 + 2 * (j - 1) == i + 2 * j;
      }
    } else if i + 1 == |ticks| && !ticks[i].stop {
      assert Sampled(ticks, i + 1) == [];
    }
  }

  /** Sampling stops only where it must: nothing is sampled only when no
      tick is left, and the last sample is a frame that ends the loop or the
      last odd-numbered frame there is. */
  lemma {:induction false} SampledComplete(ticks: seq<Tick>, i: nat)
    requires i <= |ticks| && i % 2 == 0
    ensures var r := Sampled(ticks, i);
            && (r == [] <==> i == |ticks|)
            && (r != [] ==> LastSampled(i, |r|) < |ticks|)
            && (r != [] ==> ticks[LastSampled(i, |r|)].stop || LastSampled(i, |r|) + 2 >= |ticks|)
    decreases |ticks| - i
  {
    if i + 2 <= |ticks| && !ticks[i].stop {
      var rest := Sampled(ticks, i + 2);
      assert Sampled(ticks, i) == [SampleOf(ticks[i])] + rest by {
        assert Sampled(ticks, i + 1) == rest;
      }
      SampledComplete(ticks, i + 2);
      if rest != [] {
        assert LastSampled(i, |rest| + 1) == LastSampled(i + 2, |rest|);
      }
    } else if i + 1 == |ticks| && !ticks[i].stop {
      assert Sampled(ticks, i + 1) == [];
    }
  }

  /** Frames that are not classified never influence segmentation: two tick
      streams that agree on every odd-numbered frame give the same samples,
      whatever their even-numbered frames hold. */
  lemma {:induction false} EvenFramesIgnored(ticks: seq<Tick>, other: seq<Tick>, i: nat)
    requires i <= |ticks| == |other|
    requires forall k :: i <= k < |ticks| && Processed(k + 1) ==> ticks[k] == other[k]
    ensures Sampled(ticks, i) == Sampled(other, i)
    decreases |ticks| - i
  {
    if i < |ticks| {
      EvenFramesIgnored(ticks, other, i + 1);
    }
  }

  /** Nothing after the first classified frame that ends the loop is read:
      the ticks after it can be cut off. */
  lemma {:induction false} StopEndsStream(ticks: seq<Tick>, i: nat, last: nat)
    requires i <= last < |ticks| && Processed(last + 1) && ticks[last].stop
    ensures Sampled(ticks, i) == Sampled(ticks[..last + 1], i)
    decreases last - i
  {
    if i < last {
      StopEndsStream(ticks, i + 1, last);
    }
  }

  /** `detect_movement` with the classifier, the capture and the keyboard
      replaced by the ticks they produce: returns the segmentation of the
      classified frames, with `finalPos` as the capture position at the
      final flush. */
  method DetectMovement(ticks: array<Tick>, noMotionDuration: int, finalPos: int) returns (clips: seq<Interval>)
    ensures clips == Segment(Sampled(ticks[..], 0), noMotionDuration, finalPos)
  {
    clips := [];
    var motionStarted := false;
    var startTime := 0;
    var frameCount := 0;
    ghost var all := ticks[..];
    ghost var seen: seq<Sample> := [];
    while frameCount < ticks.Length
      invariant 0 <= frameCount <= ticks.Length
      invariant Sampled(all, 0) == seen + Sampled(all, frameCount)
      invariant Exec(Initial, seen, noMotionDuration) == State(motionStarted, startTime, clips)
    {
      var tick := ticks[frameCount];
      assert tick == all[frameCount];
      frameCount := frameCount + 1;

      // even-numbered frames only shift the frame pair
      if frameCount % 2 == 0 {
        continue;
      }

      ghost var before := State(motionStarted, startTime, clips);
      if tick.motion && !motionStarted {
        startTime := tick.pos;
        motionStarted := true;
      } else if !tick.motion && motionStarted {
        var endTime := tick.pos;
        if endTime - startTime > noMotionDuration {
          clips := clips + [Interval(startTime, endTime)];
        }
        motionStarted := false;
      }
      assert Exec(Initial, seen + [SampleOf(tick)], noMotionDuration) == State(motionStarted, startTime, clips) by {
        ExecSnoc(Initial, seen, SampleOf(tick), noMotionDuration);
        assert Step(before, SampleOf(tick), noMotionDuration) == State(motionStarted, startTime, clips);
      }
      seen := seen + [SampleOf(tick)];

      if tick.stop {
        break;
      }
    }
    assert Sampled(all, 0) == seen;

    // an interval still open at the end is kept without a duration check
    if motionStarted {
      clips := clips + [Interval(startTime, finalPos)];
    }
  }

  /** The clips `DetectMovement` returns depend only on the odd-numbered
      frames: whatever the even-numbered frames hold, the result is the same. */
  lemma SegmentationIgnoresEvenFrames(ticks: seq<Tick>, other: seq<Tick>, noMotionDuration: int, finalPos: int)
    requires |ticks| == |other|
    requires forall k :: 0 <= k < |ticks| && Processed(k + 1) ==> ticks[k] == other[k]
    ensures Segment(Sampled(ticks, 0), noMotionDuration, finalPos) == Segment(Sampled(other, 0), noMotionDuration, finalPos)
  {
    EvenFramesIgnored(ticks, other, 0);
  }
}
