/**
 The motion-segmentation state machine of `detect_movement`: a stream of
 classified frames (capture position in milliseconds, motion or not) is turned
 into a list of `{start, end}` intervals. The machine has two states, idle and
 `motion_started`; an interval opens on an idle-to-motion edge, closes on a
 motion-to-no-motion edge and is kept only when it lasted strictly longer than
 `no_motion_duration`; an interval still open when the stream ends is appended
 without any duration check.

 `Step`, `Exec` and `Segment` follow the loop; `Reference` is an independent
 definition by maximal runs of motion samples, and `SegmentIsReference` proves
 the two agree.
 */
module Segmenter {

  /** One classified frame: the capture position read when the state machine
      looks at the frame, and the classifier's verdict for it. */
  datatype Sample = Sample(time: int, motion: bool)

  /** A motion interval, `{"start": start_time, "end": end_time}`. */
  datatype Interval = Interval(start: int, end: int) {
    function Duration(): int { end - start }
  }

  /** The loop's segmentation variables `motion_started`, `start_time` and
      `clips`. A single boolean: at most one interval is ever open. */
  datatype State = State(motionStarted: bool, startTime: int, clips: seq<Interval>)

  /** The default minimum clip duration, in milliseconds. */
  const NoMotionDurationMs: int := 500

  /** No clips, no motion, start time zero. */
  const Initial: State := State(false, 0, [])

  /** One processed frame. Afterwards `motion_started` mirrors the frame's own
      verdict, and at most one interval has been appended. */
  function Step(s: State, x: Sample, noMotionDuration: int): (r: State)
    ensures r.motionStarted == x.motion
    ensures s.clips <= r.clips && |r.clips| <= |s.clips| + 1
  {
    if x.motion && !s.motionStarted then
      State(true, x.time, s.clips)
    else if !x.motion && s.motionStarted then
      var closed := Interval(s.startTime, x.time);
      State(false, s.startTime, if closed.Duration() > noMotionDuration then s.clips + [closed] else s.clips)
    else
      s
  }

  /** The state after feeding the samples `xs`, in order, from state `s`. */
  function Exec(s: State, xs: seq<Sample>, noMotionDuration: int): (r: State)
    ensures s.clips <= r.clips && |r.clips| <= |s.clips| + |xs|
    ensures xs != [] ==> r.motionStarted == xs[|xs| - 1].motion
    decreases |xs|
  {
    if xs == [] then s else Exec(Step(s, xs[0], noMotionDuration), xs[1..], noMotionDuration)
  }

  /** The end-of-stream flush: an interval still open is appended as it is,
      ending at the capture's final position. */
  function Flush(s: State, finalPos: int): (r: seq<Interval>)
    ensures s.clips <= r
    ensures |r| == |s.clips| + (if s.motionStarted then 1 else 0)
    ensures s.motionStarted ==> r[|r| - 1] == Interval(s.startTime, finalPos)
  {
    if s.motionStarted then s.clips + [Interval(s.startTime, finalPos)] else s.clips
  }

  /** The list `detect_movement` returns for the processed samples `xs`:
      every interval but the last one is strictly longer than the threshold. */
  function Segment(xs: seq<Sample>, noMotionDuration: int, finalPos: int): (r: seq<Interval>)
    ensures forall n :: 0 <= n < |r| - 1 ==> r[n].Duration() > noMotionDuration
  {
    ClosedClipsExceedThreshold(Initial, xs, noMotionDuration);
    Flush(Exec(Initial, xs, noMotionDuration), finalPos)
  }

  // ---------------------------------------------------------------------------
  // The loop view: feeding one more sample is one more Step.

  lemma {:induction false} ExecSnoc(s: State, xs: seq<Sample>, x: Sample, noMotionDuration: int)
    ensures Exec(s, xs + [x], noMotionDuration) == Step(Exec(s, xs, noMotionDuration), x, noMotionDuration)
    decreases |xs|
  {
    if xs == [] {
      assert [x][1..] == [];
    } else {
      assert (xs + [x])[1..] == xs[1..] + [x];
      ExecSnoc(Step(s, xs[0], noMotionDuration), xs[1..], x, noMotionDuration);
    }
  }

  // ---------------------------------------------------------------------------
  // Single transitions.

  /** A motion frame while active, or a still frame while idle, changes
      nothing: neither the flag, nor the start time, nor the clips. */
  lemma SelfLoopsChangeNothing(s: State, x: Sample, noMotionDuration: int)
    requires x.motion == s.motionStarted
    ensures Step(s, x, noMotionDuration) == s
  {
  }

  /** An idle-to-motion edge records the frame's position as the start and
      appends nothing. */
  lemma OpeningRecordsStart(s: State, x: Sample, noMotionDuration: int)
    requires !s.motionStarted && x.motion
    ensures Step(s, x, noMotionDuration) == State(true, x.time, s.clips)
  {
  }

  /** A motion-to-no-motion edge returns to idle and keeps the interval from
      the recorded start to this frame exactly when its duration is strictly
      greater than the threshold; otherwise the clips are untouched. */
  lemma ClosingKeepsIffLongerThanThreshold(s: State, x: Sample, noMotionDuration: int)
    requires s.motionStarted && !x.motion
    ensures !Step(s, x, noMotionDuration).motionStarted
    ensures Step(s, x, noMotionDuration).clips == s.clips + [Interval(s.startTime, x.time)]
            <==> x.time - s.startTime > noMotionDuration
    ensures x.time - s.startTime <= noMotionDuration ==> Step(s, x, noMotionDuration).clips == s.clips
  {
    var r := Step(s, x, noMotionDuration);
    if x.time - s.startTime <= noMotionDuration {
      assert |r.clips| != |s.clips + [Interval(s.startTime, x.time)]|;
    }
  }

  // ---------------------------------------------------------------------------
  // Strict threshold and the unchecked flush.

  ghost predicate AllLongerThan(ivs: seq<Interval>, noMotionDuration: int)
  {
    forall i :: 0 <= i < |ivs| ==> ivs[i].Duration() > noMotionDuration
  }

  /** Every interval appended by a closing edge lasted strictly longer than
      the threshold. */
  lemma {:induction false} ClosedClipsExceedThreshold(s: State, xs: seq<Sample>, noMotionDuration: int)
    requires AllLongerThan(s.clips, noMotionDuration)
    ensures AllLongerThan(Exec(s, xs, noMotionDuration).clips, noMotionDuration)
    decreases |xs|
  {
    if xs != [] {
      ClosedClipsExceedThreshold(Step(s, xs[0], noMotionDuration), xs[1..], noMotionDuration);
    }
  }

  /** The returned list is the intervals closed inside the stream, each
      longer than the threshold, followed by exactly one more interval when
      motion is still active at the end: it starts at the last recorded start
      and ends at the final position, whatever its duration. */
  lemma FinalFlushIsUnchecked(xs: seq<Sample>, noMotionDuration: int, finalPos: int)
    ensures var s := Exec(Initial, xs, noMotionDuration);
            var r := Segment(xs, noMotionDuration, finalPos);
            && |r| == |s.clips| + (if s.motionStarted then 1 else 0)
            && r[..|s.clips|] == s.clips
            && AllLongerThan(s.clips, noMotionDuration)
            && (s.motionStarted ==> r[|r| - 1] == Interval(s.startTime, finalPos))
  {
    ClosedClipsExceedThreshold(Initial, xs, noMotionDuration);
  }

  /** A stream that ends during motion keeps a final interval shorter than
      the threshold: 150 ms of motion with the default 500 ms threshold is
      returned. */
  lemma ShortFinalIntervalIsKept()
    ensures Segment([Sample(0, true), Sample(50, true), Sample(100, true)], NoMotionDurationMs, 150) == [Interval(0, 150)]
  {
    var xs := [Sample(0, true), Sample(50, true), Sample(100, true)];
    assert xs[1..][1..][1..] == [];
  }

  /** A closed interval whose duration equals the threshold is dropped; one
      millisecond more and it is kept. */
  lemma ThresholdIsStrict(t: int, noMotionDuration: int, finalPos: int)
    ensures Segment([Sample(t, true), Sample(t + noMotionDuration, false)], noMotionDuration, finalPos) == []
    ensures Segment([Sample(t, true), Sample(t + noMotionDuration + 1, false)], noMotionDuration, finalPos)
            == [Interval(t, t + noMotionDuration + 1)]
  {
    var xs := [Sample(t, true), Sample(t + noMotionDuration, false)];
    var ys := [Sample(t, true), Sample(t + noMotionDuration + 1, false)];
    var open := State(true, t, []);
    assert Step(Initial, xs[0], noMotionDuration) == open == Step(Initial, ys[0], noMotionDuration);
    assert xs[1..] == [xs[1]] && ys[1..] == [ys[1]];
    assert Exec(Initial, xs, noMotionDuration) == Exec(open, [xs[1]], noMotionDuration);
    assert Exec(open, [xs[1]], noMotionDuration) == Step(open, xs[1], noMotionDuration) == State(false, t, []);
    assert Exec(Initial, ys, noMotionDuration) == Exec(open, [ys[1]], noMotionDuration);
    assert Exec(open, [ys[1]], noMotionDuration) == Step(open, ys[1], noMotionDuration)
        == State(false, t, [Interval(t, t + noMotionDuration + 1)]);
  }

  // ---------------------------------------------------------------------------
  // An independent definition by maximal runs of motion samples.

  /** The first still sample at or after `i`, or `|xs|` when motion lasts
      to the end. */
  function RunEnd(xs: seq<Sample>, i: nat): (e: nat)
    requires i <= |xs|
    ensures i <= e <= |xs|
    ensures forall m :: i <= m < e ==> xs[m].motion
    ensures e < |xs| ==> !xs[e].motion
    decreases |xs| - i
  {
    if i == |xs| || !xs[i].motion then i else RunEnd(xs, i + 1)
  }

  /** Each maximal run of motion samples is one candidate interval, from the
      position of its first sample to the position of the still sample that
      ends it (kept when strictly longer than the threshold), or to the final
      position when the run reaches the end of the stream (always kept). */
  function Reference(xs: seq<Sample>, noMotionDuration: int, finalPos: int): seq<Interval>
    decreases |xs|
  {
    if xs == [] then []
    else if !xs[0].motion then Reference(xs[1..], noMotionDuration, finalPos)
    else
      var k := RunEnd(xs, 0);
      if k == |xs| then [Interval(xs[0].time, finalPos)]
      else
        var burst := Interval(xs[0].time, xs[k].time);
        (if burst.Duration() > noMotionDuration then [burst] else [])
        + Reference(xs[k + 1..], noMotionDuration, finalPos)
  }

  /** While motion continues, an active machine does not change at all. */
  lemma {:induction false} ActiveThroughMotion(s: State, xs: seq<Sample>, k: nat, noMotionDuration: int)
    requires s.motionStarted && k <= |xs|
    requires forall i :: 0 <= i < k ==> xs[i].motion
    ensures Exec(s, xs, noMotionDuration) == Exec(s, xs[k..], noMotionDuration)
    decreases k
  {
    if k > 0 {
      assert Step(s, xs[0], noMotionDuration) == s;
      assert xs[1..][k - 1..] == xs[k..];
      ActiveThroughMotion(s, xs[1..], k - 1, noMotionDuration);
    }
  }

  lemma {:induction false} IdleExecIsReference(clips: seq<Interval>, t: int, xs: seq<Sample>, noMotionDuration: int, finalPos: int)
    ensures Flush(Exec(State(false, t, clips), xs, noMotionDuration), finalPos)
            == clips + Reference(xs, noMotionDuration, finalPos)
    decreases |xs|
  {
    if xs == [] {
      assert clips + [] == clips;
    } else if !xs[0].motion {
      IdleExecIsReference(clips, t, xs[1..], noMotionDuration, finalPos);
    } else {
      BurstIsReference(clips, t, xs, noMotionDuration, finalPos);
    }
  }

  /** `Reference` on a stream that starts with a run of motion samples,
      closed by the still sample at index `k` when `k < |xs|`. */
  lemma ReferenceOfBurst(xs: seq<Sample>, k: nat, noMotionDuration: int, finalPos: int)
    requires xs != [] && xs[0].motion && k == RunEnd(xs, 0)
    ensures 1 <= k
    ensures k == |xs| ==> Reference(xs, noMotionDuration, finalPos) == [Interval(xs[0].time, finalPos)]
    ensures k < |xs| ==>
              Reference(xs, noMotionDuration, finalPos)
              == (if xs[k].time - xs[0].time > noMotionDuration then [Interval(xs[0].time, xs[k].time)] else [])
                 + Reference(xs[k + 1..], noMotionDuration, finalPos)
  {
  }

  /** The case of `IdleExecIsReference` where a run of motion starts. */
  lemma {:induction false} BurstIsReference(clips: seq<Interval>, t: int, xs: seq<Sample>, noMotionDuration: int, finalPos: int)
    requires xs != [] && xs[0].motion
    ensures Flush(Exec(State(false, t, clips), xs, noMotionDuration), finalPos)
            == clips + Reference(xs, noMotionDuration, finalPos)
    decreases |xs|, 0
  {
    var k := RunEnd(xs, 0);
    var s1 := State(true, xs[0].time, clips);
    ReferenceOfBurst(xs, k, noMotionDuration, finalPos);
    assert Exec(State(false, t, clips), xs, noMotionDuration) == Exec(s1, xs[k..], noMotionDuration) by {
      ActiveThroughMotion(s1, xs[1..], k - 1, noMotionDuration);
      assert xs[1..][k - 1..] == xs[k..];
    }
    if k == |xs| {
      assert xs[k..] == [];
    } else {
      BurstClosedIsReference(clips, xs, k, noMotionDuration, finalPos);
    }
  }

  /** Running from index `k` is one step on sample `k`, then a run from `k + 1`. */
  lemma ExecFirst(s: State, xs: seq<Sample>, k: nat, noMotionDuration: int)
    requires k < |xs|
    ensures Exec(s, xs[k..], noMotionDuration) == Exec(Step(s, xs[k], noMotionDuration), xs[k + 1..], noMotionDuration)
  {
    assert xs[k..][1..] == xs[k + 1..];
  }

  /** The run of motion at the head of `xs` is closed by the still sample at `k`. */
  lemma {:induction false} BurstClosedIsReference(clips: seq<Interval>, xs: seq<Sample>, k: nat, noMotionDuration: int, finalPos: int)
    requires 0 < k < |xs| && !xs[k].motion
    ensures var burst := Interval(xs[0].time, xs[k].time);
            var kept := if burst.Duration() > noMotionDuration then [burst] else [];
            Flush(Exec(State(true, xs[0].time, clips), xs[k..], noMotionDuration), finalPos)
            == clips + (kept + Reference(xs[k + 1..], noMotionDuration, finalPos))
    decreases |xs| - k, 1
  {
    var s1 := State(true, xs[0].time, clips);
    var burst := Interval(xs[0].time, xs[k].time);
    var kept := if burst.Duration() > noMotionDuration then [burst] else [];
    var rest := Reference(xs[k + 1..], noMotionDuration, finalPos);
    var s2 := State(false, xs[0].time, clips + kept);
    ExecFirst(s1, xs, k, noMotionDuration);
    assert Step(s1, xs[k], noMotionDuration) == s2;
    IdleExecIsReference(clips + kept, xs[0].time, xs[k + 1..], noMotionDuration, finalPos);
    assert clips + kept + rest == clips + (kept + rest);
  }

  /** The loop and the run-based definition return the same intervals. */
  lemma SegmentIsReference(xs: seq<Sample>, noMotionDuration: int, finalPos: int)
    ensures Segment(xs, noMotionDuration, finalPos) == Reference(xs, noMotionDuration, finalPos)
  {
    IdleExecIsReference([], 0, xs, noMotionDuration, finalPos);
    assert [] + Reference(xs, noMotionDuration, finalPos) == Reference(xs, noMotionDuration, finalPos);
  }

  // ---------------------------------------------------------------------------
  // Where the boundaries come from.

  /** Sample `i` is an idle-to-motion edge: it shows motion and the sample
      before it, if any, does not. */
  ghost predicate IsOnset(xs: seq<Sample>, i: int)
  {
    0 <= i < |xs| && xs[i].motion && (i == 0 || !xs[i - 1].motion)
  }

  /** `iv` starts at the position of an idle-to-motion edge and ends at the
      position of the first still sample after it, or at the final position
      when motion lasts to the end of the stream. */
  ghost predicate FromOnset(xs: seq<Sample>, iv: Interval, finalPos: int)
  {
    exists i :: IsOnset(xs, i) && iv.start == xs[i].time && EndsRun(xs, i, iv.end, finalPos)
  }

  ghost predicate EndsRun(xs: seq<Sample>, i: nat, end: int, finalPos: int)
    requires i <= |xs|
  {
    var e := RunEnd(xs, i);
    end == if e < |xs| then xs[e].time else finalPos
  }

  lemma RunEndShift(xs: seq<Sample>, d: nat, j: nat)
    requires d <= |xs| && j <= |xs| - d
    ensures RunEnd(xs[d..], j) + d == RunEnd(xs, j + d)
  {
  }

  lemma FromOnsetShift(xs: seq<Sample>, d: nat, iv: Interval, finalPos: int)
    requires 0 < d <= |xs| && !xs[d - 1].motion
    requires FromOnset(xs[d..], iv, finalPos)
    ensures FromOnset(xs, iv, finalPos)
  {
    var ys := xs[d..];
    var j :| IsOnset(ys, j) && iv.start == ys[j].time && EndsRun(ys, j, iv.end, finalPos);
    var i := j + d;
    RunEndShift(xs, d, j);
    assert j == 0 ==> xs[i - 1] == xs[d - 1];
    assert j > 0 ==> xs[i - 1] == ys[j - 1];
    assert IsOnset(xs, i) && iv.start == xs[i].time;
    var e := RunEnd(xs, i);
    assert e < |xs| ==> xs[e] == ys[e - d];
    assert EndsRun(xs, i, iv.end, finalPos);
  }

  /** Every interval of `ivs` comes from an idle-to-motion edge of `xs`. */
  ghost predicate AllFromOnset(xs: seq<Sample>, ivs: seq<Interval>, finalPos: int)
  {
    forall n :: 0 <= n < |ivs| ==> FromOnset(xs, ivs[n], finalPos)
  }

  /** Intervals read off a suffix that follows a still sample keep their
      origin in the whole stream. */
  lemma AllFromOnsetShift(xs: seq<Sample>, d: nat, ivs: seq<Interval>, finalPos: int)
    requires 0 < d <= |xs| && !xs[d - 1].motion
    requires AllFromOnset(xs[d..], ivs, finalPos)
    ensures AllFromOnset(xs, ivs, finalPos)
  {
    forall n | 0 <= n < |ivs| ensures FromOnset(xs, ivs[n], finalPos) {
      FromOnsetShift(xs, d, ivs[n], finalPos);
    }
  }

  lemma AllFromOnsetConcat(xs: seq<Sample>, a: seq<Interval>, b: seq<Interval>, finalPos: int)
    requires AllFromOnset(xs, a, finalPos) && AllFromOnset(xs, b, finalPos)
    ensures AllFromOnset(xs, a + b, finalPos)
  {
    forall n | 0 <= n < |a + b| ensures FromOnset(xs, (a + b)[n], finalPos) {
      if n >= |a| {
        assert (a + b)[n] == b[n - |a|];
      }
    }
  }

  lemma {:induction false} ReferenceBoundaries(xs: seq<Sample>, noMotionDuration: int, finalPos: int)
    ensures AllFromOnset(xs, Reference(xs, noMotionDuration, finalPos), finalPos)
    decreases |xs|
  {
    if xs == [] {
    } else if !xs[0].motion {
      ReferenceBoundaries(xs[1..], noMotionDuration, finalPos);
      AllFromOnsetShift(xs, 1, Reference(xs[1..], noMotionDuration, finalPos), finalPos);
    } else {
      BurstBoundaries(xs, noMotionDuration, finalPos);
    }
  }

  /** The case of `ReferenceBoundaries` where a run of motion starts. */
  lemma {:induction false} BurstBoundaries(xs: seq<Sample>, noMotionDuration: int, finalPos: int)
    requires xs != [] && xs[0].motion
    ensures AllFromOnset(xs, Reference(xs, noMotionDuration, finalPos), finalPos)
    decreases |xs|, 0
  {
    var k := RunEnd(xs, 0);
    ReferenceOfBurst(xs, k, noMotionDuration, finalPos);
    var burst := Interval(xs[0].time, if k < |xs| then xs[k].time else finalPos);
    assert AllFromOnset(xs, [burst], finalPos) by {
      assert IsOnset(xs, 0) && EndsRun(xs, 0, burst.end, finalPos);
      assert FromOnset(xs, [burst][0], finalPos);
    }
    if k < |xs| {
      var kept := if burst.Duration() > noMotionDuration then [burst] else [];
      var tail := Reference(xs[k + 1..], noMotionDuration, finalPos);
      ReferenceBoundaries(xs[k + 1..], noMotionDuration, finalPos);
      AllFromOnsetShift(xs, k + 1, tail, finalPos);
      AllFromOnsetConcat(xs, kept, tail, finalPos);
    }
  }

  /** Each returned interval starts at the position of an idle-to-motion
      edge and ends at the position of the first still sample after it, or
      at the final position when motion lasts to the end of the stream. */
  lemma SegmentBoundaries(xs: seq<Sample>, noMotionDuration: int, finalPos: int)
    ensures AllFromOnset(xs, Segment(xs, noMotionDuration, finalPos), finalPos)
  {
    SegmentIsReference(xs, noMotionDuration, finalPos);
    ReferenceBoundaries(xs, noMotionDuration, finalPos);
  }

  // ---------------------------------------------------------------------------
  // Ordering and non-overlap.

  ghost predicate NonDecreasing(xs: seq<Sample>)
  {
    forall i, j :: 0 <= i <= j < |xs| ==> xs[i].time <= xs[j].time
  }

  /** Every interval is well formed, and each one ends no later than the
      next one starts: no two intervals overlap, and they come in order. */
  ghost predicate InOrder(ivs: seq<Interval>)
  {
    && (forall i :: 0 <= i < |ivs| ==> ivs[i].start <= ivs[i].end)
    && (forall i, j :: 0 <= i < j < |ivs| ==> ivs[i].end <= ivs[j].start)
  }

  /** What the loop keeps true while positions do not decrease, with `t`
      the latest position seen: the clips are in order and end by `t`, and an
      open interval started at or after every clip's end and by `t`. */
  ghost predicate OrderedUpTo(s: State, t: int)
  {
    && InOrder(s.clips)
    && (forall i :: 0 <= i < |s.clips| ==> s.clips[i].end <= t)
    && (s.motionStarted ==> s.startTime <= t && forall i :: 0 <= i < |s.clips| ==> s.clips[i].end <= s.startTime)
  }

  lemma StepKeepsOrder(s: State, x: Sample, noMotionDuration: int, t: int)
    requires OrderedUpTo(s, t) && t <= x.time
    ensures OrderedUpTo(Step(s, x, noMotionDuration), x.time)
  {
    if !x.motion && s.motionStarted {
      var c := s.clips + [Interval(s.startTime, x.time)];
      assert InOrder(c) by {
        forall i, j | 0 <= i < j < |c| ensures c[i].end <= c[j].start {
          if j == |s.clips| { assert c[i] == s.clips[i]; }
        }
      }
    }
  }

  lemma {:induction false} ExecKeepsOrder(s: State, xs: seq<Sample>, noMotionDuration: int, t: int)
    requires OrderedUpTo(s, t) && NonDecreasing(xs)
    requires xs != [] ==> t <= xs[0].time
    ensures OrderedUpTo(Exec(s, xs, noMotionDuration), if xs == [] then t else xs[|xs| - 1].time)
    decreases |xs|
  {
    if xs != [] {
      StepKeepsOrder(s, xs[0], noMotionDuration, t);
      ExecKeepsOrder(Step(s, xs[0], noMotionDuration), xs[1..], noMotionDuration, xs[0].time);
      if xs[1..] != [] {
        assert xs[1..][|xs[1..]| - 1] == xs[|xs| - 1];
      }
    }
  }

  /** With non-decreasing positions, and a final position no earlier than
      any of them, the returned intervals are well formed, pairwise
      non-overlapping and in increasing order of start. */
  lemma SegmentInOrder(xs: seq<Sample>, noMotionDuration: int, finalPos: int)
    requires NonDecreasing(xs)
    requires forall i :: 0 <= i < |xs| ==> xs[i].time <= finalPos
    ensures InOrder(Segment(xs, noMotionDuration, finalPos))
  {
    var t0 := if xs == [] then finalPos else xs[0].time;
    ExecKeepsOrder(Initial, xs, noMotionDuration, t0);
    var s := Exec(Initial, xs, noMotionDuration);
    if s.motionStarted {
      var c := s.clips + [Interval(s.startTime, finalPos)];
      forall i, j | 0 <= i < j < |c| ensures c[i].end <= c[j].start {
        if j == |s.clips| { assert c[i] == s.clips[i]; }
      }
    }
  }

  // ---------------------------------------------------------------------------
  // Count bound.

  /** The number of idle-to-motion edges in `xs`, given whether the sample
      before it showed motion. */
  function Onsets(xs: seq<Sample>, before: bool): nat
    decreases |xs|
  {
    if xs == [] then 0
    else (if xs[0].motion && !before then 1 else 0) + Onsets(xs[1..], xs[0].motion)
  }

  lemma {:induction false} OnsetsSkipMotion(xs: seq<Sample>, k: nat)
    requires k <= |xs|
    requires forall i :: 0 <= i < k ==> xs[i].motion
    ensures Onsets(xs, true) == Onsets(xs[k..], true)
    decreases k
  {
    if k > 0 {
      assert xs[1..][k - 1..] == xs[k..];
      OnsetsSkipMotion(xs[1..], k - 1);
    }
  }

  lemma {:induction false} ReferenceCount(xs: seq<Sample>, noMotionDuration: int, finalPos: int)
    ensures |Reference(xs, noMotionDuration, finalPos)| <= Onsets(xs, false)
    decreases |xs|
  {
    if xs == [] {
    } else if !xs[0].motion {
      ReferenceCount(xs[1..], noMotionDuration, finalPos);
    } else {
      var k := RunEnd(xs, 0);
      OnsetsSkipMotion(xs[1..], k - 1);
      assert xs[1..][k - 1..] == xs[k..];
      if k < |xs| {
        assert xs[k..][1..] == xs[k + 1..];
        ReferenceCount(xs[k + 1..], noMotionDuration, finalPos);
      }
    }
  }

  /** No more intervals are returned than there are idle-to-motion edges in
      the processed samples. */
  lemma SegmentCount(xs: seq<Sample>, noMotionDuration: int, finalPos: int)
    ensures |Segment(xs, noMotionDuration, finalPos)| <= Onsets(xs, false)
  {
    SegmentIsReference(xs, noMotionDuration, finalPos);
    ReferenceCount(xs, noMotionDuration, finalPos);
  }

  // ---------------------------------------------------------------------------
  // Worked examples.

  /** 800 ms of motion against the default threshold is one kept interval. */
  lemma LongBurstIsKept()
    ensures Segment([Sample(0, false), Sample(100, true), Sample(400, true), Sample(900, false)], NoMotionDurationMs, 900)
            == [Interval(100, 900)]
  {
    var xs := [Sample(0, false), Sample(100, true), Sample(400, true), Sample(900, false)];
    assert xs[1..][1..][1..][1..] == [];
  }

  /** 200 ms of motion against the default threshold is dropped. */
  lemma ShortBurstIsDropped()
    ensures Segment([Sample(0, false), Sample(100, true), Sample(300, false)], NoMotionDurationMs, 300) == []
  {
    var xs := [Sample(0, false), Sample(100, true), Sample(300, false)];
    assert xs[1..][1..][1..] == [];
  }

  /** Two bursts separated by one still sample are two intervals: nothing
      bridges the gap between them. */
  lemma NoMergeAcrossGap()
    ensures Segment([Sample(0, true), Sample(600, false), Sample(610, true), Sample(1200, false)], NoMotionDurationMs, 1200)
            == [Interval(0, 600), Interval(610, 1200)]
  {
    var xs := [Sample(0, true), Sample(600, false), Sample(610, true), Sample(1200, false)];
    assert xs[1..][1..][1..][1..] == [];
  }
}
