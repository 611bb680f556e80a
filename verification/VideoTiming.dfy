/** ffmpeg.c: when do_video_out shows a picture, by sync mode, and what a flush
    and the two limits do. */
module VideoTiming {
  import opened Numbers
  import opened Options
  import opened VideoSync

  ghost predicate Within(x: real, y: real, d: real) {
    -d <= x - y <= d
  }

  // n frames in a row that show one picture.
  function Copies<P>(picture: P, pts: int, n: nat): (frames: seq<Sent<P>>)
    ensures |frames| == n
  {
    seq(n, i requires 0 <= i < n => Sent(picture, pts + i))
  }

  // One frame of one picture.
  ghost predicate ShowsOnce<P>(s: Stream<P>, t: Stream<P>, picture: P, pts: int) {
    && t.sent == s.sent + [Sent(picture, pts)]
    && t.syncOpts == pts + 1 && t.frameNumber == s.frameNumber + 1
    && t.nbFramesDup == s.nbFramesDup && !t.lastDropped && t.lastFrame == Some(picture)
    && t.nbFramesDrop == s.nbFramesDrop + Bit(s.lastDropped)
  }

  lemma OneFrame<P>(c: Config, s: Stream<P>, input: Input<P>, pts: int)
    requires |s.lastNb0| == 3 && Decide(c, s, Some(input)) == Plan(1, 0, pts)
    ensures ShowsOnce(s, VideoOut(c, s, Some(input)), input.picture, pts)
  {
    hide Decide;
  }

  // ----- Variable frame rate

  // A picture is dropped exactly when it ends 0.6 frames before the clock or
  // earlier. Otherwise it is shown once: within 0.6 frames of its start, or at
  // the clock when it started before that.
  lemma VfrShowsOnTime<P>(c: Config, s: Stream<P>, input: Input<P>)
    requires c.mode == Vfr && Sane(c, s) && s.frameNumber < c.maxFrames && input.duration >= 0.0
    ensures var t, late := VideoOut(c, s, Some(input)), input.End() <= s.syncOpts as real - 0.6;
      && (late ==> t.sent == s.sent && t.syncOpts == s.syncOpts)
      && (!late ==>
            && ShowsOnce(s, t, input.picture, t.syncOpts - 1)
            && if input.ipts >= s.syncOpts as real then Within((t.syncOpts - 1) as real, input.ipts, 0.6)
               else t.syncOpts - 1 == s.syncOpts)
  {
    var plan := SyncPlan(c, s, input);
    RintNear(input.ipts);
    RintOfWhole(s.syncOpts);
    if plan.nb == 1 {
      OneFrame(c, s, input, plan.syncOpts);
    }
  }

  lemma RintOfWhole(n: int)
    ensures Rint(n as real) == n
  {
  }

  // ----- No sync at all

  lemma PassthroughShowsOnTime<P>(c: Config, s: Stream<P>, input: Input<P>)
    requires (c.mode == Passthrough || c.mode == Drop) && Sane(c, s) && s.frameNumber < c.maxFrames
    ensures var t := VideoOut(c, s, Some(input));
      ShowsOnce(s, t, input.picture, t.syncOpts - 1) && Within((t.syncOpts - 1) as real, input.ipts, 0.5)
  {
    RintNear(input.ipts);
    OneFrame(c, s, input, Rint(input.ipts));
  }

  // ----- Constant frame rate

  // Where in the output the frames of the new picture begin.
  ghost function FirstShown<P>(c: Config, s: Stream<P>, input: Input<P>): int
    requires |s.lastNb0| == 3
  {
    var plan := Decide(c, s, Some(input));
    plan.syncOpts + plan.nb0
  }

  // A gap is filled with the last picture up to the place of the new one: that
  // appears no later than its start, or the clock, and at most 1.1 frames early.
  lemma CfrShowsOnTime<P>(c: Config, s: Stream<P>, input: Input<P>)
    requires c.mode == Cfr && c.dropThreshold == 0.0 && Sane(c, s) && Unlimited(c, s, input)
    requires input.duration > 0.4 && input.End() >= s.syncOpts as real - 1.1
    ensures var t, first := VideoOut(c, s, Some(input)), FirstShown(c, s, input);
            var before := if s.lastFrame.Some? then s.lastFrame.value else input.picture;
      && s.syncOpts <= first < t.syncOpts
      && (first as real <= input.ipts || first == s.syncOpts) && input.ipts - first as real <= 1.1
      && t.sent == s.sent + Copies(before, s.syncOpts, first - s.syncOpts) + Copies(input.picture, first, t.syncOpts - first)
  {
    var plan := Decide(c, s, Some(input));
    CfrPlace(c, s, input);
    hide Decide, SyncPlan;
    FramesOfCall(c, s, input, plan);
  }

  lemma CfrPlace<P>(c: Config, s: Stream<P>, input: Input<P>)
    requires c.mode == Cfr && c.dropThreshold == 0.0 && Sane(c, s) && Unlimited(c, s, input)
    requires input.duration > 0.4 && input.End() >= s.syncOpts as real - 1.1
    ensures var plan, first := Decide(c, s, Some(input)), FirstShown(c, s, input);
      && plan.syncOpts == s.syncOpts && 0 <= plan.nb0 < plan.nb
      && (first as real <= input.ipts || first == s.syncOpts) && input.ipts - first as real <= 1.1
  {
    PlanIsSane(c, s, Some(input));
    var start := input.ipts - s.syncOpts as real;
    RintNear(start - 0.6);
    RintNear(start + input.duration);
  }

  lemma FramesOfCall<P>(c: Config, s: Stream<P>, input: Input<P>, plan: Plan)
    requires |s.lastNb0| == 3 && plan == Decide(c, s, Some(input)) && !TooMany(c, s, plan) && 0 <= plan.nb0 <= plan.nb
    ensures var t := VideoOut(c, s, Some(input));
            var before := if s.lastFrame.Some? then s.lastFrame.value else input.picture;
      && t.syncOpts == plan.syncOpts + plan.nb
      && t.sent == s.sent + Copies(before, plan.syncOpts, plan.nb0) + Copies(input.picture, plan.syncOpts + plan.nb0, plan.nb - plan.nb0)
  {
    hide Decide, TooMany;
    var before := if s.lastFrame.Some? then s.lastFrame.value else input.picture;
    var frames := Emitted(s, Some(input), plan, plan.nb);
    assert frames == Copies(before, plan.syncOpts, plan.nb0) + Copies(input.picture, plan.syncOpts + plan.nb0, plan.nb - plan.nb0);
  }

  // In VSCFR the output starts with the first picture: nothing is put before
  // a picture that comes late, and it is shown within half a frame of its start.
  lemma VsCfrStartsOnTime<P>(c: Config, s: Stream<P>, input: Input<P>)
    requires c.mode == VsCfr && s.frameNumber == 0 && Sane(c, s) && Unlimited(c, s, input)
    requires input.ipts >= s.syncOpts as real + 0.5 && input.duration >= 0.6
    ensures var t := VideoOut(c, s, Some(input));
      && |t.sent| > |s.sent| && t.sent[|s.sent|].picture == input.picture
      && Within(t.sent[|s.sent|].pts as real, input.ipts, 0.5)
  {
    var plan := Decide(c, s, Some(input));
    PlanIsSane(c, s, Some(input));
    RintNear(input.ipts);
    RintNear(input.duration);
    assert plan.nb0 == 0 && plan.nb >= 1 && plan.syncOpts == Rint(input.ipts);
    hide Decide, SyncPlan;
    FramesOfCall(c, s, input, plan);
  }

  // With frame_drop_threshold, once a frame was sent: a picture that ends less
  // than the threshold after the clock is dropped, which bounds the drift from
  // below by a frame less than the threshold, and from above by the threshold.
  lemma ThresholdBoundsDrift<P>(c: Config, s: Stream<P>, input: Input<P>)
    requires c.mode == Cfr && c.dropThreshold != 0.0 && s.frameNumber > 0 && Sane(c, s) && Unlimited(c, s, input)
    ensures var t := VideoOut(c, s, Some(input));
            var least := if c.dropThreshold > 0.5 then -0.5 else if c.dropThreshold > -1.1 then c.dropThreshold - 1.0 else -2.1;
            var most := if c.dropThreshold > 0.5 then c.dropThreshold else 0.5;
      && (Drift(s, input) < c.dropThreshold ==> t.sent == s.sent && t.syncOpts == s.syncOpts)
      && (Drift(s, input) >= c.dropThreshold && Drift(s, input) >= -1.1 ==> |t.sent| > |s.sent|)
      && (least <= Drift(t, input) <= most <==> least <= Drift(s, input))
  {
    PlanIsSane(c, s, Some(input));
    RintNear(Drift(s, input));
  }

  // ----- No gap and no repetition of a timestamp

  // Frame k is sent with the k-th timestamp after the first one; in CFR that is 0.
  ghost predicate Consecutive<P>(c: Config, s: Stream<P>) {
    && s.frameNumber == |s.sent|
    && (forall k :: 0 <= k < |s.sent| ==> s.sent[k].pts == s.sent[0].pts + k)
    && (s.sent != [] ==> s.syncOpts == s.sent[0].pts + |s.sent|)
    && (c.mode == Cfr ==> s.syncOpts == |s.sent| && (s.sent != [] ==> s.sent[0].pts == 0))
  }

  // Only before the first frame may the clock of VSCFR jump.
  lemma ClockIsSteady<P>(c: Config, s: Stream<P>, next: Option<Input<P>>)
    requires Sane(c, s) && (c.mode == Cfr || (c.mode == VsCfr && s.frameNumber != 0))
    ensures Decide(c, s, next).syncOpts == s.syncOpts
  {
  }

  // t goes on from s with frames that carry on from the clock.
  ghost predicate CarriesOn<P>(s: Stream<P>, t: Stream<P>, clock: int) {
    && |s.sent| <= |t.sent| && t.frameNumber - s.frameNumber == |t.sent| - |s.sent| == t.syncOpts - clock
    && (forall k :: 0 <= k < |s.sent| ==> t.sent[k] == s.sent[k])
    && (forall k :: |s.sent| <= k < |t.sent| ==> t.sent[k].pts == clock + (k - |s.sent|))
  }

  lemma CallCarriesOn<P>(c: Config, s: Stream<P>, next: Option<Input<P>>)
    requires Sane(c, s)
    ensures CarriesOn(s, VideoOut(c, s, next), Decide(c, s, next).syncOpts)
  {
    PlanIsSane(c, s, next);
    hide Decide, TooMany, Originals;
  }

  lemma CarryingOnIsConsecutive<P>(c: Config, s: Stream<P>, t: Stream<P>, clock: int)
    requires Consecutive(c, s) && CarriesOn(s, t, clock)
    requires clock == s.syncOpts || (c.mode != Cfr && s.sent == [])
    ensures Consecutive(c, t)
  {
  }

  lemma CallKeepsConsecutive<P>(c: Config, s: Stream<P>, next: Option<Input<P>>)
    requires Sane(c, s) && (c.mode == Cfr || c.mode == VsCfr) && Consecutive(c, s)
    ensures Consecutive(c, VideoOut(c, s, next))
  {
    if c.mode == Cfr || s.frameNumber != 0 {
      ClockIsSteady(c, s, next);
    }
    CallCarriesOn(c, s, next);
    hide Decide, VideoOut, CarriesOn;
    CarryingOnIsConsecutive(c, s, VideoOut(c, s, next), Decide(c, s, next).syncOpts);
  }

  // Over any run the encoder sees one frame for every tick of the clock.
  lemma {:induction false} RunIsConsecutive<P>(c: Config, s: Stream<P>, calls: seq<Option<Input<P>>>)
    requires Sane(c, s) && (c.mode == Cfr || c.mode == VsCfr) && Consecutive(c, s)
    ensures Consecutive(c, After(c, s, calls))
    decreases |calls|
  {
    hide VideoOut, Consecutive, Sane;
    if calls != [] {
      CallKeepsSane(c, s, calls[0]);
      CallKeepsConsecutive(c, s, calls[0]);
      SaneHasThree(c, s);
      RunIsConsecutive(c, VideoOut(c, s, calls[0]), calls[1..]);
    }
  }

  lemma SaneHasThree<P>(c: Config, s: Stream<P>)
    requires Sane(c, s)
    ensures |s.lastNb0| == 3
  {
  }

  lemma ConstantRateIsGapless<P>(c: Config, calls: seq<Option<Input<P>>>)
    requires (c.mode == Cfr || c.mode == VsCfr) && 0 <= c.maxFrames
    ensures var t := After(c, Initial<P>(), calls);
      forall k :: 0 <= k < |t.sent| ==> t.sent[k].pts == k + if c.mode == Cfr then 0 else t.sent[0].pts
  {
    RunIsConsecutive(c, Initial<P>(), calls);
  }

  // ----- A stream on whole frame times

  // Every picture is at a whole frame, later than the one before it.
  ghost predicate OnFrameTimes<P>(inputs: seq<Input<P>>, times: seq<int>) {
    && |inputs| == |times|
    && (forall k :: 0 <= k < |times| ==> inputs[k].ipts == times[k] as real && inputs[k].duration >= 0.0)
    && (forall k :: 0 < k < |times| ==> times[k - 1] < times[k])
  }

  // As above, and each lasts until the next one: no gap and no overlap.
  ghost predicate Contiguous<P>(inputs: seq<Input<P>>, times: seq<int>) {
    forall k :: 0 <= k < |inputs| ==> inputs[k].duration == 1.0 && k < |times| && times[k] == k
  }

  function AsCalls<P>(inputs: seq<Input<P>>): (calls: seq<Option<Input<P>>>)
    ensures |calls| == |inputs|
  {
    seq(|inputs|, k requires 0 <= k < |inputs| => Some(inputs[k]))
  }

  function AsSent<P>(inputs: seq<Input<P>>, times: seq<int>): seq<Sent<P>>
    requires |inputs| == |times|
  {
    seq(|inputs|, k requires 0 <= k < |inputs| => Sent(inputs[k].picture, times[k]))
  }

  lemma OneOnFrameTime<P>(c: Config, s: Stream<P>, input: Input<P>, time: int)
    requires Sane(c, s) && s.frameNumber < c.maxFrames && s.syncOpts <= time && input.ipts == time as real
    requires input.duration >= 0.0
    requires c.mode == Vfr || c.mode == Passthrough || c.mode == Drop
             || (s.syncOpts == time && input.duration == 1.0 && c.dropThreshold <= 1.0)
    ensures ShowsOnce(s, VideoOut(c, s, Some(input)), input.picture, time)
  {
    RintOfWhole(time);
    OneFrame(c, s, input, time);
  }

  lemma LessOnFrameTimes<P>(inputs: seq<Input<P>>, times: seq<int>)
    requires OnFrameTimes(inputs, times) && inputs != []
    ensures var n := |inputs| - 1;
      && |times| == n + 1 && OnFrameTimes(inputs[..n], times[..n])
      && (Contiguous(inputs, times) ==> Contiguous(inputs[..n], times[..n]) && times[n] == n && inputs[n].duration == 1.0)
      && inputs[n].ipts == times[n] as real && inputs[n].duration >= 0.0
      && (n > 0 ==> times[n - 1] < times[n] && (Contiguous(inputs, times) ==> times[n - 1] == n - 1))
  {
  }

  // The stream after calls that all went through.
  ghost predicate Kept<P>(c: Config, t: Stream<P>, inputs: seq<Input<P>>, times: seq<int>)
    requires |inputs| == |times|
  {
    && Sane(c, t) && t.sent == AsSent(inputs, times) && t.frameNumber == |inputs|
    && t.syncOpts == (if inputs == [] then 0 else times[|times| - 1] + 1)
    && t.nbFramesDup == 0 == t.nbFramesDrop && !t.lastDropped
  }

  lemma KeptStep<P>(c: Config, s: Stream<P>, inputs: seq<Input<P>>, times: seq<int>, input: Input<P>, time: int)
    requires |inputs| == |times| && Kept(c, s, inputs, times) && |inputs| < c.maxFrames
    requires input.ipts == time as real && input.duration >= 0.0 && s.syncOpts <= time
    requires c.mode == Vfr || c.mode == Passthrough || c.mode == Drop
             || (s.syncOpts == time && input.duration == 1.0 && c.dropThreshold <= 1.0)
    ensures |s.lastNb0| == 3 && Kept(c, VideoOut(c, s, Some(input)), inputs + [input], times + [time])
  {
    OneOnFrameTime(c, s, input, time);
    CallKeepsSane(c, s, Some(input));
    hide VideoOut;
    assert AsSent(inputs + [input], times + [time]) == AsSent(inputs, times) + [Sent(input.picture, time)];
  }

  lemma {:induction false} RunKeepsFrameTimes<P>(c: Config, inputs: seq<Input<P>>, times: seq<int>)
    requires OnFrameTimes(inputs, times) && |inputs| <= c.maxFrames && (inputs != [] ==> times[0] >= 0)
    requires c.mode == Vfr || c.mode == Passthrough || c.mode == Drop || (Contiguous(inputs, times) && c.dropThreshold <= 1.0)
    ensures |inputs| == |times| && Kept(c, After(c, Initial<P>(), AsCalls(inputs)), inputs, times)
  {
    if inputs != [] {
      hide VideoOut, After, Kept;
      var n := |inputs| - 1;
      LessOnFrameTimes(inputs, times);
      hide OnFrameTimes, Contiguous;
      RunKeepsFrameTimes(c, inputs[..n], times[..n]);
      OneMoreFrameTime(c, inputs, times);
    }
  }

  lemma OneMoreFrameTime<P>(c: Config, inputs: seq<Input<P>>, times: seq<int>)
    requires OnFrameTimes(inputs, times) && 0 < |inputs| <= c.maxFrames && times[0] >= 0
    requires c.mode == Vfr || c.mode == Passthrough || c.mode == Drop || (Contiguous(inputs, times) && c.dropThreshold <= 1.0)
    requires var n := |inputs| - 1; Kept(c, After(c, Initial<P>(), AsCalls(inputs[..n])), inputs[..n], times[..n])
    ensures Kept(c, After(c, Initial<P>(), AsCalls(inputs)), inputs, times)
  {
    hide VideoOut, After, Kept, AsCalls;
    var n := |inputs| - 1;
    var init, before, input := inputs[..n], times[..n], inputs[n];
    var s := After(c, Initial<P>(), AsCalls(init));
    LessOnFrameTimes(inputs, times);
    hide OnFrameTimes, Contiguous;
    KeptClock(c, s, init, before);
    KeptStep(c, s, init, before, input, times[n]);
    CallsAppend(inputs);
    Append(c, Initial<P>(), AsCalls(init), Some(input));
    assert inputs == init + [input] && times == before + [times[n]];
  }

  lemma KeptClock<P>(c: Config, s: Stream<P>, inputs: seq<Input<P>>, times: seq<int>)
    requires |inputs| == |times| && Kept(c, s, inputs, times)
    ensures |s.lastNb0| == 3 && s.syncOpts == if inputs == [] then 0 else times[|times| - 1] + 1
  {
  }

  lemma CallsAppend<P>(inputs: seq<Input<P>>)
    requires inputs != []
    ensures AsCalls(inputs) == AsCalls(inputs[..|inputs| - 1]) + [Some(inputs[|inputs| - 1])]
  {
  }

  // In VFR, passthrough and drop such a stream goes through as it is; in CFR
  // and VSCFR it does when it has no gaps.
  lemma FrameTimesAreKept<P>(c: Config, inputs: seq<Input<P>>, times: seq<int>)
    requires OnFrameTimes(inputs, times) && |inputs| <= c.maxFrames && (inputs != [] ==> times[0] >= 0)
    requires c.mode == Vfr || c.mode == Passthrough || c.mode == Drop || (Contiguous(inputs, times) && c.dropThreshold <= 1.0)
    ensures var t := After(c, Initial<P>(), AsCalls(inputs));
      t.sent == AsSent(inputs, times) && t.nbFramesDup == 0 == t.nbFramesDrop && !t.lastDropped
  {
    RunKeepsFrameTimes(c, inputs, times);
  }

  // ----- Flushing

  // The last three counts of repeated frames, the newest first.
  lemma CountsAreRemembered<P>(c: Config, s: Stream<P>, calls: seq<Option<Input<P>>>)
    requires |s.lastNb0| == 3 && |calls| == 3
    ensures var s1 := VideoOut(c, s, calls[0]);
            var s2 := VideoOut(c, s1, calls[1]);
            var s3 := VideoOut(c, s2, calls[2]);
      s3.lastNb0 == [Decide(c, s2, calls[2]).nb0, Decide(c, s1, calls[1]).nb0, Decide(c, s, calls[0]).nb0]
  {
    hide Decide;
    CountIsRemembered(c, s, calls[0]);
    CountIsRemembered(c, VideoOut(c, s, calls[0]), calls[1]);
    CountIsRemembered(c, VideoOut(c, VideoOut(c, s, calls[0]), calls[1]), calls[2]);
    hide VideoOut;
  }

  lemma CountIsRemembered<P>(c: Config, s: Stream<P>, next: Option<Input<P>>)
    requires |s.lastNb0| == 3
    ensures VideoOut(c, s, next).lastNb0 == [Decide(c, s, next).nb0, s.lastNb0[0], s.lastNb0[1]]
  {
    hide Decide;
  }

  // A flush shows the last picture as often as the median of those counts, as
  // far as the frame limit goes.
  lemma FlushRepeatsLast<P>(c: Config, s: Stream<P>)
    requires Sane(c, s) && s.lastFrame.Some? && !TooMany(c, s, Decide(c, s, None))
    ensures var t, n := VideoOut(c, s, None), MidPred(s.lastNb0[0], s.lastNb0[1], s.lastNb0[2]);
            var m := if n <= c.maxFrames - s.frameNumber then n else c.maxFrames - s.frameNumber;
      m >= 0 && t.sent == s.sent + Copies(s.lastFrame.value, s.syncOpts, m)
  {
    PlanIsSane(c, s, None);
  }

  // ----- The limits of a call

  // A call with something to show sends what it planned, unless that is a
  // burst of duplicates of more than 30 times the threshold, which it skips.
  lemma OnlyLargeBurstsAreSkipped<P>(c: Config, s: Stream<P>, next: Option<Input<P>>)
    requires Sane(c, s) && (next.Some? || s.lastFrame.Some?)
    ensures var t, plan := VideoOut(c, s, next), Decide(c, s, next);
            var burst := plan.nb - Originals(s, plan);
      if burst > 0 && plan.nb as real > 30.0 * c.dtsErrorThreshold then t.sent == s.sent && t.frameNumber == s.frameNumber
      else |t.sent| == |s.sent| + plan.nb && t.frameNumber == s.frameNumber + plan.nb
  {
    PlanIsSane(c, s, next);
    hide Decide;
  }

  // The frame limit takes off only what is beyond it.
  lemma LimitIsReached<P>(c: Config, s: Stream<P>, input: Input<P>)
    requires Sane(c, s)
    ensures var wanted, plan := SyncPlan(c, s, input), Decide(c, s, Some(input));
      if s.frameNumber + wanted.nb <= c.maxFrames then plan.nb == wanted.nb
      else s.frameNumber + plan.nb == c.maxFrames
  {
    hide SyncPlan;
  }
}
