/** ffmpeg.c: do_video_out, which duplicates and drops pictures so that the
    encoder sees a steady frame rate.

    `VideoOut` is the effect of one call on a stream as a value; the class
    makes the same call in place, with the source's emission loop. Times are
    exact reals, in output frames; lrintf and llrint round half to even. */
module VideoSync {
  import opened Numbers
  import opened Options

  datatype Mode = Passthrough | Cfr | Vfr | VsCfr | Drop

  // frame_drop_threshold, dts_error_threshold and ost->max_frames.
  datatype Config = Config(mode: Mode, dropThreshold: real, dtsErrorThreshold: real, maxFrames: int)

  // next_picture with its sync_ipts and duration.
  datatype Input<P> = Input(picture: P, ipts: real, duration: real)
  {
    function End(): real { ipts + duration }
  }

  // A frame handed to the encoder.
  datatype Sent<P> = Sent(picture: P, pts: int)

  datatype Stream<P> = Stream(
    syncOpts: int, frameNumber: int, lastNb0: seq<int>, lastDropped: bool, lastFrame: Option<P>,
    nbFramesDup: int, nbFramesDrop: int, sent: seq<Sent<P>>)

  function Initial<P>(): Stream<P> {
    Stream(0, 0, [0, 0, 0], false, None, 0, 0, [])
  }

  function Rint(x: real): int {
    var f := x.Floor;
    if x - f as real < 0.5 then f
    else if x - f as real > 0.5 then f + 1
    else if f % 2 == 0 then f else f + 1
  }

  function Bit(b: bool): int {
    if b then 1 else 0
  }

  function MidPred(a: int, b: int, c: int): int {
    if a > b then (if c > b then (if c > a then a else c) else b)
    else (if b > c then (if c > a then c else a) else b)
  }

  // nb_frames, nb0_frames and the new sync_opts.
  datatype Plan = Plan(nb: int, nb0: int, syncOpts: int)

  function CfrPlan(c: Config, frameNumber: int, delta: real, delta0: real, syncOpts: int): Plan {
    if c.dropThreshold != 0.0 && delta < c.dropThreshold && frameNumber != 0 then Plan(0, 0, syncOpts)
    else if delta < -1.1 then Plan(0, 0, syncOpts)
    else if delta > 1.1 then Plan(Rint(delta), if delta0 > 1.1 then Rint(delta0 - 0.6) else 0, syncOpts)
    else Plan(1, 0, syncOpts)
  }

  function SyncPlan<P>(c: Config, s: Stream<P>, input: Input<P>): Plan {
    var start := input.ipts - s.syncOpts as real;
    var delta := start + input.duration;
    var clipped := start < 0.0 && delta > 0.0 && !c.mode.Passthrough? && !c.mode.Drop?;
    var ipts := if clipped then s.syncOpts as real else input.ipts;
    var duration := if clipped then input.duration + start else input.duration;
    var delta0 := if clipped then 0.0 else start;
    match c.mode
    case VsCfr =>
      if s.frameNumber == 0 && delta0 >= 0.5 then CfrPlan(c, s.frameNumber, duration, 0.0, Rint(ipts))
      else CfrPlan(c, s.frameNumber, delta, delta0, s.syncOpts)
    case Cfr => CfrPlan(c, s.frameNumber, delta, delta0, s.syncOpts)
    case Vfr =>
      if delta <= -0.6 then Plan(0, 0, s.syncOpts)
      else if delta > 0.6 then Plan(1, 0, Rint(ipts))
      else Plan(1, 0, s.syncOpts)
    case _ => Plan(1, 0, Rint(ipts))
  }

  // The plan of one call, the frame limit applied. A flush repeats the last picture.
  function Decide<P>(c: Config, s: Stream<P>, next: Option<Input<P>>): Plan
    requires |s.lastNb0| == 3
  {
    var plan := match next
      case Some(input) => SyncPlan(c, s, input)
      case None =>
        var mid := MidPred(s.lastNb0[0], s.lastNb0[1], s.lastNb0[2]);
        Plan(mid, mid, s.syncOpts);
    var nb := Min(plan.nb, c.maxFrames - s.frameNumber);
    Plan(nb, Min(plan.nb0, nb), plan.syncOpts)
  }

  // How many of the planned frames are not duplicates.
  function Originals<P>(s: Stream<P>, plan: Plan): int {
    Bit(plan.nb0 != 0 && s.lastDropped) + Bit(plan.nb > plan.nb0)
  }

  // "frame duplication too large, skipping"
  predicate TooMany<P>(c: Config, s: Stream<P>, plan: Plan) {
    plan.nb > Originals(s, plan) && plan.nb as real > c.dtsErrorThreshold * 30.0
  }

  // The picture shown in the i-th emitted frame.
  function Shown<P>(s: Stream<P>, next: Option<Input<P>>, plan: Plan, i: int): Option<P> {
    if i < plan.nb0 && s.lastFrame.Some? then s.lastFrame
    else if next.Some? then Some(next.value.picture) else None
  }

  function Emitted<P>(s: Stream<P>, next: Option<Input<P>>, plan: Plan, n: nat): seq<Sent<P>>
    requires n > 0 ==> next.Some? || (s.lastFrame.Some? && n <= plan.nb0)
  {
    seq(n, i requires 0 <= i < n => Sent(Shown(s, next, plan, i).value, plan.syncOpts + i))
  }

  function VideoOut<P>(c: Config, s: Stream<P>, next: Option<Input<P>>): Stream<P>
    requires |s.lastNb0| == 3
  {
    var plan := Decide(c, s, next);
    var planned := s.(
      syncOpts := plan.syncOpts,
      lastNb0 := [plan.nb0, s.lastNb0[0], s.lastNb0[1]],
      nbFramesDrop := s.nbFramesDrop + Bit(plan.nb0 == 0 && s.lastDropped));
    if TooMany(c, s, plan) then planned.(nbFramesDrop := planned.nbFramesDrop + 1)
    else
      var counted := planned.(
        nbFramesDup := s.nbFramesDup + if plan.nb > Originals(s, plan) then plan.nb - Originals(s, plan) else 0,
        lastDropped := plan.nb == plan.nb0 && next.Some?);
      if plan.nb > 0 && next.None? && s.lastFrame.None? then counted
      else
        var n := if plan.nb > 0 then plan.nb else 0;
        counted.(
          syncOpts := plan.syncOpts + n,
          frameNumber := s.frameNumber + n,
          sent := s.sent + Emitted(s, next, plan, n),
          lastFrame := if next.Some? then Some(next.value.picture) else None)
  }

  // The stream itself, with the two global counters and the encoder's input.
  class OutputStream<P> {
    var syncOpts: int
    var frameNumber: int
    var lastNb0: seq<int>
    var lastDropped: bool
    var lastFrame: Option<P>
    var nbFramesDup: int
    var nbFramesDrop: int
    var sent: seq<Sent<P>>

    ghost function Value(): Stream<P>
      reads this
    {
      Stream(syncOpts, frameNumber, lastNb0, lastDropped, lastFrame, nbFramesDup, nbFramesDrop, sent)
    }

    constructor ()
      ensures Value() == Initial()
    {
      syncOpts, frameNumber, lastNb0, lastDropped := 0, 0, [0, 0, 0], false;
      lastFrame, nbFramesDup, nbFramesDrop, sent := None, 0, 0, [];
    }

    method DoVideoOut(c: Config, next: Option<Input<P>>)
      requires |lastNb0| == 3
      modifies this
      ensures |lastNb0| == 3 && Value() == VideoOut(c, old(Value()), next)
    {
      var nbFrames, nb0Frames := PlanFrames(c, next);
      var skip := Account(c, next, nbFrames, nb0Frames);
      if skip {
        return;
      }
      var done := Emit(next, nbFrames, nb0Frames);
      if !done {
        return;
      }
      lastFrame := if next.Some? then Some(next.value.picture) else None;
    }

    // The dup and drop counters.
    method Account(c: Config, next: Option<Input<P>>, nbFrames: int, nb0Frames: int) returns (skip: bool)
      requires |lastNb0| == 3
      modifies this`lastNb0, this`lastDropped, this`nbFramesDup, this`nbFramesDrop
      ensures
        var s, plan := old(Value()), Plan(nbFrames, nb0Frames, syncOpts);
        && skip == TooMany(c, s, plan)
        && lastNb0 == [nb0Frames, old(lastNb0[0]), old(lastNb0[1])]
        && lastDropped == (if skip then s.lastDropped else nbFrames == nb0Frames && next.Some?)
        && nbFramesDrop == s.nbFramesDrop + Bit(nb0Frames == 0 && s.lastDropped) + Bit(skip)
        && nbFramesDup == s.nbFramesDup +
             if !skip && nbFrames > Originals(s, plan) then nbFrames - Originals(s, plan) else 0
    {
      lastNb0 := [nb0Frames] + lastNb0[..2];
      if nb0Frames == 0 && lastDropped {
        nbFramesDrop := nbFramesDrop + 1;
      }
      var originals := Bit(nb0Frames != 0 && lastDropped) + Bit(nbFrames > nb0Frames);
      if nbFrames > originals {
        if nbFrames as real > c.dtsErrorThreshold * 30.0 {
          nbFramesDrop := nbFramesDrop + 1;
          return true;
        }
        nbFramesDup := nbFramesDup + nbFrames - originals;
      }
      lastDropped := nbFrames == nb0Frames && next.Some?;
      return false;
    }

    // The emission loop; not done when a frame is due and there is no picture to show.
    method Emit(next: Option<Input<P>>, nbFrames: int, nb0Frames: int) returns (done: bool)
      requires next.None? ==> nbFrames == nb0Frames
      modifies this`syncOpts, this`frameNumber, this`sent
      ensures done == !(nbFrames > 0 && next.None? && lastFrame.None?)
      ensures
        var s, plan := old(Value()), Plan(nbFrames, nb0Frames, old(syncOpts));
        var n := if done && nbFrames > 0 then nbFrames else 0;
        && syncOpts == s.syncOpts + n && frameNumber == s.frameNumber + n
        && sent == s.sent + Emitted(s, next, plan, n)
    {
      ghost var s, plan := Value(), Plan(nbFrames, nb0Frames, syncOpts);
      var i := 0;
      while i < nbFrames
        invariant 0 <= i && (i == 0 || i <= nbFrames)
        invariant i > 0 ==> next.Some? || s.lastFrame.Some?
        invariant syncOpts == plan.syncOpts + i && frameNumber == s.frameNumber + i
        invariant sent == s.sent + Emitted(s, next, plan, i)
      {
        var inPicture: Option<P>;
        if i < nb0Frames && lastFrame.Some? {
          inPicture := lastFrame;
        } else {
          inPicture := if next.Some? then Some(next.value.picture) else None;
        }
        if inPicture.None? {
          return false;
        }
        sent := sent + [Sent(inPicture.value, syncOpts)];
        syncOpts := syncOpts + 1;
        frameNumber := frameNumber + 1;
        i := i + 1;
      }
      return true;
    }

    // The switch on the sync method, and the frame limit.
    method PlanFrames(c: Config, next: Option<Input<P>>) returns (nbFrames: int, nb0Frames: int)
      requires |lastNb0| == 3
      modifies this`syncOpts
      ensures Decide(c, old(Value()), next) == Plan(nbFrames, nb0Frames, syncOpts)
    {
      if next.None? {
        nbFrames := MidPred(lastNb0[0], lastNb0[1], lastNb0[2]);
        nb0Frames := nbFrames;
      } else {
        var syncIpts, duration := next.value.ipts, next.value.duration;
        var delta0 := syncIpts - syncOpts as real;
        var delta := delta0 + duration;
        nb0Frames, nbFrames := 0, 1;
        if delta0 < 0.0 && delta > 0.0 && !c.mode.Passthrough? && !c.mode.Drop? {
          syncIpts := syncOpts as real;
          duration := duration + delta0;
          delta0 := 0.0;
        }
        if c.mode.VsCfr? || c.mode.Cfr? {
          if c.mode.VsCfr? && frameNumber == 0 && delta0 >= 0.5 {
            delta := duration;
            delta0 := 0.0;
            syncOpts := Rint(syncIpts);
          }
          if c.dropThreshold != 0.0 && delta < c.dropThreshold && frameNumber != 0 {
            nbFrames := 0;
          } else if delta < -1.1 {
            nbFrames := 0;
          } else if delta > 1.1 {
            nbFrames := Rint(delta);
            if delta0 > 1.1 {
              nb0Frames := Rint(delta0 - 0.6);
            }
          }
        } else if c.mode.Vfr? {
          if delta <= -0.6 {
            nbFrames := 0;
          } else if delta > 0.6 {
            syncOpts := Rint(syncIpts);
          }
        } else {
          syncOpts := Rint(syncIpts);
        }
      }
      nbFrames := Min(nbFrames, c.maxFrames - frameNumber);
      nb0Frames := Min(nb0Frames, nbFrames);
    }
  }

  // ----- Frame conservation

  // Frames sent, against the pictures that came in and the two counters.
  ghost function Imbalance<P>(s: Stream<P>, inputs: nat): int {
    |s.sent| - (inputs + s.nbFramesDup - s.nbFramesDrop - Bit(s.lastDropped))
  }

  ghost predicate Balanced<P>(s: Stream<P>, inputs: nat) {
    Imbalance(s, inputs) == 0
  }

  ghost predicate Sane<P>(c: Config, s: Stream<P>) {
    && s.frameNumber <= c.maxFrames
    && |s.lastNb0| == 3 && (forall k :: 0 <= k < 3 ==> s.lastNb0[k] >= 0)
  }

  // The calls that lose count: a skipped burst while a dropped picture is
  // still owed or on a flush, and a flush that has no picture to repeat.
  predicate LosesCount<P>(c: Config, s: Stream<P>, next: Option<Input<P>>)
    requires |s.lastNb0| == 3
  {
    var plan := Decide(c, s, next);
    if TooMany(c, s, plan) then next.None? || (plan.nb0 == 0 && s.lastDropped)
    else next.None? && plan.nb > 0 && s.lastFrame.None?
  }

  // The guess for a flush is the median of the last three counts.
  lemma MidPredIsMedian(a: int, b: int, c: int)
    ensures var m := MidPred(a, b, c);
      && m in {a, b, c}
      && Bit(a < m) + Bit(b < m) + Bit(c < m) <= 1 && Bit(a > m) + Bit(b > m) + Bit(c > m) <= 1
  {
  }

  lemma RintNear(x: real)
    ensures -0.5 <= x - Rint(x) as real <= 0.5
    ensures x - Rint(x) as real == 0.5 || x - Rint(x) as real == -0.5 ==> Rint(x) % 2 == 0
  {
  }

  // By how much such a call is off.
  function Excess<P>(c: Config, s: Stream<P>, next: Option<Input<P>>): int
    requires |s.lastNb0| == 3
  {
    var plan := Decide(c, s, next);
    if TooMany(c, s, plan) then Bit(next.None?) + Bit(plan.nb0 == 0 && s.lastDropped)
    else if next.None? && plan.nb > 0 && s.lastFrame.None? then -plan.nb
    else 0
  }

  lemma PlanIsSane<P>(c: Config, s: Stream<P>, next: Option<Input<P>>)
    requires Sane(c, s)
    ensures var plan := Decide(c, s, next);
      && 0 <= plan.nb0 <= plan.nb <= c.maxFrames - s.frameNumber
      && (next.None? ==> plan.nb0 == plan.nb)
  {
    if next.Some? {
      var input := next.value;
      var delta0 := input.ipts - s.syncOpts as real;
      RintNear(delta0 + input.duration);
      RintNear(input.duration);
      RintNear(delta0 - 0.6);
    }
  }

  lemma CallKeepsSane<P>(c: Config, s: Stream<P>, next: Option<Input<P>>)
    requires Sane(c, s)
    ensures Sane(c, VideoOut(c, s, next))
  {
    PlanIsSane(c, s, next);
  }

  lemma CallExcess<P>(c: Config, s: Stream<P>, next: Option<Input<P>>, inputs: nat)
    requires Sane(c, s)
    ensures Imbalance(VideoOut(c, s, next), inputs + Bit(next.Some?)) == Imbalance(s, inputs) + Excess(c, s, next)
    ensures Excess(c, s, next) != 0 <==> LosesCount(c, s, next)
  {
    PlanIsSane(c, s, next);
  }

  // A call keeps the balance exactly when it is not one of those.
  lemma CallKeepsBalance<P>(c: Config, s: Stream<P>, next: Option<Input<P>>, inputs: nat)
    requires Sane(c, s) && Balanced(s, inputs)
    ensures Balanced(VideoOut(c, s, next), inputs + Bit(next.Some?)) <==> !LosesCount(c, s, next)
  {
    hide VideoOut, Excess, LosesCount, Imbalance;
    CallExcess(c, s, next, inputs);
  }

  // The stream after a sequence of calls; None is a flush.
  function After<P>(c: Config, s: Stream<P>, calls: seq<Option<Input<P>>>): Stream<P>
    requires |s.lastNb0| == 3
    decreases |calls|
  {
    if calls == [] then s else After(c, VideoOut(c, s, calls[0]), calls[1..])
  }

  function Pictures<P>(calls: seq<Option<Input<P>>>): nat {
    if calls == [] then 0 else Bit(calls[0].Some?) + Pictures(calls[1..])
  }

  // By how much a sequence of calls is off, in all.
  function ExcessOf<P>(c: Config, s: Stream<P>, calls: seq<Option<Input<P>>>): int
    requires |s.lastNb0| == 3
    decreases |calls|
  {
    if calls == [] then 0 else Excess(c, s, calls[0]) + ExcessOf(c, VideoOut(c, s, calls[0]), calls[1..])
  }

  ghost predicate KeepsCount<P>(c: Config, s: Stream<P>, calls: seq<Option<Input<P>>>)
    requires |s.lastNb0| == 3
    decreases |calls|
  {
    calls == [] || (!LosesCount(c, s, calls[0]) && KeepsCount(c, VideoOut(c, s, calls[0]), calls[1..]))
  }

  lemma {:induction false} RunExcess<P>(c: Config, s: Stream<P>, calls: seq<Option<Input<P>>>, inputs: nat)
    requires Sane(c, s)
    ensures Imbalance(After(c, s, calls), inputs + Pictures(calls)) == Imbalance(s, inputs) + ExcessOf(c, s, calls)
    ensures KeepsCount(c, s, calls) ==> ExcessOf(c, s, calls) == 0
    decreases |calls|
  {
    if calls != [] {
      hide VideoOut, Excess, LosesCount, Imbalance;
      CallExcess(c, s, calls[0], inputs);
      CallKeepsSane(c, s, calls[0]);
      RunExcess(c, VideoOut(c, s, calls[0]), calls[1..], inputs + Bit(calls[0].Some?));
    }
  }

  lemma NothingSent<P>(c: Config)
    requires c.maxFrames >= 0
    ensures After(c, Initial<P>(), []) == Initial<P>() && Pictures<P>([]) == 0
    ensures Sane(c, Initial<P>()) && Balanced(Initial<P>(), 0)
  {
  }

  // With last_dropped added in the last report: out = in + dup - drop, but for
  // what the losing calls are off in all.
  lemma FramesAreConserved<P>(c: Config, calls: seq<Option<Input<P>>>)
    requires 0 <= c.maxFrames
    ensures var s := After(c, Initial<P>(), calls);
      |s.sent| == Pictures(calls) + s.nbFramesDup - (s.nbFramesDrop + Bit(s.lastDropped)) + ExcessOf(c, Initial<P>(), calls)
    ensures KeepsCount(c, Initial<P>(), calls) ==> ExcessOf(c, Initial<P>(), calls) == 0
  {
    hide VideoOut, Excess, LosesCount;
    RunExcess(c, Initial<P>(), calls, 0);
  }

  // The law does fail on runs the code allows. Three pictures with gaps, then
  // two flushes in a row: the second one counts a burst of duplicates and
  // sends none, because the first one has let go of the last picture.
  const GAPPED_CONFIG := Config(Cfr, 0.0, 108000.0, 1000000)
  const GAPPED: seq<Option<Input<int>>> := [Some(Input(0, 0.0, 1.0)), Some(Input(1, 10.0, 1.0)), Some(Input(2, 20.0, 1.0))]

  lemma GapsLeaveDuplicates() returns (s: Stream<int>)
    ensures s == After(GAPPED_CONFIG, Initial<int>(), GAPPED)
    ensures Sane(GAPPED_CONFIG, s) && Balanced(s, 3) && Pictures(GAPPED) == 3
    ensures s.frameNumber == 21 && s.lastNb0 == [8, 8, 0] && s.lastFrame == Some(2)
  {
    hide VideoOut, Balanced, After, Sane;
    var c, s0 := GAPPED_CONFIG, Initial<int>();
    NothingSent<int>(c);
    var s1 := GapOne();
    var s2 := GapTwo(s1);
    s := GapThree(s2);
    Append(c, s0, [], GAPPED[0]);
    Append(c, s0, [GAPPED[0]], GAPPED[1]);
    Append(c, s0, [GAPPED[0], GAPPED[1]], GAPPED[2]);
    assert [] + [GAPPED[0]] == [GAPPED[0]] && [GAPPED[0]] + [GAPPED[1]] == [GAPPED[0], GAPPED[1]];
    assert [GAPPED[0], GAPPED[1]] + [GAPPED[2]] == GAPPED;
  }

  // One picture on time, and two that come nine frames late each.
  lemma GapOne() returns (s: Stream<int>)
    ensures s == VideoOut(GAPPED_CONFIG, Initial<int>(), GAPPED[0]) && Sane(GAPPED_CONFIG, s) && Balanced(s, 1)
    ensures s.syncOpts == 1 && s.frameNumber == 1 && s.lastNb0 == [0, 0, 0] && !s.lastDropped && s.lastFrame == Some(0)
  {
    s := VideoOut(GAPPED_CONFIG, Initial<int>(), GAPPED[0]);
    assert Decide(GAPPED_CONFIG, Initial<int>(), GAPPED[0]) == Plan(1, 0, 0);
    CallKeepsBalance(GAPPED_CONFIG, Initial<int>(), GAPPED[0], 0);
  }

  lemma GapTwo(s1: Stream<int>) returns (s: Stream<int>)
    requires Sane(GAPPED_CONFIG, s1) && Balanced(s1, 1) && s1.lastFrame == Some(0)
    requires s1.syncOpts == 1 && s1.frameNumber == 1 && s1.lastNb0 == [0, 0, 0] && !s1.lastDropped
    ensures s == VideoOut(GAPPED_CONFIG, s1, GAPPED[1]) && Sane(GAPPED_CONFIG, s) && Balanced(s, 2)
    ensures s.syncOpts == 11 && s.frameNumber == 11 && s.lastNb0 == [8, 0, 0] && !s.lastDropped && s.lastFrame == Some(1)
  {
    s := VideoOut(GAPPED_CONFIG, s1, GAPPED[1]);
    LateBy(s1, 1);
    CallKeepsBalance(GAPPED_CONFIG, s1, GAPPED[1], 1);
  }

  lemma GapThree(s2: Stream<int>) returns (s: Stream<int>)
    requires Sane(GAPPED_CONFIG, s2) && Balanced(s2, 2) && s2.lastFrame == Some(1)
    requires s2.syncOpts == 11 && s2.frameNumber == 11 && s2.lastNb0 == [8, 0, 0] && !s2.lastDropped
    ensures s == VideoOut(GAPPED_CONFIG, s2, GAPPED[2]) && Sane(GAPPED_CONFIG, s) && Balanced(s, 3)
    ensures s.frameNumber == 21 && s.lastNb0 == [8, 8, 0] && s.lastFrame == Some(2)
  {
    s := VideoOut(GAPPED_CONFIG, s2, GAPPED[2]);
    LateBy(s2, 2);
    CallKeepsBalance(GAPPED_CONFIG, s2, GAPPED[2], 2);
  }

  // A picture nine frames late is preceded by eight copies of the one before it.
  lemma LateBy(s: Stream<int>, k: nat)
    requires 1 <= k <= 2 && s.syncOpts == s.frameNumber == 10 * k - 9 && |s.lastNb0| == 3
    ensures Decide(GAPPED_CONFIG, s, GAPPED[k]) == Plan(10, 8, s.syncOpts)
    ensures !TooMany(GAPPED_CONFIG, s, Plan(10, 8, s.syncOpts))
  {
    assert Rint(10.0) == 10 && Rint(9.0 - 0.6) == 8;
  }

  // A flush that still has frames to send right after another one loses count.
  lemma FlushAfterFlush<P>(c: Config, s: Stream<P>, inputs: nat)
    requires Sane(c, s) && Balanced(s, inputs) && !LosesCount(c, s, None)
    requires !TooMany(c, s, Decide(c, s, None))
    requires Decide(c, VideoOut(c, s, None), None).nb > 0
    ensures !Balanced(VideoOut(c, VideoOut(c, s, None), None), inputs)
  {
    var s1 := VideoOut(c, s, None);
    CallKeepsSane(c, s, None);
    CallKeepsBalance(c, s, None, inputs);
    PlanIsSane(c, s1, None);
    CallKeepsBalance(c, s1, None, inputs);
  }

  lemma SecondFlushLosesCount()
    ensures !Balanced(After(GAPPED_CONFIG, Initial<int>(), GAPPED + [None] + [None]), Pictures(GAPPED + [None] + [None]))
  {
    hide After;
    var c := GAPPED_CONFIG;
    var s := GapsLeaveDuplicates();
    assert Decide(c, s, None) == Plan(8, 8, s.syncOpts);
    FlushAfterFlush(c, s, 3);
    Append(c, Initial<int>(), GAPPED, None);
    Append(c, Initial<int>(), GAPPED + [None], None);
  }

  lemma {:induction false} Append<P>(c: Config, s: Stream<P>, calls: seq<Option<Input<P>>>, call: Option<Input<P>>)
    requires |s.lastNb0| == 3
    ensures |After(c, s, calls).lastNb0| == 3
    ensures After(c, s, calls + [call]) == VideoOut(c, After(c, s, calls), call)
    ensures Pictures(calls + [call]) == Pictures(calls) + Bit(call.Some?)
    decreases |calls|
  {
    if calls == [] {
      assert calls + [call] == [call];
      assert After(c, VideoOut(c, s, call), []) == VideoOut(c, s, call);
    } else {
      assert (calls + [call])[1..] == calls[1..] + [call];
      Append(c, VideoOut(c, s, calls[0]), calls[1..], call);
    }
  }

  // ----- Drift in constant frame rate

  // Where the output clock stands behind the end of the input picture.
  ghost function Drift<P>(s: Stream<P>, input: Input<P>): real {
    input.End() - s.syncOpts as real
  }

  // The frame limit is not reached and no burst is skipped.
  ghost predicate Unlimited<P>(c: Config, s: Stream<P>, input: Input<P>)
    requires |s.lastNb0| == 3
  {
    SyncPlan(c, s, input).nb <= c.maxFrames - s.frameNumber && !TooMany(c, s, Decide(c, s, Some(input)))
  }

  // One call leaves the drift in range exactly when it found it no lower than -2.1.
  lemma CallBoundsDrift<P>(c: Config, s: Stream<P>, input: Input<P>)
    requires c.mode == Cfr && c.dropThreshold == 0.0 && Sane(c, s) && Unlimited(c, s, input)
    ensures -2.1 <= Drift(VideoOut(c, s, Some(input)), input) <= 0.5 <==> -2.1 <= Drift(s, input)
  {
    PlanIsSane(c, s, Some(input));
    RintNear(Drift(s, input));
  }

  // In VSCFR the clock may first jump to the start of the first picture,
  // which adds the rounding of that start to the drift.
  lemma VsCfrCallBoundsDrift<P>(c: Config, s: Stream<P>, input: Input<P>)
    requires c.mode == VsCfr && c.dropThreshold == 0.0 && Sane(c, s) && Unlimited(c, s, input)
    requires input.duration >= 0.0 && -2.1 <= Drift(s, input)
    ensures -2.1 <= Drift(VideoOut(c, s, Some(input)), input) <= 1.0
  {
    PlanIsSane(c, s, Some(input));
    RintNear(Drift(s, input));
    RintNear(input.ipts);
    RintNear(input.duration);
  }

  // What the demuxer and filters promise: pictures do not end earlier than
  // the ones before them, and no call runs into a limit.
  ghost predicate Steady<P>(c: Config, s: Stream<P>, end: real, inputs: seq<Input<P>>)
    requires |s.lastNb0| == 3
    decreases |inputs|
  {
    inputs == [] ||
    (end <= inputs[0].End() && inputs[0].duration >= 0.0 && Unlimited(c, s, inputs[0]) &&
     Steady(c, VideoOut(c, s, Some(inputs[0])), inputs[0].End(), inputs[1..]))
  }

  ghost predicate DriftWithin<P>(c: Config, s: Stream<P>, inputs: seq<Input<P>>, lo: real, hi: real)
    requires |s.lastNb0| == 3
    decreases |inputs|
  {
    inputs == [] ||
    (lo <= Drift(VideoOut(c, s, Some(inputs[0])), inputs[0]) <= hi &&
     DriftWithin(c, VideoOut(c, s, Some(inputs[0])), inputs[1..], lo, hi))
  }

  lemma {:induction false} RunBoundsDrift<P>(c: Config, s: Stream<P>, end: real, inputs: seq<Input<P>>)
    requires (c.mode == Cfr || c.mode == VsCfr) && c.dropThreshold == 0.0 && Sane(c, s)
    requires Steady(c, s, end, inputs) && -2.1 <= end - s.syncOpts as real
    ensures DriftWithin(c, s, inputs, -2.1, if c.mode == Cfr then 0.5 else 1.0)
    decreases |inputs|
  {
    if inputs != [] {
      if c.mode == Cfr {
        CallBoundsDrift(c, s, inputs[0]);
      } else {
        VsCfrCallBoundsDrift(c, s, inputs[0]);
      }
      CallKeepsSane(c, s, Some(inputs[0]));
      RunBoundsDrift(c, VideoOut(c, s, Some(inputs[0])), inputs[0].End(), inputs[1..]);
    }
  }

  // Over a whole run that starts at a non-negative time, the drift stays in bounds.
  lemma DriftStaysBounded<P>(c: Config, inputs: seq<Input<P>>)
    requires (c.mode == Cfr || c.mode == VsCfr) && c.dropThreshold == 0.0 && 0 <= c.maxFrames
    requires inputs != [] ==> inputs[0].ipts >= 0.0 && Steady(c, Initial<P>(), inputs[0].End(), inputs)
    ensures DriftWithin(c, Initial<P>(), inputs, -2.1, if c.mode == Cfr then 0.5 else 1.0)
  {
    if inputs != [] {
      RunBoundsDrift(c, Initial<P>(), inputs[0].End(), inputs);
    }
  }

  // ----- Timestamps of the frames sent

  ghost predicate PtsIncrease<P>(s: Stream<P>) {
    && (forall i, j :: 0 <= i < j < |s.sent| ==> s.sent[i].pts < s.sent[j].pts)
    && (forall i :: 0 <= i < |s.sent| ==> s.sent[i].pts < s.syncOpts)
  }

  lemma RintAbove(x: real, n: int)
    requires x >= n as real
    ensures Rint(x) >= n
  {
  }

  // Outside passthrough and drop the clock never goes back.
  lemma ClockOnlyAdvances<P>(c: Config, s: Stream<P>, next: Option<Input<P>>)
    requires Sane(c, s) && c.mode != Passthrough && c.mode != Drop
    ensures Decide(c, s, next).syncOpts >= s.syncOpts
  {
    if next.Some? {
      var input := next.value;
      if input.ipts >= s.syncOpts as real {
        RintAbove(input.ipts, s.syncOpts);
      } else {
        RintAbove(s.syncOpts as real, s.syncOpts);
      }
    }
  }

  lemma CallKeepsPtsIncreasing<P>(c: Config, s: Stream<P>, next: Option<Input<P>>)
    requires Sane(c, s) && c.mode != Passthrough && c.mode != Drop && PtsIncrease(s)
    ensures PtsIncrease(VideoOut(c, s, next))
  {
    PlanIsSane(c, s, next);
    ClockOnlyAdvances(c, s, next);
  }

  // The encoder is given strictly increasing timestamps over any run of calls.
  lemma {:induction false} RunKeepsPtsIncreasing<P>(c: Config, s: Stream<P>, calls: seq<Option<Input<P>>>)
    requires Sane(c, s) && c.mode != Passthrough && c.mode != Drop && PtsIncrease(s)
    ensures PtsIncrease(After(c, s, calls))
    decreases |calls|
  {
    if calls != [] {
      CallKeepsSane(c, s, calls[0]);
      CallKeepsPtsIncreasing(c, s, calls[0]);
      RunKeepsPtsIncreasing(c, VideoOut(c, s, calls[0]), calls[1..]);
    }
  }
}
