/** ffmpeg.c: what nb_frames_dup and nb_frames_drop say about the pictures that
    do_video_out sends: repeats and pictures never shown. */
module VideoCounters {
  import opened Options
  import opened VideoSync

  // Pictures are numbered here in the order in which they come in.
  ghost predicate Numbered(calls: seq<Option<Input<int>>>, newest: int) {
    calls == [] ||
    ((calls[0].Some? ==> calls[0].value.picture > newest) &&
     Numbered(calls[1..], if calls[0].Some? then calls[0].value.picture else newest))
  }

  ghost function ShownPictures(sent: seq<Sent<int>>): set<int> {
    set i | 0 <= i < |sent| :: sent[i].picture
  }

  ghost predicate InOrder(sent: seq<Sent<int>>) {
    forall i, j :: 0 <= i <= j < |sent| ==> sent[i].picture <= sent[j].picture
  }

  ghost predicate UpTo(sent: seq<Sent<int>>, p: int) {
    forall i :: 0 <= i < |sent| ==> sent[i].picture <= p
  }

  // How often the picture changes, the first one included.
  ghost function Changes(sent: seq<Sent<int>>): nat {
    if sent == [] then 0
    else
      var last := |sent| - 1;
      Changes(sent[..last]) + Bit(last == 0 || sent[last - 1].picture != sent[last].picture)
  }

  lemma {:induction false} ChangesCountPictures(sent: seq<Sent<int>>)
    requires InOrder(sent)
    ensures Changes(sent) == |ShownPictures(sent)|
  {
    if sent != [] {
      var last := |sent| - 1;
      ChangesCountPictures(sent[..last]);
      OneMorePicture(sent);
    }
  }

  lemma OneMorePicture(sent: seq<Sent<int>>)
    requires sent != [] && InOrder(sent)
    ensures var last, before := |sent| - 1, ShownPictures(sent[..|sent| - 1]);
      && ShownPictures(sent) == before + {sent[last].picture}
      && (sent[last].picture in before <==> last > 0 && sent[last - 1].picture == sent[last].picture)
  {
    var last, before := |sent| - 1, ShownPictures(sent[..|sent| - 1]);
    assert sent == sent[..last] + [sent[last]];
    forall p | p in ShownPictures(sent) ensures p in before + {sent[last].picture} {
      var i :| 0 <= i < |sent| && sent[i].picture == p;
      if i < last {
        assert sent[..last][i].picture == p;
      }
    }
    forall p | p in before ensures p in ShownPictures(sent) {
      var i :| 0 <= i < last && sent[..last][i].picture == p;
      assert sent[i].picture == p;
    }
    assert sent[last].picture in ShownPictures(sent);
    if sent[last].picture in before {
      var i :| 0 <= i < last && sent[..last][i].picture == sent[last].picture;
      assert sent[i].picture <= sent[last - 1].picture <= sent[last].picture;
    } else if last > 0 {
      assert sent[..last][last - 1].picture in before;
    }
  }

  lemma {:induction false} SamePicture(sent: seq<Sent<int>>, more: seq<Sent<int>>, p: int)
    requires forall i :: 0 <= i < |more| ==> more[i].picture == p
    ensures Changes(sent + more) ==
            Changes(sent) + Bit(more != [] && (sent == [] || sent[|sent| - 1].picture != p))
  {
    if more == [] {
      assert sent + more == sent;
    } else {
      var init := more[..|more| - 1];
      assert (sent + more)[..|sent + more| - 1] == sent + init;
      SamePicture(sent, init, p);
    }
  }

  // What is known between calls: the frames sent and the picture in hand.
  ghost predicate InHand(s: Stream<int>, newest: int) {
    && InOrder(s.sent) && UpTo(s.sent, newest)
    && (s.lastFrame.Some? ==> s.lastFrame.value <= newest)
    && (s.lastDropped ==> s.lastFrame.Some? && UpTo(s.sent, s.lastFrame.value - 1))
    && (!s.lastDropped && s.lastFrame.Some? ==> s.sent != [] && s.sent[|s.sent| - 1].picture == s.lastFrame.value)
  }

  ghost predicate DupsAreRepeats(s: Stream<int>) {
    s.nbFramesDup == |s.sent| - Changes(s.sent)
  }

  // The calls that miscount duplicates: with no last picture in hand the
  // frames meant for it show the new picture, or are not sent at all.
  predicate Miscounts<P>(c: Config, s: Stream<P>, next: Option<Input<P>>)
    requires |s.lastNb0| == 3
  {
    var plan := Decide(c, s, next);
    !TooMany(c, s, plan) && s.lastFrame.None? && plan.nb == plan.nb0 > 0
  }

  // The frames of one call: copies of the last picture, then of the next one.
  lemma EmittedInTwo(s: Stream<int>, next: Option<Input<int>>, plan: Plan) returns (repeats: seq<Sent<int>>, shown: seq<Sent<int>>)
    requires 0 <= plan.nb0 <= plan.nb && (next.None? ==> plan.nb0 == plan.nb)
    requires plan.nb > 0 ==> next.Some? || s.lastFrame.Some?
    ensures Emitted(s, next, plan, plan.nb) == repeats + shown
    ensures |repeats| == plan.nb0 && |shown| == plan.nb - plan.nb0
    ensures forall i :: 0 <= i < |repeats| ==> Some(repeats[i].picture) == Shown(s, next, plan, 0)
    ensures forall i :: 0 <= i < |shown| ==> next.Some? && shown[i].picture == next.value.picture
  {
    var all := Emitted(s, next, plan, plan.nb);
    repeats, shown := all[..plan.nb0], all[plan.nb0..];
  }

  // All frames show one picture.
  ghost predicate Show(frames: seq<Sent<int>>, p: int) {
    forall i :: 0 <= i < |frames| ==> frames[i].picture == p
  }

  lemma AppendInOrder(sent: seq<Sent<int>>, more: seq<Sent<int>>, p: int)
    requires InOrder(sent) && UpTo(sent, p) && Show(more, p)
    ensures InOrder(sent + more) && UpTo(sent + more, p)
  {
  }

  // Copies of the last picture p, then of the next one.
  lemma AppendBoth(sent: seq<Sent<int>>, repeats: seq<Sent<int>>, shown: seq<Sent<int>>, p: int, q: int)
    requires InOrder(sent) && UpTo(sent, p) && Show(repeats, p) && Show(shown, q) && (shown != [] ==> p < q)
    ensures InOrder(sent + repeats + shown) && UpTo(sent + repeats + shown, if shown == [] then p else q)
    ensures Changes(sent + repeats + shown)
            == Changes(sent) + Bit(repeats != [] && (sent == [] || sent[|sent| - 1].picture != p)) + Bit(shown != [])
    ensures repeats != [] && shown == [] ==> (sent + repeats + shown)[|sent + repeats + shown| - 1].picture == p
    ensures shown != [] ==> (sent + repeats + shown)[|sent + repeats + shown| - 1].picture == q
  {
    hide Changes;
    AppendInOrder(sent, repeats, p);
    SamePicture(sent, repeats, p);
    SamePicture(sent + repeats, shown, q);
    if shown == [] {
      assert sent + repeats + shown == sent + repeats;
    } else {
      WeakenUpTo(sent + repeats, p, q);
      AppendInOrder(sent + repeats, shown, q);
    }
  }

  lemma WeakenUpTo(frames: seq<Sent<int>>, p: int, q: int)
    requires UpTo(frames, p) && p <= q
    ensures UpTo(frames, q)
    ensures p < q && frames != [] ==> frames[|frames| - 1].picture != q
  {
  }

  // A call that sends what it plans.
  ghost predicate Sends(c: Config, s: Stream<int>, next: Option<Input<int>>)
    requires |s.lastNb0| == 3
  {
    var plan := Decide(c, s, next);
    !TooMany(c, s, plan) && (plan.nb > 0 ==> next.Some? || s.lastFrame.Some?)
  }

  lemma SentByCall(c: Config, s: Stream<int>, next: Option<Input<int>>) returns (repeats: seq<Sent<int>>, shown: seq<Sent<int>>)
    requires Sane(c, s) && Sends(c, s, next)
    ensures var t, plan := VideoOut(c, s, next), Decide(c, s, next);
      && t.sent == s.sent + repeats + shown
      && t.nbFramesDup == s.nbFramesDup + plan.nb - Originals(s, plan)
      && t.lastDropped == (plan.nb == plan.nb0 && next.Some?)
      && t.lastFrame == (if next.Some? then Some(next.value.picture) else None)
      && |repeats| == plan.nb0 && |shown| == plan.nb - plan.nb0
      && (repeats != [] ==> next.Some? || s.lastFrame.Some?)
      && (repeats != [] ==> Show(repeats, if s.lastFrame.Some? then s.lastFrame.value else next.value.picture))
      && (shown != [] ==> next.Some? && Show(shown, next.value.picture))
  {
    PlanIsSane(c, s, next);
    hide Decide;
    repeats, shown := EmittedInTwo(s, next, Decide(c, s, next));
    assert s.sent + (repeats + shown) == s.sent + repeats + shown;
  }

  // With the last picture in hand.
  lemma CallRepeatsLast(c: Config, s: Stream<int>, next: Option<Input<int>>, newest: int)
    requires Sane(c, s) && Sends(c, s, next) && InHand(s, newest) && DupsAreRepeats(s) && s.lastFrame.Some?
    requires next.Some? ==> next.value.picture > newest
    ensures var t := VideoOut(c, s, next);
      DupsAreRepeats(t) && InHand(t, if next.Some? then next.value.picture else newest)
  {
    var repeats, shown := SentByCall(c, s, next);
    hide VideoOut, Decide, Changes, Show;
    hide InOrder, UpTo;
    var p, q := s.lastFrame.value, if next.Some? then next.value.picture else newest;
    LastIsUpTo(s, newest);
    ShowsNothing(shown, q);
    ShowsNothing(repeats, p);
    AppendBoth(s.sent, repeats, shown, p, q);
    if shown == [] {
      WeakenUpTo(s.sent + repeats + shown, p, q);
      if p < q {
        WeakenUpTo(s.sent + repeats + shown, p, q - 1);
      }
    }
  }

  // Nothing sent is later than the last picture.
  lemma LastIsUpTo(s: Stream<int>, newest: int)
    requires InHand(s, newest) && s.lastFrame.Some?
    ensures UpTo(s.sent, s.lastFrame.value)
    ensures s.lastDropped && s.sent != [] ==> s.sent[|s.sent| - 1].picture != s.lastFrame.value
  {
  }

  lemma ShowsNothing(frames: seq<Sent<int>>, p: int)
    ensures frames == [] ==> Show(frames, p)
  {
  }

  // Without it.
  lemma CallHasNoLast(c: Config, s: Stream<int>, next: Option<Input<int>>, newest: int)
    requires Sane(c, s) && Sends(c, s, next) && InHand(s, newest) && DupsAreRepeats(s) && s.lastFrame.None?
    requires next.Some? ==> next.value.picture > newest
    ensures var t := VideoOut(c, s, next);
      && (DupsAreRepeats(t) <==> !Miscounts(c, s, next))
      && (!Miscounts(c, s, next) ==> InHand(t, if next.Some? then next.value.picture else newest))
  {
    var repeats, shown := SentByCall(c, s, next);
    var plan := Decide(c, s, next);
    hide VideoOut, Decide, Changes, Show;
    var q := if next.Some? then next.value.picture else newest;
    ShowsNothing(shown, q);
    ShowsNothing(repeats, q);
    AllNew(s.sent, repeats, shown, newest, q);
  }

  lemma AllNew(sent: seq<Sent<int>>, repeats: seq<Sent<int>>, shown: seq<Sent<int>>, newest: int, q: int)
    requires InOrder(sent) && UpTo(sent, newest) && Show(repeats, q) && Show(shown, q) && newest <= q
    requires repeats != [] || shown != [] ==> newest < q
    ensures InOrder(sent + repeats + shown) && UpTo(sent + repeats + shown, q)
    ensures Changes(sent + repeats + shown) == Changes(sent) + Bit(repeats != [] || shown != [])
    ensures repeats + shown != [] ==> (sent + repeats + shown)[|sent + repeats + shown| - 1].picture == q
    ensures repeats + shown == [] ==> sent + repeats + shown == sent
  {
    assert sent + repeats + shown == sent + (repeats + shown);
    WeakenUpTo(sent, newest, q);
    AppendInOrder(sent, repeats + shown, q);
    SamePicture(sent, repeats + shown, q);
  }

  // A call keeps nb_frames_dup the number of repeats exactly when it is not one of those.
  lemma CallKeepsDups(c: Config, s: Stream<int>, next: Option<Input<int>>, newest: int)
    requires Sane(c, s) && InHand(s, newest) && DupsAreRepeats(s)
    requires next.Some? ==> next.value.picture > newest
    ensures DupsAreRepeats(VideoOut(c, s, next)) <==> !Miscounts(c, s, next)
    ensures !Miscounts(c, s, next) ==> InHand(VideoOut(c, s, next), if next.Some? then next.value.picture else newest)
  {
    PlanIsSane(c, s, next);
    if !Sends(c, s, next) {
      CallSendsNothing(c, s, next, newest);
    } else {
      hide VideoOut, Decide, InHand;
      if s.lastFrame.Some? {
        CallRepeatsLast(c, s, next, newest);
      } else {
        CallHasNoLast(c, s, next, newest);
      }
    }
  }

  lemma CallSendsNothing(c: Config, s: Stream<int>, next: Option<Input<int>>, newest: int)
    requires Sane(c, s) && InHand(s, newest) && DupsAreRepeats(s) && !Sends(c, s, next)
    requires next.Some? ==> next.value.picture > newest
    ensures DupsAreRepeats(VideoOut(c, s, next)) <==> !Miscounts(c, s, next)
    ensures !Miscounts(c, s, next) ==> InHand(VideoOut(c, s, next), if next.Some? then next.value.picture else newest)
  {
    PlanIsSane(c, s, next);
    hide Decide, Changes;
  }

  ghost predicate NeverMiscounts<P>(c: Config, s: Stream<P>, calls: seq<Option<Input<P>>>)
    requires |s.lastNb0| == 3
    decreases |calls|
  {
    calls == [] || (!Miscounts(c, s, calls[0]) && NeverMiscounts(c, VideoOut(c, s, calls[0]), calls[1..]))
  }

  lemma {:induction false} RunKeepsDups(c: Config, s: Stream<int>, calls: seq<Option<Input<int>>>, newest: int)
    requires Sane(c, s) && InHand(s, newest) && DupsAreRepeats(s)
    requires Numbered(calls, newest) && NeverMiscounts(c, s, calls)
    ensures InOrder(After(c, s, calls).sent) && DupsAreRepeats(After(c, s, calls))
    decreases |calls|
  {
    hide VideoOut, Miscounts, InHand, DupsAreRepeats, Sane;
    SaneShape(c, s);
    if calls == [] {
      InHandInOrder(s, newest);
    } else {
      CallKeepsSane(c, s, calls[0]);
      CallKeepsDups(c, s, calls[0], newest);
      RunKeepsDups(c, VideoOut(c, s, calls[0]), calls[1..], if calls[0].Some? then calls[0].value.picture else newest);
    }
  }

  lemma SaneShape<P>(c: Config, s: Stream<P>)
    requires Sane(c, s)
    ensures |s.lastNb0| == 3
  {
  }

  lemma InHandInOrder(s: Stream<int>, newest: int)
    requires InHand(s, newest)
    ensures InOrder(s.sent)
  {
  }

  // Over a whole run: pictures are shown in the order they came, nb_frames_dup
  // is the number of frames that repeat one, and nb_frames_drop with the last
  // report is the number of pictures never shown, but for skipped bursts that
  // are counted twice.
  lemma CountersMeanWhatTheySay(c: Config, calls: seq<Option<Input<int>>>, newest: int)
    requires 0 <= c.maxFrames && Numbered(calls, newest)
    ensures NeverMiscounts(c, Initial<int>(), calls) ==>
      var s := After(c, Initial<int>(), calls);
      && InOrder(s.sent)
      && s.nbFramesDup == |s.sent| - |ShownPictures(s.sent)|
      && s.nbFramesDrop + Bit(s.lastDropped)
         == Pictures(calls) - |ShownPictures(s.sent)| + ExcessOf(c, Initial<int>(), calls)
  {
    hide VideoOut, Miscounts, Excess;
    if NeverMiscounts(c, Initial<int>(), calls) {
      RunKeepsDups(c, Initial<int>(), calls, newest);
      FramesAreConserved(c, calls);
      ChangesCountPictures(After(c, Initial<int>(), calls).sent);
    }
  }

  // The counters can say otherwise: a first picture that is due as the copy of
  // one that does not exist is shown once, and counted as a duplicate and a drop.
  lemma FirstPictureMiscounted(c: Config, input: Input<int>)
    requires c.maxFrames >= 1 && Decide(c, Initial<int>(), Some(input)) == Plan(1, 1, 0)
    requires !TooMany(c, Initial<int>(), Plan(1, 1, 0))
    ensures var s := VideoOut(c, Initial<int>(), Some(input));
      |s.sent| == 1 && s.sent[0].picture == input.picture && s.nbFramesDup == 1 && s.lastDropped
  {
    hide Decide, TooMany;
  }

  // As a picture of no duration at 1.2 frames is.
  lemma LateFirstPictureIsMiscounted()
    ensures Miscounts(GAPPED_CONFIG, Initial<int>(), Some(Input(0, 1.2, 0.0)))
    ensures var s := VideoOut(GAPPED_CONFIG, Initial<int>(), Some(Input(0, 1.2, 0.0)));
      |s.sent| == 1 && s.nbFramesDup == 1 && s.lastDropped
  {
    LateFirstPlan();
    hide Decide, TooMany, VideoOut;
    FirstPictureMiscounted(GAPPED_CONFIG, Input(0, 1.2, 0.0));
  }

  lemma LateFirstPlan()
    ensures Decide(GAPPED_CONFIG, Initial<int>(), Some(Input(0, 1.2, 0.0))) == Plan(1, 1, 0)
    ensures !TooMany(GAPPED_CONFIG, Initial<int>(), Plan(1, 1, 0))
  {
    assert Rint(1.2) == 1 && Rint(0.6) == 1;
    var sync := SyncPlan(GAPPED_CONFIG, Initial<int>(), Input(0, 1.2, 0.0));
    assert sync == CfrPlan(GAPPED_CONFIG, 0, 1.2, 1.2, 0) == Plan(1, 1, 0);
  }
}
