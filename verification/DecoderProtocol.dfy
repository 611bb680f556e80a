/** ffplay.c: the serial protocol between the threads that fill and flush a
    packet queue and the one decoder thread that empties it.

    A state holds the queue, the decoder thread's position in
    decoder_decode_frame with its fields, and the log of what the codec was
    given. A step is one critical section or one read of a shared field, so
    every interleaving of the threads is a sequence of steps. */
module DecoderProtocol {
  import opened Options
  import opened PacketQueues

  // Where the decoder thread stands in decoder_decode_frame.
  datatype Place =
    | AtTop                    // about to compare the serials
    | AtAbortCheck             // about to read abort_request
    | AtReceive                // about to call avcodec_receive_frame
    | AtFetch                  // about to take the pending packet or the next queued one
    | AtCheck(entry: Entry)    // holds a packet, about to compare the serials again
    | AtFeed(entry: Entry)     // about to hand the packet to the codec
    | Returned                 // returned -1: the thread ends

  // pending keeps the whole entry; the code keeps the packet only.
  datatype Decoder = Decoder(place: Place, pktSerial: int, finished: int, pending: Option<Entry>)

  // What happens to the codec: avcodec_flush_buffers (or a new codec), or a packet.
  datatype Event = CodecFlush | Sent(entry: Entry)

  // owed: the queue was emptied and flush_pkt has not been put since.
  // put and talk are history: the packets put since the serial of the queue
  // began, and what passed between the thread and the codec.
  datatype State = State(
    q: Queue, owed: bool, nextId: int, put: seq<Entry>, d: Decoder, log: seq<Event>, talk: seq<Talk>)

  datatype Received = Frame | Eof | Again | Failed

  // Taken: avcodec_send_packet took the packet. Refused: it returned EAGAIN.
  // Kept: a subtitle came out of a null packet, which is kept to be sent again.
  datatype Fed = Taken | Refused | Kept

  // The thread asks for a frame under its serial, offers a packet, flushes the
  // codec for a flush_pkt, or opens a new codec.
  datatype Talk =
    | Asked(serial: int, received: Received)
    | Offered(entry: Entry, fed: Fed)
    | Flushed(entry: Entry)
    | Opened
  {
    function Serial(): int {
      match this
      case Asked(serial, _) => serial
      case Offered(entry, _) => entry.serial
      case Flushed(entry) => entry.serial
      case Opened => -1
    }
  }

  datatype Step =
    | PutPacket(hasData: bool, bytes: nat, span: int)
    | PutFlushPkt
    | FlushQueue
    | AbortQueue
    | StartQueue
    | CompareSerials
    | ReadAbort
    | Receive(received: Received)
    | Fetch
    | Check
    | Feed(fed: Fed)
    | Reopen                   // decoder_destroy, then decoder_init on a new codec

  const INITIAL := State(INITIAL_QUEUE, true, 0, [], Decoder(AtTop, -1, 0, None), [], [])

  predicate Enabled(s: State, step: Step) {
    match step
    case PutPacket(_, _, _) => true
    case PutFlushPkt => true
    case FlushQueue => true
    case AbortQueue => true
    case StartQueue => true
    case CompareSerials => s.d.place.AtTop?
    case ReadAbort => s.d.place.AtAbortCheck?
    case Receive(_) => s.d.place.AtReceive?
    // with nothing pending, nothing queued and no abort, packet_queue_get waits
    case Fetch => s.d.place.AtFetch? && (s.d.pending.Some? || s.q.abortRequest || s.q.entries != [])
    case Check => s.d.place.AtCheck?
    case Feed(fed) =>
      && s.d.place.AtFeed?
      && (fed.Kept? ==> s.d.place.entry.pkt.Pkt? && !s.d.place.entry.pkt.hasData)
    case Reopen => s.d.place.Returned? && s.q.abortRequest && s.owed
  }

  // A flushed queue receives flush_pkt before any other packet; a put that
  // is refused because of an abort does not count.
  predicate Disciplined(s: State, step: Step) {
    step.PutPacket? ==> !s.owed || s.q.abortRequest
  }

  function Do(s: State, step: Step): State
    requires Enabled(s, step)
  {
    match step
    case PutPacket(hasData, bytes, span) =>
      if s.q.abortRequest then s
      else
        var pkt := Pkt(s.nextId, hasData, bytes, span);
        s.(q := s.q.Put(pkt), nextId := s.nextId + 1, put := s.put + [Entry(pkt, s.q.serial)])
    case PutFlushPkt =>
      if s.q.abortRequest then s else s.(q := s.q.Put(FlushPkt), owed := false, put := [])
    case FlushQueue => s.(q := s.q.Flush(), owed := true)
    case AbortQueue => s.(q := s.q.Abort())
    case StartQueue => s.(q := s.q.Start(), owed := false, put := [])
    case CompareSerials =>
      s.(d := s.d.(place := if s.q.serial == s.d.pktSerial then AtAbortCheck else AtFetch))
    case ReadAbort =>
      s.(d := s.d.(place := if s.q.abortRequest then Returned else AtReceive))
    case Receive(received) =>
      var talk := s.talk + [Asked(s.d.pktSerial, received)];
      (match received
       case Eof => s.(d := s.d.(place := AtTop, finished := s.d.pktSerial), log := s.log + [CodecFlush], talk := talk)
       case Frame => s.(d := s.d.(place := AtTop), talk := talk)
       case Again => s.(d := s.d.(place := AtFetch), talk := talk)
       case Failed => s.(d := s.d.(place := AtAbortCheck), talk := talk))
    case Fetch =>
      if s.d.pending.Some? then s.(d := s.d.(place := AtCheck(s.d.pending.value), pending := None))
      else if s.q.abortRequest then s.(d := s.d.(place := Returned))
      else
        var e := s.q.entries[0];
        s.(q := s.q.(entries := s.q.entries[1..]), d := s.d.(place := AtCheck(e), pktSerial := e.serial))
    case Check =>
      s.(d := s.d.(place := if s.q.serial == s.d.pktSerial then AtFeed(s.d.place.entry) else AtFetch))
    case Feed(fed) =>
      var e := s.d.place.entry;
      if e.pkt.FlushPkt? then s.(d := s.d.(place := AtTop, finished := 0), log := s.log + [CodecFlush], talk := s.talk + [Flushed(e)])
      else
        var talk := s.talk + [Offered(e, fed)];
        (match fed
         case Taken => s.(d := s.d.(place := AtTop), log := s.log + [Sent(e)], talk := talk)
         case Refused => s.(d := s.d.(place := AtTop, pending := Some(e)), talk := talk)
         case Kept => s.(d := s.d.(place := AtTop, pending := Some(e)), log := s.log + [Sent(e)], talk := talk))
    case Reopen => s.(d := Decoder(AtTop, -1, 0, None), log := s.log + [CodecFlush], talk := s.talk + [Opened])
  }

  // t is reached from s by the steps, each one possible where it is taken.
  ghost predicate Run(s: State, steps: seq<Step>, t: State)
    decreases |steps|
  {
    if steps == [] then s == t
    else Enabled(s, steps[0]) && Run(Do(s, steps[0]), steps[1..], t)
  }

  ghost predicate DisciplinedRun(s: State, steps: seq<Step>)
    decreases |steps|
  {
    steps == [] ||
    (Enabled(s, steps[0]) && Disciplined(s, steps[0]) && DisciplinedRun(Do(s, steps[0]), steps[1..]))
  }

  // ----- What the protocol is for

  // Between two packets of different serials the codec is flushed.
  ghost predicate SerialsKeptApart(log: seq<Event>) {
    forall i, j :: 0 <= i < j < |log| && log[i].Sent? && log[j].Sent? && log[i].entry.serial != log[j].entry.serial ==>
      exists k :: i < k < j && log[k].CodecFlush?
  }

  // Packets reach the codec in the order they were put; only a null packet can come twice.
  ghost predicate InPutOrder(log: seq<Event>) {
    forall i, j :: 0 <= i < j < |log| && log[i].Sent? && log[j].Sent? ==>
      && log[i].entry.pkt.Pkt? && log[j].entry.pkt.Pkt?
      && (log[i].entry.pkt.id < log[j].entry.pkt.id || (log[i].entry == log[j].entry && !log[j].entry.pkt.hasData))
  }

  // Queued serials never decrease and never pass the serial of the queue.
  ghost predicate SerialsSorted(q: Queue) {
    && (forall i, j :: 0 <= i <= j < |q.entries| ==> q.entries[i].serial <= q.entries[j].serial)
    && (forall i :: 0 <= i < |q.entries| ==> q.entries[i].serial <= q.serial)
  }

  // ----- The invariant

  // The serial of the packets the codec has had since it was last flushed.
  ghost function CodecSerial(log: seq<Event>): Option<int> {
    if log == [] || log[|log| - 1].CodecFlush? then None
    else Some(log[|log| - 1].entry.serial)
  }

  ghost predicate NoMixing(log: seq<Event>) {
    forall i :: 0 < i < |log| && log[i - 1].Sent? && log[i].Sent? ==> log[i - 1].entry.serial == log[i].entry.serial
  }

  // The packet that has left the queue and not yet reached the codec.
  ghost function Held(d: Decoder): Option<Entry> {
    match d.place
    case AtCheck(e) => Some(e)
    case AtFeed(e) => Some(e)
    case _ => d.pending
  }

  // A serial begins with its flush_pkt and ends where the next one begins.
  ghost predicate Chained(q: Queue) {
    && (forall i :: 0 < i < |q.entries| ==>
         q.entries[i].serial == q.entries[i - 1].serial + if q.entries[i].pkt.FlushPkt? then 1 else 0)
    && (q.entries != [] ==> q.entries[|q.entries| - 1].serial == q.serial)
  }

  ghost predicate QueueInv(s: State) {
    && Chained(s.q)
    && (s.owed ==> s.q.entries == [])
    && s.d.pktSerial <= s.q.serial && 0 <= s.q.serial
    && (s.q.entries == [] && !s.owed ==> s.d.pktSerial == s.q.serial)
    && (s.q.entries != [] && s.q.entries[0].pkt.Pkt? ==> s.q.entries[0].serial == s.d.pktSerial)
    && (s.q.entries != [] && s.q.entries[0].pkt.FlushPkt? ==> s.d.pktSerial < s.q.entries[0].serial)
  }

  // A serial older than the decoder's can only be in the codec while the
  // flush_pkt of the newer one is on its way, or after it was discarded as
  // obsolete, in which case so is everything that follows it.
  ghost predicate CodecInv(s: State) {
    var codec, held := CodecSerial(s.log), Held(s.d);
    && NoMixing(s.log)
    && (codec.Some? ==> codec.value <= s.d.pktSerial)
    && (codec.Some? && codec.value < s.d.pktSerial ==>
         (held.Some? && held.value.pkt.FlushPkt?) || s.q.serial > s.d.pktSerial)
    && (s.d.place.AtFeed? && s.d.place.entry.pkt.Pkt? ==> codec.None? || codec.value == s.d.pktSerial)
    && (held.Some? ==> held.value.serial == s.d.pktSerial)
    && (s.d.pending.Some? ==> s.d.pending.value.pkt.Pkt? && !s.d.place.AtCheck? && !s.d.place.AtFeed?)
  }

  ghost predicate Before(a: Entry, b: Entry) {
    a.pkt.Pkt? && b.pkt.Pkt? ==> a.pkt.id < b.pkt.id || (a == b && !a.pkt.hasData)
  }

  ghost predicate OrderInv(s: State) {
    var entries, held := s.q.entries, Held(s.d);
    && (forall i :: 0 <= i < |s.log| && s.log[i].Sent? ==> s.log[i].entry.pkt.Pkt? && s.log[i].entry.pkt.id < s.nextId)
    && (forall i :: 0 <= i < |entries| && entries[i].pkt.Pkt? ==> entries[i].pkt.id < s.nextId)
    && (held.Some? && held.value.pkt.Pkt? ==> held.value.pkt.id < s.nextId)
    && (forall i, j :: 0 <= i < j < |s.log| && s.log[i].Sent? && s.log[j].Sent? ==> Before(s.log[i].entry, s.log[j].entry))
    && (forall i, j :: 0 <= i < j < |entries| && entries[i].pkt.Pkt? && entries[j].pkt.Pkt? ==> entries[i].pkt.id < entries[j].pkt.id)
    && (forall i, j :: 0 <= i < |s.log| && s.log[i].Sent? && 0 <= j < |entries| && entries[j].pkt.Pkt? ==>
         s.log[i].entry.pkt.id < entries[j].pkt.id)
    && (held.Some? ==> forall i :: 0 <= i < |s.log| && s.log[i].Sent? ==> Before(s.log[i].entry, held.value))
    && (held.Some? && held.value.pkt.Pkt? ==>
         forall j :: 0 <= j < |entries| && entries[j].pkt.Pkt? ==> held.value.pkt.id < entries[j].pkt.id)
    && (s.d.pending.Some? ==> !s.d.place.AtCheck? && !s.d.place.AtFeed?)
  }

  ghost predicate Inv(s: State) {
    QueueInv(s) && CodecInv(s) && OrderInv(s)
  }

  lemma StepKeepsQueueInv(s: State, step: Step)
    requires Inv(s) && Enabled(s, step) && Disciplined(s, step)
    ensures QueueInv(Do(s, step))
  {
    if step.PutPacket? || step.PutFlushPkt? || step.StartQueue? {
      PutKeepsQueueInv(s, step);
    } else if step.Fetch? && s.d.pending.None? && !s.q.abortRequest {
      TakeKeepsQueueInv(s);
    } else {
      LessKeepsQueueInv(s, Do(s, step));
    }
  }

  lemma TakeKeepsQueueInv(s: State)
    requires QueueInv(s) && Enabled(s, Fetch) && s.d.pending.None? && !s.q.abortRequest
    ensures QueueInv(Do(s, Fetch))
  {
    ChainedIsSorted(s.q, 0, 0);
    var rest := s.q.entries[1..];
    assert forall i :: 0 <= i < |rest| ==> rest[i] == s.q.entries[i + 1];
  }

  // Steps that leave the entries or drop them all, or start a new decoder.
  lemma LessKeepsQueueInv(s: State, t: State)
    requires QueueInv(s) && t.q.serial == s.q.serial
    requires (t.q.entries == s.q.entries && t.owed == s.owed) || (t.q.entries == [] && t.owed)
    requires t.d.pktSerial == s.d.pktSerial || (t.d.pktSerial == -1 && t.owed && s.q.serial >= 0)
    ensures QueueInv(t)
  {
  }

  lemma PutKeepsQueueInv(s: State, step: Step)
    requires QueueInv(s) && Disciplined(s, step) && (step.PutPacket? || step.PutFlushPkt? || step.StartQueue?)
    ensures QueueInv(Do(s, step))
  {
  }

  lemma StepKeepsCodecInv(s: State, step: Step)
    requires Inv(s) && Enabled(s, step) && Disciplined(s, step)
    ensures CodecInv(Do(s, step))
  {
    if step.Feed? {
      FeedKeepsCodecInv(s, step);
    } else if step.Fetch? && s.d.pending.None? && !s.q.abortRequest {
      TakeKeepsCodecInv(s);
    } else if step.Receive? || step.Reopen? {
      FlushKeepsCodecInv(s, step);
    } else {
      MoveKeepsCodecInv(s, step);
    }
  }

  // Steps that leave the codec alone and take nothing from the queue.
  lemma MoveKeepsCodecInv(s: State, step: Step)
    requires CodecInv(s) && s.d.pktSerial <= s.q.serial
    requires Enabled(s, step) && !step.Feed? && !step.Receive? && !step.Reopen?
    requires step.Fetch? ==> s.d.pending.Some? || s.q.abortRequest
    ensures CodecInv(Do(s, step))
  {
    hide NoMixing, CodecSerial;
  }

  lemma FlushKeepsCodecInv(s: State, step: Step)
    requires QueueInv(s) && CodecInv(s) && Enabled(s, step) && (step.Receive? || step.Reopen?)
    ensures CodecInv(Do(s, step))
  {
  }

  lemma TakeKeepsCodecInv(s: State)
    requires QueueInv(s) && CodecInv(s) && Enabled(s, Fetch) && s.d.pending.None? && !s.q.abortRequest
    ensures CodecInv(Do(s, Fetch))
  {
    hide NoMixing, CodecSerial;
    ChainedIsSorted(s.q, 0, 0);
  }

  lemma FeedKeepsCodecInv(s: State, step: Step)
    requires CodecInv(s) && step.Feed? && Enabled(s, step)
    ensures CodecInv(Do(s, step))
  {
  }

  lemma StepKeepsOrderInv(s: State, step: Step)
    requires OrderInv(s) && Enabled(s, step)
    ensures OrderInv(Do(s, step))
  {
    if step.PutPacket? || step.PutFlushPkt? || step.StartQueue? {
      PutKeepsOrderInv(s, step);
    } else if step.Feed? {
      FeedKeepsOrderInv(s, step);
    } else if step.Fetch? && s.d.pending.None? && !s.q.abortRequest {
      TakeKeepsOrderInv(s);
    } else {
      LessKeepsOrderInv(s, Do(s, step));
    }
  }

  // Steps that only drop packets, or flush the codec.
  lemma LessKeepsOrderInv(s: State, t: State)
    requires OrderInv(s) && t.nextId == s.nextId
    requires t.q.entries == s.q.entries || t.q.entries == []
    requires t.log == s.log || t.log == s.log + [CodecFlush]
    requires Held(t.d) == Held(s.d) || Held(t.d) == None
    requires t.d.pending.Some? ==> !t.d.place.AtCheck? && !t.d.place.AtFeed?
    ensures OrderInv(t)
  {
  }

  lemma PutKeepsOrderInv(s: State, step: Step)
    requires OrderInv(s) && (step.PutPacket? || step.PutFlushPkt? || step.StartQueue?)
    ensures OrderInv(Do(s, step))
  {
  }

  lemma TakeKeepsOrderInv(s: State)
    requires OrderInv(s) && Enabled(s, Fetch) && s.d.pending.None? && !s.q.abortRequest
    ensures OrderInv(Do(s, Fetch))
  {
    assert Do(s, Fetch).q.entries == s.q.entries[1..];
  }

  lemma FeedKeepsOrderInv(s: State, step: Step)
    requires OrderInv(s) && step.Feed? && Enabled(s, step)
    ensures OrderInv(Do(s, step))
  {
    if s.d.place.entry.pkt.FlushPkt? || step.fed.Refused? {
      LessKeepsOrderInv(s, Do(s, step));
    } else {
      SendKeepsOrderInv(s, Do(s, step), s.d.place.entry);
    }
  }

  // The held packet is given to the codec, and perhaps kept.
  lemma SendKeepsOrderInv(s: State, t: State, e: Entry)
    requires OrderInv(s) && Held(s.d) == Some(e) && e.pkt.Pkt?
    requires t.q == s.q && t.nextId == s.nextId && t.log == s.log + [Sent(e)] && t.d.place.AtTop?
    requires t.d.pending == None || (t.d.pending == Some(e) && !e.pkt.hasData)
    ensures OrderInv(t)
  {
  }

  lemma StepKeepsInv(s: State, step: Step)
    requires Inv(s) && Enabled(s, step) && Disciplined(s, step)
    ensures Inv(Do(s, step))
  {
    StepKeepsQueueInv(s, step);
    StepKeepsCodecInv(s, step);
    StepKeepsOrderInv(s, step);
  }

  lemma {:induction false} RunKeepsInv(s: State, steps: seq<Step>, t: State)
    requires Inv(s) && DisciplinedRun(s, steps) && Run(s, steps, t)
    ensures Inv(t)
    decreases |steps|
  {
    if steps != [] {
      StepKeepsInv(s, steps[0]);
      RunKeepsInv(Do(s, steps[0]), steps[1..], t);
    }
  }

  lemma {:induction false} ChainedIsSorted(q: Queue, i: nat, j: nat)
    requires Chained(q) && i <= j < |q.entries|
    ensures q.entries[i].serial <= q.entries[j].serial <= q.serial
    decreases |q.entries| - i
  {
    if i < j {
      ChainedIsSorted(q, i + 1, j);
    } else if j < |q.entries| - 1 {
      ChainedIsSorted(q, i + 1, j + 1);
    }
  }

  lemma {:induction false} SameSegmentSameSerial(log: seq<Event>, i: nat, j: nat)
    requires NoMixing(log) && i <= j < |log|
    requires forall k :: i <= k <= j ==> log[k].Sent?
    ensures log[i].entry.serial == log[j].entry.serial
    decreases j
  {
    if i < j {
      SameSegmentSameSerial(log, i, j - 1);
    }
  }

  // The protocol, over every interleaving.
  lemma CodecNeverMixesSerials(steps: seq<Step>, t: State)
    requires DisciplinedRun(INITIAL, steps) && Run(INITIAL, steps, t)
    ensures SerialsKeptApart(t.log) && InPutOrder(t.log) && SerialsSorted(t.q)
  {
    RunKeepsInv(INITIAL, steps, t);
    forall i, j | 0 <= i <= j < |t.q.entries| ensures t.q.entries[i].serial <= t.q.entries[j].serial <= t.q.serial {
      ChainedIsSorted(t.q, i, j);
    }
    forall i, j | 0 <= i < j < |t.log| && t.log[i].Sent? && t.log[j].Sent? && t.log[i].entry.serial != t.log[j].entry.serial
      ensures exists k :: i < k < j && t.log[k].CodecFlush?
    {
      if forall k :: i < k < j ==> t.log[k].Sent? {
        SameSegmentSameSerial(t.log, i, j);
      }
    }
    forall i, j | 0 <= i < j < |t.log| && t.log[i].Sent? && t.log[j].Sent?
      ensures t.log[i].entry.pkt.Pkt? && t.log[j].entry.pkt.Pkt?
      ensures t.log[i].entry.pkt.id < t.log[j].entry.pkt.id || (t.log[i].entry == t.log[j].entry && !t.log[j].entry.pkt.hasData)
    {
      assert Before(t.log[i].entry, t.log[j].entry);
    }
  }

  // The end of a serial is reported for that serial or an earlier one.
  ghost predicate FinishedInv(s: State) {
    s.d.finished <= s.q.serial && (s.d.finished <= s.d.pktSerial || s.d.finished == 0)
  }

  lemma {:induction false} RunKeepsFinishedInv(s: State, steps: seq<Step>, t: State)
    requires Inv(s) && FinishedInv(s) && DisciplinedRun(s, steps) && Run(s, steps, t)
    ensures FinishedInv(t)
    decreases |steps|
  {
    if steps != [] {
      StepKeepsInv(s, steps[0]);
      StepKeepsFinishedInv(s, steps[0]);
      hide Inv, FinishedInv;
      RunKeepsFinishedInv(Do(s, steps[0]), steps[1..], t);
    }
  }

  lemma StepKeepsFinishedInv(s: State, step: Step)
    requires Inv(s) && FinishedInv(s) && Enabled(s, step)
    ensures FinishedInv(Do(s, step))
  {
    if step.Fetch? && s.q.entries != [] {
      ChainedIsSorted(s.q, 0, 0);
    }
  }

  // Once the queue is started, a decoder that reads as finished in the current
  // serial has caught up with it, and the next flush_pkt makes it unfinished.
  lemma FinishedIsNeverStale(steps: seq<Step>, t: State)
    requires DisciplinedRun(INITIAL, steps) && Run(INITIAL, steps, t)
    ensures t.q.serial > 0 && t.d.finished == t.q.serial ==> t.d.pktSerial == t.q.serial
    ensures !t.q.abortRequest ==> Do(t, PutFlushPkt).d.finished < Do(t, PutFlushPkt).q.serial
  {
    RunKeepsInv(INITIAL, steps, t);
    RunKeepsFinishedInv(INITIAL, steps, t);
  }

  // A packet the decoder throws away at its second comparison is obsolete:
  // the queue has moved on to a later serial, and never comes back to this one.
  lemma OnlyObsoleteIsDiscarded(steps: seq<Step>, t: State, more: seq<Step>, u: State)
    requires DisciplinedRun(INITIAL, steps) && Run(INITIAL, steps, t)
    requires t.d.place.AtCheck? && Do(t, Check).d.place.AtFetch?
    requires Run(t, more, u)
    ensures t.d.place.entry.serial < u.q.serial
  {
    RunKeepsInv(INITIAL, steps, t);
    DiscardIsObsolete(t);
    hide Run, DisciplinedRun, Do;
    SerialNeverDecreases(t, more, u);
  }

  lemma DiscardIsObsolete(t: State)
    requires Inv(t) && t.d.place.AtCheck? && Do(t, Check).d.place.AtFetch?
    ensures t.d.place.entry.serial < t.q.serial
  {
  }

  lemma {:induction false} SerialNeverDecreases(s: State, steps: seq<Step>, t: State)
    requires Run(s, steps, t)
    ensures s.q.serial <= t.q.serial
    decreases |steps|
  {
    if steps != [] {
      SerialNeverDecreases(Do(s, steps[0]), steps[1..], t);
    }
  }

  // ----- The conversation with the codec

  // The events that the conversation amounts to: a codec that reported its end
  // is flushed at once, and a refused packet does not reach it.
  ghost function EventsOf(talk: seq<Talk>): seq<Event> {
    if talk == [] then []
    else
      EventsOf(talk[..|talk| - 1]) +
      match talk[|talk| - 1]
      case Asked(_, received) => if received.Eof? then [CodecFlush] else []
      case Offered(entry, fed) => if fed.Refused? then [] else [Sent(entry)]
      case Flushed(_) => [CodecFlush]
      case Opened => [CodecFlush]
  }

  // What may follow what. A packet is offered only when the codec has just
  // answered that it needs one, and then no other question is asked. After a
  // failure the codec is asked again until the thread ends. A new codec is
  // asked and offered nothing before a flush_pkt. All that follows a flush_pkt
  // is of its serial, and the next one has a greater serial.
  ghost predicate CanFollow(a: Talk, b: Talk) {
    && (b.Offered? ==> a.Asked? && a.received.Again?)
    && (a.Asked? && a.received.Again? ==> !b.Asked?)
    && (a.Asked? && a.received.Failed? ==> b.Asked? || b.Opened?)
    && (a.Opened? ==> b.Flushed? || b.Opened?)
    && (b.Asked? || b.Offered? ==> b.Serial() == a.Serial())
    && (b.Flushed? ==> a.Serial() < b.Serial())
  }

  // A packet that the codec refused, or that is to be sent again.
  ghost function Unsettled(talk: seq<Talk>): Option<Entry> {
    if talk == [] then None
    else match talk[|talk| - 1]
      case Asked(_, _) => Unsettled(talk[..|talk| - 1])
      case Offered(entry, fed) => if fed.Taken? then None else Some(entry)
      case Flushed(_) => None
      case Opened => None
  }

  ghost predicate WellFormed(talk: seq<Talk>) {
    && (talk != [] ==> CanFollow(Opened, talk[0]))
    && (forall k :: 0 < k < |talk| ==> CanFollow(talk[k - 1], talk[k]))
    && (forall k :: 0 <= k < |talk| && talk[k].Offered? && Unsettled(talk[..k]).Some? ==>
         Unsettled(talk[..k]) == Some(talk[k].entry))
  }

  ghost function LastTalk(talk: seq<Talk>): Talk {
    if talk == [] then Opened else talk[|talk| - 1]
  }

  // Where the thread stands in its conversation, and what it may do next.
  ghost predicate TalkInv(s: State) {
    var last, serial := LastTalk(s.talk), s.d.pktSerial;
    var v, again, failed := last.Serial(), last.Asked? && last.received.Again?, last.Asked? && last.received.Failed?;
    && -1 <= serial && (serial == -1 && s.q.entries != [] ==> s.q.entries[0].pkt.FlushPkt?)
    && v <= serial
    && match s.d.place
       case AtTop => v == serial && !again && !failed
       case AtAbortCheck => v == serial && !last.Opened? && !again
       case AtReceive => v == serial && !last.Opened? && !again
       case AtFetch => !failed && ((v == serial && again) || s.q.serial > serial)
       case AtCheck(e) => !failed && if e.pkt.FlushPkt? then v < serial else (v == serial && again) || s.q.serial > serial
       case AtFeed(e) => !failed && if e.pkt.FlushPkt? then v < serial else v == serial && again
       case Returned => true
  }

  // An unsettled packet is the one the thread holds, unless it is obsolete.
  ghost predicate UnsettledInv(s: State) {
    var unsettled := Unsettled(s.talk);
    match s.d.place
    case AtFetch => s.d.pending == unsettled || s.q.serial > s.d.pktSerial
    case AtCheck(e) => unsettled.None? || unsettled == Some(e) || e.pkt.FlushPkt? || s.q.serial > s.d.pktSerial
    case AtFeed(e) => unsettled.None? || unsettled == Some(e) || e.pkt.FlushPkt?
    case Returned => true
    case _ => s.d.pending == unsettled
  }

  ghost predicate ConversationInv(s: State) {
    TalkInv(s) && UnsettledInv(s) && WellFormed(s.talk) && s.log == EventsOf(s.talk)
  }

  lemma TalkAppend(talk: seq<Talk>, x: Talk)
    requires WellFormed(talk) && CanFollow(LastTalk(talk), x)
    requires x.Offered? && Unsettled(talk).Some? ==> Unsettled(talk) == Some(x.entry)
    ensures WellFormed(talk + [x])
    ensures LastTalk(talk + [x]) == x
  {
    var more := talk + [x];
    assert more[..|talk|] == talk;
    forall k | 0 <= k < |more| && more[k].Offered? && Unsettled(more[..k]).Some?
      ensures Unsettled(more[..k]) == Some(more[k].entry)
    {
      assert k < |talk| ==> more[..k] == talk[..k] && more[k] == talk[k];
    }
    hide Unsettled, CanFollow;
  }

  lemma AppendIs(talk: seq<Talk>, x: Talk)
    ensures Unsettled(talk + [x]) ==
      match x
      case Asked(_, _) => Unsettled(talk)
      case Offered(entry, fed) => if fed.Taken? then None else Some(entry)
      case Flushed(_) => None
      case Opened => None
    ensures EventsOf(talk + [x]) == EventsOf(talk) +
      match x
      case Asked(_, received) => if received.Eof? then [CodecFlush] else []
      case Offered(entry, fed) => if fed.Refused? then [] else [Sent(entry)]
      case Flushed(_) => [CodecFlush]
      case Opened => [CodecFlush]
  {
    assert (talk + [x])[..|talk|] == talk;
  }

  // A step in which something is said.
  lemma SpeakKeepsConversationInv(s: State, step: Step)
    requires QueueInv(s) && CodecInv(s) && ConversationInv(s) && Enabled(s, step)
    requires step.Receive? || step.Feed? || step.Reopen?
    ensures ConversationInv(Do(s, step))
  {
    hide QueueInv, CodecInv, TalkInv, UnsettledInv, Unsettled, EventsOf, WellFormed, CanFollow, LastTalk, Said, Do, Enabled;
    SaidCanFollow(s, step);
    SpeakKeepsTalkInv(s, step);
    SpeakKeepsUnsettledInv(s, step);
    SpeakKeepsEvents(s, step);
    TalkAppend(s.talk, Said(s, step));
  }

  lemma SpeakKeepsEvents(s: State, step: Step)
    requires Enabled(s, step) && (step.Receive? || step.Feed? || step.Reopen?) && s.log == EventsOf(s.talk)
    ensures Do(s, step).log == EventsOf(Do(s, step).talk)
  {
    hide EventsOf;
    AppendIs(s.talk, Said(s, step));
    assert s.log + [] == s.log;
  }

  lemma SaidCanFollow(s: State, step: Step)
    requires CodecInv(s) && TalkInv(s) && UnsettledInv(s) && Enabled(s, step)
    requires step.Receive? || step.Feed? || step.Reopen?
    ensures var x := Said(s, step);
      && CanFollow(LastTalk(s.talk), x)
      && (x.Offered? && Unsettled(s.talk).Some? ==> Unsettled(s.talk) == Some(x.entry))
  {
    hide NoMixing, CodecSerial, Unsettled, LastTalk, Do;
  }

  lemma SpeakKeepsTalkInv(s: State, step: Step)
    requires CodecInv(s) && TalkInv(s) && Enabled(s, step)
    requires step.Receive? || step.Feed? || (step.Reopen? && QueueInv(s))
    ensures TalkInv(Do(s, step))
  {
    hide NoMixing, CodecSerial, Chained;
  }

  lemma SpeakKeepsUnsettledInv(s: State, step: Step)
    requires CodecInv(s) && TalkInv(s) && UnsettledInv(s) && Enabled(s, step)
    requires step.Receive? || step.Feed? || step.Reopen?
    ensures UnsettledInv(Do(s, step))
  {
    hide NoMixing, CodecSerial, Unsettled, LastTalk;
    AppendIs(s.talk, Said(s, step));
  }

  // The others.
  lemma SilentKeepsConversationInv(s: State, step: Step)
    requires QueueInv(s) && CodecInv(s) && ConversationInv(s) && Enabled(s, step) && Disciplined(s, step)
    requires !step.Receive? && !step.Feed? && !step.Reopen?
    ensures ConversationInv(Do(s, step))
  {
    hide NoMixing, CodecSerial, Unsettled, EventsOf, WellFormed, LastTalk;
    if step.Fetch? && s.q.entries != [] {
      ChainedIsSorted(s.q, 0, 0);
    }
    hide Chained;
  }

  lemma {:induction false} RunKeepsConversationInv(s: State, steps: seq<Step>, t: State)
    requires Inv(s) && ConversationInv(s) && DisciplinedRun(s, steps) && Run(s, steps, t)
    ensures Inv(t) && ConversationInv(t)
    decreases |steps|
  {
    hide QueueInv, CodecInv, OrderInv, ConversationInv;
    if steps != [] {
      var step := steps[0];
      StepKeepsInv(s, step);
      if step.Receive? || step.Feed? || step.Reopen? {
        SpeakKeepsConversationInv(s, step);
      } else {
        SilentKeepsConversationInv(s, step);
      }
      RunKeepsConversationInv(Do(s, step), steps[1..], t);
    }
  }

  ghost function Said(s: State, step: Step): (x: Talk)
    requires Enabled(s, step) && (step.Receive? || step.Feed? || step.Reopen?)
    ensures Do(s, step).talk == s.talk + [x]
  {
    match step
    case Receive(received) => Asked(s.d.pktSerial, received)
    case Feed(fed) => if s.d.place.entry.pkt.FlushPkt? then Flushed(s.d.place.entry) else Offered(s.d.place.entry, fed)
    case Reopen => Opened
  }

  // The order of the conversation, over every interleaving.
  lemma ConversationIsWellFormed(steps: seq<Step>, t: State)
    requires DisciplinedRun(INITIAL, steps) && Run(INITIAL, steps, t)
    ensures WellFormed(t.talk) && t.log == EventsOf(t.talk)
  {
    RunKeepsConversationInv(INITIAL, steps, t);
  }

  // How often the codec returned a frame or reported its end.
  ghost function Results(talk: seq<Talk>): nat {
    if talk == [] then 0
    else
      var last := talk[|talk| - 1];
      Results(talk[..|talk| - 1]) + if last.Asked? && (last.received.Frame? || last.received.Eof?) then 1 else 0
  }

  // The results still to come of a decoder that has fallen behind, at most.
  ghost function ResultsLeft(s: State): nat {
    if s.d.place.AtAbortCheck? || s.d.place.AtReceive? then 1 else 0
  }

  // What the codec works on is older than the serial.
  ghost predicate Behind(s: State, serial: int) {
    LastTalk(s.talk).Serial() < serial <= s.q.serial
  }

  lemma StaleStep(s: State, step: Step, serial: int)
    requires TalkInv(s) && Enabled(s, step) && !step.Reopen? && Behind(s, serial)
    ensures var t := Do(s, step);
      && Results(t.talk) + ResultsLeft(t) <= Results(s.talk) + ResultsLeft(s)
      && serial <= t.q.serial
  {
    hide Results;
    if step.Receive? || step.Feed? {
      ResultsAppend(s.talk, Said(s, step));
    }
  }

  lemma ResultsAppend(talk: seq<Talk>, x: Talk)
    ensures Results(talk + [x]) == Results(talk) + if x.Asked? && (x.received.Frame? || x.received.Eof?) then 1 else 0
  {
    assert (talk + [x])[..|talk|] == talk;
  }

  lemma SerialOnlyGrows(s: State, step: Step)
    requires TalkInv(s) && CodecInv(s) && Enabled(s, step) && !step.Reopen?
    ensures LastTalk(s.talk).Serial() <= LastTalk(Do(s, step).talk).Serial()
  {
    hide NoMixing, CodecSerial;
  }

  lemma {:induction false} RunOnlyGrows(s: State, steps: seq<Step>, t: State)
    requires Inv(s) && ConversationInv(s) && DisciplinedRun(s, steps) && Run(s, steps, t) && Reopen !in steps
    ensures LastTalk(s.talk).Serial() <= LastTalk(t.talk).Serial()
    decreases |steps|
  {
    hide QueueInv, CodecInv, OrderInv, TalkInv, UnsettledInv, WellFormed, LastTalk;
    if steps != [] {
      RunKeepsConversationInv(s, [steps[0]], Do(s, steps[0]));
      SerialOnlyGrows(s, steps[0]);
      RunOnlyGrows(Do(s, steps[0]), steps[1..], t);
    }
  }

  lemma {:induction false} StaleRun(s: State, steps: seq<Step>, t: State, serial: int)
    requires Inv(s) && ConversationInv(s) && DisciplinedRun(s, steps) && Run(s, steps, t) && Reopen !in steps
    requires serial <= s.q.serial && LastTalk(t.talk).Serial() < serial
    ensures Results(t.talk) + ResultsLeft(t) <= Results(s.talk) + ResultsLeft(s)
    decreases |steps|
  {
    hide QueueInv, CodecInv, OrderInv, TalkInv, UnsettledInv, WellFormed, LastTalk, Results, ResultsLeft;
    if steps != [] {
      RunOnlyGrows(s, steps, t);
      StaleStep(s, steps[0], serial);
      RunKeepsConversationInv(s, [steps[0]], Do(s, steps[0]));
      StaleRun(Do(s, steps[0]), steps[1..], t, serial);
    }
  }

  // Once a new serial began, by a seek say, the thread reports at most one more
  // result of an older one, whatever it was doing: the next result after that
  // comes when the flush_pkt of the new serial has gone through the codec.
  lemma AtMostOneStaleResult(steps: seq<Step>, t: State, more: seq<Step>, u: State)
    requires DisciplinedRun(INITIAL, steps) && Run(INITIAL, steps, t)
    requires DisciplinedRun(t, more) && Run(t, more, u) && Reopen !in more
    requires LastTalk(u.talk).Serial() < t.q.serial
    ensures Results(u.talk) <= Results(t.talk) + 1
  {
    RunKeepsConversationInv(INITIAL, steps, t);
    StaleRun(t, more, u, t.q.serial);
  }

  // ----- The end of a serial

  ghost predicate EofIn(s: State, serial: int) {
    exists k :: 0 <= k < |s.talk| && s.talk[k] == Asked(serial, Eof)
  }

  ghost predicate AskedIn(s: State, serial: int) {
    exists k :: 0 <= k < |s.talk| && s.talk[k].Asked? && s.talk[k].serial == serial
  }

  // The codec is asked under a serial only after its flush_pkt went through.
  ghost predicate EofInv(s: State) {
    && (forall k :: 0 <= k < |s.talk| && s.talk[k].Asked? ==> s.talk[k].serial <= s.q.serial)
    && (!s.owed && AskedIn(s, s.q.serial) ==>
          s.d.pktSerial == s.q.serial && !(Held(s.d).Some? && Held(s.d).value.pkt.FlushPkt?))
    && (!s.owed ==> s.q.serial > 0 && (s.d.finished == s.q.serial <==> EofIn(s, s.q.serial)))
    && (!s.owed && s.d.pktSerial == s.q.serial && !(Held(s.d).Some? && Held(s.d).value.pkt.FlushPkt?) ==>
          s.d.finished == 0 || s.d.finished == s.q.serial)
  }

  lemma NewSerialKeepsEofInv(s: State, step: Step)
    requires QueueInv(s) && EofInv(s) && FinishedInv(s)
    requires (step.PutFlushPkt? && !s.q.abortRequest) || step.StartQueue?
    ensures EofInv(Do(s, step))
  {
  }

  lemma AskKeepsEofInv(s: State, received: Received)
    requires QueueInv(s) && CodecInv(s) && EofInv(s) && FinishedInv(s) && Enabled(s, Receive(received))
    ensures EofInv(Do(s, Receive(received)))
  {
    var t, n := Do(s, Receive(received)), |s.talk|;
    assert t.talk[n] == Asked(s.d.pktSerial, received);
    assert forall k :: 0 <= k < n ==> t.talk[k] == s.talk[k];
    if EofIn(s, s.q.serial) {
      var k :| 0 <= k < n && s.talk[k] == Asked(s.q.serial, Eof);
      assert t.talk[k] == Asked(s.q.serial, Eof);
      assert AskedIn(s, s.q.serial);
    }
    if AskedIn(t, s.q.serial) && s.d.pktSerial != s.q.serial {
      assert AskedIn(s, s.q.serial);
    }
  }

  lemma NotAsked(s: State, t: State)
    requires t.talk == s.talk || (|t.talk| == |s.talk| + 1 && t.talk[..|s.talk|] == s.talk && !t.talk[|s.talk|].Asked?)
    ensures EofIn(t, s.q.serial) == EofIn(s, s.q.serial) && AskedIn(t, s.q.serial) == AskedIn(s, s.q.serial)
  {
    assert forall k :: 0 <= k < |s.talk| ==> s.talk[k] == t.talk[..|s.talk|][k] == t.talk[k];
    forall k | 0 <= k < |t.talk| && t.talk[k].Asked? ensures k < |s.talk| && s.talk[k] == t.talk[k] {
    }
  }

  lemma FeedKeepsEofInv(s: State, step: Step)
    requires QueueInv(s) && CodecInv(s) && EofInv(s) && FinishedInv(s) && step.Feed? && Enabled(s, step)
    ensures EofInv(Do(s, step))
  {
    var t := Do(s, step);
    NotAsked(s, t);
    if EofIn(s, s.q.serial) {
      var k :| 0 <= k < |s.talk| && s.talk[k] == Asked(s.q.serial, Eof);
      assert AskedIn(s, s.q.serial);
    }
    hide EofIn, AskedIn;
  }

  lemma OtherKeepsEofInv(s: State, step: Step)
    requires QueueInv(s) && CodecInv(s) && EofInv(s) && Enabled(s, step)
    requires !step.Feed? && !step.Receive? && !step.StartQueue? && (step.PutFlushPkt? ==> s.q.abortRequest)
    ensures EofInv(Do(s, step))
  {
    var t := Do(s, step);
    NotAsked(s, t);
    hide EofIn, AskedIn;
    if step.Fetch? && s.q.entries != [] {
      ChainedIsSorted(s.q, 0, 0);
    }
  }

  lemma {:induction false} RunKeepsEofInv(s: State, steps: seq<Step>, t: State)
    requires Inv(s) && FinishedInv(s) && EofInv(s) && DisciplinedRun(s, steps) && Run(s, steps, t)
    ensures EofInv(t)
    decreases |steps|
  {
    if steps != [] {
      var step := steps[0];
      StepKeepsInv(s, step);
      StepKeepsFinishedInv(s, step);
      hide QueueInv, CodecInv, OrderInv, FinishedInv, EofInv;
      if (step.PutFlushPkt? && !s.q.abortRequest) || step.StartQueue? {
        NewSerialKeepsEofInv(s, step);
      } else if step.Receive? {
        AskKeepsEofInv(s, step.received);
      } else if step.Feed? {
        FeedKeepsEofInv(s, step);
      } else {
        OtherKeepsEofInv(s, step);
      }
      RunKeepsEofInv(Do(s, step), steps[1..], t);
    }
  }

  // Unless the queue was just emptied, the decoder reads as finished in the
  // current serial exactly when the codec reported its end under that serial;
  // once the flush_pkt of the serial went through it reads 0 until then.
  lemma FinishedIffEof(steps: seq<Step>, t: State)
    requires DisciplinedRun(INITIAL, steps) && Run(INITIAL, steps, t)
    ensures !t.owed ==> (t.d.finished == t.q.serial <==> EofIn(t, t.q.serial))
    ensures !t.owed && t.d.pktSerial == t.q.serial && !(Held(t.d).Some? && Held(t.d).value.pkt.FlushPkt?) ==>
              t.d.finished == if EofIn(t, t.q.serial) then t.q.serial else 0
  {
    RunKeepsEofInv(INITIAL, steps, t);
  }

  // ----- The end of the thread

  predicate OfDecoder(step: Step) {
    step.CompareSerials? || step.ReadAbort? || step.Receive? || step.Fetch? || step.Check? || step.Feed?
  }

  // How many steps an aborted decoder thread still takes, at most.
  function StepsLeft(s: State): nat {
    var current := s.q.serial == s.d.pktSerial;
    match s.d.place
    case Returned => 0
    case AtAbortCheck => 1
    case AtReceive => 6
    case AtTop => if current then 2 else 4
    case AtFetch => if s.d.pending.None? then 1 else if current then 5 else 3
    case AtCheck(_) => if current then 4 else 2
    case AtFeed(_) => if current then 3 else 5
  }

  ghost predicate OneHand(s: State) {
    s.d.place.AtCheck? || s.d.place.AtFeed? ==> s.d.pending.None?
  }

  lemma AbortedStep(s: State, step: Step)
    requires s.q.abortRequest && OneHand(s) && Enabled(s, step) && !step.StartQueue? && !step.Reopen?
    ensures var t := Do(s, step);
      && t.q.abortRequest && OneHand(t)
      && StepsLeft(t) + (if OfDecoder(step) then 1 else 0) <= StepsLeft(s)
  {
  }

  // It is never stuck before it returns.
  lemma AbortedMoves(s: State)
    requires s.q.abortRequest && OneHand(s) && !s.d.place.Returned?
    ensures exists step :: OfDecoder(step) && Enabled(s, step)
  {
    match s.d.place
    case AtTop => assert OfDecoder(CompareSerials) && Enabled(s, CompareSerials);
    case AtAbortCheck => assert OfDecoder(ReadAbort) && Enabled(s, ReadAbort);
    case AtReceive => assert OfDecoder(Receive(Again)) && Enabled(s, Receive(Again));
    case AtFetch => assert OfDecoder(Fetch) && Enabled(s, Fetch);
    case AtCheck(_) => assert OfDecoder(Check) && Enabled(s, Check);
    case AtFeed(_) => assert OfDecoder(Feed(Taken)) && Enabled(s, Feed(Taken));
  }

  function DecoderSteps(steps: seq<Step>): nat {
    if steps == [] then 0 else (if OfDecoder(steps[0]) then 1 else 0) + DecoderSteps(steps[1..])
  }

  ghost predicate StaysAborted(steps: seq<Step>) {
    forall i :: 0 <= i < |steps| ==> !steps[i].StartQueue? && !steps[i].Reopen?
  }

  lemma {:induction false} AbortedRun(s: State, steps: seq<Step>, t: State)
    requires s.q.abortRequest && OneHand(s) && StaysAborted(steps) && Run(s, steps, t)
    ensures t.q.abortRequest && OneHand(t) && DecoderSteps(steps) + StepsLeft(t) <= StepsLeft(s)
    decreases |steps|
  {
    if steps != [] {
      AbortedStep(s, steps[0]);
      hide Do, StepsLeft;
      AbortedRun(Do(s, steps[0]), steps[1..], t);
    }
  }

  // After packet_queue_abort the decoder thread takes at most six more steps,
  // whatever the other threads do, and when it can take none it has returned:
  // decoder_abort does not wait for it in vain.
  lemma AbortEndsTheThread(steps: seq<Step>, t: State, more: seq<Step>, u: State)
    requires DisciplinedRun(INITIAL, steps) && Run(INITIAL, steps, t)
    requires StaysAborted(more) && Run(Do(t, AbortQueue), more, u)
    ensures DecoderSteps(more) <= 6
    ensures (forall step :: OfDecoder(step) ==> !Enabled(u, step)) ==> u.d.place.Returned?
  {
    RunKeepsInv(INITIAL, steps, t);
    AbortedRun(Do(t, AbortQueue), more, u);
    if !u.d.place.Returned? {
      AbortedMoves(u);
    }
  }

  // ----- Nothing is lost

  // A null packet that is sent again counts once.
  ghost function AddOnce(entries: seq<Entry>, e: Entry): seq<Entry> {
    if entries != [] && entries[|entries| - 1] == e then entries else entries + [e]
  }

  // The packets of a serial that the codec was given.
  ghost function Delivered(log: seq<Event>, serial: int): seq<Entry> {
    if log == [] then []
    else
      var before, last := Delivered(log[..|log| - 1], serial), log[|log| - 1];
      if last.Sent? && last.entry.serial == serial then AddOnce(before, last.entry) else before
  }

  // Those, and then the one the decoder holds.
  ghost function Reached(s: State): seq<Entry> {
    var delivered, held := Delivered(s.log, s.q.serial), Held(s.d);
    if held.Some? && held.value.pkt.Pkt? && held.value.serial == s.q.serial then AddOnce(delivered, held.value)
    else delivered
  }

  ghost function Queued(entries: seq<Entry>, serial: int): seq<Entry> {
    if entries == [] then []
    else
      var e := entries[0];
      (if e.pkt.Pkt? && e.serial == serial then [e] else []) + Queued(entries[1..], serial)
  }

  ghost predicate NothingLost(s: State) {
    s.put == Reached(s) + Queued(s.q.entries, s.q.serial)
  }

  // No serial the codec has seen is ahead of the queue.
  ghost predicate LogInv(s: State) {
    forall i :: 0 <= i < |s.log| && s.log[i].Sent? ==> s.log[i].entry.serial <= s.q.serial
  }

  lemma {:induction false} QueuedAppend(entries: seq<Entry>, e: Entry, serial: int)
    ensures Queued(entries + [e], serial) == Queued(entries, serial) + if e.pkt.Pkt? && e.serial == serial then [e] else []
  {
    if entries == [] {
      assert entries + [e] == [e] && [e][1..] == [];
    } else {
      assert (entries + [e])[1..] == entries[1..] + [e];
      QueuedAppend(entries[1..], e, serial);
    }
  }

  lemma {:induction false} NoneQueued(entries: seq<Entry>, serial: int)
    requires forall i :: 0 <= i < |entries| ==> entries[i].pkt.FlushPkt? || entries[i].serial != serial
    ensures Queued(entries, serial) == []
  {
    if entries != [] {
      NoneQueued(entries[1..], serial);
    }
  }

  lemma {:induction false} NoneDelivered(log: seq<Event>, serial: int)
    requires forall i :: 0 <= i < |log| && log[i].Sent? ==> log[i].entry.serial != serial
    ensures Delivered(log, serial) == []
  {
    if log != [] {
      NoneDelivered(log[..|log| - 1], serial);
    }
  }

  lemma DeliveredAppend(log: seq<Event>, event: Event, serial: int)
    ensures Delivered(log + [event], serial)
            == if event.Sent? && event.entry.serial == serial then AddOnce(Delivered(log, serial), event.entry)
               else Delivered(log, serial)
  {
    assert (log + [event])[..|log|] == log;
  }

  lemma {:induction false} DeliveredIsSent(log: seq<Event>, serial: int, e: Entry)
    requires e in Delivered(log, serial)
    ensures exists i :: 0 <= i < |log| && log[i] == Sent(e)
  {
    var last := log[|log| - 1];
    if !(last == Sent(e)) {
      DeliveredIsSent(log[..|log| - 1], serial, e);
      var i :| 0 <= i < |log| - 1 && log[..|log| - 1][i] == Sent(e);
      assert log[i] == Sent(e);
    }
  }

  lemma AddTwice(entries: seq<Entry>, e: Entry)
    ensures AddOnce(AddOnce(entries, e), e) == AddOnce(entries, e)
  {
  }

  lemma StepKeepsLogInv(s: State, step: Step)
    requires Inv(s) && LogInv(s) && Enabled(s, step)
    ensures LogInv(Do(s, step))
  {
  }

  // A new serial begins with nothing put, reached or queued.
  lemma NewSerialLosesNothing(s: State, step: Step)
    requires Inv(s) && LogInv(s) && (step.PutFlushPkt? || step.StartQueue?) && Do(s, step).q.serial == s.q.serial + 1
    ensures NothingLost(Do(s, step))
  {
    var t := Do(s, step);
    forall i | 0 <= i < |s.q.entries| ensures s.q.entries[i].serial <= s.q.serial {
      ChainedIsSorted(s.q, i, i);
    }
    NoneQueued(t.q.entries, t.q.serial);
    NoneDelivered(t.log, t.q.serial);
  }

  lemma PutLosesNothing(s: State, step: Step)
    requires NothingLost(s) && step.PutPacket?
    ensures NothingLost(Do(s, step))
  {
    if !s.q.abortRequest {
      var e := Entry(Pkt(s.nextId, step.hasData, step.bytes, step.span), s.q.serial);
      QueuedAppend(s.q.entries, e, s.q.serial);
      assert Reached(s) + (Queued(s.q.entries, s.q.serial) + [e]) == s.put + [e];
    }
  }

  lemma DeliveredBefore(s: State, e: Entry)
    requires OrderInv(s) && s.q.entries != [] && s.q.entries[0] == e && e.pkt.Pkt?
    ensures forall d :: d in Delivered(s.log, s.q.serial) ==> d.pkt.Pkt? && d.pkt.id < e.pkt.id
  {
    forall d | d in Delivered(s.log, s.q.serial) ensures d.pkt.Pkt? && d.pkt.id < e.pkt.id {
      DeliveredIsSent(s.log, s.q.serial, d);
      var i :| 0 <= i < |s.log| && s.log[i] == Sent(d);
    }
  }

  // The oldest queued packet becomes the held one.
  lemma TakeLosesNothing(s: State)
    requires Inv(s) && NothingLost(s) && Enabled(s, Fetch) && s.d.pending.None? && !s.q.abortRequest
    ensures NothingLost(Do(s, Fetch))
  {
    var e, delivered := s.q.entries[0], Delivered(s.log, s.q.serial);
    if e.pkt.Pkt? {
      DeliveredBefore(s, e);
      assert delivered != [] ==> delivered[|delivered| - 1] in delivered;
    }
    hide Delivered;
    assert (delivered + [e]) + Queued(s.q.entries[1..], s.q.serial) == delivered + ([e] + Queued(s.q.entries[1..], s.q.serial));
    assert [] + Queued(s.q.entries[1..], s.q.serial) == Queued(s.q.entries[1..], s.q.serial);
  }

  // The held packet goes to the codec, or stays.
  lemma FeedLosesNothing(s: State, step: Step)
    requires NothingLost(s) && step.Feed? && Enabled(s, step) && s.d.pending.None?
    ensures NothingLost(Do(s, step))
  {
    hide AddOnce, Delivered, Queued;
    var e := s.d.place.entry;
    DeliveredAppend(s.log, if e.pkt.FlushPkt? then CodecFlush else Sent(e), s.q.serial);
    AddTwice(Delivered(s.log, s.q.serial), e);
    assert Reached(Do(s, step)) == Reached(s);
  }

  // Every other step of a decoder whose queue is not being refilled.
  lemma OtherLosesNothing(s: State, step: Step)
    requires Inv(s) && NothingLost(s) && Enabled(s, step) && !Do(s, step).owed
    requires !step.PutPacket? && !step.PutFlushPkt? && !step.StartQueue? && !step.Feed?
    requires step.Fetch? ==> s.d.pending.Some? || s.q.abortRequest
    ensures NothingLost(Do(s, step))
  {
    if step.Receive? {
      DeliveredAppend(s.log, CodecFlush, s.q.serial);
    }
    hide Delivered, Queued;
  }

  lemma NothingPending(s: State)
    requires Inv(s)
    ensures s.d.place.AtFeed? || s.d.place.AtCheck? ==> s.d.pending.None?
  {
  }

  lemma StepLosesNothing(s: State, step: Step)
    requires Inv(s) && LogInv(s) && Enabled(s, step) && Disciplined(s, step) && (!s.owed ==> NothingLost(s))
    ensures !Do(s, step).owed ==> NothingLost(Do(s, step))
  {
    if !Do(s, step).owed {
      if (step.PutFlushPkt? && !s.q.abortRequest) || step.StartQueue? {
        NewSerialLosesNothing(s, step);
      } else {
        assert !s.owed;
        hide NothingLost, Inv;
        if step.PutPacket? {
          PutLosesNothing(s, step);
        } else if step.PutFlushPkt? {
          assert Do(s, step) == s;
        } else if step.Feed? {
          NothingPending(s);
          FeedLosesNothing(s, step);
        } else if step.Fetch? && s.d.pending.None? && !s.q.abortRequest {
          TakeLosesNothing(s);
        } else {
          OtherLosesNothing(s, step);
        }
      }
    }
  }

  lemma {:induction false} RunLosesNothing(s: State, steps: seq<Step>, t: State)
    requires Inv(s) && LogInv(s) && (!s.owed ==> NothingLost(s)) && DisciplinedRun(s, steps) && Run(s, steps, t)
    ensures !t.owed ==> NothingLost(t)
    decreases |steps|
  {
    hide Inv, LogInv, NothingLost;
    if steps != [] {
      StepKeepsInv(s, steps[0]);
      StepKeepsLogInv(s, steps[0]);
      StepLosesNothing(s, steps[0]);
      RunLosesNothing(Do(s, steps[0]), steps[1..], t);
    }
  }

  // Unless the queue was just emptied, the packets put since its serial began
  // are those the codec was given, the one the decoder holds, and those queued, in order.
  lemma EveryPacketArrives(steps: seq<Step>, t: State)
    requires DisciplinedRun(INITIAL, steps) && Run(INITIAL, steps, t)
    ensures !t.owed ==> t.put == Reached(t) + Queued(t.q.entries, t.q.serial)
  {
    RunLosesNothing(INITIAL, steps, t);
  }

  // The discipline is needed: in this run the queue is flushed after flush_pkt
  // was put, and a packet of serial 2 follows one of serial 1 into the codec.
  lemma FlushWithoutFlushPktMixesSerials() returns (steps: seq<Step>, t: State)
    ensures Run(INITIAL, steps, t) && !SerialsKeptApart(t.log)
  {
    hide Run, Do, Enabled;
    var steps1 := [StartQueue, FlushQueue, PutPacket(true, 1, 0)];
    var steps2 := [CompareSerials, Fetch, Check, Feed(Taken)];
    var steps3 := [PutFlushPkt, FlushQueue, PutPacket(true, 1, 0)];
    var e1, e2 := Entry(Pkt(0, true, 1, 0), 1), Entry(Pkt(1, true, 1, 0), 2);
    var t1 := FirstPacketPut();
    DecoderTakes(t1, e1);
    var t2 := t1.(q := t1.q.(entries := []), d := t1.d.(pktSerial := 1), log := [Sent(e1)], talk := [Offered(e1, Taken)]);
    var t3 := SecondPacketPut(t2);
    DecoderTakes(t3, e2);
    t := t3.(q := t3.q.(entries := []), d := t3.d.(pktSerial := 2), log := [Sent(e1), Sent(e2)], talk := [Offered(e1, Taken), Offered(e2, Taken)]);
    assert t1.log + [Sent(e1)] == [Sent(e1)] && t3.log + [Sent(e2)] == [Sent(e1), Sent(e2)];
    assert t1.talk + [Offered(e1, Taken)] == [Offered(e1, Taken)] && t3.talk + [Offered(e2, Taken)] == [Offered(e1, Taken), Offered(e2, Taken)];
    RunAppend(INITIAL, steps1, t1, steps2, t2);
    RunAppend(INITIAL, steps1 + steps2, t2, steps3, t3);
    RunAppend(INITIAL, steps1 + steps2 + steps3, t3, steps2, t);
    steps := steps1 + steps2 + steps3 + steps2;
    assert t.log[0].entry.serial != t.log[1].entry.serial;
  }

  lemma FirstPacketPut() returns (t: State)
    ensures Run(INITIAL, [StartQueue, FlushQueue, PutPacket(true, 1, 0)], t)
    ensures t == State(Queue([Entry(Pkt(0, true, 1, 0), 1)], 1, false), true, 1, [Entry(Pkt(0, true, 1, 0), 1)], Decoder(AtTop, -1, 0, None), [], [])
  {
    RunOfThree(INITIAL, StartQueue, FlushQueue, PutPacket(true, 1, 0));
    t := Do(Do(Do(INITIAL, StartQueue), FlushQueue), PutPacket(true, 1, 0));
  }

  lemma SecondPacketPut(s: State) returns (t: State)
    requires s.q == Queue([], 1, false) && s.nextId == 1
    ensures Run(s, [PutFlushPkt, FlushQueue, PutPacket(true, 1, 0)], t)
    ensures t == s.(q := Queue([Entry(Pkt(1, true, 1, 0), 2)], 2, false), owed := true, nextId := 2, put := [Entry(Pkt(1, true, 1, 0), 2)])
  {
    RunOfThree(s, PutFlushPkt, FlushQueue, PutPacket(true, 1, 0));
    t := Do(Do(Do(s, PutFlushPkt), FlushQueue), PutPacket(true, 1, 0));
  }

  lemma RunOfThree(s: State, a: Step, b: Step, c: Step)
    requires Enabled(s, a) && Enabled(Do(s, a), b) && Enabled(Do(Do(s, a), b), c)
    ensures Run(s, [a, b, c], Do(Do(Do(s, a), b), c))
  {
    assert [a, b, c][1..] == [b, c] && [b, c][1..] == [c] && [c][1..] == [];
    assert Run(Do(Do(s, a), b), [c], Do(Do(Do(s, a), b), c));
    assert Run(Do(s, a), [b, c], Do(Do(Do(s, a), b), c));
  }

  // The decoder, back at the top, takes the only queued packet to the codec.
  lemma DecoderTakes(s: State, e: Entry)
    requires s.q.entries == [e] && !s.q.abortRequest && e.serial == s.q.serial && e.pkt.Pkt?
    requires s.d.place == AtTop && s.d.pktSerial != s.q.serial && s.d.pending == None
    ensures Run(s, [CompareSerials, Fetch, Check, Feed(Taken)],
                s.(q := s.q.(entries := []), d := s.d.(pktSerial := e.serial), log := s.log + [Sent(e)], talk := s.talk + [Offered(e, Taken)]))
  {
    var t := s.(q := s.q.(entries := []), d := s.d.(pktSerial := e.serial, place := AtFeed(e)));
    RunOfThree(s, CompareSerials, Fetch, Check);
    assert Do(Do(Do(s, CompareSerials), Fetch), Check) == t;
    var u := Do(t, Feed(Taken));
    assert [Feed(Taken)][1..] == [] && Run(t, [Feed(Taken)], u);
    RunAppend(s, [CompareSerials, Fetch, Check], t, [Feed(Taken)], u);
    assert [CompareSerials, Fetch, Check] + [Feed(Taken)] == [CompareSerials, Fetch, Check, Feed(Taken)];
  }

  lemma {:induction false} RunAppend(s: State, steps: seq<Step>, t: State, more: seq<Step>, u: State)
    requires Run(s, steps, t) && Run(t, more, u)
    ensures Run(s, steps + more, u)
    decreases |steps|
  {
    if steps == [] {
      assert steps + more == more;
    } else {
      assert (steps + more)[1..] == steps[1..] + more;
      RunAppend(Do(s, steps[0]), steps[1..], t, more, u);
    }
  }
}
