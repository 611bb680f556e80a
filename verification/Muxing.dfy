/** ffmpeg.c: write_packet, which buffers packets until the header of the
    output file is written and repairs their timestamps on the way to the
    muxer, and the flush of those buffers in check_init_output_file.

    `Mux` is one output stream as a value. Packets carry timestamps already
    rescaled to the time base of the stream. */
module Muxing {
  import opened Numbers
  import opened Options

  const AV_NOPTS_VALUE: int := -0x8000_0000_0000_0000

  // id stands for the payload.
  datatype Packet = Packet(id: int, size: nat, pts: int, dts: int)
  {
    predicate HasDts() { dts != AV_NOPTS_VALUE }
    predicate HasPts() { pts != AV_NOPTS_VALUE }

    // Both timestamps fit in 64 bits.
    predicate InRange() { AV_NOPTS_VALUE <= pts && AV_NOPTS_VALUE <= dts }

    // The same payload; the timestamps may differ.
    predicate Carries(p: Packet) { id == p.id && size == p.size }
  }

  datatype Media = Audio | Video | Subtitle | Other

  // vp9Copy: a VP9 stream that is copied. dropTimestamps: video with
  // VSYNC_DROP, or audio with a negative audio_sync_method. maxQueue is in packets.
  datatype Config = Config(
    media: Media, encoding: bool, vp9Copy: bool, dropTimestamps: bool,
    noTimestamps: bool, nonStrict: bool, exitOnError: bool,
    maxFrames: int, maxQueue: int, dataThreshold: int)
  {
    predicate EncodedVideo() { media.Video? && encoding }

    // The streams whose dts are made to increase.
    predicate Monotonic() { !media.Other? && !vp9Copy && !noTimestamps }

    function Gap(): int { if nonStrict then 0 else 1 }
  }

  // accepted is history: the packets that were not turned away.
  datatype Mux = Mux(
    headerWritten: bool, frameNumber: int, queue: seq<Packet>, capacity: nat, queueBytes: int,
    lastMuxDts: int, written: seq<Packet>, accepted: seq<Packet>)

  // The muxing queue starts with room for 8 packets.
  const INITIAL := Mux(false, 0, [], 8, 0, AV_NOPTS_VALUE, [], [])

  // What a timestamp below its successor's is replaced by.
  function Guess(pts: int, dts: int, next: int): int {
    pts + dts + next - Min(Min(pts, dts), next) - Max(Max(pts, dts), next)
  }

  function ResetTimestamps(c: Config, p: Packet): Packet {
    if c.dropTimestamps then p.(pts := AV_NOPTS_VALUE, dts := AV_NOPTS_VALUE) else p
  }

  function OrderTimestamps(last: int, p: Packet): Packet {
    if p.HasDts() && p.HasPts() && p.dts > p.pts then
      var guess := Guess(p.pts, p.dts, last + 1);
      p.(pts := guess, dts := guess)
    else p
  }

  // The dts has to follow the last one.
  predicate TooEarly(c: Config, last: int, p: Packet) {
    c.Monotonic() && p.HasDts() && last != AV_NOPTS_VALUE && p.dts < last + c.Gap()
  }

  function Delay(c: Config, last: int, p: Packet): Packet {
    if TooEarly(c, last, p) then
      var least := last + c.Gap();
      p.(pts := if p.pts >= p.dts then Max(p.pts, least) else p.pts, dts := least)
    else p
  }

  // The packet handed to the muxer, or None where the program exits.
  function Repair(c: Config, last: int, p: Packet): Option<Packet> {
    var p0 := ResetTimestamps(c, p);
    if c.noTimestamps then Some(p0)
    else
      var p1 := OrderTimestamps(last, p0);
      if TooEarly(c, last, p1) && c.exitOnError then None else Some(Delay(c, last, p1))
  }

  // write_packet once the header is written.
  function Deliver(c: Config, s: Mux, p: Packet): Option<Mux> {
    var repaired := Repair(c, s.lastMuxDts, p);
    if repaired.None? then None
    else Some(s.(lastMuxDts := repaired.value.dts, written := s.written + [repaired.value]))
  }

  // The size the full queue grows to.
  function GrownCapacity(c: Config, s: Mux, p: Packet): int {
    if s.queueBytes + p.size > c.dataThreshold then Min(2 * |s.queue|, c.maxQueue) else 2 * |s.queue|
  }

  // write_packet before that: "Too many packets buffered" exits.
  function Buffer(c: Config, s: Mux, p: Packet): Option<Mux> {
    var grown := if s.capacity > |s.queue| then s.capacity else GrownCapacity(c, s, p);
    if grown <= |s.queue| then None
    else Some(s.(capacity := grown, queue := s.queue + [p], queueBytes := s.queueBytes + p.size))
  }

  // The stream once p was accepted.
  function Accept(c: Config, s: Mux, p: Packet): Mux {
    s.(frameNumber := if c.EncodedVideo() then s.frameNumber else s.frameNumber + 1, accepted := s.accepted + [p])
  }

  // write_packet for a packet that does not come from the queue.
  function Write(c: Config, s: Mux, p: Packet): Option<Mux> {
    if !c.EncodedVideo() && s.frameNumber >= c.maxFrames then Some(s)
    else if s.headerWritten then Deliver(c, Accept(c, s, p), p)
    else Buffer(c, Accept(c, s, p), p)
  }

  // The queue without its first packet.
  function Unqueued(s: Mux): Mux
    requires s.queue != []
  {
    s.(queue := s.queue[1..], queueBytes := s.queueBytes - s.queue[0].size)
  }

  // The loop of check_init_output_file over one stream.
  function FlushQueue(c: Config, s: Mux): Option<Mux>
    decreases |s.queue|
  {
    if s.queue == [] then Some(s)
    else
      var s1 := Deliver(c, Unqueued(s), s.queue[0]);
      if s1.None? then None else FlushQueue(c, s1.value)
  }

  function WriteHeader(c: Config, s: Mux): Option<Mux> {
    FlushQueue(c, s.(headerWritten := true))
  }

  class OutputFile {
    var headerWritten: bool
    const streams: seq<OutputStream>

    constructor (streams: seq<OutputStream>)
      ensures !headerWritten && this.streams == streams
    {
      this.streams := streams;
      headerWritten := false;
    }

    ghost predicate Distinct() {
      forall i, j :: 0 <= i < j < |streams| ==> streams[i] != streams[j]
    }

    // check_init_output_file, once every stream of the file is initialized.
    method CheckInitOutputFile() returns (exited: bool)
      requires Distinct()
      modifies this, streams
      ensures headerWritten
      ensures exited ==> exists k ::
                && 0 <= k < |streams|
                && FlushQueue(streams[k].config, old(streams[k].Value(true))) == None
                && (forall j :: 0 <= j < k ==>
                      FlushQueue(streams[j].config, old(streams[j].Value(true))) == Some(streams[j].Value(true)))
                && (forall j :: k < j < |streams| ==> streams[j].Value(true) == old(streams[j].Value(true)))
      ensures !exited ==> forall k :: 0 <= k < |streams| ==>
                FlushQueue(streams[k].config, old(streams[k].Value(true))) == Some(streams[k].Value(true))
      ensures !exited ==> forall k :: 0 <= k < |streams| ==> streams[k].Uncounted() == old(streams[k].Uncounted())
    {
      headerWritten := true;
      for i := 0 to |streams|
        invariant forall k :: 0 <= k < i ==>
          FlushQueue(streams[k].config, old(streams[k].Value(true))) == Some(streams[k].Value(true))
        invariant forall k :: i <= k < |streams| ==> streams[k].Value(true) == old(streams[k].Value(true))
        invariant forall k :: 0 <= k < |streams| ==> streams[k].Uncounted() == old(streams[k].Uncounted())
        invariant headerWritten
      {
        exited := streams[i].FlushMuxingQueue();
        if exited {
          return;
        }
      }
      exited := false;
    }
  }

  class OutputStream {
    const config: Config
    var frameNumber: int
    var muxingQueue: seq<Packet>
    var queueCapacity: nat
    var queueDataSize: int
    var lastMuxDts: int
    var packetsWritten: nat
    var written: seq<Packet>       // what av_interleaved_write_frame was given
    ghost var accepted: seq<Packet>

    ghost function Value(headerWritten: bool): Mux
      reads this
    {
      Mux(headerWritten, frameNumber, muxingQueue, queueCapacity, queueDataSize, lastMuxDts, written, accepted)
    }

    // 0 when packets_written is the number of packets given to the muxer.
    ghost function Uncounted(): int
      reads this`written, this`packetsWritten
    {
      packetsWritten - |written|
    }

    constructor (config: Config)
      ensures Value(false) == INITIAL && packetsWritten == 0 == Uncounted() && this.config == config
    {
      this.config := config;
      frameNumber, muxingQueue, queueCapacity, queueDataSize := 0, [], 8, 0;
      lastMuxDts, packetsWritten, written, accepted := AV_NOPTS_VALUE, 0, [], [];
    }

    // unqueue: the packet was counted when it was queued.
    method WritePacket(headerWritten: bool, p: Packet, unqueue: bool) returns (exited: bool)
      requires unqueue ==> headerWritten
      modifies this
      ensures
        var before := old(Value(headerWritten));
        var after := if unqueue then Deliver(config, before, p) else Write(config, before, p);
        if exited then after == None else after == Some(Value(headerWritten))
      ensures Uncounted() == old(Uncounted())
    {
      if !config.EncodedVideo() && !unqueue {
        if frameNumber >= config.maxFrames {
          return false;
        }
        frameNumber := frameNumber + 1;
      }
      if !unqueue {
        accepted := accepted + [p];
      }
      if !headerWritten {
        exited := BufferPacket(p);
        return;
      }
      var repaired: Packet;
      exited, repaired := RepairTimestamps(p);
      if exited {
        return;
      }
      lastMuxDts := repaired.dts;
      packetsWritten := packetsWritten + 1;
      written := written + [repaired];
    }

    method BufferPacket(p: Packet) returns (exited: bool)
      modifies this`queueCapacity, this`queueDataSize, this`muxingQueue
      ensures
        var after := Buffer(config, old(Value(false)), p);
        if exited then after == None else after == Some(Value(false))
    {
      if queueCapacity <= |muxingQueue| {
        var overSize := queueDataSize + p.size > config.dataThreshold;
        var newSize := if overSize then Min(2 * |muxingQueue|, config.maxQueue) else 2 * |muxingQueue|;
        if newSize <= |muxingQueue| {
          return true;
        }
        queueCapacity := newSize;
      }
      queueDataSize := queueDataSize + p.size;
      muxingQueue := muxingQueue + [p];
      return false;
    }

    method RepairTimestamps(p: Packet) returns (exited: bool, repaired: Packet)
      ensures Repair(config, lastMuxDts, p) == if exited then None else Some(repaired)
    {
      var pts, dts := p.pts, p.dts;
      if config.dropTimestamps {
        pts, dts := AV_NOPTS_VALUE, AV_NOPTS_VALUE;
      }
      if !config.noTimestamps {
        if dts != AV_NOPTS_VALUE && pts != AV_NOPTS_VALUE && dts > pts {
          dts := Guess(pts, dts, lastMuxDts + 1);
          pts := dts;
        }
        if !config.media.Other? && dts != AV_NOPTS_VALUE && !config.vp9Copy && lastMuxDts != AV_NOPTS_VALUE {
          var least := lastMuxDts + config.Gap();
          if dts < least {
            if config.exitOnError {
              return true, p;
            }
            if pts >= dts {
              pts := Max(pts, least);
            }
            dts := least;
          }
        }
      }
      return false, Packet(p.id, p.size, pts, dts);
    }

    method FlushMuxingQueue() returns (exited: bool)
      modifies this
      ensures if exited then FlushQueue(config, old(Value(true))) == None
              else FlushQueue(config, old(Value(true))) == Some(Value(true))
      ensures Uncounted() == old(Uncounted())
    {
      while muxingQueue != []
        invariant FlushQueue(config, Value(true)) == FlushQueue(config, old(Value(true)))
        invariant Uncounted() == old(Uncounted())
        decreases |muxingQueue|
      {
        var p := muxingQueue[0];
        muxingQueue := muxingQueue[1..];
        queueDataSize := queueDataSize - p.size;
        exited := WritePacket(true, p, true);
        if exited {
          return;
        }
      }
      exited := false;
    }
  }

  // ----- Timestamps

  // The guess is the median of pts, dts and the next free dts.
  lemma GuessIsMedian(pts: int, dts: int, next: int)
    ensures var g := Guess(pts, dts, next);
      && g in {pts, dts, next}
      && (Min(pts, dts) <= g <= Max(pts, dts))
      && (Min(pts, next) <= g <= Max(pts, next))
      && (Min(dts, next) <= g <= Max(dts, next))
  {
  }

  // What one repair leaves behind.
  lemma RepairOrdersTimestamps(c: Config, last: int, p: Packet)
    requires p.InRange() && AV_NOPTS_VALUE <= last && Repair(c, last, p).Some?
    ensures var r := Repair(c, last, p).value;
      && r.Carries(p) && r.InRange()
      && (p.HasDts() && !c.dropTimestamps <==> r.HasDts())
      && (p.HasPts() && !c.dropTimestamps <==> r.HasPts())
      && (r.HasPts() && r.HasDts() && !c.noTimestamps ==> r.pts >= r.dts)
      && (r.HasDts() && last != AV_NOPTS_VALUE && c.Monotonic() ==> r.dts >= last + c.Gap())
  {
    var p1 := OrderTimestamps(last, ResetTimestamps(c, p));
    assert p1.HasDts() && p1.HasPts() ==> p1.pts >= p1.dts;
  }

  // A repair in full. The dts and pts that are written are as late as they have
  // to be and no later: a packet in order whose dts follows the last one is
  // written as it is.
  lemma RepairIsLeast(c: Config, last: int, p: Packet)
    requires p.InRange() && AV_NOPTS_VALUE <= last && !c.dropTimestamps
    ensures c.noTimestamps ==> Repair(c, last, p) == Some(p)
    ensures !c.noTimestamps ==>
      var swapped := p.HasDts() && p.HasPts() && p.dts > p.pts;
      var dts := if swapped then Guess(p.pts, p.dts, last + 1) else p.dts;
      var pts := if swapped then dts else p.pts;
      var chained := (c.media.Audio? || c.media.Video? || c.media.Subtitle?) && !c.vp9Copy && p.HasDts() && last != AV_NOPTS_VALUE;
      var least := if c.nonStrict then last else last + 1;
      if chained && dts < least && c.exitOnError then Repair(c, last, p) == None
      else
        && Repair(c, last, p).Some?
        && var r := Repair(c, last, p).value;
        && r.Carries(p)
        && r.dts == (if chained then Max(dts, least) else dts)
        && r.pts == (if chained && pts >= dts then Max(pts, r.dts) else pts)
  {
  }

  // Of the packets written: one that came in order, behind the one before it,
  // is written as it came.
  lemma GoodPacketsAreUntouched(c: Config, calls: seq<Call>, t: Mux, k: nat)
    requires InRange(calls) && Run(c, INITIAL, calls, t) && k < |t.written| && !c.dropTimestamps
    ensures |t.written| <= |t.accepted|
    ensures var p := t.accepted[k];
      (p.HasDts() && p.HasPts() ==> p.dts <= p.pts) &&
      (k > 0 && p.HasDts() && t.written[k - 1].HasDts() && c.Monotonic() ==> p.dts >= t.written[k - 1].dts + c.Gap()) ==>
        t.written[k] == p
  {
    WrittenIsRepaired(c, calls, t);
    AcceptedInRange(c, calls, t);
    var delivered := t.accepted[..|t.written|];
    RepairAllAt(c, delivered, k);
    assert delivered[k] == t.accepted[k];
    hide Repair, RepairAll, Run;
    RepairIsLeast(c, if k == 0 then AV_NOPTS_VALUE else t.written[k - 1].dts, t.accepted[k]);
  }

  lemma {:induction false} RepairAllAt(c: Config, packets: seq<Packet>, k: nat)
    requires (forall p :: p in packets ==> p.InRange()) && RepairAll(c, packets).Some? && k < |packets|
    ensures var written := RepairAll(c, packets).value;
      && |written| == |packets|
      && (k > 0 ==> written[k - 1].InRange())
      && Repair(c, if k == 0 then AV_NOPTS_VALUE else written[k - 1].dts, packets[k]) == Some(written[k])
  {
    hide Repair;
    var n := |packets| - 1;
    var init, before := packets[..n], RepairAll(c, packets[..n]).value;
    RepairedAllInRange(c, init);
    if k < n {
      RepairAllAt(c, init, k);
    }
  }

  lemma {:induction false} RepairedAllInRange(c: Config, packets: seq<Packet>)
    requires (forall p :: p in packets ==> p.InRange()) && RepairAll(c, packets).Some?
    ensures |RepairAll(c, packets).value| == |packets| && forall i :: 0 <= i < |packets| ==> RepairAll(c, packets).value[i].InRange()
  {
    hide Repair;
    if packets != [] {
      var init, p := packets[..|packets| - 1], packets[|packets| - 1];
      RepairedAllInRange(c, init);
      var before := RepairAll(c, init).value;
      RepairOrdersTimestamps(c, LastMuxDts(before), p);
    }
  }

  ghost predicate TimesInv(c: Config, s: Mux) {
    && AV_NOPTS_VALUE <= s.lastMuxDts
    && s.lastMuxDts == (if s.written == [] then AV_NOPTS_VALUE else s.written[|s.written| - 1].dts)
    && (forall p :: p in s.queue ==> p.InRange())
    && (c.Monotonic() ==> forall i :: 0 < i < |s.written| && s.written[i - 1].HasDts() && s.written[i].HasDts() ==>
          s.written[i].dts >= s.written[i - 1].dts + c.Gap())
    && (!c.noTimestamps ==> forall i :: 0 <= i < |s.written| && s.written[i].HasPts() && s.written[i].HasDts() ==>
          s.written[i].pts >= s.written[i].dts)
  }

  lemma DeliverKeepsTimes(c: Config, s: Mux, p: Packet)
    requires TimesInv(c, s) && p.InRange() && Deliver(c, s, p).Some?
    ensures TimesInv(c, Deliver(c, s, p).value)
  {
    RepairOrdersTimestamps(c, s.lastMuxDts, p);
  }

  // ----- Conservation

  function TotalBytes(packets: seq<Packet>): int {
    if packets == [] then 0 else packets[0].size + TotalBytes(packets[1..])
  }

  lemma {:induction false} TotalBytesAppend(packets: seq<Packet>, p: Packet)
    ensures TotalBytes(packets + [p]) == TotalBytes(packets) + p.size
  {
    if packets == [] {
    } else {
      assert (packets + [p])[1..] == packets[1..] + [p];
      TotalBytesAppend(packets[1..], p);
    }
  }

  ghost predicate QueueInv(c: Config, s: Mux) {
    && |s.written| + |s.queue| == |s.accepted|
    && (forall i :: 0 <= i < |s.written| ==> s.written[i].Carries(s.accepted[i]))
    && s.queue == s.accepted[|s.written|..]
    && s.queueBytes == TotalBytes(s.queue)
    && |s.queue| <= s.capacity
    && (!c.EncodedVideo() ==> s.frameNumber == |s.accepted| && (0 <= c.maxFrames ==> s.frameNumber <= c.maxFrames))
  }

  ghost predicate Inv(c: Config, s: Mux) {
    QueueInv(c, s) && TimesInv(c, s) && (s.headerWritten ==> s.queue == [])
  }

  lemma DeliverCarries(c: Config, s: Mux, p: Packet)
    requires TimesInv(c, s) && p.InRange() && Deliver(c, s, p).Some?
    ensures var t := Deliver(c, s, p).value;
      && |t.written| == |s.written| + 1 && t.written[..|s.written|] == s.written && t.written[|s.written|].Carries(p)
      && (p.HasDts() && !c.dropTimestamps ==> t.written[|s.written|].HasDts())
      && t == s.(written := t.written, lastMuxDts := t.lastMuxDts)
  {
    RepairOrdersTimestamps(c, s.lastMuxDts, p);
  }

  lemma DeliveredKeepsInv(c: Config, s: Mux, p: Packet)
    requires QueueInv(c, s) && TimesInv(c, s) && s.queue == [] && p.InRange()
    requires c.EncodedVideo() || s.frameNumber < c.maxFrames
    ensures var next := Deliver(c, Accept(c, s, p), p);
      next.Some? ==>
        && QueueInv(c, next.value) && TimesInv(c, next.value)
        && next.value.queue == [] && next.value.headerWritten == s.headerWritten
  {
    var s1 := Accept(c, s, p);
    if Deliver(c, s1, p).Some? {
      DeliverKeepsTimes(c, s1, p);
      DeliverCarries(c, s1, p);
      hide TimesInv, Deliver;
    }
  }

  lemma BufferedKeepsInv(c: Config, s: Mux, p: Packet)
    requires QueueInv(c, s) && TimesInv(c, s) && p.InRange()
    requires c.EncodedVideo() || s.frameNumber < c.maxFrames
    ensures var next := Buffer(c, Accept(c, s, p), p);
      next.Some? ==> QueueInv(c, next.value) && TimesInv(c, next.value) && next.value.headerWritten == s.headerWritten
  {
    hide TotalBytes;
    TotalBytesAppend(s.queue, p);
  }

  lemma WriteKeepsInv(c: Config, s: Mux, p: Packet)
    requires Inv(c, s) && p.InRange() && Write(c, s, p).Some?
    ensures Inv(c, Write(c, s, p).value)
  {
    if c.EncodedVideo() || s.frameNumber < c.maxFrames {
      hide Deliver, Buffer, QueueInv, TimesInv;
      if s.headerWritten {
        DeliveredKeepsInv(c, s, p);
      } else {
        BufferedKeepsInv(c, s, p);
      }
    }
  }

  // One turn of the flush loop.
  lemma UnqueueKeepsInv(c: Config, s: Mux)
    requires QueueInv(c, s) && TimesInv(c, s) && s.queue != []
    ensures
      var next := Deliver(c, Unqueued(s), s.queue[0]);
      next.Some? ==> QueueInv(c, next.value) && TimesInv(c, next.value) && next.value.accepted == s.accepted
  {
    var s1 := Unqueued(s);
    if Deliver(c, s1, s.queue[0]).Some? {
      DeliverKeepsTimes(c, s1, s.queue[0]);
      RepairOrdersTimestamps(c, s.lastMuxDts, s.queue[0]);
    }
  }

  lemma UnqueueShortens(c: Config, s: Mux)
    requires s.queue != []
    ensures var next := Deliver(c, Unqueued(s), s.queue[0]);
      next.Some? ==> next.value.queue == s.queue[1..] && next.value.headerWritten == s.headerWritten
                     && next.value.accepted == s.accepted
  {
  }

  lemma {:induction false} FlushKeepsInv(c: Config, s: Mux)
    requires QueueInv(c, s) && TimesInv(c, s) && FlushQueue(c, s).Some?
    ensures var t := FlushQueue(c, s).value;
      && QueueInv(c, t) && TimesInv(c, t) && t.queue == [] && t.accepted == s.accepted
      && t.headerWritten == s.headerWritten
    decreases |s.queue|
  {
    if s.queue != [] {
      hide QueueInv, TimesInv, Deliver;
      UnqueueKeepsInv(c, s);
      UnqueueShortens(c, s);
      var s1 := Deliver(c, Unqueued(s), s.queue[0]);
      FlushKeepsInv(c, s1.value);
    }
  }

  // ----- Whole runs

  datatype Call = WriteOne(p: Packet) | HeaderWritten

  ghost function Make(c: Config, s: Mux, call: Call): Option<Mux> {
    match call
    case WriteOne(p) => Write(c, s, p)
    case HeaderWritten => WriteHeader(c, s)
  }

  // t is reached from s without the program exiting.
  ghost predicate Run(c: Config, s: Mux, calls: seq<Call>, t: Mux)
    decreases |calls|
  {
    if calls == [] then s == t
    else Make(c, s, calls[0]).Some? && Run(c, Make(c, s, calls[0]).value, calls[1..], t)
  }

  ghost predicate InRange(calls: seq<Call>) {
    forall i :: 0 <= i < |calls| && calls[i].WriteOne? ==> calls[i].p.InRange()
  }

  lemma {:induction false} RunKeepsInv(c: Config, s: Mux, calls: seq<Call>, t: Mux)
    requires Inv(c, s) && InRange(calls) && Run(c, s, calls, t)
    ensures Inv(c, t)
    decreases |calls|
  {
    if calls != [] {
      match calls[0] {
        case WriteOne(p) => WriteKeepsInv(c, s, p);
        case HeaderWritten => FlushKeepsInv(c, s.(headerWritten := true));
      }
      RunKeepsInv(c, Make(c, s, calls[0]).value, calls[1..], t);
    }
  }

  // The packets written and then those queued are the accepted ones, in order,
  // whenever the header came and however the queue grew.
  lemma PacketsAreConserved(c: Config, calls: seq<Call>, t: Mux)
    requires InRange(calls) && Run(c, INITIAL, calls, t)
    ensures |t.written| + |t.queue| == |t.accepted|
    ensures forall i :: 0 <= i < |t.written| ==> t.written[i].Carries(t.accepted[i])
    ensures t.queue == t.accepted[|t.written|..] && t.queueBytes == TotalBytes(t.queue)
    ensures t.headerWritten ==> t.queue == []
    ensures !c.EncodedVideo() ==> t.frameNumber == |t.written| + |t.queue|
    ensures !c.EncodedVideo() && 0 <= c.maxFrames ==> t.frameNumber <= c.maxFrames
  {
    RunKeepsInv(c, INITIAL, calls, t);
  }

  // Every accepted packet brings a dts to a stream that keeps them.
  ghost predicate AllHaveDts(c: Config, s: Mux) {
    !c.dropTimestamps && (forall p :: p in s.accepted ==> p.HasDts()) && (forall p :: p in s.written ==> p.HasDts())
  }

  lemma DeliverKeepsDts(c: Config, s: Mux, p: Packet)
    requires TimesInv(c, s) && AllHaveDts(c, s) && p.InRange() && p.HasDts() && Deliver(c, s, p).Some?
    ensures AllHaveDts(c, Deliver(c, s, p).value)
  {
    RepairOrdersTimestamps(c, s.lastMuxDts, p);
  }

  lemma QueuedHasDts(c: Config, s: Mux)
    requires QueueInv(c, s) && TimesInv(c, s) && AllHaveDts(c, s) && s.queue != []
    ensures s.queue[0].HasDts() && s.queue[0].InRange()
    ensures TimesInv(c, Unqueued(s)) && AllHaveDts(c, Unqueued(s))
  {
    assert s.queue[0] in s.accepted;
  }

  lemma {:induction false} FlushKeepsDts(c: Config, s: Mux)
    requires QueueInv(c, s) && TimesInv(c, s) && AllHaveDts(c, s) && FlushQueue(c, s).Some?
    ensures AllHaveDts(c, FlushQueue(c, s).value)
    decreases |s.queue|
  {
    if s.queue != [] {
      hide QueueInv, TimesInv, AllHaveDts, Deliver, Unqueued;
      UnqueueKeepsInv(c, s);
      UnqueueShortens(c, s);
      QueuedHasDts(c, s);
      var s0 := Unqueued(s);
      DeliverKeepsDts(c, s0, s.queue[0]);
      FlushKeepsDts(c, Deliver(c, s0, s.queue[0]).value);
    }
  }

  lemma WriteKeepsDts(c: Config, s: Mux, p: Packet)
    requires TimesInv(c, s) && AllHaveDts(c, s) && p.InRange() && p.HasDts() && Write(c, s, p).Some?
    ensures AllHaveDts(c, Write(c, s, p).value)
  {
    if s.headerWritten && (c.EncodedVideo() || s.frameNumber < c.maxFrames) {
      DeliverKeepsDts(c, Accept(c, s, p), p);
    }
  }

  lemma HeaderChangesNothing(c: Config, s: Mux)
    ensures QueueInv(c, s) ==> QueueInv(c, s.(headerWritten := true))
    ensures TimesInv(c, s) ==> TimesInv(c, s.(headerWritten := true))
    ensures AllHaveDts(c, s) ==> AllHaveDts(c, s.(headerWritten := true))
  {
  }

  lemma {:induction false} RunKeepsDts(c: Config, s: Mux, calls: seq<Call>, t: Mux)
    requires Inv(c, s) && AllHaveDts(c, s) && InRange(calls) && Run(c, s, calls, t)
    requires forall i :: 0 <= i < |calls| && calls[i].WriteOne? ==> calls[i].p.HasDts()
    ensures AllHaveDts(c, t)
    decreases |calls|
  {
    if calls != [] {
      hide QueueInv, TimesInv, AllHaveDts, Write, FlushQueue;
      match calls[0] {
        case WriteOne(p) =>
          WriteKeepsInv(c, s, p);
          WriteKeepsDts(c, s, p);
        case HeaderWritten =>
          HeaderChangesNothing(c, s);
          FlushKeepsInv(c, s.(headerWritten := true));
          FlushKeepsDts(c, s.(headerWritten := true));
      }
      RunKeepsDts(c, Make(c, s, calls[0]).value, calls[1..], t);
    }
  }

  lemma {:induction false} StepwiseToPairwise(c: Config, written: seq<Packet>, i: nat, j: nat)
    requires i < j < |written|
    requires forall k :: 0 < k < |written| ==> written[k].dts >= written[k - 1].dts + c.Gap()
    ensures written[j].dts >= written[i].dts + c.Gap()
    decreases j
  {
    if i < j - 1 {
      StepwiseToPairwise(c, written, i, j - 1);
    }
  }

  // The muxer sees increasing dts, and no pts before its dts.
  lemma DtsIncreases(c: Config, calls: seq<Call>, t: Mux)
    requires c.Monotonic() && !c.dropTimestamps && InRange(calls) && Run(c, INITIAL, calls, t)
    requires forall i :: 0 <= i < |calls| && calls[i].WriteOne? ==> calls[i].p.HasDts()
    ensures forall i, j :: 0 <= i < j < |t.written| ==>
              t.written[i].dts < t.written[j].dts || (c.nonStrict && t.written[i].dts == t.written[j].dts)
    ensures forall i :: 0 <= i < |t.written| && t.written[i].HasPts() ==> t.written[i].pts >= t.written[i].dts
  {
    RunKeepsInv(c, INITIAL, calls, t);
    RunKeepsDts(c, INITIAL, calls, t);
    assert forall k :: 0 <= k < |t.written| ==> t.written[k] in t.written;
    forall i, j | 0 <= i < j < |t.written| ensures t.written[j].dts >= t.written[i].dts + c.Gap() {
      StepwiseToPairwise(c, t.written, i, j);
    }
  }

  // ----- Packets without dts

  // What reaches the muxer, of the packets alone: the first n repaired, each
  // against the dts of the one before it.
  function RepairAll(c: Config, packets: seq<Packet>): Option<seq<Packet>> {
    if packets == [] then Some([])
    else
      var before := RepairAll(c, packets[..|packets| - 1]);
      if before.None? then None
      else
        var repaired := Repair(c, LastMuxDts(before.value), packets[|packets| - 1]);
        if repaired.None? then None else Some(before.value + [repaired.value])
  }

  function LastMuxDts(written: seq<Packet>): int {
    if written == [] then AV_NOPTS_VALUE else written[|written| - 1].dts
  }

  // Buffering does not show in the timestamps.
  ghost predicate RepairedInv(c: Config, s: Mux) {
    && |s.written| <= |s.accepted|
    && RepairAll(c, s.accepted[..|s.written|]) == Some(s.written)
    && s.lastMuxDts == LastMuxDts(s.written)
  }

  lemma DeliverKeepsRepaired(c: Config, s: Mux, p: Packet)
    requires RepairedInv(c, s) && |s.written| < |s.accepted| && p == s.accepted[|s.written|]
    ensures var next := Deliver(c, s, p); next.Some? ==> RepairedInv(c, next.value)
  {
    hide Repair;
    var n := |s.written|;
    assert s.accepted[..n + 1][..n] == s.accepted[..n];
  }

  lemma {:induction false} FlushKeepsRepaired(c: Config, s: Mux)
    requires RepairedInv(c, s) && s.queue == s.accepted[|s.written|..] && FlushQueue(c, s).Some?
    ensures RepairedInv(c, FlushQueue(c, s).value)
    decreases |s.queue|
  {
    if s.queue != [] {
      var s0 := Unqueued(s);
      assert s.queue[0] == s.accepted[|s.written|];
      DeliverKeepsRepaired(c, s0, s.queue[0]);
      FlushKeepsRepaired(c, Deliver(c, s0, s.queue[0]).value);
    }
  }

  lemma WriteKeepsRepaired(c: Config, s: Mux, p: Packet)
    requires Inv(c, s) && RepairedInv(c, s) && Write(c, s, p).Some?
    ensures RepairedInv(c, Write(c, s, p).value)
  {
    if c.EncodedVideo() || s.frameNumber < c.maxFrames {
      var s1 := Accept(c, s, p);
      assert s1.accepted[..|s.written|] == s.accepted[..|s.written|];
      if s.headerWritten {
        DeliverKeepsRepaired(c, s1, p);
      }
    }
  }

  lemma {:induction false} RunKeepsRepaired(c: Config, s: Mux, calls: seq<Call>, t: Mux)
    requires Inv(c, s) && RepairedInv(c, s) && InRange(calls) && Run(c, s, calls, t)
    ensures RepairedInv(c, t)
    decreases |calls|
  {
    if calls != [] {
      hide QueueInv, TimesInv, RepairedInv, Write, FlushQueue;
      match calls[0] {
        case WriteOne(p) =>
          WriteKeepsInv(c, s, p);
          WriteKeepsRepaired(c, s, p);
        case HeaderWritten =>
          HeaderChangesNothing(c, s);
          FlushKeepsInv(c, s.(headerWritten := true));
          QueueIsRest(c, s);
          FlushKeepsRepaired(c, s.(headerWritten := true));
      }
      RunKeepsRepaired(c, Make(c, s, calls[0]).value, calls[1..], t);
    }
  }

  lemma QueueIsRest(c: Config, s: Mux)
    requires QueueInv(c, s) && RepairedInv(c, s)
    ensures |s.written| <= |s.accepted| && s.queue == s.accepted[|s.written|..]
    ensures RepairedInv(c, s.(headerWritten := true))
  {
  }

  // The packets written depend on those accepted only, not on when the header came.
  lemma WrittenIsRepaired(c: Config, calls: seq<Call>, t: Mux)
    requires InRange(calls) && Run(c, INITIAL, calls, t)
    ensures |t.written| <= |t.accepted| && RepairAll(c, t.accepted[..|t.written|]) == Some(t.written)
  {
    RunKeepsRepaired(c, INITIAL, calls, t);
  }

  // The last dts that was present.
  function LastDts(written: seq<Packet>): Option<int> {
    if written == [] then None
    else if written[|written| - 1].HasDts() then Some(written[|written| - 1].dts)
    else LastDts(written[..|written| - 1])
  }

  // The dts that are present increase.
  ghost predicate DtsChain(c: Config, written: seq<Packet>) {
    forall i, j :: 0 <= i < j < |written| && written[i].HasDts() && written[j].HasDts() ==>
      written[j].dts >= written[i].dts + c.Gap()
  }

  // A packet with dts that comes directly after one without keeps its distance
  // from the last dts there was, with its pts too if it has one.
  predicate Resumes(c: Config, written: seq<Packet>, p: Packet) {
    var p0, last := ResetTimestamps(c, p), LastDts(written);
    p0.HasDts() && LastMuxDts(written) == AV_NOPTS_VALUE && last.Some? ==>
      p0.dts >= last.value + c.Gap() && (p0.HasPts() ==> p0.pts >= last.value + c.Gap())
  }

  ghost predicate AllResume(c: Config, packets: seq<Packet>)
    requires RepairAll(c, packets).Some?
  {
    packets == [] ||
    var init := packets[..|packets| - 1];
    AllResume(c, init) && Resumes(c, RepairAll(c, init).value, packets[|packets| - 1])
  }

  lemma {:induction false} LastDtsIsLast(written: seq<Packet>)
    ensures match LastDts(written)
      case None => forall i :: 0 <= i < |written| ==> !written[i].HasDts()
      case Some(d) => exists k :: 0 <= k < |written| && written[k].HasDts() && written[k].dts == d
                        && forall i :: k < i < |written| ==> !written[i].HasDts()
  {
    if written != [] && !written[|written| - 1].HasDts() {
      var init := written[..|written| - 1];
      LastDtsIsLast(init);
      var last := LastDts(init);
      if last.Some? {
        var k :| 0 <= k < |init| && init[k].HasDts() && init[k].dts == last.value
                 && forall i :: k < i < |init| ==> !init[i].HasDts();
        assert written[k].HasDts() && written[k].dts == last.value;
        assert forall i :: k < i < |init| ==> written[i] == init[i];
      } else {
        assert forall i :: 0 <= i < |init| ==> written[i] == init[i];
      }
    }
  }

  // One more packet keeps the chain exactly when it is beyond the last dts.
  lemma ChainGrows(c: Config, written: seq<Packet>, r: Packet)
    requires DtsChain(c, written)
    ensures DtsChain(c, written + [r]) <==>
              (r.HasDts() && LastDts(written).Some? ==> r.dts >= LastDts(written).value + c.Gap())
  {
    LastDtsIsLast(written);
    var all := written + [r];
    if r.HasDts() && LastDts(written).Some? {
      var k :| 0 <= k < |written| && written[k].HasDts() && written[k].dts == LastDts(written).value
               && forall i :: k < i < |written| ==> !written[i].HasDts();
      assert all[k] == written[k] && all[|written|] == r;
      forall i | 0 <= i < |written| && written[i].HasDts() ensures written[i].dts <= written[k].dts {
        assert i <= k;
      }
    }
  }

  lemma ChainShrinks(c: Config, written: seq<Packet>, r: Packet)
    requires DtsChain(c, written + [r])
    ensures DtsChain(c, written)
  {
    assert forall i :: 0 <= i < |written| ==> (written + [r])[i] == written[i];
  }

  // One repair, after any history: the packet is beyond the last dts there was
  // if and only if it resumes in the sense above.
  lemma RepairResumesIff(c: Config, written: seq<Packet>, p: Packet)
    requires c.Monotonic() && p.InRange() && (forall i :: 0 <= i < |written| ==> written[i].InRange())
    requires Repair(c, LastMuxDts(written), p).Some?
    ensures var r, last := Repair(c, LastMuxDts(written), p).value, LastDts(written);
      && r.InRange()
      && ((r.HasDts() && last.Some? ==> r.dts >= last.value + c.Gap()) <==> Resumes(c, written, p))
  {
    LastDtsIsLast(written);
    RepairOrdersTimestamps(c, LastMuxDts(written), p);
  }

  lemma {:induction false} ChainIff(c: Config, packets: seq<Packet>)
    requires c.Monotonic() && (forall p :: p in packets ==> p.InRange()) && RepairAll(c, packets).Some?
    ensures forall i :: 0 <= i < |RepairAll(c, packets).value| ==> RepairAll(c, packets).value[i].InRange()
    ensures DtsChain(c, RepairAll(c, packets).value) <==> AllResume(c, packets)
  {
    if packets != [] {
      hide Repair, Resumes, LastDts, DtsChain;
      var init, p := packets[..|packets| - 1], packets[|packets| - 1];
      ChainIff(c, init);
      var written := RepairAll(c, init).value;
      var r := Repair(c, LastMuxDts(written), p).value;
      RepairResumesIff(c, written, p);
      assert RepairAll(c, packets).value == written + [r];
      if DtsChain(c, written) {
        ChainGrows(c, written, r);
      } else if DtsChain(c, written + [r]) {
        ChainShrinks(c, written, r);
      }
    }
  }

  // Over a run, the dts present in what is written increase if and only if
  // every packet that ends a stretch without dts resumes beyond the last one.
  lemma DtsIncreasesIff(c: Config, calls: seq<Call>, t: Mux)
    requires c.Monotonic() && InRange(calls) && Run(c, INITIAL, calls, t)
    ensures |t.written| <= |t.accepted|
    ensures var delivered := t.accepted[..|t.written|];
      RepairAll(c, delivered).Some? && (DtsChain(c, t.written) <==> AllResume(c, delivered))
  {
    WrittenIsRepaired(c, calls, t);
    AcceptedInRange(c, calls, t);
    ChainIff(c, t.accepted[..|t.written|]);
  }

  lemma AcceptedInRange(c: Config, calls: seq<Call>, t: Mux)
    requires InRange(calls) && Run(c, INITIAL, calls, t)
    ensures forall p :: p in t.accepted ==> p.InRange()
  {
    RunAcceptsInRange(c, INITIAL, calls, t);
  }

  lemma {:induction false} RunAcceptsInRange(c: Config, s: Mux, calls: seq<Call>, t: Mux)
    requires (forall p :: p in s.accepted ==> p.InRange()) && InRange(calls) && Run(c, s, calls, t)
    ensures forall p :: p in t.accepted ==> p.InRange()
    decreases |calls|
  {
    if calls != [] {
      if calls[0].HeaderWritten? {
        FlushAccepts(c, s.(headerWritten := true));
      }
      RunAcceptsInRange(c, Make(c, s, calls[0]).value, calls[1..], t);
    }
  }

  lemma {:induction false} FlushAccepts(c: Config, s: Mux)
    requires FlushQueue(c, s).Some?
    ensures FlushQueue(c, s).value.accepted == s.accepted && FlushQueue(c, s).value.frameNumber == s.frameNumber
    decreases |s.queue|
  {
    if s.queue != [] {
      var s0 := Unqueued(s);
      FlushAccepts(c, Deliver(c, s0, s.queue[0]).value);
    }
  }

  // A packet without dts does break the chain: the next one may go back in time.
  lemma MissingDtsBreaksTheChain(c: Config) returns (calls: seq<Call>, t: Mux)
    requires c.Monotonic() && !c.dropTimestamps && c.maxFrames >= 3
    ensures InRange(calls) && Run(c, INITIAL, calls, t)
    ensures |t.written| == 3 && t.written[0].dts == 5 && t.written[2].dts == 3
  {
    var p0, p1, p2 := Packet(0, 1, 5, 5), Packet(1, 1, 5, AV_NOPTS_VALUE), Packet(2, 1, 3, 3);
    calls := [HeaderWritten, WriteOne(p0), WriteOne(p1), WriteOne(p2)];
    var s0 := WriteHeader(c, INITIAL).value;
    var s1 := Write(c, s0, p0).value;
    var s2 := Write(c, s1, p1).value;
    t := Write(c, s2, p2).value;
    assert calls[1..] == [WriteOne(p0), WriteOne(p1), WriteOne(p2)];
    assert calls[1..][1..] == [WriteOne(p1), WriteOne(p2)];
    assert calls[1..][1..][1..] == [WriteOne(p2)] && [WriteOne(p2)][1..] == [];
    assert Run(c, s2, [WriteOne(p2)], t);
    assert Run(c, s1, [WriteOne(p1), WriteOne(p2)], t);
  }

  // ----- When buffering gives up

  // A queue that has room for one packet overflows only over the data
  // threshold, and only when it holds max_muxing_queue_size packets.
  lemma BufferFailsExactly(c: Config, s: Mux, p: Packet)
    requires QueueInv(c, s) && s.capacity > 0
    ensures Buffer(c, s, p).None? <==>
              |s.queue| == s.capacity && s.queueBytes + p.size > c.dataThreshold && c.maxQueue <= |s.queue|
  {
  }

  // As long as its bytes stay within the threshold the queue doubles when it is
  // full, from 8 on, and never fails.
  function Room(n: nat): nat {
    if n <= 8 then 8 else 2 * Room((n + 1) / 2)
  }

  lemma {:induction false} RoomDoubles(n: nat)
    ensures n <= Room(n) && Room(n + 1) == if Room(n) == n then 2 * n else Room(n)
  {
    if n > 8 {
      RoomDoubles(n / 2);
      if n % 2 == 1 {
        assert (n + 1) / 2 == n / 2 + 1 == (n + 2) / 2;
        assert Room(n) == 2 * Room(n / 2 + 1);
        RoomDoubles(n / 2 + 1);
      }
    }
  }

  function BufferAll(c: Config, packets: seq<Packet>): Option<Mux> {
    if packets == [] then Some(INITIAL)
    else
      var before := BufferAll(c, packets[..|packets| - 1]);
      if before.None? then None else Buffer(c, before.value, packets[|packets| - 1])
  }

  lemma {:induction false} SmallQueueNeverFails(c: Config, packets: seq<Packet>)
    requires TotalBytes(packets) <= c.dataThreshold
    ensures var s := BufferAll(c, packets);
      s.Some? && s.value.queue == packets && s.value.queueBytes == TotalBytes(packets) && s.value.capacity == Room(|packets|)
  {
    if packets != [] {
      var init, p := packets[..|packets| - 1], packets[|packets| - 1];
      assert packets == init + [p];
      TotalBytesAppend(init, p);
      SmallQueueNeverFails(c, init);
      RoomDoubles(|init|);
    }
  }

  // Over the threshold a full queue grows up to the maximum and no further.
  lemma LargeQueueGrowsToMaximum(c: Config, s: Mux, p: Packet)
    requires QueueInv(c, s) && |s.queue| == s.capacity > 0 && s.queueBytes + p.size > c.dataThreshold
    ensures var t := Buffer(c, s, p);
      t.Some? ==> s.capacity < t.value.capacity <= c.maxQueue
                  && (t.value.capacity == 2 * s.capacity || t.value.capacity == c.maxQueue)
  {
  }

  // ----- Which packets are accepted

  function PacketsOf(calls: seq<Call>): seq<Packet> {
    if calls == [] then [] else (if calls[0].WriteOne? then [calls[0].p] else []) + PacketsOf(calls[1..])
  }

  // The frames that max_frames still leaves.
  function FramesLeft(c: Config, s: Mux): nat {
    if c.maxFrames > s.frameNumber then c.maxFrames - s.frameNumber else 0
  }

  lemma {:induction false} RunAcceptsFirst(c: Config, s: Mux, calls: seq<Call>, t: Mux)
    requires Run(c, s, calls, t)
    ensures var packets := PacketsOf(calls);
      t.accepted == s.accepted + if c.EncodedVideo() then packets else packets[..Min(|packets|, FramesLeft(c, s))]
    decreases |calls|
  {
    if calls != [] {
      CallAccepts(c, s, calls[0]);
      hide Make, FramesLeft;
      var s1, rest := Make(c, s, calls[0]).value, PacketsOf(calls[1..]);
      RunAcceptsFirst(c, s1, calls[1..], t);
      if calls[0].WriteOne? {
        TakeOneMore(s.accepted, calls[0].p, rest, FramesLeft(c, s));
      } else {
        assert PacketsOf(calls) == rest;
      }
    }
  }

  lemma TakeOneMore(accepted: seq<Packet>, p: Packet, rest: seq<Packet>, left: nat)
    ensures accepted + [p] + rest == accepted + ([p] + rest)
    ensures accepted + ([p] + rest)[..Min(1 + |rest|, left)]
            == if left == 0 then accepted else accepted + [p] + rest[..Min(|rest|, left - 1)]
  {
    if left > 0 {
      assert ([p] + rest)[..Min(1 + |rest|, left)] == [p] + rest[..Min(|rest|, left - 1)];
    }
  }

  lemma CallAccepts(c: Config, s: Mux, call: Call)
    requires Make(c, s, call).Some?
    ensures var t, taken := Make(c, s, call).value, c.EncodedVideo() || FramesLeft(c, s) > 0;
      && t.accepted == (if call.WriteOne? && taken then s.accepted + [call.p] else s.accepted)
      && (!c.EncodedVideo() ==> FramesLeft(c, t) == if call.WriteOne? && taken then FramesLeft(c, s) - 1 else FramesLeft(c, s))
  {
    hide Write, FlushQueue;
    match call
    case WriteOne(p) => WriteAccepts(c, s, p);
    case HeaderWritten => FlushAccepts(c, s.(headerWritten := true));
  }

  lemma WriteAccepts(c: Config, s: Mux, p: Packet)
    requires Write(c, s, p).Some?
    ensures var t, taken := Write(c, s, p).value, c.EncodedVideo() || FramesLeft(c, s) > 0;
      && t.accepted == (if taken then s.accepted + [p] else s.accepted)
      && (!c.EncodedVideo() ==> FramesLeft(c, t) == if taken then FramesLeft(c, s) - 1 else 0)
  {
  }

  // Of encoded video every packet is accepted, of other streams the first max_frames.
  lemma FirstFramesAreAccepted(c: Config, calls: seq<Call>, t: Mux)
    requires Run(c, INITIAL, calls, t)
    ensures var packets := PacketsOf(calls);
      t.accepted == if c.media.Video? && c.encoding then packets else packets[..Min(|packets|, Max(0, c.maxFrames))]
  {
    RunAcceptsFirst(c, INITIAL, calls, t);
  }
}
