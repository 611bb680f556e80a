/** audio_cut.cc: cutting a range of samples out of a stream that arrives in
    decoder frames, and sending it to an encoder in chunks of its own size.

    The resampler is a FIFO. `Selection` and `Chunks` say what the encoder is
    to receive, of the whole stream; the class runs the source's loops. */
module AudioCut {
  import opened Numbers

  // ----- cut

  // How many samples of a frame at srcStart..srcEnd lie in start..end.
  function CutCount(srcStart: int, srcEnd: int, start: int, end: int): int {
    Max(0, Min(end, srcEnd) - Max(start, srcStart))
  }

  // dst[plane] becomes a pointer into src[plane], modelled as the samples it
  // points to. A packed format has one plane with the samples of all channels
  // in turn; there the count that is returned is of all channels together.
  method Cut<S>(dst: array<seq<S>>, src: seq<seq<S>>, srcStart: nat, srcEnd: nat, start: int, end: int,
      planar: bool, channels: nat) returns (nbSamples: nat)
    requires srcStart <= srcEnd && |src| == (if planar then channels else 1) && dst.Length >= |src|
    requires forall plane :: 0 <= plane < |src| ==> |src[plane]| == (srcEnd - srcStart) * (if planar then 1 else channels)
    modifies dst
    ensures nbSamples == CutCount(srcStart, srcEnd, start, end) * if planar then 1 else channels
    ensures CutCount(srcStart, srcEnd, start, end) == 0 ==> dst[..] == old(dst[..])
    ensures CutCount(srcStart, srcEnd, start, end) > 0 ==>
      var lo := (Max(start, srcStart) - srcStart) * if planar then 1 else channels;
      forall plane :: 0 <= plane < |src| ==>
        0 <= lo && lo + nbSamples <= |src[plane]| && nbSamples <= |dst[plane]| &&
        dst[plane][..nbSamples] == src[plane][lo..lo + nbSamples]
    ensures forall k :: |src| <= k < dst.Length ==> dst[k] == old(dst[k])
  {
    var n := Min(end, srcEnd) - Max(start, srcStart);
    if n <= 0 {
      return 0;
    }
    var nbOffset, nbPlanes := Max(start - srcStart, 0), channels;
    if !planar {
      OffsetFits(nbOffset, n, srcEnd - srcStart, channels);
      n, nbOffset, nbPlanes := n * channels, nbOffset * channels, 1;
    }
    for plane := 0 to nbPlanes
      invariant forall k :: 0 <= k < plane ==> dst[k] == src[k][nbOffset..]
      invariant forall k :: plane <= k < dst.Length ==> dst[k] == old(dst[k])
    {
      dst[plane] := src[plane][nbOffset..];
    }
    forall plane | 0 <= plane < |src|
      ensures n <= |dst[plane]| && dst[plane][..n] == src[plane][nbOffset..nbOffset + n]
    {
      assert src[plane][nbOffset..][..n] == src[plane][nbOffset..nbOffset + n];
    }
    return n;
  }

  lemma OffsetFits(offset: nat, n: nat, all: nat, channels: nat)
    requires offset + n <= all
    ensures offset * channels + n * channels == (offset + n) * channels <= all * channels
    ensures offset * channels >= 0 && n * channels >= 0
  {
    assert all * channels == (offset + n) * channels + (all - offset - n) * channels;
  }

  // ----- What the encoder is to receive

  function Concat<T>(parts: seq<seq<T>>): seq<T> {
    if parts == [] then [] else Concat(parts[..|parts| - 1]) + parts[|parts| - 1]
  }

  // Samples [max(start, 0), min(end, total)) of a stream.
  function Selection<T>(stream: seq<T>, start: int, end: int): seq<T> {
    var lo, hi := Max(start, 0), Min(end, |stream|);
    if lo < hi then stream[lo..hi] else []
  }

  // What cut takes of one frame that begins at sample `at` of the stream.
  function Slice<T>(frame: seq<T>, at: nat, start: int, end: int): seq<T> {
    var n, lo := CutCount(at, at + |frame|, start, end), Max(start - at, 0);
    if n > 0 then frame[lo..lo + n] else []
  }

  lemma SelectionExtends<T>(stream: seq<T>, frame: seq<T>, start: int, end: int)
    ensures Selection(stream + frame, start, end) == Selection(stream, start, end) + Slice(frame, |stream|, start, end)
  {
    hide CutCount, Max, Min;
    var total := |stream|;
    var lo, hi := Max(start, 0), Min(end, total + |frame|);
    Bounds(start, end, total, |frame|);
    if lo < hi {
      if hi <= total {
        SliceOfLeft(stream, frame, lo, hi);
      } else if lo >= total {
        SliceOfRight(stream, frame, lo, hi);
      } else {
        SliceOfBoth(stream, frame, lo, hi);
      }
    }
  }

  lemma Bounds(start: int, end: int, total: nat, n: nat)
    ensures var lo, hi := Max(start, 0), Min(end, total + n);
      && lo >= 0 && hi <= total + n
      && Min(end, total) == Min(hi, total) && Max(start - total, 0) == Max(lo - total, 0)
      && CutCount(total, total + n, start, end) == Max(0, hi - Max(lo, total))
      && Min(hi, total) == (if hi <= total then hi else total)
      && Max(lo, total) == (if lo >= total then lo else total)
      && Max(lo - total, 0) == (if lo >= total then lo - total else 0)
      && Max(0, hi - Max(lo, total)) == (if hi >= Max(lo, total) then hi - Max(lo, total) else 0)
  {
  }

  lemma SliceOfLeft<T>(a: seq<T>, b: seq<T>, lo: nat, hi: nat)
    requires lo <= hi <= |a|
    ensures (a + b)[lo..hi] == a[lo..hi]
  {
    forall k | 0 <= k < hi - lo ensures (a + b)[lo..hi][k] == a[lo..hi][k] {
      assert (a + b)[lo + k] == a[lo + k];
    }
  }

  lemma SliceOfRight<T>(a: seq<T>, b: seq<T>, lo: nat, hi: nat)
    requires |a| <= lo <= hi <= |a| + |b|
    ensures (a + b)[lo..hi] == b[lo - |a|..hi - |a|]
  {
    forall k | 0 <= k < hi - lo ensures (a + b)[lo..hi][k] == b[lo - |a|..hi - |a|][k] {
      assert (a + b)[lo + k] == b[lo + k - |a|];
    }
  }

  lemma SliceOfBoth<T>(a: seq<T>, b: seq<T>, lo: nat, hi: nat)
    requires lo <= |a| <= hi <= |a| + |b|
    ensures (a + b)[lo..hi] == a[lo..|a|] + b[0..hi - |a|]
  {
    SliceOfLeft(a, b, lo, |a|);
    SliceOfRight(a, b, |a|, hi);
    assert (a + b)[lo..hi] == (a + b)[lo..|a|] + (a + b)[|a|..hi];
  }

  // Chunks of f elements; only the last may be shorter.
  function Chunks<T>(s: seq<T>, f: nat): seq<seq<T>>
    requires f > 0
  {
    if s == [] then []
    else if |s| <= f then [s]
    else [s[..f]] + Chunks(s[f..], f)
  }

  lemma {:induction false} ChunksShape<T>(s: seq<T>, f: nat)
    requires f > 0
    ensures Concat(Chunks(s, f)) == s
    ensures forall i :: 0 <= i < |Chunks(s, f)| - 1 ==> |Chunks(s, f)[i]| == f
    ensures s != [] ==> Chunks(s, f) != [] && 0 < |Chunks(s, f)[|Chunks(s, f)| - 1]| <= f
  {
    if |s| > f {
      ChunksShape(s[f..], f);
      ConcatPrepend(s[..f], Chunks(s[f..], f));
    } else if s != [] {
      assert Concat([s]) == Concat([s][..0]) + s;
    }
  }

  lemma {:induction false} ConcatPrepend<T>(first: seq<T>, parts: seq<seq<T>>)
    ensures Concat([first] + parts) == first + Concat(parts)
  {
    var all := [first] + parts;
    if parts == [] {
      assert all[..0] == [];
    } else {
      assert all[..|all| - 1] == [first] + parts[..|parts| - 1];
      ConcatPrepend(first, parts[..|parts| - 1]);
    }
  }

  lemma ConcatSplit<T>(sent: seq<seq<T>>, fifo: seq<T>, n: nat)
    requires n <= |fifo|
    ensures Concat(sent + [fifo[..n]]) == Concat(sent) + fifo[..n]
    ensures Concat(sent + [fifo[..n]]) + fifo[n..] == Concat(sent) + fifo
  {
    assert (sent + [fifo[..n]])[..|sent|] == sent;
    assert fifo == fifo[..n] + fifo[n..];
  }

  // Full chunks and a remainder of at most f elements are the chunks of their sum.
  lemma {:induction false} FullChunksAreChunks<T>(full: seq<seq<T>>, rest: seq<T>, f: nat)
    requires f > 0 && 0 < |rest| <= f
    requires forall i :: 0 <= i < |full| ==> |full[i]| == f
    ensures Chunks(Concat(full) + rest, f) == full + [rest]
  {
    if full == [] {
      assert Concat(full) + rest == rest;
    } else {
      hide Concat, Chunks;
      var tail := full[1..];
      assert full == [full[0]] + tail;
      ConcatPrepend(full[0], tail);
      assert Concat(full) + rest == full[0] + (Concat(tail) + rest);
      FullChunksAreChunks(tail, rest, f);
      ChunkFirst(full[0], Concat(tail) + rest, f);
      assert [full[0]] + (tail + [rest]) == full + [rest];
    }
  }

  lemma ChunkFirst<T>(first: seq<T>, rest: seq<T>, f: nat)
    requires f > 0 && |first| == f && rest != []
    ensures Chunks(first + rest, f) == [first] + Chunks(rest, f)
  {
    assert (first + rest)[..f] == first && (first + rest)[f..] == rest;
  }

  // ----- AudioCut::run, from the decoder to the encoder

  // The k-th sample of all channels of a planar frame, for k < n.
  function Interleaved<S>(planes: seq<seq<S>>, n: nat): (samples: seq<seq<S>>)
    requires forall c :: 0 <= c < |planes| ==> n <= |planes[c]|
    ensures |samples| == n
  {
    seq(n, k requires 0 <= k < n => Column(planes, k))
  }

  function Column<S>(planes: seq<seq<S>>, k: nat): (sample: seq<S>)
    requires forall c :: 0 <= c < |planes| ==> k < |planes[c]|
    ensures |sample| == |planes| && forall c :: 0 <= c < |planes| ==> sample[c] == planes[c][k]
  {
    seq(|planes|, c requires 0 <= c < |planes| => planes[c][k])
  }

  // Cutting every plane alike cuts the samples.
  lemma CutPlanesCutSamples<S>(cut: seq<seq<S>>, planes: seq<seq<S>>, lo: nat, n: nat, all: nat)
    requires |cut| == |planes| && lo + n <= all
    requires forall c :: 0 <= c < |planes| ==> |planes[c]| == all
    requires forall c :: 0 <= c < |planes| ==> n <= |cut[c]| && cut[c][..n] == planes[c][lo..lo + n]
    ensures Interleaved(cut, n) == Interleaved(planes, all)[lo..lo + n]
  {
    forall k | 0 <= k < n
      ensures Column(cut, k) == Column(planes, lo + k)
    {
      forall c | 0 <= c < |planes|
        ensures cut[c][k] == planes[c][lo + k]
      {
        assert cut[c][..n][k] == planes[c][lo..lo + n][k];
      }
    }
  }

  // A decoded frame of nbSamples samples on each plane.
  datatype Frame<S> = Frame(data: seq<seq<S>>, nbSamples: nat) {
    predicate Planar(channels: nat) {
      |data| == channels && forall c :: 0 <= c < channels ==> |data[c]| == nbSamples
    }
  }

  // What av_read_frame delivers: a packet of another stream, one the decoder
  // refuses, or one that decodes to some frames.
  datatype Packet<S> = Other | Refused | Decoded(frames: seq<Frame<S>>)

  ghost predicate AllPlanar<S>(frames: seq<Frame<S>>, channels: nat) {
    forall i :: 0 <= i < |frames| ==> frames[i].Planar(channels)
  }

  ghost function Samples<S>(frames: seq<Frame<S>>, channels: nat): seq<seq<S>>
    requires AllPlanar(frames, channels)
  {
    if frames == [] then []
    else
      var last := frames[|frames| - 1];
      Samples(frames[..|frames| - 1], channels) + Interleaved(last.data, last.nbSamples)
  }

  function FramesIn<S>(packet: Packet<S>): seq<Frame<S>> {
    if packet.Decoded? then packet.frames else []
  }

  // Every frame of the input, whichever packet brought it.
  ghost function FramesOf<S>(packets: seq<Packet<S>>): seq<Frame<S>> {
    if packets == [] then []
    else FramesOf(packets[..|packets| - 1]) + FramesIn(packets[|packets| - 1])
  }

  // However the frames are spread over packets, all of them arrive in order.
  lemma {:induction false} EveryFrameArrives<S>(groups: seq<seq<Frame<S>>>)
    ensures FramesOf(seq(|groups|, i requires 0 <= i < |groups| => Decoded(groups[i]))) == Concat(groups)
  {
    if groups != [] {
      var n := |groups| - 1;
      var packets := seq(|groups|, i requires 0 <= i < |groups| => Decoded(groups[i]));
      EveryFrameArrives(groups[..n]);
      assert packets[..n] == seq(n, i requires 0 <= i < n => Decoded(groups[..n][i]));
    }
  }

  // Packets of other streams, and those the decoder refuses, change nothing.
  lemma {:induction false} OthersChangeNothing<S>(before: seq<Packet<S>>, packet: Packet<S>, after: seq<Packet<S>>)
    requires !packet.Decoded?
    ensures FramesOf(before + [packet] + after) == FramesOf(before + after)
  {
    if after == [] {
      assert (before + [packet] + [])[..|before|] == before && before + [] == before;
      assert FramesOf(before) + [] == FramesOf(before);
    } else {
      var init, all, less := after[..|after| - 1], before + [packet] + after, before + after;
      OthersChangeNothing(before, packet, init);
      assert all[..|all| - 1] == before + [packet] + init && less[..|less| - 1] == before + init;
    }
  }

  ghost function FirstReplies<P>(replies: nat -> seq<P>, n: nat): seq<P> {
    if n == 0 then [] else FirstReplies(replies, n - 1) + replies(n - 1)
  }

  // S is a sample of one channel, P a packet of the encoder. replies(k) is
  // what the k-th loop over avcodec_receive_packet obtains.
  class AudioCutter<S, P> {
    const channels: nat
    const startNframes: int
    const endNframes: int
    const frameSize: nat
    const replies: nat -> seq<P>
    const handle: array<seq<S>>

    var nframes: nat
    var lastNframes: nat
    var nsamples: nat
    var drop: bool
    var fifo: seq<seq<S>>             // the resampler's buffer
    var sent: seq<seq<seq<S>>>        // frames given to the encoder
    var written: seq<P>               // packets given to the muxer
    ghost var stream: seq<seq<S>>     // what the decoder has delivered
    ghost var received: seq<P>        // what the encoder has returned
    var polls: nat                    // which answer comes next

    ghost predicate Fixed() {
      frameSize > 0 && handle.Length >= channels
    }

    ghost predicate Counted()
      reads this`nframes, this`lastNframes, this`stream
    {
      nframes == lastNframes == |stream|
    }

    // Sent and buffered samples are the selected ones, in order.
    ghost predicate Accounted()
      reads this`sent, this`fifo, this`stream
    {
      Concat(sent) + fifo == Selection(stream, startNframes, endNframes)
    }

    ghost predicate OnlyFullChunks()
      reads this`sent, this`nsamples
    {
      && (forall i :: 0 <= i < |sent| ==> |sent[i]| == frameSize)
      && nsamples == |Concat(sent)|
    }

    // A chunk is sent only when more than a chunk was buffered.
    ghost predicate KeepsSome()
      reads this`sent, this`fifo
    {
      sent != [] ==> fifo != []
    }

    // The encoder is asked for packets after every chunk.
    ghost predicate PollsEach()
      reads this`sent, this`polls
    {
      polls == |sent|
    }

    // Of all packets of the encoder only the first is withheld.
    ghost predicate FirstWithheld()
      reads this`polls, this`received, this`drop, this`written
    {
      && received == FirstReplies(replies, polls)
      && drop == (received == [])
      && written == (if received == [] then [] else received[1..])
    }

    ghost predicate Valid()
      reads this
    {
      Fixed() && Counted() && Accounted() && OnlyFullChunks() && KeepsSome() && PollsEach() && FirstWithheld()
    }

    constructor (channels: nat, startNframes: int, endNframes: int, frameSize: nat, replies: nat -> seq<P>, handle: array<seq<S>>)
      requires frameSize > 0 && handle.Length >= channels
      ensures Valid() && stream == [] && received == [] && polls == 0 && sent == []
      ensures this.startNframes == startNframes && this.endNframes == endNframes
      ensures this.frameSize == frameSize && this.replies == replies
      ensures this.channels == channels && this.handle == handle
    {
      this.channels, this.handle := channels, handle;
      this.startNframes, this.endNframes := startNframes, endNframes;
      this.frameSize, this.replies := frameSize, replies;
      nframes, lastNframes, nsamples, drop := 0, 0, 0, true;
      fifo, sent, written := [], [], [];
      stream, received, polls := [], [], 0;
    }

    // One frame out of the decoder, cut and given to the resampler.
    method TakeFrame(frame: Frame<S>)
      requires Fixed() && Counted() && Accounted() && frame.Planar(channels)
      modifies this`nframes, this`lastNframes, this`fifo, this`stream, handle
      ensures Counted() && Accounted()
      ensures stream == old(stream) + Interleaved(frame.data, frame.nbSamples)
      ensures old(KeepsSome()) ==> KeepsSome()
    {
      hide Concat, Interleaved, Slice, Selection;
      ghost var samples := Interleaved(frame.data, frame.nbSamples);
      nframes := nframes + frame.nbSamples;
      var nbSamples := Cut(handle, frame.data, lastNframes, nframes, startNframes, endNframes, true, channels);
      SliceOf(frame, handle[..channels], lastNframes, nbSamples);
      StaysAccounted(samples);
      if nbSamples > 0 {
        fifo := fifo + Interleaved(handle[..channels], nbSamples);
      }
      lastNframes := nframes;
      stream := stream + samples;
    }

    // What was cut is the slice of the frame that belongs to the selection.
    lemma SliceOf(frame: Frame<S>, cut: seq<seq<S>>, at: nat, n: nat)
      requires frame.Planar(channels) && |cut| == channels
      requires n == CutCount(at, at + frame.nbSamples, startNframes, endNframes)
      requires n > 0 ==>
        var lo := Max(startNframes, at) - at;
        forall c :: 0 <= c < channels ==>
          0 <= lo && lo + n <= frame.nbSamples && n <= |cut[c]| && cut[c][..n] == frame.data[c][lo..lo + n]
      ensures Slice(Interleaved(frame.data, frame.nbSamples), at, startNframes, endNframes)
              == if n > 0 then Interleaved(cut, n) else []
    {
      hide Interleaved;
      if n > 0 {
        CutPlanesCutSamples(cut, frame.data, Max(startNframes, at) - at, n, frame.nbSamples);
      }
    }

    lemma StaysAccounted(samples: seq<seq<S>>)
      requires Accounted()
      ensures Concat(sent) + (fifo + Slice(samples, |stream|, startNframes, endNframes))
              == Selection(stream + samples, startNframes, endNframes)
      ensures fifo + [] == fifo
    {
      hide Concat, Slice, Selection;
      var slice := Slice(samples, |stream|, startNframes, endNframes);
      SelectionExtends(stream, samples, startNframes, endNframes);
      assert Concat(sent) + (fifo + slice) == (Concat(sent) + fifo) + slice;
    }

    // while (avcodec_receive_packet(...) == 0)
    method Poll()
      requires FirstWithheld()
      modifies this`drop, this`written, this`received, this`polls
      ensures FirstWithheld() && polls == old(polls) + 1
    {
      var reply := replies(polls);
      ghost var before := received;
      for i := 0 to |reply|
        invariant polls == old(polls) && received == before + reply[..i]
        invariant drop == (received == [])
        invariant written == if received == [] then [] else received[1..]
      {
        if !drop {
          written := written + [reply[i]];
        } else {
          drop := false;
        }
        received := received + [reply[i]];
        assert reply[..i + 1] == reply[..i] + [reply[i]];
      }
      assert reply[..|reply|] == reply;
      polls := polls + 1;
    }

    // Takes up to frameSize samples out of the resampler for the encoder.
    method SendChunk()
      requires Fixed() && Accounted() && fifo != []
      modifies this`fifo, this`sent, this`nsamples
      ensures Accounted()
      ensures var n := Min(frameSize, |old(fifo)|); sent == old(sent) + [old(fifo)[..n]] && fifo == old(fifo)[n..]
      ensures nsamples == old(nsamples) + Min(frameSize, |old(fifo)|)
      ensures Concat(sent) == Concat(old(sent)) + old(fifo)[..Min(frameSize, |old(fifo)|)]
    {
      hide Concat, Selection;
      var samples := Min(frameSize, |fifo|);
      nsamples := nsamples + samples;
      ConcatSplit(sent, fifo, samples);
      sent, fifo := sent + [fifo[..samples]], fifo[samples..];
    }

    lemma EmptyChunks(none: seq<seq<seq<S>>>)
      requires frameSize > 0
      ensures none == [] ==> Concat(none) == [] && Chunks(Concat(none), frameSize) == none
    {
    }

    // Sends full chunks as long as more than one is buffered.
    method Rechunk()
      requires Valid()
      modifies this`fifo, this`sent, this`nsamples, this`drop, this`written, this`received, this`polls
      ensures Valid() && |fifo| <= frameSize && stream == old(stream)
    {
      hide Concat, Selection, FirstReplies, FirstWithheld, Accounted, Counted;
      while |fifo| > frameSize
        invariant Valid() && stream == old(stream)
        decreases |fifo|
      {
        SendChunk();
        Poll();
      }
    }

    method TakePacket(packet: Packet<S>)
      requires Valid() && |fifo| <= frameSize
      requires AllPlanar(FramesIn(packet), channels)
      modifies this, handle
      ensures Valid() && |fifo| <= frameSize
      ensures stream == old(stream) + Samples(FramesIn(packet), channels)
    {
      if packet.Decoded? {
        hide Accounted, Counted, OnlyFullChunks, FirstWithheld, KeepsSome, Samples, Interleaved;
        var frames := packet.frames;
        SamplesStep(old(stream), frames, 0, channels);
        for i := 0 to |frames|
          invariant Valid() && AllPlanar(frames[..i], channels)
          invariant stream == old(stream) + Samples(frames[..i], channels)
        {
          SamplesStep(old(stream), frames, i, channels);
          TakeFrame(frames[i]);
        }
        assert frames[..|frames|] == frames;
        Rechunk();
      }
    }

    // What remains in the resampler, then the encoder's own delayed packets.
    method Drain()
      requires Valid() && |fifo| <= frameSize
      modifies this`fifo, this`sent, this`nsamples, this`drop, this`written, this`received, this`polls
      ensures stream == old(stream) && FirstWithheld() && polls == Max(1, |sent|)
      ensures fifo == [] && sent == Chunks(Selection(stream, startNframes, endNframes), frameSize)
      ensures nsamples == |Selection(stream, startNframes, endNframes)|
    {
      hide Concat, Selection, FirstReplies;
      if |fifo| > 0 {
        FullChunksAreChunks(sent, fifo, frameSize);
        assert fifo[..|fifo|] == fifo;
        SendChunk();
      } else {
        EmptyChunks(sent);
      }
      assert Concat(sent) + fifo == Concat(sent);
      Poll();
    }

    // The whole of step 5 of run, on the packets of a file.
    method Run(packets: seq<Packet<S>>)
      requires Valid() && sent == [] && stream == [] && fifo == []
      requires AllPlanar(FramesOf(packets), channels)
      modifies this, handle
      ensures var selected := Selection(Samples(FramesOf(packets), channels), startNframes, endNframes);
              sent == Chunks(selected, frameSize) && fifo == [] && nsamples == |selected|
      ensures received == FirstReplies(replies, Max(1, |sent|))
      ensures written == if received == [] then [] else received[1..]
    {
      hide Concat, Selection, FirstReplies, Chunks;
      for i := 0 to |packets|
        invariant Valid() && |fifo| <= frameSize
        invariant AllPlanar(FramesOf(packets[..i]), channels)
        invariant stream == Samples(FramesOf(packets[..i]), channels)
      {
        PrefixPlanar(packets, i + 1, channels);
        assert packets[..i + 1][..i] == packets[..i];
        SamplesAppend(FramesOf(packets[..i]), FramesIn(packets[i]), channels);
        TakePacket(packets[i]);
      }
      assert packets[..|packets|] == packets;
      Drain();
    }
  }

  lemma {:induction false} SamplesAppend<S>(a: seq<Frame<S>>, b: seq<Frame<S>>, channels: nat)
    requires AllPlanar(a + b, channels)
    ensures AllPlanar(a, channels) && AllPlanar(b, channels)
    ensures Samples(a + b, channels) == Samples(a, channels) + Samples(b, channels)
  {
    assert forall i :: 0 <= i < |a| ==> a[i] == (a + b)[i];
    assert forall i :: 0 <= i < |b| ==> b[i] == (a + b)[|a| + i];
    hide Interleaved;
    if b == [] {
      assert a + b == a;
    } else {
      var init := b[..|b| - 1];
      assert (a + b)[..|a + b| - 1] == a + init;
      SamplesAppend(a, init, channels);
      var last := Interleaved(b[|b| - 1].data, b[|b| - 1].nbSamples);
      assert Samples(a + b, channels) == Samples(a + init, channels) + last;
      assert Samples(a, channels) + (Samples(init, channels) + last) == (Samples(a, channels) + Samples(init, channels)) + last;
    }
  }

  lemma SamplesStep<S>(base: seq<seq<S>>, frames: seq<Frame<S>>, i: nat, channels: nat)
    requires AllPlanar(frames, channels) && i <= |frames|
    ensures AllPlanar(frames[..i], channels)
    ensures i == 0 ==> base + Samples(frames[..i], channels) == base
    ensures i < |frames| ==>
      && AllPlanar(frames[..i + 1], channels)
      && base + Samples(frames[..i + 1], channels)
         == base + Samples(frames[..i], channels) + Interleaved(frames[i].data, frames[i].nbSamples)
  {
    if i < |frames| {
      assert frames[..i + 1][..i] == frames[..i];
    }
  }

  lemma {:induction false} PrefixPlanar<S>(packets: seq<Packet<S>>, n: nat, channels: nat)
    requires n <= |packets| && AllPlanar(FramesOf(packets), channels)
    ensures AllPlanar(FramesOf(packets[..n]), channels)
    decreases |packets|
  {
    if n == |packets| {
      assert packets[..n] == packets;
    } else {
      var shorter := packets[..|packets| - 1];
      assert forall i :: 0 <= i < |FramesOf(shorter)| ==> FramesOf(shorter)[i] == FramesOf(packets)[i];
      PrefixPlanar(shorter, n, channels);
      assert shorter[..n] == packets[..n];
    }
  }
}
