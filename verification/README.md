# Models of the audio tools and the FFmpeg tool layer, and proofs about them

A Dafny 4.11 project beside the repository. It models the parts of it that
carry an algorithm or a protocol and proves what those parts are for. Run
`dafny verify dfyconfig.toml`.

## What is modelled

- `EditPass.dfy`: the edit script between a prediction and a ground truth. The
  script replays to the ground truth and is the shortest of all edit sequences.
- `PacketQueue.dfy`, `DecoderProtocol.dfy`: ffplay's packet queue as a linked
  list, and the serial protocol between the threads that fill and flush it and
  the decoder. A codec never sees two serials without a flush in between, no
  packet is lost, and at most one stale frame comes out after a seek.
- `FrameQueue.dfy`: the ring of decoded frames, whose indices move outside the
  lock. It is a FIFO in every interleaving.
- `CondVar.dfy`: condition variables made of two event semaphores, and
  `pthread_once`. Signal releases one thread, broadcast releases all, both
  return, and a wait returns with the mutex.
- `VideoSync.dfy`, `VideoCounters.dfy`, `VideoTiming.dfy`: frame duplication and
  dropping in `do_video_out`. Frames are conserved, drift is bounded, the
  counters are the repeats and the pictures never shown, and every picture is
  shown at its time, by sync mode.
- `Muxing.dfy`: buffering and timestamp repair in `write_packet`. Packets are
  conserved in order, dts increase.
- `Words.dfy`, `Ngrams.dfy`, `Precision.dfy`: n-grams packed into 64-bit keys,
  their counts and the clipped precision of BLEU.
- `Getopt.dfy`: `getopt`, which keeps its place between calls; it reads back
  every rendering of an option list (section 12.2 of POSIX.1-2017, Base
  Definitions).
- `SplitCommandline.dfy`: the sorting of a command line into option groups.
- `AudioCut.dfy`: cutting and re-chunking a stream of samples.
- `EightBps.dfy`: the run-length decoder of QuickTime 8BPS video.
- `AudioVolume.dfy`: the sample histogram and its power sum in 64-bit arithmetic.

Code that updates state in place is a class or a method on arrays, proved equal
to a function of the old state; the main results are lemmas about that function.
Code shared by threads is a state machine whose steps are the atomic actions of
the source, so that a sequence of steps is an interleaving and a result about
all sequences is about all schedules.

Where a promise fails on inputs the code accepts, the model keeps the code, a
lemma names such an input, and another says exactly when the promise holds:

- A flush of `do_video_out` that follows another one, or that finds no picture
  to repeat, can count duplicates that it does not send; a burst skipped as too
  large while a dropped picture is still owed counts that picture twice
  (`VideoSync.LosesCount`, and by how much `VideoSync.Excess`).
- A picture that is to be preceded by copies of a last picture that is not there,
  as a late first picture can be, is shown instead of the copies and counted as
  duplicate and dropped (`VideoCounters.Miscounts`).
- A packet without dts resets the monotonicity of the stream
  (`Muxing.MissingDtsBreaksTheChain`); the dts still increase exactly when each
  packet that ends such a stretch resumes beyond the last dts there was
  (`Muxing.DtsIncreasesIff`).
- The rounding addition of `print_stats` can wrap and turn the loudest signal
  into silence (`AudioVolume.MeanIsRoundedIff`). The bin of samples at +1.0 and
  above is filled but never read.
- The comment "For 1 - 4 grams, we need mask" in `bleu.cc` is right in the sense
  that four is the limit: five tokens no longer fit (`Ngrams.KeysTellWindowsApartIff`).
- 24-bit 8BPS video decoded as 0RGB32 on a big-endian machine puts its planes on
  the wrong bytes: the plane map is adapted for RGB32 only (`EightBps.ColoursAreInPlaceIff`).
- A frame ring with one slot that keeps its last frame can lock up
  (`FrameQueues.DeadlockIffOneKeptSlot`); ffplay does not create one.
- The matched count of a higher order can exceed that of a lower one from two
  references on, and never with fewer (`Precision.NeverIncreasesIff`).

Where comments and code disagree the model follows the code: the comments
"insert" and "remove" in lines 21 and 26 of `edit_pass.cc` are swapped with
respect to lines 40, 44 and 83-88.

## Model

| member | source | states |
|---|---|---|
| `EditPass.EditPass` | edit_pass.cc:10-55 | the two tables, filled in place row by row, end in the script of the recursive definition, whichever branch wins a tie |
| `EditPass.FillCell` | edit_pass.cc:31-51 | one cell gets the distance and the script of its two prefixes and no other cell changes |
| `EditPass.FillBorders` | edit_pass.cc:16-27 | row 0 removes everything, column 0 inserts everything |
| `EditPass.ReplayYieldsWord1` | edit_pass.cc:18-54 | replaying the returned script left to right on word2, copying unmentioned elements, yields exactly word1 |
| `EditPass.OneEntryIsOneEdit` | edit_pass.cc:77-94 | -1 is one removal, -2 one insertion and any other entry one replacement in the current sequence |
| `EditPass.ScriptAsEdits` | edit_pass.cc:77-94 | a replayable script of n entries is a sequence of n single-element edits with the same result |
| `EditPass.ScriptLength` | edit_pass.cc:31-51 | the script has exactly dis_map[size1][size2] entries |
| `EditPass.EditIsNear` | edit_pass.cc:31-36 | no single edit, anywhere in a sequence, changes the distance to any word by more than one |
| `EditPass.EditsReachDist` | edit_pass.cc:31-36 | every edit sequence that turns s into t is at least as long as the distance |
| `EditPass.ScriptIsShortest` | edit_pass.cc:10-55 | the script is an edit sequence from word2 to word1 and none is shorter, among all sequences of edits made in any order |
| `EditPass.ScriptIsPlaced` | edit_pass.cc:16-51 | the third component of every entry, in terms of the replay: the element of word2 removed or replaced, or the one before the insertion; 0 or the index in word1 where one of the words has not begun |
| `EditPass.DistBound` | edit_pass.cc:31-36 | the distance is at most the longer length |
| `EditPass.TheEditPass` | edit_pass.cc:57-69 | the buffer receives the flattened script, at most 3*max(size1,size2) ints, and nothing behind it changes; the buffer needs room for the script only and may be one of the words |
| `EditPass.FlatRoundTrip` | edit_pass.cc:63-67 | entry k is read back from ints 3k, 3k+1, 3k+2 |
| `PacketQueues.PacketQueue.Put` | ffmpeg-4.2/fftools/ffplay.c:428-455 | the linked list gains one node at its tail with the right serial, or is untouched when aborted; list shape and totals stay valid |
| `PacketQueues.PacketQueue.Flush` | ffmpeg-4.2/fftools/ffplay.c:499-515 | every node is freed exactly once and the queue is empty; serial and abort flag stay |
| `PacketQueues.PacketQueue.Start` | ffmpeg-4.2/fftools/ffplay.c:535-541 | the abort flag is cleared and flush_pkt opens a new serial |
| `PacketQueues.PacketQueue.Get` | ffmpeg-4.2/fftools/ffplay.c:544-580 | aborted, empty or the oldest entry with its serial; FIFO order, tail pointer and totals stay right |
| `PacketQueues.PacketQueue.constructor` | ffmpeg-4.2/fftools/ffplay.c:482-497 | an empty queue that is aborted until it is started |
| `PacketQueues.TotalsAppend` | ffmpeg-4.2/fftools/ffplay.c:449-451 | size and duration of a longer queue |
| `DecoderProtocol.CodecNeverMixesSerials` | ffmpeg-4.2/fftools/ffplay.c:428-680 | in every interleaving of a disciplined run: between packets of two serials the codec is flushed, packets reach it in put order, queued serials never decrease and stay at most q->serial |
| `DecoderProtocol.RunKeepsInv` | ffmpeg-4.2/fftools/ffplay.c:591-680 | the queue, codec and order invariants hold after every run |
| `DecoderProtocol.StepKeepsQueueInv` | ffmpeg-4.2/fftools/ffplay.c:428-580 | a serial in the queue starts with its flush_pkt and the decoder is never ahead of the queue |
| `DecoderProtocol.StepKeepsCodecInv` | ffmpeg-4.2/fftools/ffplay.c:597-679 | the codec holds an older serial only while the flush_pkt of the newer one is on its way or was itself superseded |
| `DecoderProtocol.StepKeepsOrderInv` | ffmpeg-4.2/fftools/ffplay.c:638-679 | codec, held packet and queue are in put order; only a null packet can be repeated |
| `DecoderProtocol.EveryPacketArrives` | ffmpeg-4.2/fftools/ffplay.c:428-680 | nothing is lost: unless the queue was just emptied, the packets put since its serial began are those the codec was given, then the one the decoder holds, then those queued |
| `DecoderProtocol.OnlyObsoleteIsDiscarded` | ffmpeg-4.2/fftools/ffplay.c:648-650 | a packet dropped at the second serial check belongs to a serial that the queue has left and, whatever steps follow, never returns to |
| `DecoderProtocol.FinishedIsNeverStale` | ffmpeg-4.2/fftools/ffplay.c:628-657 | a decoder that reads as finished in the current serial has caught up with the queue, and the next flush_pkt makes it unfinished at once |
| `DecoderProtocol.FinishedIffEof` | ffmpeg-4.2/fftools/ffplay.c:628-657 | unless the queue was just emptied the decoder reads as finished in the current serial exactly when the codec reported its end under it, and 0 before that once the flush_pkt went through |
| `DecoderProtocol.ConversationIsWellFormed` | ffmpeg-4.2/fftools/ffplay.c:591-681 | what passes between thread and codec, in every interleaving: a packet is offered only right after the codec asked for one, and the codec is asked nothing else then; a failure is followed by another question; an end flushes; a new codec hears nothing before a flush_pkt; all after a flush_pkt is of its serial and serials grow from one to the next; a refused or kept packet is the next one offered; and the codec has received exactly that |
| `DecoderProtocol.AtMostOneStaleResult` | ffmpeg-4.2/fftools/ffplay.c:597-635 | after a new serial began, by a seek say, at most one more frame or end of an older one is reported before the flush_pkt of the new one reaches the codec |
| `DecoderProtocol.AbortEndsTheThread` | ffmpeg-4.2/fftools/ffplay.c:524-533 | after packet_queue_abort the thread takes at most six more steps and has returned when it can take none |
| `DecoderProtocol.FlushWithoutFlushPktMixesSerials` | ffmpeg-4.2/fftools/ffplay.c:2963-2974 | the discipline is needed: a concrete run that flushes after flush_pkt was put feeds two serials to the codec with no flush between |
| `FrameQueues.FrameQueue.PeekWritable` | ffmpeg-4.2/fftools/ffplay.c:749-763 | the caller waits exactly when the ring is full and nothing aborted, gets none after an abort, and otherwise the slot at windex |
| `FrameQueues.FrameQueue.PeekReadable` | ffmpeg-4.2/fftools/ffplay.c:765-779 | the caller waits exactly when nothing is left to show and nothing aborted, gets none after an abort, and otherwise the first frame not yet shown |
| `FrameQueues.FrameQueue.NextUnref` | ffmpeg-4.2/fftools/ffplay.c:793-797 | the first call on a keep-last ring only marks the frame as shown, any other empties the slot at rindex |
| `FrameQueues.StepKeepsCountInv` | ffmpeg-4.2/fftools/ffplay.c:781-804 | windex is rindex plus occupancy around the ring, also between an index move and the size update |
| `FrameQueues.StepKeepsSlotInv` | ffmpeg-4.2/fftools/ffplay.c:781-804 | the occupied slots hold the pushed frames in order and the others are empty |
| `FrameQueues.ConsumedAsPushed` | ffmpeg-4.2/fftools/ffplay.c:734-804 | in every interleaving the k-th frame consumed is the k-th pushed, the next one peeked is the next one pushed and the kept one is the last consumed |
| `FrameQueues.WritableSlotIsFree` | ffmpeg-4.2/fftools/ffplay.c:749-763 | the slot being written is never a readable one, the kept one or one the consumer holds, and the indices stay congruent |
| `FrameQueues.DeadlockIffOneKeptSlot` | ffmpeg-4.2/fftools/ffplay.c:749-779 | both threads can wait for each other if and only if the ring has one slot and keeps its last frame; an abort frees both |
| `CondVar.RunKeepsInv` | ffmpeg-4.2/compat/os2threads.h:133-208 | token, mutex, counter and call invariants hold in every interleaving |
| `CondVar.OneTokenInFlight` | ffmpeg-4.2/compat/os2threads.h:152-208 | at most one of event post, woken waiter and acknowledgement exists, and only while a signal waits for it |
| `CondVar.SignalReleasesOne` | ffmpeg-4.2/compat/os2threads.h:152-160 | a signal releases exactly one of the threads waiting at its entry, none if there was none |
| `CondVar.BroadcastReleasesAll` | ffmpeg-4.2/compat/os2threads.h:162-168 | a broadcast returns with wait_count 0 having released exactly the threads waiting at its entry |
| `CondVar.CallProgresses` | ffmpeg-4.2/compat/os2threads.h:152-168 | during a call some thread can always move and every move lowers a bound, so the handshake never deadlocks |
| `CondVar.CallTerminates` | ffmpeg-4.2/compat/os2threads.h:152-168 | under any scheduler a call returns within that bound |
| `CondVar.StepKeepsCallInv` | ffmpeg-4.2/compat/os2threads.h:152-208 | released threads are a subset of those found waiting, nobody else moves |
| `CondVar.WaitReturnsWithMutex` | ffmpeg-4.2/compat/os2threads.h:192-208 | a thread leaves pthread_cond_wait only by taking the free mutex, and owns it then, alone; it holds it nowhere between its first and last action, goes through the stages one by one, and no other thread moves it |
| `CondVar.LockAndUnlock` | ffmpeg-4.2/compat/os2threads.h:192-208 | the mutex is taken when free by the thread that owns it then, and given back by its owner |
| `OnceControl.InitRoutineRunsOnce` | ffmpeg-4.2/compat/os2threads.h:210-228 | init_routine starts at most once and has finished before any thread returns |
| `OnceControl.LaterCallsDoNotWait` | ffmpeg-4.2/compat/os2threads.h:213 | a call begun after init_routine was done returns at its first test, whatever the others do |
| `OnceControl.EveryCallReturns` | ffmpeg-4.2/compat/os2threads.h:210-228 | n calls take at most 6n actions together, and when none is left every one has returned |
| `VideoSync.OutputStream.DoVideoOut` | ffmpeg-4.2/fftools/ffmpeg.c:1158-1407 | the call with its loop has exactly the effect of the one-step definition on counters, clock, history and frames sent |
| `VideoSync.OutputStream.PlanFrames` | ffmpeg-4.2/fftools/ffmpeg.c:1158-1238 | how many frames, and how many of the previous picture, by sync mode and frame limit |
| `VideoSync.OutputStream.Account` | ffmpeg-4.2/fftools/ffmpeg.c:1240-1264 | dup and drop counters, and the skipped burst |
| `VideoSync.OutputStream.Emit` | ffmpeg-4.2/fftools/ffmpeg.c:1266-1396 | frames sent with consecutive timestamps, the last picture first; stops when there is no picture |
| `VideoSync.MidPredIsMedian` | ffmpeg-4.2/fftools/ffmpeg.c:1158-1162 | the count used on a flush is one of the last three, at most one of them smaller and at most one larger |
| `VideoSync.RintNear` | ffmpeg-4.2/fftools/ffmpeg.c:1217-1219 | rounding is to nearest, ties to even |
| `VideoSync.PlanIsSane` | ffmpeg-4.2/fftools/ffmpeg.c:1163-1238 | 0 <= nb0_frames <= nb_frames <= frames left |
| `VideoSync.CallKeepsBalance` | ffmpeg-4.2/fftools/ffmpeg.c:1237-1392 | frames sent = pictures + dup - drop - last_dropped survives a call if and only if it is not one of the two losing kinds |
| `VideoSync.CallExcess` | ffmpeg-4.2/fftools/ffmpeg.c:1237-1392 | by how much each call changes frames sent minus pictures - dup + drop + last_dropped: 0 but for the two losing kinds, where the amount is given |
| `VideoSync.FramesAreConserved` | ffmpeg-4.2/fftools/ffmpeg.c:1796-1797 | over any run of calls, flushes included, out = in + dup - drop once last_dropped is added, up to the exact sum of what its losing calls are off |
| `VideoSync.SecondFlushLosesCount` | ffmpeg-4.2/fftools/ffmpeg.c:1280-1281 | a concrete run: a second flush in a row counts duplicates it does not send |
| `VideoSync.FlushAfterFlush` | ffmpeg-4.2/fftools/ffmpeg.c:1280-1281 | every second flush with frames due loses count |
| `VideoCounters.CallKeepsDups` | ffmpeg-4.2/fftools/ffmpeg.c:1251-1283 | nb_frames_dup stays the number of frames that repeat a picture if and only if the call does not owe copies of a picture it no longer has; shown pictures stay in order |
| `VideoCounters.ChangesCountPictures` | ffmpeg-4.2/fftools/ffmpeg.c:1275-1283 | in an ordered sequence of frames the changes of picture count the distinct pictures |
| `VideoCounters.CountersMeanWhatTheySay` | ffmpeg-4.2/fftools/ffmpeg.c:1237-1392 | over a run: pictures are shown in arrival order, nb_frames_dup is frames minus distinct pictures shown, nb_frames_drop with the last report is the pictures never shown plus what skipped bursts are off |
| `VideoCounters.LateFirstPictureIsMiscounted` | ffmpeg-4.2/fftools/ffmpeg.c:1217-1278 | a concrete call: a first picture of no duration at 1.2 frames is shown once and counted as one duplicate and one drop |
| `VideoSync.CallBoundsDrift` | ffmpeg-4.2/fftools/ffmpeg.c:1210-1221 | in CFR a call leaves the drift in [-2.1, 0.5] if and only if it found it no lower than -2.1 |
| `VideoSync.VsCfrCallBoundsDrift` | ffmpeg-4.2/fftools/ffmpeg.c:1203-1221 | in VSCFR the bound is [-2.1, 1.0]: the initial jump adds its rounding |
| `VideoSync.DriftStaysBounded` | ffmpeg-4.2/fftools/ffmpeg.c:1164-1392 | the drift stays in those bounds for a whole run from a non-negative first time with non-decreasing end times |
| `VideoSync.RunKeepsPtsIncreasing` | ffmpeg-4.2/fftools/ffmpeg.c:1283-1392 | outside passthrough and drop the encoder gets strictly increasing timestamps over any run |
| `VideoTiming.VfrShowsOnTime` | ffmpeg-4.2/fftools/ffmpeg.c:1222-1227 | in VFR a picture is dropped if and only if it ends 0.6 frames before the clock or earlier; otherwise it is shown once, within 0.6 frames of its start, or at the clock if it started before that |
| `VideoTiming.PassthroughShowsOnTime` | ffmpeg-4.2/fftools/ffmpeg.c:1228-1231 | without sync every picture is shown once, within half a frame of its time |
| `VideoTiming.CfrShowsOnTime` | ffmpeg-4.2/fftools/ffmpeg.c:1210-1221 | in CFR a gap is filled with the last picture up to the place of the new one, which appears no later than its start, or the clock, and at most 1.1 frames early |
| `VideoTiming.VsCfrStartsOnTime` | ffmpeg-4.2/fftools/ffmpeg.c:1203-1209 | in VSCFR nothing is put before a late first picture, and it is shown within half a frame of its start |
| `VideoTiming.ThresholdBoundsDrift` | ffmpeg-4.2/fftools/ffmpeg.c:1212-1213 | with a drop threshold: what is dropped and what is shown, and the drift bounds that follow, if and only if the call found the lower one |
| `VideoTiming.ConstantRateIsGapless` | ffmpeg-4.2/fftools/ffmpeg.c:1203-1221 | over any run in CFR the k-th frame has pts k, in VSCFR k ticks after the first one: no gap and no repetition |
| `VideoTiming.FrameTimesAreKept` | ffmpeg-4.2/fftools/ffmpeg.c:1164-1392 | a stream of pictures on whole frame times goes through unchanged in VFR, passthrough and drop, and without gaps in CFR and VSCFR too, with nothing counted as duplicate or dropped |
| `VideoTiming.CountsAreRemembered` | ffmpeg-4.2/fftools/ffmpeg.c:1240-1243 | the history holds the repeat counts of the last three calls, newest first |
| `VideoTiming.FlushRepeatsLast` | ffmpeg-4.2/fftools/ffmpeg.c:1158-1162 | a flush shows the last picture as often as the median of the history, as far as the limit goes |
| `VideoTiming.OnlyLargeBurstsAreSkipped` | ffmpeg-4.2/fftools/ffmpeg.c:1251-1256 | a call with something to show sends all it planned, unless that is a burst of duplicates above 30 times the threshold, of which it sends nothing |
| `VideoTiming.LimitIsReached` | ffmpeg-4.2/fftools/ffmpeg.c:1237 | the frame limit takes off only what is beyond it |
| `Muxing.OutputStream.WritePacket` | ffmpeg-4.2/fftools/ffmpeg.c:717-823 | limit, counting, buffering or repair and delivery, or exit, exactly as the definition; packets_written counts the deliveries, however the call goes |
| `Muxing.OutputStream.BufferPacket` | ffmpeg-4.2/fftools/ffmpeg.c:725-753 | the packet goes to the tail, the queue grows or the program exits |
| `Muxing.OutputStream.RepairTimestamps` | ffmpeg-4.2/fftools/ffmpeg.c:755-819 | the repaired packet, or exit under exit_on_error |
| `Muxing.OutputStream.FlushMuxingQueue` | ffmpeg-4.2/fftools/ffmpeg.c:3029-3037 | the queue is written out head first, without counting frames again and with packets_written counting each delivery |
| `Muxing.OutputFile.CheckInitOutputFile` | ffmpeg-4.2/fftools/ffmpeg.c:3017-3038 | the queue of every stream is flushed once the header is written, packets_written included; on exit the streams before the failing one are flushed and those after it untouched |
| `Muxing.GuessIsMedian` | ffmpeg-4.2/fftools/ffmpeg.c:790-793 | the replacement is the median of pts, dts and the next free dts |
| `Muxing.RepairOrdersTimestamps` | ffmpeg-4.2/fftools/ffmpeg.c:783-819 | one repair keeps payload and presence of timestamps, and gives pts >= dts and a dts not before its successor slot |
| `Muxing.RepairIsLeast` | ffmpeg-4.2/fftools/ffmpeg.c:783-819 | one repair in full: the dts is the larger of its own and the next free one, the pts the larger of its own and that, after a swap by the median; exit exactly when the dts would have to move under exit_on_error |
| `Muxing.GoodPacketsAreUntouched` | ffmpeg-4.2/fftools/ffmpeg.c:783-820 | over any run a packet in order whose dts follows the last one written is written as it came |
| `Muxing.RunKeepsInv` | ffmpeg-4.2/fftools/ffmpeg.c:717-844 | queue and timestamp invariants hold after every run |
| `Muxing.PacketsAreConserved` | ffmpeg-4.2/fftools/ffmpeg.c:717-823 | written then queued packets are the accepted ones in order, data size is the queued bytes, frame_number = written + queued <= max_frames for streams that are not encoded video |
| `Muxing.DtsIncreases` | ffmpeg-4.2/fftools/ffmpeg.c:795-820 | dts strictly increase over a run, or do not decrease with AVFMT_TS_NONSTRICT, and pts >= dts |
| `Muxing.WrittenIsRepaired` | ffmpeg-4.2/fftools/ffmpeg.c:725-820 | what reaches the muxer is the repair of the accepted packets one after the other, whenever the header came |
| `Muxing.RepairResumesIff` | ffmpeg-4.2/fftools/ffmpeg.c:784-820 | after any history a packet with dts lands beyond the last dts there was if and only if it does not end a stretch without dts, or its own dts, and its pts when it has one, are that far |
| `Muxing.ChainIff` | ffmpeg-4.2/fftools/ffmpeg.c:784-820 | for any sequence of packets the dts present in what is written increase if and only if every packet that ends a stretch without dts resumes so |
| `Muxing.DtsIncreasesIff` | ffmpeg-4.2/fftools/ffmpeg.c:784-820 | the same for every run of calls, buffering and header flush included |
| `Muxing.MissingDtsBreaksTheChain` | ffmpeg-4.2/fftools/ffmpeg.c:795-820 | a concrete run: one packet without dts lets the next one go back in time |
| `Muxing.BufferFailsExactly` | ffmpeg-4.2/fftools/ffmpeg.c:728-741 | "Too many packets buffered" exactly when full, over the data threshold and at max_muxing_queue_size |
| `Muxing.SmallQueueNeverFails` | ffmpeg-4.2/fftools/ffmpeg.c:728-745 | packets that stay within the data threshold are all buffered, in room that doubles from 8 |
| `Muxing.LargeQueueGrowsToMaximum` | ffmpeg-4.2/fftools/ffmpeg.c:731-745 | over the threshold a full queue doubles, but only up to the maximum |
| `Muxing.FirstFramesAreAccepted` | ffmpeg-4.2/fftools/ffmpeg.c:717-723 | of encoded video every packet is accepted, of other streams exactly the first max_frames |
| `Ngrams.MakeMask` | bleu.cc:46-53 | the mask, every shift and sum wrapping |
| `Ngrams.MaskValue` | bleu.cc:46-53 | 16n low bits for n < 4 and all 64 from there on |
| `Ngrams.AndMask` | bleu.cc:65-70 | masking a word takes its residue, as a signed word when all bits are in use |
| `Ngrams.RollIsMasked` | bleu.cc:67-71 | one turn of the loop masks the unbounded result of its shift and sum |
| `Ngrams.RollingKey` | bleu.cc:67-71 | rolling the key of a window over one token gives the key of the next window packed afresh, negative tokens included |
| `Ngrams.FirstKey` | bleu.cc:61-66 | the first key is that of the first n tokens |
| `Ngrams.Ngrams` | bleu.cc:55-74 | the list of keys is the list of windows, packed one by one |
| `Ngrams.KeyInjective` | bleu.cc:67-71 | up to four tokens equal keys mean equal windows, token by token |
| `Ngrams.KeyIgnoresFifthToken` | bleu.cc:67-71 | from five tokens on the first one does not matter |
| `Ngrams.KeyIsOfLastFour` | bleu.cc:67-71 | a longer window has the key of its last four tokens |
| `Ngrams.KeysTellWindowsApartIff` | bleu.cc:67-71 | keys tell windows of n tokens apart if and only if n <= 4 |
| `Ngrams.Counter` | bleu.cc:32-44 | the map counts the multiset of its input |
| `Ngrams.CounterIsTrueMultiset` | bleu.cc:32-74 | for n in 1..4 the count under a key is the number of times that n-gram occurs |
| `Precision.ModifiedPrecision` | bleu.cc:102-130 | numerator: n-grams of the hypothesis, each at most as often as some reference has it; denominator: max(1, windows); above order four the n-grams are compared by their last four tokens |
| `Precision.MaxCounts` | bleu.cc:106-113 | for every key of the hypothesis the largest count in a reference |
| `Precision.SumCounts` | bleu.cc:120-127 | the sum over the map is the size of the multiset |
| `Precision.MaxGramsIsMaximum` | bleu.cc:107-113 | the maximum is an upper bound of all references that one of them attains |
| `Precision.NumeratorBounded` | bleu.cc:118-129 | 0 <= numerator <= number of windows |
| `Precision.MonotoneInReferences` | bleu.cc:107-113 | more references never lower the numerator |
| `Precision.FullMatch` | bleu.cc:102-130 | a hypothesis among the references matches completely |
| `Precision.OneReferenceNeverIncreases` | bleu.cc:102-130 | with one reference the numerator never increases from order n to n+1 |
| `Precision.MatchedLaws` | bleu.cc:102-130 | the same three laws for the numerator of modified_precision at any order |
| `Precision.NeverIncreasesIff` | bleu.cc:102-130 | with r references the numerator never increases from one order to the next, for all inputs, if and only if r <= 1 |
| `Precision.HigherOrdersDecrease` | bleu.cc:102-130 | from order four on it never increases, whatever the references |
| `Precision.TwoReferencesIncrease` | bleu.cc:102-130 | with two references, however often repeated, order 1 matches at most 3 and order 2 matches 4 |
| `Precision.NoTokenNoGram` | bleu.cc:102-130 | no matching token, no matching n-gram of any order |
| `Precision.AddSentence` | bleu.cc:150-155 | each order, however many there are, gains the matched and the full count of this sentence |
| `Precision.Totals` | bleu.cc:142-160 | the totals are the sums over the corpus, or failure when the lists differ in length |
| `Precision.ZeroFirstOrderMeansZero` | bleu.cc:170-172 | a zero order-1 total forces every total to zero, so the early return loses nothing |
| `Getopt.Parser.GetOpt` | ffmpeg-4.2/compat/getopt.c:41-84 | one call: result, new place, optopt and optarg; sp stays 1 or at a character of argv[optind] |
| `Getopt.Parser.GetAll` | ffmpeg-4.2/compat/getopt.c:41-84 | repeated calls make the recursive parse, and end |
| `Getopt.FindIsFirst` | ffmpeg-4.2/compat/getopt.c:57 | the first place of the character among the options, or it is not there |
| `Getopt.NextConsumes` | ffmpeg-4.2/compat/getopt.c:47-81 | every call short of EOF lowers the number of characters left |
| `Getopt.ReadsFlag` | ffmpeg-4.2/compat/getopt.c:57-81 | a character of a cluster that takes no argument, illegal ones included, is reported and the place moves past it |
| `Getopt.ReadsLast` | ffmpeg-4.2/compat/getopt.c:65-74 | an option with an attached or a separate argument |
| `Getopt.ReadsBack` | ffmpeg-4.2/compat/getopt.c:41-84 | any options rendered in clusters, arguments attached or separate and illegal characters among them, are read back exactly and the parse goes on behind them |
| `Getopt.OptionsThenOperands` | ffmpeg-4.2/compat/getopt.c:48-50 | the parse stops at the first operand and leaves it |
| `Getopt.OptionsThenDashDash` | ffmpeg-4.2/compat/getopt.c:51-54 | "--" ends the options and is consumed |
| `Getopt.MissingArgumentIsReported` | ffmpeg-4.2/compat/getopt.c:68-71 | after any options, one that argv ends with before its argument is reported as such and ends the parse |
| `SplitCommandline.MatchSeparator` | ffmpeg-4.2/fftools/cmdutils.c:640-652 | the first group definition with that separator, or none has it |
| `SplitCommandline.BaseNameEndsAtColon` | ffmpeg-4.2/fftools/cmdutils.c:218-219 | the name is compared up to its first colon |
| `SplitCommandline.FindOptionIsFirst` | ffmpeg-4.2/fftools/cmdutils.c:216-227 | the first option of exactly that name, or none has it |
| `SplitCommandline.OptionParseContext.Take` | ffmpeg-4.2/fftools/cmdutils.c:764-845 | one turn of the loop reads one item, consumes exactly its arguments and adds it, or fails with the right error |
| `SplitCommandline.OptionParseContext.Split` | ffmpeg-4.2/fftools/cmdutils.c:751-855 | the loop fails where the parse fails and otherwise holds what its items collect to |
| `SplitCommandline.ItemsSpellTheArguments` | ffmpeg-4.2/fftools/cmdutils.c:764-846 | every argument is spelled by exactly one item, in order |
| `SplitCommandline.ReadsIff` | ffmpeg-4.2/fftools/cmdutils.c:764-845 | an item is read where, and only where, the arguments spell it and it fits the configuration: separators before options before AVOptions before negations, flags with 1 and negations with 0 |
| `SplitCommandline.FailsIff` | ffmpeg-4.2/fftools/cmdutils.c:785-845 | each of the three errors exactly where it is due |
| `SplitCommandline.ParsesIff` | ffmpeg-4.2/fftools/cmdutils.c:764-846 | a command line parses as some items if and only if it spells them and they are well formed, so it has one reading |
| `SplitCommandline.ReadsBack` | ffmpeg-4.2/fftools/cmdutils.c:751-855 | well-formed items spelled after a program name are read back exactly |
| `SplitCommandline.FlagsAreOneOrZero` | ffmpeg-4.2/fftools/cmdutils.c:801-842 | a setting without argument has the value 1 under its own name and 0 under its negation |
| `SplitCommandline.CollectHolds` | ffmpeg-4.2/fftools/cmdutils.c:660-701 | global options in order, each group with the options between its closing item and the one before, the rest in the current group |
| `SplitCommandline.ArgumentsAreSorted` | ffmpeg-4.2/fftools/cmdutils.c:751-855 | both of these for every successful command line |
| `SplitCommandline.PerFileOptionIsInNextGroup` | ffmpeg-4.2/fftools/cmdutils.c:660-701 | a per-file option sits in the group closed by the first separator or file name after it, behind the earlier ones |
| `SplitCommandline.DashDashProtectsOne` | ffmpeg-4.2/fftools/cmdutils.c:771-780 | "--" makes the next argument a file name, and only that one |
| `AudioCut.Cut` | audio_cut.cc:20-38 | every plane, or the one packed plane, points at the selected samples of the frame; nothing is written when none is selected; for packed formats the count is scaled by the channels |
| `AudioCut.SelectionExtends` | audio_cut.cc:21-25 | the selection of a longer stream is the old selection and the slice of the new frame |
| `AudioCut.CutPlanesCutSamples` | audio_cut.cc:34-36 | cutting all planes alike cuts the interleaved samples |
| `AudioCut.ChunksShape` | audio_cut.cc:195-207 | chunks join to the stream, all full but perhaps the last, which is not empty |
| `AudioCut.FullChunksAreChunks` | audio_cut.cc:195-245 | full chunks and a non-empty remainder of at most one chunk are the chunks of the whole |
| `AudioCut.EveryFrameArrives` | audio_cut.cc:180-193 | however frames are spread over packets, all of them arrive in order |
| `AudioCut.OthersChangeNothing` | audio_cut.cc:180-185 | packets of other streams and refused ones change nothing |
| `AudioCut.AudioCutter.TakeFrame` | audio_cut.cc:186-193 | sent and buffered samples stay the selected samples of what was decoded |
| `AudioCut.AudioCutter.Poll` | audio_cut.cc:210-225 | of all packets the encoder returns only the very first is withheld |
| `AudioCut.AudioCutter.Rechunk` | audio_cut.cc:195-226 | only full chunks are sent, while more than one is buffered |
| `AudioCut.AudioCutter.TakePacket` | audio_cut.cc:180-232 | refused packets and packets of other streams change nothing, the others add their frames |
| `AudioCut.AudioCutter.Drain` | audio_cut.cc:234-269 | one final chunk empties the buffer and completes the chunks of the selection |
| `AudioCut.AudioCutter.Run` | audio_cut.cc:171-269 | the encoder gets exactly the chunks of samples [max(start,0), min(end,total)), however the stream comes in packets and frames; the encoder is polled after each, once at least; the muxer gets all its packets but the first |
| `EightBps.DecodeInit` | ffmpeg-4.2/libavcodec/8bps.c:145-182 | depths 8, 24 and 32 only; planes map to distinct bytes below the pixel stride |
| `EightBps.ColoursAreInPlaceIff` | ffmpeg-4.2/libavcodec/8bps.c:151-180 | every plane goes to the byte of its colour in the pixel format if and only if it is not 24-bit video as 0RGB32 on a big-endian machine |
| `EightBps.DecodeRow` | ffmpeg-4.2/libavcodec/8bps.c:95-120 | the loop terminates and paints what the row means at stride px_inc, with its error, its break and the wrapping length |
| `EightBps.RowFits` | ffmpeg-4.2/libavcodec/8bps.c:101-112 | a row never outgrows linesize, whatever the data |
| `EightBps.DecodeFrame` | ffmpeg-4.2/libavcodec/8bps.c:81-122 | the frame ends as the decoded rows painted plane by plane, and the result tells where the data failed |
| `EightBps.PaintedByte` | ffmpeg-4.2/libavcodec/8bps.c:89-117 | a row touches only bytes of its own line that are congruent to planemap[p] modulo px_inc |
| `EightBps.FrameByte` | ffmpeg-4.2/libavcodec/8bps.c:85-122 | every byte of the frame holds the pixel of the one plane that owns it, or its old value when none does |
| `EightBps.DecodedRowsFit` | ffmpeg-4.2/libavcodec/8bps.c:85-122 | that applies to whatever any data decodes to |
| `EightBps.RowRoundTrip` | ffmpeg-4.2/libavcodec/8bps.c:95-120 | a row with the right length is recovered however it was cut into literals and runs |
| `EightBps.PacketRoundTrip` | ffmpeg-4.2/libavcodec/8bps.c:73-122 | a well-formed packet, line table included, decodes without error to its image, whatever follows it |
| `EightBps.PixelRecovered` | ffmpeg-4.2/libavcodec/8bps.c:89-117 | pixel k of line y of plane p stands at y*linesize + planemap[p] + k*px_inc |
| `EightBps.WidePieceEndsRow` | ffmpeg-4.2/libavcodec/8bps.c:101-112 | a code too wide for the rest of the row ends it without error, right behind its count byte |
| `EightBps.ShortLengthRunsOn` | ffmpeg-4.2/libavcodec/8bps.c:95-118 | a row length that ends inside a code wraps around and the row goes on |
| `EightBps.TruncationIsReported` | ffmpeg-4.2/libavcodec/8bps.c:91-104 | a well-formed packet cut short anywhere is reported as invalid |
| `AudioVolume.Bin` | audio_volume.cc:34-36 | the outer bins are exactly the samples at or beyond full scale; between them bin - 0x8000 has the sign of the sample and its size in steps of 1/0x8000, rounded towards silence |
| `AudioVolume.FilterFrameF` | audio_volume.cc:20-39 | every sample of every plane is counted once in its bin and nothing else changes |
| `AudioVolume.PrintStats` | audio_volume.cc:50-75 | no sum wraps, neither guard fires, and what logdb receives is the machine mean of the true sums |
| `AudioVolume.DivisorFits` | audio_volume.cc:63 | the shift brings the total below 2^34 and no lower than 2^33 |
| `AudioVolume.SumsFit` | audio_volume.cc:59-67 | some samples are left after the shift, fewer than 2^34, and the power sum is below 2^64 |
| `AudioVolume.MeanFits` | audio_volume.cc:68-73 | the mean is at most 2^30, so the guards never fire, even if the rounding addition wraps |
| `AudioVolume.RoundedIsNearest` | audio_volume.cc:70 | the rounded mean is the nearest integer |
| `AudioVolume.MeanIsRoundedIff` | audio_volume.cc:70 | the machine gets the rounded mean if and only if the rounding addition stays below 2^64 |
| `AudioVolume.FewSamplesAreExact` | audio_volume.cc:63-70 | up to 2^34 - 8 samples nothing is shifted away and the mean is the rounded one |
| `AudioVolume.LoudestIsReportedSilent` | audio_volume.cc:70 | 2^34 - 1 samples at the loudest value wrap it: the mean is 0 instead of 2^30 |
| `AudioVolume.CountingAddsWeights` | audio_volume.cc:34-36 | counting samples adds their powers, except for those in the bin print_stats does not read |
| `AudioVolume.SampleEnergyOfBin` | audio_volume.cc:34-66 | the power that a sample below full scale counts is that of the sample itself, less at most 65535 of 2^30, and exact for 16-bit samples |
| `AudioVolume.EnergyOfBins` | audio_volume.cc:34-66 | the same for any number of samples |
| `AudioVolume.MeanOfBins` | audio_volume.cc:20-75 | end to end on an empty histogram: the rounded mean of the powers of the bins |
| `AudioVolume.MeanOfSamples` | audio_volume.cc:20-75 | end to end from samples to the mean: the mean power of the samples below +1.0, rounded, less at most 65535 of 2^30, and exactly the rounded mean for 16-bit samples; samples at or above +1.0 are left out of it |

## Left out

- Weak memory, allocation failure and timed waits: steps are sequentially consistent and allocation succeeds.
- Signalling a condition variable without its mutex, which the handshake of `os2threads.h` does not support.
- Waiting in `packet_queue_get` and the frame queue is a step that is not enabled; wake-ups are not modelled. An abort of the packet queue is final for the two threads of a frame ring, which end before the queue is started again.
- Calls into codecs, filters, muxers, the resampler and AVOption parsing are parameters or oracles: their answers are arbitrary. The resampler of `audio_cut.cc` is an exact FIFO, since its two rates are equal (audio_cut.cc:87-88).
- Frames, packets and pictures are opaque values; timestamps of decoded frames (ffplay.c:605-625) and packet side data are not modelled.
- The place of a thread in ffplay is part of a value, not of an object: two threads cannot share one Dafny object, so the classes perform single critical sections and the state machines order them.
- DecoderProtocol.OnlyObsoleteIsDiscarded: leaves out that the discarded packet is freed.
- VideoSync.OutputStream.DoVideoOut: times are exact reals, so the float rounding of `lrintf` is not modelled; the recording-time limit, forced keyframes, encoder errors, the choice of a mode by VSYNC_AUTO and the computation of `duration` are left out.
- VideoSync.FramesAreConserved: one stream; the counters of the source are shared by all of them.
- Muxing.OutputStream.WritePacket: timestamps are taken after av_packet_rescale_ts and their sums do not overflow 64 bits; statistics, durations and muxer errors are left out.
- Muxing.OutputFile.CheckInitOutputFile: starts after the header was written without error; says nothing of the streams when the program exits.
- Ngrams.Counter: counts are unbounded integers, and so are the totals of `bleu`; brevity penalty, smoothing and the final exp/log are floating point with little to prove.
- SplitCommandline.OptionParseContext.Split: arrays that grow by one element are sequences; the option dictionaries are one list of accepted AVOptions in order; the conversion of arguments by the system and the warning about trailing options are left out.
- Getopt.Parser.GetOpt: messages on stderr are left out; Illegal and MissingArg both stand for '?'.
- AudioCut.Cut: integer overflow of sample positions is left out.
- AudioCut.AudioCutter.Run: planar input only, since the scaled count of a packed one is not a number of samples per channel; error returns of the libraries are left out.
- EightBps.DecodeFrame: palette side data is left out, and linesize is not negative.
- AudioVolume.PrintStats: histograms with 2^64 samples or more in total; the logarithm that follows.
- AudioVolume.FilterFrameF: histogram entries do not reach 2^64; samples are reals, so NaN and values beyond int are left out.
- `w32pthreads.h`, `w32dlfcn.h`, the filter, hardware and option plumbing of the tools, `audio_convert.cc`, `audio_gradient.cc`, `media_duration.cc`, `video_thumbnail.cc`, `8svx.c`, `012v.c`: wrappers, configuration or repetitions that would add only easier members.
