/** ffplay.c: the ring of decoded frames between one producer (the decoder
    thread) and one consumer (the display or audio thread). Slots and indices
    move outside the lock; only the size is read and changed under it.

    `Ring` is the value of the structure and its members are the atomic steps;
    the class performs the same steps in place. A state of the protocol adds
    where the two threads stand and the history of frames, and the invariant
    shows that the ring is a FIFO in every interleaving. */
module FrameQueues {
  import opened Options
  import Words

  // slots[i] is None when the frame was unreferenced.
  datatype Ring<F> = Ring(slots: seq<Option<F>>, rindex: nat, windex: nat, size: int, keepLast: bool, rindexShown: nat)
  {
    predicate Shape() {
      rindex < |slots| && windex < |slots| && rindexShown <= 1
    }

    // frame_queue_peek_writable does not have to wait.
    predicate CanWrite() { size < |slots| }

    // frame_queue_nb_remaining
    function Remaining(): int { size - rindexShown }

    // frame_queue_peek_readable does not have to wait.
    predicate CanRead() { Remaining() > 0 }

    function ReadIndex(): nat
      requires Shape()
    {
      (rindex + rindexShown) % |slots|
    }

    function Store(f: F): Ring<F>
      requires Shape()
    {
      this.(slots := slots[windex := Some(f)])
    }

    // frame_queue_push, before the lock and under the lock.
    function AdvanceWindex(): Ring<F> {
      this.(windex := if windex + 1 == |slots| then 0 else windex + 1)
    }

    function CountPush(): Ring<F> { this.(size := size + 1) }

    // frame_queue_next: it only marks the first frame as shown, or it
    // unreferences the oldest frame, moves the index, and takes the lock.
    predicate OnlyShows() { keepLast && rindexShown == 0 }

    function Show(): Ring<F> { this.(rindexShown := 1) }

    function Unref(): Ring<F>
      requires Shape()
    {
      this.(slots := slots[rindex := None])
    }

    function AdvanceRindex(): Ring<F> {
      this.(rindex := if rindex + 1 == |slots| then 0 else rindex + 1)
    }

    function CountNext(): Ring<F> { this.(size := size - 1) }
  }

  // What a peek finds: the caller waits, gets no frame, or gets that of a slot.
  datatype Peeked = MustWait | Aborted | Slot(slot: nat)

  // frame_queue_init
  function EmptyRing<F>(maxSize: nat, keepLast: bool): Ring<F> {
    Ring(seq(maxSize, _ => None), 0, 0, 0, keepLast, 0)
  }

  // The structure itself. Each method is one atomic step.
  class FrameQueue<F> {
    const queue: array<Option<F>>
    var rindex: nat
    var windex: nat
    var size: int
    const keepLast: bool
    var rindexShown: nat

    ghost function Value(): Ring<F>
      reads this, queue
    {
      Ring(queue[..], rindex, windex, size, keepLast, rindexShown)
    }

    constructor (maxSize: nat, keepLast: bool)
      ensures Value() == EmptyRing(maxSize, keepLast) && fresh(queue)
    {
      queue := new Option<F>[maxSize](_ => None);
      this.keepLast := keepLast;
      rindex, windex, size, rindexShown := 0, 0, 0, 0;
    }

    // abortRequest is that of the packet queue, which never changes back while
    // the two threads run.
    method PeekWritable(abortRequest: bool) returns (peeked: Peeked)
      ensures peeked.MustWait? <==> !Value().CanWrite() && !abortRequest
      ensures peeked.Aborted? <==> abortRequest
      ensures peeked.Slot? ==> peeked.slot == windex
    {
      if size >= queue.Length && !abortRequest {
        return MustWait;
      }
      if abortRequest {
        return Aborted;
      }
      return Slot(windex);
    }

    method PeekReadable(abortRequest: bool) returns (peeked: Peeked)
      requires Value().Shape()
      ensures peeked.MustWait? <==> !Value().CanRead() && !abortRequest
      ensures peeked.Aborted? <==> abortRequest
      ensures peeked.Slot? ==> peeked.slot == Value().ReadIndex()
    {
      if size - rindexShown <= 0 && !abortRequest {
        return MustWait;
      }
      if abortRequest {
        return Aborted;
      }
      return Slot((rindex + rindexShown) % queue.Length);
    }

    method PeekLast() returns (frame: Option<F>)
      requires Value().Shape()
      ensures frame == Value().slots[rindex]
    {
      frame := queue[rindex];
    }

    method Store(f: F)
      requires Value().Shape()
      modifies queue
      ensures Value() == old(Value()).Store(f)
    {
      queue[windex] := Some(f);
    }

    method PushOutsideLock()
      modifies this`windex
      ensures Value() == old(Value()).AdvanceWindex()
    {
      windex := windex + 1;
      if windex == queue.Length {
        windex := 0;
      }
    }

    method PushUnderLock()
      modifies this`size
      ensures Value() == old(Value()).CountPush()
    {
      size := size + 1;
    }

    // The first part of frame_queue_next; done when it only showed a frame.
    method NextUnref() returns (done: bool)
      requires Value().Shape()
      modifies this`rindexShown, queue
      ensures done == old(Value()).OnlyShows()
      ensures Value() == if done then old(Value()).Show() else old(Value()).Unref()
    {
      if keepLast && rindexShown == 0 {
        rindexShown := 1;
        return true;
      }
      queue[rindex] := None;
      return false;
    }

    method NextOutsideLock()
      modifies this`rindex
      ensures Value() == old(Value()).AdvanceRindex()
    {
      rindex := rindex + 1;
      if rindex == queue.Length {
        rindex := 0;
      }
    }

    method NextUnderLock()
      modifies this`size
      ensures Value() == old(Value()).CountNext()
    {
      size := size - 1;
    }
  }

  // ----- The two threads

  datatype Producer<F> = Idle | Writing | Written(f: F) | Moved
  datatype Consumer = AtRest | Holding | Unreferenced | Advanced

  // pushed and consumed are the history: the frames whose push has begun, and
  // those on which frame_queue_next has begun. removed counts the slots given back.
  datatype State<F> = State(
    r: Ring<F>, producer: Producer<F>, consumer: Consumer,
    pushed: seq<F>, consumed: seq<Option<F>>, removed: nat, aborted: bool)

  datatype Step<F> =
    | GetWritable | Write(f: F) | MoveWindex | CountPush
    | GetReadable | Next | MoveRindex | CountNext
    | AbortQueue

  ghost predicate Enabled<F>(s: State<F>, step: Step<F>) {
    match step
    case GetWritable => s.producer.Idle? && (s.r.CanWrite() || s.aborted)
    case Write(_) => s.producer.Writing? || s.producer.Written?
    case MoveWindex => s.producer.Written?
    case CountPush => s.producer.Moved?
    case GetReadable => s.consumer.AtRest? && (s.r.CanRead() || s.aborted)
    case Next => s.consumer.Holding?
    case MoveRindex => s.consumer.Unreferenced?
    case CountNext => s.consumer.Advanced?
    case AbortQueue => true
  }

  ghost function Do<F>(s: State<F>, step: Step<F>): State<F>
    requires Enabled(s, step) && s.r.Shape()
  {
    match step
    case GetWritable => if s.aborted then s else s.(producer := Writing)
    case Write(f) => s.(r := s.r.Store(f), producer := Written(f))
    case MoveWindex => s.(r := s.r.AdvanceWindex(), producer := Moved, pushed := s.pushed + [s.producer.f])
    case CountPush => s.(r := s.r.CountPush(), producer := Idle)
    case GetReadable => if s.aborted then s else s.(consumer := Holding)
    case Next =>
      var consumed := s.consumed + [s.r.slots[s.r.ReadIndex()]];
      if s.r.OnlyShows() then s.(r := s.r.Show(), consumer := AtRest, consumed := consumed)
      else s.(r := s.r.Unref(), consumer := Unreferenced, consumed := consumed)
    case MoveRindex => s.(r := s.r.AdvanceRindex(), consumer := Advanced, removed := s.removed + 1)
    case CountNext => s.(r := s.r.CountNext(), consumer := AtRest)
    case AbortQueue => s.(aborted := true)
  }

  ghost function Initial<F>(maxSize: nat, keepLast: bool): State<F> {
    State(EmptyRing(maxSize, keepLast), Idle, AtRest, [], [], 0, false)
  }

  // ----- The invariant

  // The slot k places after the oldest one.
  ghost function Nth<F>(r: Ring<F>, k: nat): nat
    requires r.Shape() && k <= |r.slots|
  {
    if r.rindex + k < |r.slots| then r.rindex + k else r.rindex + k - |r.slots|
  }

  // The number of frames in the ring, whatever the lock-protected size says yet.
  ghost function Occupancy<F>(s: State<F>): int {
    s.r.size + (if s.producer.Moved? then 1 else 0) - (if s.consumer.Advanced? then 1 else 0)
  }

  ghost predicate CountInv<F>(s: State<F>) {
    var r, n, occ := s.r, |s.r.slots|, Occupancy(s);
    && r.Shape()
    && 0 <= occ <= n && occ == |s.pushed| - s.removed
    && r.windex == Nth(r, occ)
    && 0 <= r.size <= n && (!s.producer.Idle? ==> r.size < n)
    && (!s.consumer.AtRest? ==> r.CanRead())
    && (s.consumer.Unreferenced? || s.consumer.Advanced? ==> !r.OnlyShows())
    && (r.rindexShown == 1 ==> r.keepLast && r.size >= 1)
  }

  // The slot k places after the oldest one: a frame pushed and not yet given
  // back, or the one being written, or nothing.
  ghost predicate SlotHolds<F>(s: State<F>, k: nat)
    requires CountInv(s) && k < |s.r.slots|
  {
    s.r.slots[Nth(s.r, k)] ==
      if k < Occupancy(s) then
        if k == 0 && s.consumer.Unreferenced? then None else Some(s.pushed[s.removed + k])
      else
        if k == Occupancy(s) && s.producer.Written? then Some(s.producer.f) else None
  }

  ghost predicate SlotInv<F>(s: State<F>)
    requires CountInv(s)
  {
    forall k :: 0 <= k < |s.r.slots| ==> SlotHolds(s, k)
  }

  // The frames consumed so far are the first ones pushed.
  ghost predicate HistoryInv<F>(s: State<F>)
    requires CountInv(s)
  {
    && |s.consumed| == s.removed + s.r.rindexShown + (if s.consumer.Unreferenced? then 1 else 0)
    && |s.consumed| <= |s.pushed|
    && (forall k :: 0 <= k < |s.consumed| ==> s.consumed[k] == Some(s.pushed[k]))
  }

  ghost predicate Inv<F>(s: State<F>) {
    CountInv(s) && SlotInv(s) && HistoryInv(s)
  }

  lemma InitialInv<F>(maxSize: nat, keepLast: bool)
    requires maxSize > 0
    ensures Inv<F>(Initial(maxSize, keepLast))
  {
  }

  lemma ReadIndexIsNth<F>(r: Ring<F>)
    requires r.Shape()
    ensures r.ReadIndex() == Nth(r, r.rindexShown)
  {
    var i, n := r.rindex + r.rindexShown, |r.slots|;
    if i == n {
      assert n % n == 0;
    }
  }

  lemma StepKeepsCountInv<F>(s: State<F>, step: Step<F>)
    requires CountInv(s) && Enabled(s, step)
    ensures CountInv(Do(s, step))
  {
    var t := Do(s, step);
    assert |t.r.slots| == |s.r.slots|;
    match step
    case MoveWindex => assert Occupancy(t) == Occupancy(s) + 1;
    case MoveRindex => assert Occupancy(t) == Occupancy(s) - 1;
    case _ => assert Occupancy(t) == Occupancy(s);
  }

  // Of one slot, before and after a step.
  lemma StoreKeepsSlot<F>(s: State<F>, f: F, k: nat)
    requires CountInv(s) && Enabled(s, Write(f)) && CountInv(Do(s, Write(f)))
    requires k < |s.r.slots| && SlotHolds(s, k)
    ensures SlotHolds(Do(s, Write(f)), k)
  {
  }

  lemma MoveWindexKeepsSlot<F>(s: State<F>, k: nat)
    requires CountInv(s) && Enabled(s, MoveWindex) && CountInv(Do(s, MoveWindex))
    requires k < |s.r.slots| && SlotHolds(s, k)
    ensures SlotHolds(Do(s, MoveWindex), k)
  {
  }

  lemma NextKeepsSlot<F>(s: State<F>, k: nat)
    requires CountInv(s) && Enabled(s, Next) && CountInv(Do(s, Next))
    requires k < |s.r.slots| && SlotHolds(s, k)
    ensures SlotHolds(Do(s, Next), k)
  {
  }

  // The oldest slot becomes the youngest.
  lemma MoveRindexKeepsSlot<F>(s: State<F>, k: nat)
    requires CountInv(s) && Enabled(s, MoveRindex) && CountInv(Do(s, MoveRindex)) && k < |s.r.slots|
    requires SlotHolds(s, if k + 1 < |s.r.slots| then k + 1 else 0)
    ensures SlotHolds(Do(s, MoveRindex), k)
  {
  }

  lemma OtherKeepsSlot<F>(s: State<F>, step: Step<F>, k: nat)
    requires CountInv(s) && Enabled(s, step) && CountInv(Do(s, step))
    requires !step.Write? && !step.MoveWindex? && !step.Next? && !step.MoveRindex?
    requires k < |s.r.slots| && SlotHolds(s, k)
    ensures |Do(s, step).r.slots| == |s.r.slots| && SlotHolds(Do(s, step), k)
  {
  }

  lemma StepKeepsSlotInv<F>(s: State<F>, step: Step<F>)
    requires Inv(s) && Enabled(s, step) && CountInv(Do(s, step))
    ensures SlotInv(Do(s, step))
  {
    hide SlotHolds, CountInv, HistoryInv;
    var n := |s.r.slots|;
    SlotsStay(s, step);
    forall k | 0 <= k < n ensures SlotHolds(Do(s, step), k) {
      match step
      case Write(f) => StoreKeepsSlot(s, f, k);
      case MoveWindex => MoveWindexKeepsSlot(s, k);
      case Next => NextKeepsSlot(s, k);
      case MoveRindex => MoveRindexKeepsSlot(s, k);
      case _ => OtherKeepsSlot(s, step, k);
    }
  }

  lemma SlotsStay<F>(s: State<F>, step: Step<F>)
    requires CountInv(s) && Enabled(s, step)
    ensures s.r.Shape() && |Do(s, step).r.slots| == |s.r.slots|
  {
  }

  lemma StepKeepsHistoryInv<F>(s: State<F>, step: Step<F>)
    requires Inv(s) && Enabled(s, step) && CountInv(Do(s, step))
    ensures HistoryInv(Do(s, step))
  {
    if step.Next? {
      ReadIndexIsNth(s.r);
      assert SlotHolds(s, s.r.rindexShown);
    }
  }

  ghost predicate Run<F>(s: State<F>, steps: seq<Step<F>>, t: State<F>)
    decreases |steps|
  {
    if steps == [] then s == t
    else Enabled(s, steps[0]) && s.r.Shape() && Run(Do(s, steps[0]), steps[1..], t)
  }

  lemma {:induction false} RunKeepsInv<F>(s: State<F>, steps: seq<Step<F>>, t: State<F>)
    requires Inv(s) && Run(s, steps, t)
    ensures Inv(t)
    decreases |steps|
  {
    if steps != [] {
      StepKeepsCountInv(s, steps[0]);
      StepKeepsSlotInv(s, steps[0]);
      StepKeepsHistoryInv(s, steps[0]);
      RunKeepsInv(Do(s, steps[0]), steps[1..], t);
    }
  }

  // ----- What the ring promises, in every reachable state

  // A FIFO: the frames consumed so far are the first frames pushed, in order,
  // and the next one peeked at is the next one pushed.
  lemma ConsumedAsPushed<F>(maxSize: nat, keepLast: bool, steps: seq<Step<F>>, t: State<F>)
    requires maxSize > 0 && Run(Initial(maxSize, keepLast), steps, t)
    ensures |t.consumed| <= |t.pushed|
    ensures forall k :: 0 <= k < |t.consumed| ==> t.consumed[k] == Some(t.pushed[k])
    ensures t.r.Shape()
    ensures t.r.CanRead() && (t.consumer.AtRest? || t.consumer.Holding?) ==>
              |t.consumed| < |t.pushed| && t.r.slots[t.r.ReadIndex()] == Some(t.pushed[|t.consumed|])
    ensures t.r.rindexShown == 1 && (t.consumer.AtRest? || t.consumer.Holding?) ==>
              |t.consumed| > 0 && t.r.slots[t.r.rindex] == Some(t.pushed[|t.consumed| - 1])
  {
    InitialInv<F>(maxSize, keepLast);
    RunKeepsInv(Initial(maxSize, keepLast), steps, t);
    ReadIndexIsNth(t.r);
    assert Nth(t.r, 0) == t.r.rindex;
    assert SlotHolds(t, 0);
    if t.r.rindexShown < |t.r.slots| {
      assert SlotHolds(t, t.r.rindexShown);
    }
  }

  // The slot k places after the oldest one, as the source computes it.
  function SlotAt<F>(r: Ring<F>, k: nat): nat
    requires r.slots != []
  {
    (r.rindex + k) % |r.slots|
  }

  lemma SlotAtIsNth<F>(r: Ring<F>, k: nat)
    requires r.Shape() && k <= |r.slots|
    ensures SlotAt(r, k) == Nth(r, k)
  {
    var x, n := r.rindex + k, |r.slots|;
    Words.DivisionIsUnique(x, if x < n then 0 else 1, if x < n then x else x - n, n);
  }

  // Indices stay congruent, and the slot the producer may write is empty and
  // is none of those in use: not a readable one, not the one kept for
  // redisplay, not the one the consumer holds or is unreferencing.
  lemma WritableSlotIsFree<F>(maxSize: nat, keepLast: bool, steps: seq<Step<F>>, t: State<F>)
    requires maxSize > 0 && Run(Initial(maxSize, keepLast), steps, t)
    ensures |t.r.slots| == maxSize && t.r.Shape()
    ensures 0 <= Occupancy(t) <= maxSize && t.r.windex == SlotAt(t.r, Occupancy(t))
    ensures t.producer.Writing? ==> t.r.slots[t.r.windex] == None
    ensures t.producer.Writing? || t.producer.Written? ==>
      && (forall k :: 0 <= k < Occupancy(t) ==> SlotAt(t.r, k) != t.r.windex)
      && (t.r.rindexShown == 1 ==> t.r.rindex != t.r.windex)
      && (t.consumer.Holding? ==> t.r.ReadIndex() != t.r.windex)
      && (t.consumer.Unreferenced? ==> t.r.rindex != t.r.windex)
  {
    InitialInv<F>(maxSize, keepLast);
    RunKeepsInv(Initial(maxSize, keepLast), steps, t);
    RunKeepsLength(Initial<F>(maxSize, keepLast), steps, t);
    ReadIndexIsNth(t.r);
    SlotAtIsNth(t.r, Occupancy(t));
    assert t.r.windex == Nth(t.r, Occupancy(t));
    if Occupancy(t) < |t.r.slots| {
      assert SlotHolds(t, Occupancy(t));
    }
    if t.producer.Writing? || t.producer.Written? {
      forall k | 0 <= k < Occupancy(t) ensures SlotAt(t.r, k) != t.r.windex {
        SlotAtIsNth(t.r, k);
      }
    }
  }

  lemma {:induction false} RunKeepsLength<F>(s: State<F>, steps: seq<Step<F>>, t: State<F>)
    requires Run(s, steps, t)
    ensures |t.r.slots| == |s.r.slots| && t.r.keepLast == s.r.keepLast
    decreases |steps|
  {
    if steps != [] {
      RunKeepsLength(Do(s, steps[0]), steps[1..], t);
    }
  }

  // ----- When the two threads can block each other

  // Both threads wait, each for the other.
  ghost predicate Deadlock<F>(s: State<F>) {
    s.producer.Idle? && !Enabled(s, GetWritable) && s.consumer.AtRest? && !Enabled(s, GetReadable)
  }

  ghost predicate CanDeadlock<F(!new)>(maxSize: nat, keepLast: bool) {
    exists steps: seq<Step<F>>, t: State<F> :: Run(Initial(maxSize, keepLast), steps, t) && Deadlock(t)
  }

  // Only a ring of one slot that keeps its last frame can lock up.
  lemma DeadlockIffOneKeptSlot<F(!new)>(maxSize: nat, keepLast: bool, f: F)
    requires maxSize > 0
    ensures CanDeadlock<F>(maxSize, keepLast) <==> maxSize == 1 && keepLast
  {
    if CanDeadlock<F>(maxSize, keepLast) {
      var steps: seq<Step<F>>, t: State<F> :| Run(Initial(maxSize, keepLast), steps, t) && Deadlock(t);
      InitialInv<F>(maxSize, keepLast);
      RunKeepsInv(Initial(maxSize, keepLast), steps, t);
      RunKeepsLength(Initial(maxSize, keepLast), steps, t);
    } else if maxSize == 1 && keepLast {
      var steps, t := LockUp(f);
      assert false;
    }
  }

  lemma LockUp<F>(f: F) returns (steps: seq<Step<F>>, t: State<F>)
    ensures Run(Initial(1, true), steps, t) && Deadlock(t)
  {
    var s0 := Initial<F>(1, true);
    var s1 := Do(s0, GetWritable);
    var s2 := Do(s1, Write(f));
    var s3 := Do(s2, MoveWindex);
    var s4 := Do(s3, CountPush);
    var s5 := Do(s4, GetReadable);
    t := Do(s5, Next);
    steps := Prepend(s5, Next, [], t);
    steps := Prepend(s4, GetReadable, steps, t);
    steps := Prepend(s3, CountPush, steps, t);
    steps := Prepend(s2, MoveWindex, steps, t);
    steps := Prepend(s1, Write(f), steps, t);
    steps := Prepend(s0, GetWritable, steps, t);
  }

  lemma Prepend<F>(s: State<F>, step: Step<F>, steps: seq<Step<F>>, t: State<F>) returns (steps': seq<Step<F>>)
    requires Enabled(s, step) && s.r.Shape() && Run(Do(s, step), steps, t)
    ensures Run(s, steps', t)
  {
    steps' := [step] + steps;
    assert steps'[1..] == steps;
  }
}
