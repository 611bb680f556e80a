/** os2threads.h: condition variables made of two auto-reset event semaphores
    and a counter, and pthread_once.

    A state holds the mutex, the three fields of pthread_cond_t and where every
    thread stands; a step is one atomic action of one thread, so every
    interleaving is a sequence of steps. Waits are untimed and the mutex is
    held by whoever calls wait, signal or broadcast. */
module CondVar {
  import opened Options

  datatype Place =
    | Outside
    | Owner                       // holds the mutex, in none of the calls below
    // pthread_cond_wait
    | Counted                     // has incremented wait_count, still holds the mutex
    | Blocked                     // waits for event_sem
    | Woken                       // event_sem released it; wait_count still counts it
    | Uncounted                   // has decremented wait_count, ack_sem not yet posted
    | Relocking                   // has posted ack_sem, waits for the mutex
    // pthread_cond_signal, alone or called by pthread_cond_broadcast
    | LoopTest                    // broadcast, about to test wait_count
    | SignalTest(broadcast: bool)
    | SignalPost(broadcast: bool)
    | SignalAck(broadcast: bool)  // waits for ack_sem
  {
    predicate InCall() { LoopTest? || SignalTest? || SignalPost? || SignalAck? }

    predicate HoldsMutex() { Owner? || Counted? || InCall() }

    // wait_count counts this thread.
    predicate IsCounted() { Counted? || Blocked? || Woken? }
  }

  // What is in flight between a signal's post and its acknowledgement.
  datatype Token = NoToken | EventPosted | Carried(thread: nat) | AckPosted

  // The last four fields are history: the token, and for the signal or
  // broadcast under way the threads as it found them, those that waited then,
  // and those of them it has released.
  datatype State = State(
    threads: seq<Place>, mutex: Option<nat>, event: bool, ack: bool, waitCount: int,
    token: Token, found: seq<Place>, waiting: set<nat>, released: set<nat>)

  datatype Action =
    | Lock | Unlock
    | BeginWait | ReleaseMutex | TakeEvent | Uncount | PostAck | Relock
    | BeginSignal | BeginBroadcast | TestLoop | TestSignal | PostEvent | TakeAck

  datatype Step = Step(i: nat, action: Action)

  ghost function CountedThreads(threads: seq<Place>): set<nat> {
    set i: nat | i < |threads| && threads[i].IsCounted()
  }

  ghost predicate Enabled(s: State, step: Step) {
    var i := step.i;
    i < |s.threads| &&
    match step.action
    case Lock => s.threads[i].Outside? && s.mutex.None?
    case Unlock => s.threads[i].Owner?
    case BeginWait => s.threads[i].Owner?
    case ReleaseMutex => s.threads[i].Counted?
    case TakeEvent => s.threads[i].Blocked? && s.event
    case Uncount => s.threads[i].Woken?
    case PostAck => s.threads[i].Uncounted?
    case Relock => s.threads[i].Relocking? && s.mutex.None?
    case BeginSignal => s.threads[i].Owner?
    case BeginBroadcast => s.threads[i].Owner?
    case TestLoop => s.threads[i].LoopTest?
    case TestSignal => s.threads[i].SignalTest?
    case PostEvent => s.threads[i].SignalPost?
    case TakeAck => s.threads[i].SignalAck? && s.ack
  }

  ghost function Do(s: State, step: Step): State
    requires Enabled(s, step)
  {
    var i := step.i;
    var p := s.threads[i];
    match step.action
    case Lock => s.(threads := s.threads[i := Owner], mutex := Some(i))
    case Unlock => s.(threads := s.threads[i := Outside], mutex := None)
    case BeginWait => s.(threads := s.threads[i := Counted], waitCount := s.waitCount + 1)
    case ReleaseMutex => s.(threads := s.threads[i := Blocked], mutex := None)
    case TakeEvent => s.(threads := s.threads[i := Woken], event := false, token := Carried(i))
    case Uncount =>
      s.(threads := s.threads[i := Uncounted], waitCount := s.waitCount - 1, released := s.released + {i})
    case PostAck => s.(threads := s.threads[i := Relocking], ack := true, token := AckPosted)
    case Relock => s.(threads := s.threads[i := Owner], mutex := Some(i))
    case BeginSignal => Call(s, i, SignalTest(false))
    case BeginBroadcast => Call(s, i, LoopTest)
    case TestLoop => s.(threads := s.threads[i := if s.waitCount == 0 then Owner else SignalTest(true)])
    case TestSignal =>
      s.(threads := s.threads[i := if s.waitCount == 0 then After(p.broadcast) else SignalPost(p.broadcast)])
    case PostEvent => s.(threads := s.threads[i := SignalAck(p.broadcast)], event := true, token := EventPosted)
    case TakeAck => s.(threads := s.threads[i := After(p.broadcast)], ack := false, token := NoToken)
  }

  ghost function Call(s: State, i: nat, place: Place): State
    requires i < |s.threads|
  {
    s.(threads := s.threads[i := place], found := s.threads, waiting := CountedThreads(s.threads), released := {})
  }

  // Where pthread_cond_signal returns to.
  function After(broadcast: bool): Place {
    if broadcast then LoopTest else Owner
  }

  // pthread_cond_init, with n threads around.
  ghost function Initial(n: nat): State {
    State(seq(n, _ => Outside), None, false, false, 0, NoToken, [], {}, {})
  }

  ghost predicate Run(s: State, steps: seq<Step>, t: State)
    decreases |steps|
  {
    if steps == [] then s == t
    else Enabled(s, steps[0]) && Run(Do(s, steps[0]), steps[1..], t)
  }

  ghost predicate Reachable(t: State) {
    exists n: nat, steps :: Run(Initial(n), steps, t)
  }

  // ----- The invariant

  // At most one token is ever in flight, exactly while a signal waits for ack_sem.
  ghost predicate TokenInv(s: State) {
    && (s.event <==> s.token == EventPosted)
    && (s.ack <==> s.token == AckPosted)
    && (forall i: nat :: i < |s.threads| && (s.threads[i].Woken? || s.threads[i].Uncounted?) ==> s.token == Carried(i))
    && (s.token.Carried? ==> s.token.thread < |s.threads| && (s.threads[s.token.thread].Woken? || s.threads[s.token.thread].Uncounted?))
    && (s.token.NoToken? <==> !(InCall(s) && s.threads[s.mutex.value].SignalAck?))
  }

  ghost predicate MutexInv(s: State) {
    && (s.mutex.Some? ==> s.mutex.value < |s.threads|)
    && (forall i: nat :: i < |s.threads| ==> (s.threads[i].HoldsMutex() <==> s.mutex == Some(i)))
  }

  ghost predicate CountInv(s: State) {
    s.waitCount == |CountedThreads(s.threads)|
  }

  // Where the owner of the mutex is inside a signal or a broadcast.
  ghost predicate InCall(s: State) {
    s.mutex.Some? && s.mutex.value < |s.threads| && s.threads[s.mutex.value].InCall()
  }

  // The thread that carries the token has already decremented wait_count.
  ghost predicate Uncounting(s: State) {
    s.token.Carried? && s.token.thread < |s.threads| && s.threads[s.token.thread].Uncounted?
  }

  // The threads the call found waiting are blocked, on their way, or
  // released and waiting for the mutex; no other thread has moved.
  ghost predicate CrowdInv(s: State)
    requires InCall(s)
  {
    && |s.found| == |s.threads|
    && s.waiting == CountedThreads(s.found)
    && s.released <= s.waiting
    && (forall i: nat :: i < |s.found| ==>
         !s.found[i].Counted? && !s.found[i].Woken? && !s.found[i].Uncounted?)
    && (forall i: nat :: i < |s.threads| && i !in s.waiting && i != s.mutex.value ==> s.threads[i] == s.found[i])
    && (forall i: nat :: i in s.waiting ==> i < |s.threads|)
    && (forall i: nat :: i in s.waiting ==>
         if i in s.released then s.threads[i].Uncounted? || s.threads[i].Relocking?
         else s.threads[i].Blocked? || s.threads[i].Woken?)
  }

  // How far the caller has got decides how many threads it has released.
  ghost predicate PhaseInv(s: State)
    requires InCall(s)
  {
    var place := s.threads[s.mutex.value];
    && (place.SignalPost? || place == SignalTest(true) || s.event ==> s.waiting != s.released)
    && (place == SignalTest(false) || place == SignalPost(false) ==> s.released == {})
    && (place == SignalAck(false) ==> |s.released| == if s.ack || Uncounting(s) then 1 else 0)
  }

  ghost predicate CallInv(s: State)
    requires InCall(s)
  {
    CrowdInv(s) && PhaseInv(s)
  }

  ghost predicate Inv(s: State) {
    TokenInv(s) && MutexInv(s) && CountInv(s) && (InCall(s) ==> CallInv(s))
  }

  lemma CountedAfter(threads: seq<Place>, i: nat, p: Place)
    requires i < |threads|
    ensures var before, after := CountedThreads(threads), CountedThreads(threads[i := p]);
      && (i in before <==> threads[i].IsCounted())
      && after == (if p.IsCounted() then before + {i} else before - {i})
      && |after| == |before| + (if p.IsCounted() then 1 else 0) - (if threads[i].IsCounted() then 1 else 0)
  {
    var before := CountedThreads(threads);
    assert CountedThreads(threads[i := p]) == if p.IsCounted() then before + {i} else before - {i};
  }

  // A step moves one thread.
  lemma OneThreadMoves(s: State, step: Step)
    requires Enabled(s, step)
    ensures Do(s, step).threads == s.threads[step.i := Do(s, step).threads[step.i]]
  {
  }

  lemma StepKeepsMutexInv(s: State, step: Step)
    requires MutexInv(s) && Enabled(s, step)
    ensures MutexInv(Do(s, step))
  {
  }

  lemma StepKeepsTokenInv(s: State, step: Step)
    requires TokenInv(s) && MutexInv(s) && Enabled(s, step)
    ensures TokenInv(Do(s, step))
  {
    StepKeepsMutexInv(s, step);
  }

  lemma StepKeepsCountInv(s: State, step: Step)
    requires CountInv(s) && Enabled(s, step)
    ensures CountInv(Do(s, step))
  {
    hide CountedThreads, Do, Enabled;
    CountFollowsThread(s, step);
    CountedAfter(s.threads, step.i, Do(s, step).threads[step.i]);
  }

  // wait_count changes exactly with the thread that moves.
  lemma CountFollowsThread(s: State, step: Step)
    requires Enabled(s, step)
    ensures var i, t := step.i, Do(s, step);
      && i < |s.threads| == |t.threads| && t.threads == s.threads[i := t.threads[i]]
      && t.waitCount == s.waitCount + (if t.threads[i].IsCounted() then 1 else 0) - (if s.threads[i].IsCounted() then 1 else 0)
  {
    OneThreadMoves(s, step);
  }

  // A call begins: every counted thread is blocked on event_sem.
  lemma BeginKeepsCallInv(s: State, step: Step)
    requires Inv(s) && Enabled(s, step) && (step.action.BeginSignal? || step.action.BeginBroadcast?)
    ensures CallInv(Do(s, step))
  {
    CountedAfter(s.threads, step.i, Do(s, step).threads[step.i]);
  }

  // During a call the counted threads are those it has still to release.
  lemma CountedInCall(s: State)
    requires InCall(s) && CrowdInv(s) && MutexInv(s)
    ensures CountedThreads(s.threads) == s.waiting - s.released
  {
    forall i: nat | i < |s.threads| && i !in s.waiting && i != s.mutex.value ensures !s.threads[i].IsCounted() {
      assert i !in CountedThreads(s.found);
    }
  }

  // The caller tests wait_count, posts event_sem or returns from ack_sem.
  lemma CallerKeepsCallInv(s: State, step: Step)
    requires Inv(s) && Enabled(s, step) && InCall(s) && step.i == s.mutex.value && InCall(Do(s, step))
    requires step.action.TestLoop? || step.action.TestSignal? || step.action.PostEvent? || step.action.TakeAck?
    ensures CallInv(Do(s, step))
  {
    CountedInCall(s);
    CallerKeepsCrowdInv(s, step);
  }

  lemma CallerKeepsCrowdInv(s: State, step: Step)
    requires MutexInv(s) && Enabled(s, step) && InCall(s) && step.i == s.mutex.value && InCall(Do(s, step))
    requires step.action.TestLoop? || step.action.TestSignal? || step.action.PostEvent? || step.action.TakeAck?
    requires CrowdInv(s)
    ensures CrowdInv(Do(s, step))
  {
  }

  // One of the waiting threads moves on.
  lemma WaiterKeepsCrowdInv(s: State, step: Step)
    requires MutexInv(s) && Enabled(s, step) && InCall(s) && CrowdInv(s)
    requires step.action.TakeEvent? || step.action.Uncount? || step.action.PostAck?
    ensures InCall(Do(s, step)) && CrowdInv(Do(s, step))
  {
    CountedInCall(s);
    if step.action.TakeEvent? || step.action.Uncount? {
      assert step.i in CountedThreads(s.threads);
    }
  }

  lemma WaiterKeepsPhaseInv(s: State, step: Step)
    requires TokenInv(s) && MutexInv(s) && Enabled(s, step) && InCall(s) && CrowdInv(s) && PhaseInv(s)
    requires step.action.TakeEvent? || step.action.Uncount? || step.action.PostAck?
    ensures InCall(Do(s, step)) && PhaseInv(Do(s, step))
  {
    if step.action.Uncount? {
      CountedInCall(s);
      assert step.i in CountedThreads(s.threads);
    }
  }

  // While a call is under way nobody else can take the mutex.
  lemma WhoCanMove(s: State, step: Step)
    requires Inv(s) && Enabled(s, step) && InCall(s)
    ensures
      if step.i == s.mutex.value then
        step.action.TestLoop? || step.action.TestSignal? || step.action.PostEvent? || step.action.TakeAck?
      else
        step.action.TakeEvent? || step.action.Uncount? || step.action.PostAck?
  {
  }

  lemma StepKeepsCallInv(s: State, step: Step)
    requires Inv(s) && Enabled(s, step) && InCall(Do(s, step))
    ensures CallInv(Do(s, step))
  {
    if step.action.BeginSignal? || step.action.BeginBroadcast? {
      BeginKeepsCallInv(s, step);
    } else {
      assert InCall(s);
      WhoCanMove(s, step);
      if step.i == s.mutex.value {
        CallerKeepsCallInv(s, step);
      } else {
        WaiterKeepsCrowdInv(s, step);
        WaiterKeepsPhaseInv(s, step);
      }
    }
  }

  lemma StepKeepsInv(s: State, step: Step)
    requires Inv(s) && Enabled(s, step)
    ensures Inv(Do(s, step))
  {
    StepKeepsMutexInv(s, step);
    StepKeepsTokenInv(s, step);
    StepKeepsCountInv(s, step);
    if InCall(Do(s, step)) {
      StepKeepsCallInv(s, step);
    }
  }

  lemma {:induction false} RunKeepsInv(s: State, steps: seq<Step>, t: State)
    requires Inv(s) && Run(s, steps, t)
    ensures Inv(t)
    decreases |steps|
  {
    if steps != [] {
      StepKeepsInv(s, steps[0]);
      RunKeepsInv(Do(s, steps[0]), steps[1..], t);
    }
  }

  lemma ReachableInv(t: State)
    requires Reachable(t)
    ensures Inv(t)
  {
    var n: nat, steps :| Run(Initial(n), steps, t);
    assert CountedThreads(Initial(n).threads) == {};
    RunKeepsInv(Initial(n), steps, t);
  }

  // ----- What the calls promise

  predicate OnTheWay(p: Place) { p.Woken? || p.Uncounted? }

  // At most one of: a posted event_sem, a thread that took it and has not yet
  // posted ack_sem, a posted ack_sem.
  lemma OneTokenInFlight(s: State, i: nat, j: nat)
    requires Reachable(s) && i < |s.threads| && j < |s.threads|
    ensures !(s.event && s.ack)
    ensures OnTheWay(s.threads[i]) ==> !s.event && !s.ack
    ensures OnTheWay(s.threads[i]) && OnTheWay(s.threads[j]) ==> i == j
    ensures s.event || s.ack || OnTheWay(s.threads[i]) ==> InCall(s) && s.threads[s.mutex.value].SignalAck?
  {
    ReachableInv(s);
  }

  // A step by which a signal called on its own returns.
  ghost predicate SignalReturns(s: State, step: Step) {
    && Enabled(s, step) && InCall(s) && step.i == s.mutex.value && Do(s, step).threads[step.i].Owner?
    && !s.threads[step.i].LoopTest?
  }

  ghost predicate BroadcastReturns(s: State, step: Step) {
    && Enabled(s, step) && InCall(s) && step.i == s.mutex.value && Do(s, step).threads[step.i].Owner?
    && s.threads[step.i].LoopTest?
  }

  // Exactly the threads in released have left the wait and ask for the mutex
  // again; every other thread, the caller aside, is where the call found it.
  ghost predicate Releases(t: State, released: set<nat>, caller: nat) {
    && |t.found| == |t.threads|
    && (forall i: nat :: i in released ==> i < |t.threads| && t.found[i].Blocked? && t.threads[i].Relocking?)
    && (forall i: nat :: i < |t.threads| && i !in released && i != caller ==> t.threads[i] == t.found[i])
  }

  lemma QuietCallReleases(s: State)
    requires Inv(s) && InCall(s) && !s.event && (forall i: nat :: i < |s.threads| ==> !s.threads[i].Woken? && !s.threads[i].Uncounted?)
    ensures Releases(s, s.released, s.mutex.value)
    ensures s.waitCount == |s.waiting| - |s.released|
  {
    CountedInCall(s);
    assert forall i: nat :: i in s.waiting ==> i in CountedThreads(s.found);
    assert s.waiting == (s.waiting - s.released) + s.released;
  }

  // A signal that finds waiting threads releases exactly one of them.
  lemma SignalReleasesOne(s: State, step: Step)
    requires Reachable(s) && SignalReturns(s, step)
    ensures var t := Do(s, step);
      && Releases(t, t.released, step.i)
      && |t.released| == (if t.waiting == {} then 0 else 1)
      && t.waitCount == |t.waiting| - |t.released|
  {
    ReachableInv(s);
    WhoCanMove(s, step);
    QuietCallReleases(s);
    assert step.action.TestSignal? ==> s.waiting == {};
  }

  // A broadcast leaves no thread waiting: it releases those it found, and only those.
  lemma BroadcastReleasesAll(s: State, step: Step)
    requires Reachable(s) && BroadcastReturns(s, step)
    ensures var t := Do(s, step);
      t.waitCount == 0 && t.released == t.waiting && Releases(t, t.waiting, step.i)
  {
    ReachableInv(s);
    hide Reachable, Run, Releases;
    LoopIsQuiet(s);
    QuietCallReleases(s);
    CountedInCall(s);
    assert s.waitCount == 0;
    NoneLeft(s.waiting, s.released);
    ReturnsWith(s, step);
  }

  // The loop of a broadcast is tested with no token in flight.
  lemma LoopIsQuiet(s: State)
    requires Inv(s) && InCall(s) && s.threads[s.mutex.value].LoopTest?
    ensures !s.event && (forall i: nat :: i < |s.threads| ==> !s.threads[i].Woken? && !s.threads[i].Uncounted?)
    ensures s.released <= s.waiting
  {
  }

  lemma NoneLeft(waiting: set<nat>, released: set<nat>)
    requires released <= waiting && |waiting| - |released| == 0
    ensures waiting == released
  {
    assert waiting == released + (waiting - released);
  }

  lemma ReturnsWith(s: State, step: Step)
    requires BroadcastReturns(s, step)
    ensures Do(s, step).waiting == s.waiting && Do(s, step).released == s.released && Do(s, step).waitCount == s.waitCount == 0
    ensures Releases(s, s.released, step.i) ==> Releases(Do(s, step), s.released, step.i)
  {
  }

  // ----- How a wait returns

  // Between the increment of wait_count and the return of pthread_cond_wait.
  predicate Waiting(p: Place) {
    p.Counted? || p.Blocked? || p.Woken? || p.Uncounted? || p.Relocking?
  }

  // How far a thread is through its wait.
  function WaitStage(p: Place): nat
    requires Waiting(p)
  {
    match p
    case Counted => 0
    case Blocked => 1
    case Woken => 2
    case Uncounted => 3
    case _ => 4
  }

  // A wait begins and ends with the mutex held, holds it nowhere between its
  // first and its last action, and is over only when the thread took it again:
  // nobody else then owns it or is inside one of the calls. Until then every
  // action of the thread takes it one stage further, and no other thread's
  // action moves it.
  lemma WaitReturnsWithMutex(s: State, step: Step, i: nat)
    requires Reachable(s) && Enabled(s, step) && i < |s.threads|
    ensures var t := Do(s, step);
      && |t.threads| == |s.threads|
      && (Waiting(s.threads[i]) && !s.threads[i].Counted? ==> s.mutex != Some(i))
      && (Waiting(s.threads[i]) && !Waiting(t.threads[i]) ==>
            && step.i == i && s.threads[i].Relocking? && s.mutex.None?
            && t.threads[i].Owner? && t.mutex == Some(i)
            && (forall j: nat :: j < |t.threads| && j != i ==> !t.threads[j].HoldsMutex()))
      && (Waiting(s.threads[i]) && Waiting(t.threads[i]) ==>
            WaitStage(t.threads[i]) == WaitStage(s.threads[i]) + if step.i == i then 1 else 0)
      && (!Waiting(s.threads[i]) && Waiting(t.threads[i]) ==>
            step.i == i && s.mutex == Some(i) == t.mutex && WaitStage(t.threads[i]) == 0)
  {
    ReachableInv(s);
    StepKeepsMutexInv(s, step);
    OneThreadMoves(s, step);
  }

  // Whoever uses the mutex takes it free and gives it back.
  lemma LockAndUnlock(s: State, step: Step)
    requires Reachable(s) && Enabled(s, step) && (step.action.Lock? || step.action.Unlock?)
    ensures var t := Do(s, step);
      if step.action.Lock? then s.mutex.None? && t.mutex == Some(step.i) && t.threads[step.i].Owner?
      else s.mutex == Some(step.i) && t.mutex.None? && t.threads[step.i].Outside?
  {
    ReachableInv(s);
  }

  // ----- A call always ends

  // How many steps the call under way can still take.
  ghost function Budget(s: State): int
    requires InCall(s)
  {
    var place := s.threads[s.mutex.value];
    8 * s.waitCount +
    (if place.LoopTest? then 4
     else if place.SignalTest? then 3
     else if place.SignalPost? then 2
     else if s.event then 1
     else if s.ack then 6
     else if Uncounting(s) then 7
     else 0)
  }

  // Some thread can always move, and whichever does brings the end of the call nearer.
  lemma CallProgresses(s: State)
    requires Reachable(s) && InCall(s)
    ensures Budget(s) >= 0
    ensures exists step :: Enabled(s, step)
    ensures forall step :: Enabled(s, step) && InCall(Do(s, step)) ==> Budget(Do(s, step)) < Budget(s)
  {
    ReachableInv(s);
    hide Reachable, Inv, Budget, Do, Enabled;
    CountIsNatural(s);
    SomeoneCanMove(s);
    forall step | Enabled(s, step) && InCall(Do(s, step)) ensures Budget(Do(s, step)) < Budget(s) {
      StepLowersBudget(s, step);
    }
  }

  lemma CountIsNatural(s: State)
    requires Inv(s) && InCall(s)
    ensures Budget(s) >= 0
  {
  }

  lemma StepLowersBudget(s: State, step: Step)
    requires Inv(s) && InCall(s) && Enabled(s, step) && InCall(Do(s, step))
    ensures Budget(Do(s, step)) < Budget(s)
  {
    WhoCanMove(s, step);
    if step.i == s.mutex.value {
      CallerLowersBudget(s, step);
    } else {
      WaiterLowersBudget(s, step);
    }
  }

  // Inside a broadcast the test that a signal begins with never sends it back to the loop.
  lemma CallerLowersBudget(s: State, step: Step)
    requires Inv(s) && InCall(s) && Enabled(s, step) && InCall(Do(s, step)) && step.i == s.mutex.value
    requires step.action.TestLoop? || step.action.TestSignal? || step.action.PostEvent? || step.action.TakeAck?
    ensures Budget(Do(s, step)) < Budget(s)
  {
    CountedInCall(s);
  }

  lemma WaiterLowersBudget(s: State, step: Step)
    requires TokenInv(s) && MutexInv(s) && InCall(s) && Enabled(s, step) && InCall(Do(s, step)) && step.i != s.mutex.value
    requires step.action.TakeEvent? || step.action.Uncount? || step.action.PostAck?
    ensures Budget(Do(s, step)) < Budget(s)
  {
  }

  lemma SomeoneCanMove(s: State)
    requires Inv(s) && InCall(s)
    ensures exists step :: Enabled(s, step)
  {
    var i := s.mutex.value;
    match s.threads[i]
    case LoopTest => assert Enabled(s, Step(i, TestLoop));
    case SignalTest(_) => assert Enabled(s, Step(i, TestSignal));
    case SignalPost(_) => assert Enabled(s, Step(i, PostEvent));
    case SignalAck(_) =>
      match s.token
      case EventPosted =>
        CountedInCall(s);
        var k :| k in s.waiting && k !in s.released;
        assert Enabled(s, Step(k, TakeEvent));
      case Carried(k) => assert Enabled(s, Step(k, if s.threads[k].Woken? then Uncount else PostAck));
      case AckPosted => assert Enabled(s, Step(i, TakeAck));
  }

  // All the states of the run are inside the call.
  ghost predicate StaysInCall(s: State, steps: seq<Step>)
    decreases |steps|
  {
    InCall(s) && (steps == [] || (Enabled(s, steps[0]) && StaysInCall(Do(s, steps[0]), steps[1..])))
  }

  // Under any scheduler a signal or a broadcast returns within Budget steps.
  lemma {:induction false} CallTerminates(s: State, steps: seq<Step>)
    requires Reachable(s) && StaysInCall(s, steps)
    ensures |steps| <= Budget(s)
    decreases |steps|
  {
    CallProgresses(s);
    if steps != [] {
      ReachableStep(s, steps[0]);
      CallTerminates(Do(s, steps[0]), steps[1..]);
    }
  }

  lemma ReachableStep(s: State, step: Step)
    requires Reachable(s) && Enabled(s, step)
    ensures Reachable(Do(s, step))
  {
    var n: nat, steps :| Run(Initial(n), steps, s);
    RunAppend(Initial(n), steps, s, step);
  }

  lemma {:induction false} RunAppend(s: State, steps: seq<Step>, t: State, step: Step)
    requires Run(s, steps, t) && Enabled(t, step)
    ensures Run(s, steps + [step], Do(t, step))
    decreases |steps|
  {
    if steps == [] {
      assert [step][1..] == [] && steps + [step] == [step];
    } else {
      assert (steps + [step])[1..] == steps[1..] + [step];
      RunAppend(Do(s, steps[0]), steps[1..], t, step);
    }
  }
}

/** os2threads.h: pthread_once, a double-checked flag around a mutex. */
module OnceControl {
  import opened Options

  datatype Place = FirstTest | Request | SecondTest | Running | SetDone | Release | Returned

  // started and finished count the calls of init_routine.
  datatype State = State(threads: seq<Place>, done: bool, mutex: Option<nat>, started: nat, finished: nat)

  ghost predicate Enabled(s: State, i: nat) {
    i < |s.threads| && !s.threads[i].Returned? && (s.threads[i].Request? ==> s.mutex.None?)
  }

  // The next atomic action of thread i.
  ghost function Do(s: State, i: nat): State
    requires Enabled(s, i)
  {
    match s.threads[i]
    case FirstTest => s.(threads := s.threads[i := if s.done then Returned else Request])
    case Request => s.(threads := s.threads[i := SecondTest], mutex := Some(i))
    case SecondTest =>
      if s.done then s.(threads := s.threads[i := Release])
      else s.(threads := s.threads[i := Running], started := s.started + 1)
    case Running => s.(threads := s.threads[i := SetDone], finished := s.finished + 1)
    case SetDone => s.(threads := s.threads[i := Release], done := true)
    case Release => s.(threads := s.threads[i := Returned], mutex := None)
  }

  ghost function Initial(n: nat): State {
    State(seq(n, _ => FirstTest), false, None, 0, 0)
  }

  ghost predicate Run(s: State, steps: seq<nat>, t: State)
    decreases |steps|
  {
    if steps == [] then s == t
    else Enabled(s, steps[0]) && Run(Do(s, steps[0]), steps[1..], t)
  }

  predicate InCriticalSection(p: Place) {
    p.SecondTest? || p.Running? || p.SetDone? || p.Release?
  }

  // The place of the thread in the critical section, if there is one.
  ghost predicate Inv(s: State) {
    && (s.mutex.Some? ==> s.mutex.value < |s.threads|)
    && (forall i: nat :: i < |s.threads| ==> (InCriticalSection(s.threads[i]) <==> s.mutex == Some(i)))
    && (forall i: nat :: i < |s.threads| && (s.threads[i].Returned? || s.threads[i].Release?) ==> s.done)
    && (s.mutex.Some? && (s.threads[s.mutex.value].Running? || s.threads[s.mutex.value].SetDone?) ==> !s.done)
    && s.started == (if s.done || (s.mutex.Some? && (s.threads[s.mutex.value].Running? || s.threads[s.mutex.value].SetDone?)) then 1 else 0)
    && s.finished == (if s.done || (s.mutex.Some? && s.threads[s.mutex.value].SetDone?) then 1 else 0)
  }

  lemma {:induction false} RunKeepsInv(s: State, steps: seq<nat>, t: State)
    requires Inv(s) && Run(s, steps, t)
    ensures Inv(t)
    decreases |steps|
  {
    if steps != [] {
      RunKeepsInv(Do(s, steps[0]), steps[1..], t);
    }
  }

  // init_routine is started at most once, and it has finished before any
  // thread returns from pthread_once.
  lemma InitRoutineRunsOnce(n: nat, steps: seq<nat>, t: State, i: nat)
    requires Run(Initial(n), steps, t) && i < |t.threads|
    ensures t.started <= 1
    ensures t.threads[i].Returned? ==> t.started == 1 && t.finished == 1
  {
    RunKeepsInv(Initial(n), steps, t);
  }

  // A call that begins once init_routine has finished waits for nobody: it
  // returns at its first test, and no other thread can get in its way.
  lemma {:induction false} LaterCallsDoNotWait(s: State, steps: seq<nat>, t: State, i: nat)
    requires s.done && i < |s.threads| && s.threads[i].FirstTest? && Run(s, steps, t)
    ensures i < |t.threads| && t.threads[i] == if i in steps then Returned else FirstTest
    ensures t.done
    decreases |steps|
  {
    if steps != [] {
      var u := Do(s, steps[0]);
      if steps[0] == i {
        ReturnedStays(u, steps[1..], t, i);
      } else {
        LaterCallsDoNotWait(u, steps[1..], t, i);
        assert i in steps <==> i in steps[1..] by {
          assert steps == [steps[0]] + steps[1..];
        }
      }
    }
  }

  lemma {:induction false} ReturnedStays(s: State, steps: seq<nat>, t: State, i: nat)
    requires s.done && i < |s.threads| && s.threads[i].Returned? && Run(s, steps, t)
    ensures i < |t.threads| && t.threads[i].Returned? && t.done
    decreases |steps|
  {
    if steps != [] {
      ReturnedStays(Do(s, steps[0]), steps[1..], t, i);
    }
  }

  // ----- Every call returns

  // The actions that thread i still takes, at most.
  function ActionsLeft(p: Place): nat {
    match p
    case FirstTest => 6
    case Request => 5
    case SecondTest => 4
    case Running => 3
    case SetDone => 2
    case Release => 1
    case Returned => 0
  }

  ghost function AllActionsLeft(threads: seq<Place>): nat {
    if threads == [] then 0
    else AllActionsLeft(threads[..|threads| - 1]) + ActionsLeft(threads[|threads| - 1])
  }

  lemma {:induction false} OneThreadLess(threads: seq<Place>, i: nat, p: Place)
    requires i < |threads|
    ensures AllActionsLeft(threads[i := p]) == AllActionsLeft(threads) - ActionsLeft(threads[i]) + ActionsLeft(p)
  {
    var n := |threads| - 1;
    if i == n {
      assert threads[i := p][..n] == threads[..n];
    } else {
      assert threads[i := p][..n] == threads[..n][i := p];
      OneThreadLess(threads[..n], i, p);
    }
  }

  // As long as some thread has not returned, some thread can move, and it moves on.
  lemma SomeoneMovesOn(n: nat, steps: seq<nat>, t: State, i: nat)
    requires Run(Initial(n), steps, t) && i < |t.threads| && !t.threads[i].Returned?
    ensures exists j: nat :: Enabled(t, j)
    ensures forall j: nat :: Enabled(t, j) ==> AllActionsLeft(Do(t, j).threads) < AllActionsLeft(t.threads)
  {
    RunKeepsInv(Initial(n), steps, t);
    if t.mutex.Some? {
      assert Enabled(t, t.mutex.value);
    } else {
      assert Enabled(t, i);
    }
    forall j: nat | Enabled(t, j) ensures AllActionsLeft(Do(t, j).threads) < AllActionsLeft(t.threads) {
      OneThreadLess(t.threads, j, Do(t, j).threads[j]);
    }
  }

  lemma {:induction false} RunIsShort(s: State, steps: seq<nat>, t: State)
    requires Run(s, steps, t)
    ensures |steps| + AllActionsLeft(t.threads) <= AllActionsLeft(s.threads)
    decreases |steps|
  {
    if steps != [] {
      OneThreadLess(s.threads, steps[0], Do(s, steps[0]).threads[steps[0]]);
      RunIsShort(Do(s, steps[0]), steps[1..], t);
    }
  }

  lemma {:induction false} FreshThreads(n: nat)
    ensures AllActionsLeft(Initial(n).threads) == 6 * n
  {
    if n > 0 {
      assert Initial(n).threads[..n - 1] == Initial(n - 1).threads;
      FreshThreads(n - 1);
    }
  }

  // A run of n threads has at most 6 * n actions; when none is left to take,
  // every thread has returned.
  lemma EveryCallReturns(n: nat, steps: seq<nat>, t: State)
    requires Run(Initial(n), steps, t)
    ensures |steps| <= 6 * n
    ensures (forall j: nat :: !Enabled(t, j)) ==> forall i: nat :: i < |t.threads| ==> t.threads[i].Returned?
  {
    RunIsShort(Initial(n), steps, t);
    FreshThreads(n);
    forall i: nat | i < |t.threads| && !t.threads[i].Returned? ensures exists j: nat :: Enabled(t, j) {
      SomeoneMovesOn(n, steps, t, i);
    }
  }
}
