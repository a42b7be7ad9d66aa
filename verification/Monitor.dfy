/**
  The recursive monitor of TIDThr: `RecursiveMutex`, the `Condition` that waits on it,
  and the interruption flags of the waiting `Thread`, as a transition system.

  A step is one access to shared memory or one call of a POSIX primitive, so any
  interleaving of any number of threads is a run.  The mutex is an error-checking one:
  locking it again returns EDEADLK, trying a held one returns EBUSY.  `pthread_cond_wait`
  releases the mutex and joins the waiters in one step; a waiter leaves by a signal, a
  broadcast, or for no reason at all (`Wake`, which also covers the end of a timed wait).
 */
module Monitor {
  import opened Prelude

  type Tid = nat

  /** `RecursiveLock`: the recorded owner (`pthread_t` 0 is `None`) and its nesting count. */
  datatype Record = Record(thread: Option<Tid>, count: nat)

  /** The next atomic action of a thread. */
  datatype Pc =
    | Idle
    // lock, trylock
    | Locking | Deadlock
    | Trying | Busy | BusyInc
    | FirstResetThread | FirstResetCount | FirstSetThread | FirstIncCount
    // unlock
    | Unlocking | UnlockDec | UnlockResetThread | UnlockResetCount | UnlockRelease
    // wait
    | WaitEnter | WaitSave | WaitBlock | Blocked | Woken | RestoreThread | RestoreCount | WaitExit
    // a `SystemException` that reports a corrupted mutex
    | Corrupted

  /**
    What one thread owns: its place, the number of its lock calls not yet undone,
    the copy of the record taken by `wait`, `m_thread_in_wait`, `m_thread_wait_interrupted`,
    and whether its last `wait` threw `InterruptedException`.
   */
  datatype Local = Local(pc: Pc, depth: nat, saved: Record, inWait: bool, interrupted: bool, threw: bool)

  datatype State = State(mutex: Option<Tid>, lock: Record, waiters: set<Tid>, threads: map<Tid, Local>)

  datatype Op =
    | Lock | Trylock | Unlock | Wait
    | Signal(pick: Option<Tid>) | Broadcast
    | Interrupt(target: Tid) | TestInterrupted

  datatype Step =
    | Begin(t: Tid, op: Op)
    | Run(t: Tid)
    | Wake(t: Tid)

  ghost predicate Init(s: State) {
    && s.mutex == None
    && s.lock == Record(None, 0)
    && s.waiters == {}
    && forall t :: t in s.threads ==> s.threads[t] == Local(Idle, 0, Record(None, 0), false, false, false)
  }

  // ---------- the steps ----------

  predicate Enabled(s: State, step: Step) {
    match step
    case Begin(t, op) =>
      && t in s.threads
      && s.threads[t].pc == Idle
      && (match op
          case Wait => s.threads[t].depth > 0
          case Signal(pick) => if s.waiters == {} then pick == None else pick.Some? && pick.value in s.waiters
          case Interrupt(target) => target in s.threads
          case _ => true)
    case Run(t) =>
      && t in s.threads
      && (match s.threads[t].pc
          case Idle | Blocked | Corrupted => false
          case Locking => s.mutex == None || s.mutex == Some(t)
          case Woken => s.mutex == None
          case _ => true)
    case Wake(t) => t in s.threads && t in s.waiters
  }

  /** Thread `t` becomes `l`; nothing else changes. */
  function Put(s: State, t: Tid, l: Local): State {
    s.(threads := s.threads[t := l])
  }

  function Goto(s: State, t: Tid, pc: Pc): State
    requires t in s.threads
  {
    Put(s, t, s.threads[t].(pc := pc))
  }

  /** The waiters in `who` leave the condition and go for the mutex. */
  function Notify(s: State, who: set<Tid>): State {
    s.(waiters := s.waiters - who,
       threads := map t | t in s.threads ::
         if t in who && t in s.waiters then s.threads[t].(pc := Woken) else s.threads[t])
  }

  function ApplyBegin(s: State, t: Tid, op: Op): State
    requires Enabled(s, Begin(t, op))
  {
    match op
    case Lock => Goto(s, t, Locking)
    case Trylock => Goto(s, t, Trying)
    case Unlock => Goto(s, t, Unlocking)
    case Wait => Goto(s, t, WaitEnter)
    case Signal(pick) => if pick.Some? then Notify(s, {pick.value}) else s
    case Broadcast => Notify(s, s.waiters)
    case Interrupt(target) =>
      var l := s.threads[target];
      Put(s, target, l.(interrupted := l.interrupted || l.inWait))
    case TestInterrupted => Put(s, t, s.threads[t].(interrupted := false))
  }

  /** What an action leaves behind: the shared part of the state and the thread that acted. */
  datatype Effect = Effect(mutex: Option<Tid>, lock: Record, waiters: set<Tid>, l: Local)

  /** The next action of thread `t`, whose own part is `l`. */
  function Act(mutex: Option<Tid>, lock: Record, waiters: set<Tid>, t: Tid, l: Local): Effect {
    var same := Effect(mutex, lock, waiters, l);
    match l.pc
    // pthread_mutex_lock: 0 or EDEADLK
    case Locking =>
      if mutex == None then same.(mutex := Some(t), l := l.(pc := FirstResetThread)) else same.(l := l.(pc := Deadlock))
    case Deadlock =>
      if lock.count == 0 then same.(l := l.(pc := Corrupted))
      else same.(lock := lock.(count := lock.count + 1), l := l.(pc := Idle, depth := l.depth + 1))
    // pthread_mutex_trylock: 0 or EBUSY
    case Trying =>
      if mutex == None then same.(mutex := Some(t), l := l.(pc := FirstResetThread)) else same.(l := l.(pc := Busy))
    case Busy => same.(l := l.(pc := if lock.thread == Some(t) then BusyInc else Idle))
    case BusyInc => same.(lock := lock.(count := lock.count + 1), l := l.(pc := Idle, depth := l.depth + 1))
    // the first acquisition: reset, setThread, incCount
    case FirstResetThread => same.(lock := lock.(thread := None), l := l.(pc := FirstResetCount))
    case FirstResetCount => same.(lock := lock.(count := 0), l := l.(pc := FirstSetThread))
    case FirstSetThread => same.(lock := lock.(thread := Some(t)), l := l.(pc := FirstIncCount))
    case FirstIncCount => same.(lock := lock.(count := lock.count + 1), l := l.(pc := Idle, depth := l.depth + 1))
    // unlock
    case Unlocking => same.(l := l.(pc := if lock.thread != Some(t) then Idle else UnlockDec))
    case UnlockDec =>
      if lock.count == 0 || l.depth == 0 then same.(l := l.(pc := Corrupted))
      else same.(lock := lock.(count := lock.count - 1),
                 l := l.(pc := if lock.count == 1 then UnlockResetThread else Idle, depth := l.depth - 1))
    case UnlockResetThread => same.(lock := lock.(thread := None), l := l.(pc := UnlockResetCount))
    case UnlockResetCount => same.(lock := lock.(count := 0), l := l.(pc := UnlockRelease))
    case UnlockRelease =>
      if mutex == Some(t) then same.(mutex := None, l := l.(pc := Idle)) else same.(l := l.(pc := Corrupted))
    // wait
    case WaitEnter => same.(l := l.(pc := WaitSave, inWait := true))
    case WaitSave => same.(l := l.(pc := WaitBlock, saved := lock))
    case WaitBlock => same.(mutex := None, waiters := waiters + {t}, l := l.(pc := Blocked))
    case Woken => same.(mutex := Some(t), l := l.(pc := RestoreThread))
    case RestoreThread => same.(lock := lock.(thread := l.saved.thread), l := l.(pc := RestoreCount))
    case RestoreCount => same.(lock := lock.(count := l.saved.count), l := l.(pc := WaitExit))
    case WaitExit => same.(l := l.(pc := Idle, inWait := false, interrupted := false, threw := l.interrupted))
    case Idle | Blocked | Corrupted => same
  }

  function ApplyRun(s: State, t: Tid): State
    requires Enabled(s, Run(t))
  {
    var e := Act(s.mutex, s.lock, s.waiters, t, s.threads[t]);
    State(e.mutex, e.lock, e.waiters, s.threads[t := e.l])
  }

  function Apply(s: State, step: Step): State
    requires Enabled(s, step)
  {
    match step
    case Begin(t, op) => ApplyBegin(s, t, op)
    case Run(t) => ApplyRun(s, t)
    case Wake(t) => Notify(s, {t})
  }

  // ---------- runs ----------

  ghost predicate ValidRun(s: State, steps: seq<Step>)
    decreases |steps|
  {
    steps == [] || (Enabled(s, steps[0]) && ValidRun(Apply(s, steps[0]), steps[1..]))
  }

  ghost function Exec(s: State, steps: seq<Step>): State
    requires ValidRun(s, steps)
    decreases |steps|
  {
    if steps == [] then s else Exec(Apply(s, steps[0]), steps[1..])
  }

  // ---------- the invariant ----------

  predicate Waiting(pc: Pc) {
    match pc
    case WaitEnter | WaitSave | WaitBlock | Blocked | Woken | RestoreThread | RestoreCount | WaitExit => true
    case _ => false
  }

  /** Asleep in `pthread_cond_wait`, or awake but without the mutex. */
  predicate Asleep(pc: Pc) {
    pc.Blocked? || pc.Woken?
  }

  /** `t` holds the mutex and the record says so, with the right depth. */
  predicate Settled(s: State, t: Tid, l: Local) {
    s.mutex == Some(t) && l.depth > 0 && s.lock == Record(Some(t), l.depth)
  }

  /** What the place of a thread says about the mutex, the record and its saved copy. */
  predicate PlaceInv(s: State, t: Tid, l: Local) {
    var own := s.mutex == Some(t);
    match l.pc
    case Idle | Locking | Trying | Busy | Unlocking =>
      if l.depth > 0 then Settled(s, t, l) else !own
    case Deadlock | BusyInc | UnlockDec | WaitEnter | WaitSave => Settled(s, t, l)
    case FirstResetThread => own && l.depth == 0
    case FirstResetCount => own && l.depth == 0 && s.lock.thread == None
    case FirstSetThread => own && l.depth == 0 && s.lock == Record(None, 0)
    case FirstIncCount => own && l.depth == 0 && s.lock == Record(Some(t), 0)
    case UnlockResetThread => own && l.depth == 0 && s.lock == Record(Some(t), 0)
    case UnlockResetCount | UnlockRelease => own && l.depth == 0 && s.lock == Record(None, 0)
    case WaitBlock => Settled(s, t, l) && l.saved == s.lock
    case Blocked | Woken => !own && l.depth > 0 && l.saved == Record(Some(t), l.depth)
    case RestoreThread => own && l.depth > 0 && l.saved == Record(Some(t), l.depth)
    case RestoreCount => own && l.depth > 0 && l.saved == Record(Some(t), l.depth) && s.lock.thread == Some(t)
    case WaitExit => Settled(s, t, l)
    case Corrupted => false
  }

  /** The interruption flags, and who is on the condition. */
  predicate FlagInv(s: State, t: Tid, l: Local) {
    && (l.inWait <==> Waiting(l.pc) && l.pc != WaitEnter)
    && (l.interrupted ==> l.inWait)
    && (t in s.waiters <==> l.pc == Blocked)
  }

  predicate LocalInv(s: State, t: Tid, l: Local) {
    PlaceInv(s, t, l) && FlagInv(s, t, l)
  }

  /** A thread named by the record holds the mutex, or sleeps and left its name behind. */
  predicate RecordInv(s: State) {
    s.lock.thread.Some? ==>
      var t := s.lock.thread.value;
      t in s.threads && (s.mutex == Some(t) || Asleep(s.threads[t].pc))
  }

  ghost predicate Inv(s: State) {
    && (s.mutex.Some? ==> s.mutex.value in s.threads)
    && s.waiters <= s.threads.Keys
    && RecordInv(s)
    && forall t :: t in s.threads ==> LocalInv(s, t, s.threads[t])
  }

  lemma InitInv(s: State)
    requires Init(s)
    ensures Inv(s)
  {
  }

  lemma NotifyInv(s: State, who: set<Tid>)
    requires Inv(s)
    ensures Inv(Notify(s, who))
  {
    var s' := Notify(s, who);
    assert s'.threads.Keys == s.threads.Keys;
    forall t | t in s'.threads
      ensures LocalInv(s', t, s'.threads[t])
    {
      assert LocalInv(s, t, s.threads[t]);
    }
  }

  /** From `s` to `s'` thread `t` moved: others kept their state, and the record if they hold the mutex. */
  ghost predicate OnlyMoves(s: State, s': State, t: Tid) {
    && s'.threads.Keys == s.threads.Keys
    && (forall u :: u in s.threads && u != t ==> s'.threads[u] == s.threads[u])
    && (forall u :: u != t ==> (u in s'.waiters <==> u in s.waiters))
    && (forall u :: u != t ==> (s'.mutex == Some(u) <==> s.mutex == Some(u)))
    && (s'.lock == s.lock || s.mutex == Some(t))
  }

  lemma OthersInv(s: State, s': State, t: Tid)
    requires Inv(s) && t in s.threads && OnlyMoves(s, s', t)
    requires RecordInv(s') && LocalInv(s', t, s'.threads[t])
    ensures Inv(s')
  {
    forall u | u in s'.threads && u != t
      ensures LocalInv(s', u, s'.threads[u])
    {
      assert LocalInv(s, u, s.threads[u]);
    }
    if s'.mutex.Some? && s'.mutex.value != t { assert s.mutex == s'.mutex; }
  }

  lemma BeginInv(s: State, t: Tid, op: Op)
    requires Inv(s) && Enabled(s, Begin(t, op))
    ensures Inv(ApplyBegin(s, t, op))
  {
    match op
    case Signal(pick) => if pick.Some? { NotifyInv(s, {pick.value}); }
    case Broadcast => NotifyInv(s, s.waiters);
    case _ =>
      var u := Subject(t, op);
      assert LocalInv(s, u, s.threads[u]);
      BeginOwn(s, t, op, u);
      OthersInv(s, ApplyBegin(s, t, op), u);
  }

  /** The thread that the begin of an operation changes. */
  function Subject(t: Tid, op: Op): (u: Tid) {
    match op
    case Interrupt(target) => target
    case _ => t
  }

  /** The begin of any other operation moves one thread only: its own, or the one it interrupts. */
  lemma BeginOwn(s: State, t: Tid, op: Op, u: Tid)
    requires Enabled(s, Begin(t, op)) && !op.Signal? && !op.Broadcast? && RecordInv(s)
    requires u == Subject(t, op) && LocalInv(s, u, s.threads[u])
    ensures var s' := ApplyBegin(s, t, op);
            OnlyMoves(s, s', u) && RecordInv(s') && LocalInv(s', u, s'.threads[u])
  {
  }

  lemma RunMoves(s: State, t: Tid)
    requires Enabled(s, Run(t)) && LocalInv(s, t, s.threads[t])
    ensures OnlyMoves(s, ApplyRun(s, t), t)
  {
  }

  /** The mover keeps its own invariant; the record still names the holder or a sleeper. */
  lemma RunKeepsPlace(s: State, t: Tid)
    requires Enabled(s, Run(t)) && LocalInv(s, t, s.threads[t]) && RecordInv(s)
    ensures PlaceInv(ApplyRun(s, t), t, ApplyRun(s, t).threads[t])
  {
  }

  lemma RunKeepsFlags(s: State, t: Tid)
    requires Enabled(s, Run(t)) && LocalInv(s, t, s.threads[t])
    ensures FlagInv(ApplyRun(s, t), t, ApplyRun(s, t).threads[t])
  {
  }

  lemma RunKeepsRecord(s: State, t: Tid)
    requires Enabled(s, Run(t)) && LocalInv(s, t, s.threads[t]) && RecordInv(s)
    ensures RecordInv(ApplyRun(s, t))
  {
  }

  lemma RunInv(s: State, t: Tid)
    requires Inv(s) && Enabled(s, Run(t))
    ensures Inv(ApplyRun(s, t))
  {
    RunMoves(s, t);
    RunKeepsPlace(s, t);
    RunKeepsFlags(s, t);
    RunKeepsRecord(s, t);
    OthersInv(s, ApplyRun(s, t), t);
  }

  lemma StepInv(s: State, step: Step)
    requires Inv(s) && Enabled(s, step)
    ensures Inv(Apply(s, step))
  {
    match step
    case Begin(t, op) => BeginInv(s, t, op);
    case Run(t) => RunInv(s, t);
    case Wake(t) => NotifyInv(s, {t});
  }

  lemma {:induction false} RunsKeepInv(s: State, steps: seq<Step>)
    requires Inv(s) && ValidRun(s, steps)
    ensures Inv(Exec(s, steps))
    decreases |steps|
  {
    if steps != [] {
      StepInv(s, steps[0]);
      RunsKeepInv(Apply(s, steps[0]), steps[1..]);
    }
  }

  // ---------- what every run guarantees ----------

  /** Thread `t` has undone fewer lock calls than it made, and is not asleep inside `wait`. */
  predicate Inside(s: State, t: Tid) {
    t in s.threads && s.threads[t].depth > 0 && !Asleep(s.threads[t].pc)
  }

  /** Between two operations, or inside one that has not yet touched the record. */
  predicate BetweenOperations(pc: Pc) {
    match pc
    case Idle | Locking | Trying | Busy | Unlocking | WaitEnter => true
    case _ => false
  }

  /**
    In every reachable state at most one thread is inside the monitor; it is the one that holds
    the mutex; when it is between operations the record is exactly its identity and its nesting
    depth; and no thread ever found the mutex corrupted, that is, EDEADLK always comes with a
    positive count and the last unlock is always done by the holder.
   */
  lemma {:induction false} MutualExclusion(s: State, steps: seq<Step>, t: Tid, u: Tid)
    requires Init(s) && ValidRun(s, steps)
    ensures var r := Exec(s, steps);
            && (Inside(r, t) && Inside(r, u) ==> t == u)
            && (Inside(r, t) ==> r.mutex == Some(t))
            && (Inside(r, t) && BetweenOperations(r.threads[t].pc) ==>
                  r.lock == Record(Some(t), r.threads[t].depth))
            && (t in r.threads ==> r.threads[t].pc != Corrupted)
  {
    InitInv(s);
    RunsKeepInv(s, steps);
    var r := Exec(s, steps);
    if t in r.threads { assert LocalInv(r, t, r.threads[t]); }
    if u in r.threads { assert LocalInv(r, u, r.threads[u]); }
  }

  /**
    The results of the operations, in any reachable state: `trylock` after EBUSY succeeds exactly
    for the holder, although it reads the record without holding the mutex; `unlock` is refused
    exactly to the threads that are not inside.
   */
  lemma RacyReadsAreRight(s: State, t: Tid)
    requires Inv(s) && t in s.threads
    ensures s.threads[t].pc == Busy ==> (s.lock.thread == Some(t) <==> s.mutex == Some(t))
    ensures s.threads[t].pc == Unlocking ==> (s.lock.thread == Some(t) <==> Inside(s, t))
  {
    assert LocalInv(s, t, s.threads[t]);
  }

  // ---------- wait gives back the depth it took ----------

  /** `t` stays inside `wait` in every state of the run but the last. */
  ghost predicate WaitsThroughout(s: State, steps: seq<Step>, t: Tid)
    requires ValidRun(s, steps)
    decreases |steps|
  {
    steps == [] ||
    (t in s.threads && Waiting(s.threads[t].pc) && WaitsThroughout(Apply(s, steps[0]), steps[1..], t))
  }

  /** An interruption that reaches `t`: the flag is only raised inside `wait`. */
  predicate Hits(s: State, step: Step, t: Tid) {
    step.Begin? && step.op == Interrupt(t) && t in s.threads && s.threads[t].inWait
  }

  /** A step of another thread does to a waiting thread no more than wake it or raise its flag. */
  lemma OthersLetWait(s: State, step: Step, t: Tid)
    requires Inv(s) && Enabled(s, step) && step.t != t && t in s.threads && Waiting(s.threads[t].pc)
    ensures var s' := Apply(s, step);
            && t in s'.threads
            && Waiting(s'.threads[t].pc)
            && s'.threads[t].depth == s.threads[t].depth
            && (s'.threads[t].interrupted <==> s.threads[t].interrupted || Hits(s, step, t))
  {
    assert LocalInv(s, t, s.threads[t]);
    if step.Run? {
      RunMoves(s, step.t);
    }
  }

  /** A step of the waiting thread itself. */
  lemma OwnWaitStep(s: State, step: Step, t: Tid)
    requires Inv(s) && Enabled(s, step) && step.t == t && t in s.threads && Waiting(s.threads[t].pc)
    ensures var l' := Apply(s, step).threads[t];
            && t in Apply(s, step).threads
            && l'.depth == s.threads[t].depth
            && (if Waiting(l'.pc) then l'.interrupted == s.threads[t].interrupted
                else l'.pc == Idle && l'.threw == s.threads[t].interrupted && !l'.interrupted)
  {
    assert LocalInv(s, t, s.threads[t]);
  }

  lemma WaiterStep(s: State, step: Step, t: Tid)
    requires Inv(s) && Enabled(s, step) && t in s.threads && Waiting(s.threads[t].pc)
    ensures var l, l' := s.threads[t], Apply(s, step).threads[t];
            && t in Apply(s, step).threads
            && l'.depth == l.depth
            && (if Waiting(l'.pc) then l'.interrupted <==> l.interrupted || Hits(s, step, t)
                else l'.pc == Idle && (l'.threw <==> l.interrupted || Hits(s, step, t)) && !l'.interrupted)
  {
    if step.t == t { OwnWaitStep(s, step, t); } else { OthersLetWait(s, step, t); }
  }

  /**
    Whatever the other threads did while `t` slept, when `t` comes back from `wait` it holds the
    mutex and the record is the one it left: the same owner and the same nesting depth.
   */
  lemma {:induction false} WaitRestoresDepth(s: State, steps: seq<Step>, t: Tid)
    requires Inv(s) && ValidRun(s, steps)
    requires t in s.threads && Waiting(s.threads[t].pc) && WaitsThroughout(s, steps, t)
    ensures var r := Exec(s, steps);
            && t in r.threads
            && r.threads[t].depth == s.threads[t].depth
            && (!Waiting(r.threads[t].pc) ==>
                  r.mutex == Some(t) && r.lock == Record(Some(t), s.threads[t].depth))
    decreases |steps|
  {
    if steps != [] {
      StepInv(s, steps[0]);
      WaiterStep(s, steps[0], t);
      var s' := Apply(s, steps[0]);
      if Waiting(s'.threads[t].pc) {
        WaitRestoresDepth(s', steps[1..], t);
      } else {
        assert LocalInv(s, t, s.threads[t]) && LocalInv(s', t, s'.threads[t]);
        if steps[1..] != [] { assert false; }
      }
    }
  }

  /** In particular, the record on return is the record at the call. */
  lemma WaitReturnsTheRecordItTook(s: State, steps: seq<Step>, t: Tid)
    requires Inv(s) && ValidRun(s, steps)
    requires t in s.threads && s.threads[t].pc == WaitEnter && WaitsThroughout(s, steps, t)
    ensures t in Exec(s, steps).threads
    ensures Exec(s, steps).threads[t].pc == Idle ==> Exec(s, steps).lock == s.lock
  {
    WaitRestoresDepth(s, steps, t);
    assert LocalInv(s, t, s.threads[t]);
  }

  // ---------- interruption ----------

  ghost predicate SomeHit(s: State, steps: seq<Step>, t: Tid)
    requires ValidRun(s, steps)
    decreases |steps|
  {
    steps != [] && (Hits(s, steps[0], t) || SomeHit(Apply(s, steps[0]), steps[1..], t))
  }

  /**
    A wait throws exactly when it was interrupted at least once between `preWaitCondition` and
    `postWaitCondition`, however often; and it leaves no interruption behind.
   */
  lemma {:induction false} WaitThrowsIffInterrupted(s: State, steps: seq<Step>, t: Tid)
    requires Inv(s) && ValidRun(s, steps)
    requires t in s.threads && Waiting(s.threads[t].pc) && WaitsThroughout(s, steps, t)
    ensures var r := Exec(s, steps);
            && t in r.threads
            && (Waiting(r.threads[t].pc) ==>
                  (r.threads[t].interrupted <==> s.threads[t].interrupted || SomeHit(s, steps, t)))
            && (!Waiting(r.threads[t].pc) ==>
                  && (r.threads[t].threw <==> s.threads[t].interrupted || SomeHit(s, steps, t))
                  && !r.threads[t].interrupted)
    decreases |steps|
  {
    if steps != [] {
      StepInv(s, steps[0]);
      WaiterStep(s, steps[0], t);
      var s' := Apply(s, steps[0]);
      if Waiting(s'.threads[t].pc) {
        WaitThrowsIffInterrupted(s', steps[1..], t);
      } else {
        if steps[1..] != [] { assert false; }
      }
    }
  }

  /** So a wait that starts now is not disturbed by any interruption of the past. */
  lemma {:induction false} NoInterruptionLeaks(s: State, steps: seq<Step>, t: Tid)
    requires Init(s) && ValidRun(s, steps) && t in Exec(s, steps).threads
    ensures var l := Exec(s, steps).threads[t];
            (l.interrupted ==> l.inWait) && (l.pc == WaitEnter || l.pc == Idle ==> !l.interrupted)
  {
    InitInv(s);
    RunsKeepInv(s, steps);
    var r := Exec(s, steps);
    assert LocalInv(r, t, r.threads[t]);
  }
}
