/**
  The monitor against the calls that were made: nesting depth is lock calls less unlock calls, a
  notification takes just one sleeper off the condition, and every operation ends.
 */
module MonitorLocks {
  import opened Prelude
  import opened Monitor

  // ---------- calls and their results ----------

  /** What a thread is doing: nothing, or one of the operations that take several steps. */
  datatype Call = NoCall | Locks | Trylocks | Unlocks | Waits

  /**
    The books of one thread, kept from the steps of a run alone: the call that it is in, whether
    `pthread_mutex_trylock` was asked yet, whether the call will be granted, and how many calls that
    lock and that unlock were granted and have returned.
   */
  datatype Book = Book(call: Call, asked: bool, granted: bool, locks: nat, unlocks: nat)

  const EMPTY := Book(NoCall, false, false, 0, 0)

  /** Thread `t` calls: `lock` is always granted in the end, `unlock` to the owner of the mutex only. */
  function Called(s: State, t: Tid, op: Op, b: Book): (b': Book) {
    match op
    case Lock => b.(call := Locks, granted := true)
    case Trylock => b.(call := Trylocks, asked := false, granted := false)
    case Unlock => b.(call := Unlocks, granted := s.mutex == Some(t))
    case Wait => b.(call := Waits)
    case _ => b
  }

  /** Thread `t` takes a step: `trylock` asks for the mutex first, and is granted if it is free or its own. */
  function Asked(s: State, t: Tid, b: Book): (b': Book) {
    if b.call == Trylocks && !b.asked then b.(asked := true, granted := s.mutex == None || s.mutex == Some(t)) else b
  }

  /** The call returns. */
  function Returned(b: Book): (b': Book) {
    match b.call
    case Locks => b.(call := NoCall, locks := b.locks + 1)
    case Trylocks => b.(call := NoCall, locks := b.locks + if b.granted then 1 else 0)
    case Unlocks => b.(call := NoCall, unlocks := b.unlocks + if b.granted then 1 else 0)
    case Waits | NoCall => b.(call := NoCall)
  }

  function Note(s: State, step: Step, t: Tid, b: Book): (b': Book)
    requires Enabled(s, step)
  {
    match step
    case Begin(u, op) => if u == t then Called(s, t, op, b) else b
    case Run(u) =>
      if u != t then b
      else if Apply(s, step).threads[t].pc == Idle then Returned(Asked(s, t, b)) else Asked(s, t, b)
    case Wake(_) => b
  }

  ghost function Books(s: State, steps: seq<Step>, t: Tid, b: Book): (b': Book)
    requires ValidRun(s, steps)
    decreases |steps|
  {
    if steps == [] then b else Books(Apply(s, steps[0]), steps[1..], t, Note(s, steps[0], t, b))
  }

  // ---------- the books agree with the monitor ----------

  /** The place of a thread fits its call. */
  predicate CallFits(s: State, t: Tid, pc: Pc, b: Book) {
    var own := s.mutex == Some(t);
    match pc
    case Idle => b.call == NoCall
    case Locking | Deadlock => b.call == Locks
    case Trying => b.call == Trylocks && !b.asked
    case Busy => b.call == Trylocks && b.asked && b.granted == own
    case BusyInc => b.call == Trylocks && b.asked && b.granted
    case FirstResetThread | FirstResetCount | FirstSetThread | FirstIncCount =>
      b.call == Locks || (b.call == Trylocks && b.asked && b.granted)
    case Unlocking => b.call == Unlocks && b.granted == own
    case UnlockDec | UnlockResetThread | UnlockResetCount | UnlockRelease => b.call == Unlocks && b.granted
    case Corrupted => false
    case _ => b.call == Waits
  }

  /** An unlock has been counted, but has not returned yet. */
  predicate Leaving(pc: Pc) {
    pc == UnlockResetThread || pc == UnlockResetCount || pc == UnlockRelease
  }

  predicate BookFits(s: State, t: Tid, b: Book)
    requires t in s.threads
  {
    var l := s.threads[t];
    && CallFits(s, t, l.pc, b)
    && b.locks - b.unlocks == l.depth + if Leaving(l.pc) then 1 else 0
  }

  lemma OwnStepFits(s: State, step: Step, t: Tid, b: Book)
    requires Inv(s) && Enabled(s, step) && t in s.threads && BookFits(s, t, b) && step.t == t
    ensures t in Apply(s, step).threads && BookFits(Apply(s, step), t, Note(s, step, t, b))
  {
    assert LocalInv(s, t, s.threads[t]);
    match step
    case Begin(_, op) =>
    case Run(_) =>
      var s', b' := Apply(s, step), Note(s, step, t, b);
      RunFitsCall(s, t, b);
      RunFitsDepth(s, t, b);
      assert BookFits(s', t, b');
    case Wake(_) =>
  }

  lemma RunFitsCall(s: State, t: Tid, b: Book)
    requires Enabled(s, Run(t)) && LocalInv(s, t, s.threads[t]) && RecordInv(s) && CallFits(s, t, s.threads[t].pc, b)
    ensures CallFits(ApplyRun(s, t), t, ApplyRun(s, t).threads[t].pc, Note(s, Run(t), t, b))
  {
  }

  lemma RunFitsDepth(s: State, t: Tid, b: Book)
    requires Enabled(s, Run(t)) && LocalInv(s, t, s.threads[t]) && RecordInv(s) && BookFits(s, t, b)
    ensures var l, b' := ApplyRun(s, t).threads[t], Note(s, Run(t), t, b);
            b'.locks - b'.unlocks == l.depth + if Leaving(l.pc) then 1 else 0
  {
  }

  /** The others neither move `t`, unless it sleeps, nor take or give it the mutex. */
  lemma OthersFit(s: State, step: Step, t: Tid, b: Book)
    requires Inv(s) && Enabled(s, step) && t in s.threads && BookFits(s, t, b) && step.t != t
    ensures t in Apply(s, step).threads && BookFits(Apply(s, step), t, Note(s, step, t, b))
  {
    assert LocalInv(s, t, s.threads[t]);
    match step
    case Begin(u, op) => BeginLeaves(s, u, op, t);
    case Run(u) =>
      assert LocalInv(s, u, s.threads[u]);
      RunMoves(s, u);
    case Wake(u) =>
  }

  lemma BeginLeaves(s: State, u: Tid, op: Op, t: Tid)
    requires Enabled(s, Begin(u, op)) && u != t && t in s.threads && LocalInv(s, t, s.threads[t])
    ensures var s' := ApplyBegin(s, u, op);
            && t in s'.threads && s'.mutex == s.mutex && s'.threads[t].depth == s.threads[t].depth
            && (s'.threads[t].pc == s.threads[t].pc || (s.threads[t].pc == Blocked && s'.threads[t].pc == Woken))
  {
  }

  lemma {:induction false} RunsFit(s: State, steps: seq<Step>, t: Tid, b: Book)
    requires Inv(s) && ValidRun(s, steps) && t in s.threads && BookFits(s, t, b)
    ensures Inv(Exec(s, steps)) && t in Exec(s, steps).threads && BookFits(Exec(s, steps), t, Books(s, steps, t, b))
    decreases |steps|
  {
    if steps != [] {
      StepInv(s, steps[0]);
      if steps[0].t == t {
        OwnStepFits(s, steps[0], t, b);
      } else {
        OthersFit(s, steps[0], t, b);
      }
      RunsFit(Apply(s, steps[0]), steps[1..], t, Note(s, steps[0], t, b));
    }
  }

  /**
    In every run and for every thread: the nesting depth is the number of granted lock and trylock calls
    less the granted unlock calls that returned.  Between two calls the thread holds the mutex if and only
    if it made more of the first, and then the record is its name and the difference.
   */
  lemma DepthIsLocksLessUnlocks(s: State, steps: seq<Step>, t: Tid)
    requires Init(s) && ValidRun(s, steps) && t in s.threads
    ensures var r, b := Exec(s, steps), Books(s, steps, t, EMPTY);
            && t in r.threads && b.locks >= b.unlocks
            && (!Leaving(r.threads[t].pc) ==> r.threads[t].depth == b.locks - b.unlocks)
            && (r.threads[t].pc == Idle ==>
                  && (r.mutex == Some(t) <==> b.locks > b.unlocks)
                  && (b.locks > b.unlocks ==> r.lock == Record(Some(t), b.locks - b.unlocks)))
  {
    InitInv(s);
    RunsFit(s, steps, t, EMPTY);
    var r := Exec(s, steps);
    assert LocalInv(r, t, r.threads[t]);
  }

  // ---------- notifications ----------

  /** `u` leaves the condition and goes for the mutex. */
  function Woke(s: State, u: Tid): (s': State)
    requires u in s.threads
  {
    State(s.mutex, s.lock, s.waiters - {u}, s.threads[u := s.threads[u].(pc := Woken)])
  }

  /**
    A signal takes one of the waiters off the condition and leaves everything else as it is; without
    waiters it does nothing.
   */
  lemma SignalWakesOne(s: State, t: Tid, pick: Option<Tid>)
    requires Inv(s) && Enabled(s, Begin(t, Signal(pick)))
    ensures var s' := Apply(s, Begin(t, Signal(pick)));
            if s.waiters == {} then s' == s
            else exists u :: u in s.waiters && u in s.threads && s' == Woke(s, u) && |s'.waiters| == |s.waiters| - 1
  {
    var s' := Apply(s, Begin(t, Signal(pick)));
    if s.waiters != {} {
      var u := pick.value;
      assert s'.threads == Woke(s, u).threads;
      assert s' == Woke(s, u);
    }
  }

  lemma WakeWakesOne(s: State, u: Tid)
    requires Inv(s) && Enabled(s, Wake(u))
    ensures Apply(s, Wake(u)) == Woke(s, u)
  {
    assert Apply(s, Wake(u)).threads == Woke(s, u).threads;
  }

  /** A broadcast takes them all off. */
  lemma BroadcastWakesAll(s: State, t: Tid)
    requires Inv(s) && Enabled(s, Begin(t, Broadcast))
    ensures var s' := Apply(s, Begin(t, Broadcast));
            && s'.waiters == {} && s'.mutex == s.mutex && s'.lock == s.lock && s'.threads.Keys == s.threads.Keys
            && forall u :: u in s.threads ==>
                 s'.threads[u] == if u in s.waiters then s.threads[u].(pc := Woken) else s.threads[u]
  {
  }

  /** The step tells `u` to wake up. */
  predicate Tells(step: Step, u: Tid) {
    match step
    case Begin(_, op) => op == Signal(Some(u)) || op == Broadcast
    case Run(_) => false
    case Wake(v) => v == u
  }

  /**
    A sleeper leaves the condition by a signal to it, by a broadcast or for no reason, and by nothing else;
    it joins it by its own `wait` only, and gives the mutex back as it does.
   */
  lemma SleepersLeaveWhenTold(s: State, step: Step, u: Tid)
    requires Inv(s) && Enabled(s, step) && u in s.threads
    ensures var s' := Apply(s, step);
            && u in s'.threads
            && (u in s.waiters ==> (u !in s'.waiters <==> Tells(step, u)))
            && (u in s.waiters && Tells(step, u) ==> s'.threads[u] == s.threads[u].(pc := Woken))
            && (u !in s.waiters ==> (u in s'.waiters <==> step == Run(u) && s.threads[u].pc == WaitBlock))
            && (u !in s.waiters && u in s'.waiters ==> s.mutex == Some(u) && s'.mutex == None)
  {
    assert LocalInv(s, u, s.threads[u]);
    if step.Run? {
      assert LocalInv(s, step.t, s.threads[step.t]);
      RunMoves(s, step.t);
    }
  }

  // ---------- operations end ----------

  /** An upper bound on the own steps that are left to an operation. */
  function StepsLeft(pc: Pc): (n: nat) {
    match pc
    case Idle | Corrupted => 0
    case FirstIncCount | Deadlock | BusyInc | UnlockRelease | WaitExit => 1
    case FirstSetThread | Busy | UnlockResetCount | RestoreCount => 2
    case FirstResetCount | UnlockResetThread | RestoreThread => 3
    case FirstResetThread | UnlockDec | Woken => 4
    case Locking | Trying | Unlocking | Blocked => 5
    case WaitBlock => 6
    case WaitSave => 7
    case WaitEnter => 8
  }

  /** Who does not wait for the mutex and is not asleep can go on, and every own step brings it nearer to its return. */
  lemma OperationsEnd(s: State, t: Tid)
    requires Inv(s) && t in s.threads
    ensures var pc := s.threads[t].pc;
            && (Enabled(s, Run(t)) ==> StepsLeft(Apply(s, Run(t)).threads[t].pc) < StepsLeft(pc))
            && (pc != Idle && !Enabled(s, Run(t)) ==>
                  pc == Blocked || ((pc == Locking || pc == Woken) && s.mutex.Some? && s.mutex.value != t))
  {
    assert LocalInv(s, t, s.threads[t]);
  }
}
