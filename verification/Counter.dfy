/**
  `Counter`: a counter under a recursive monitor, with `inc`, `dec` and `waitForZero`.

  The counter is a client of the transition system of module `Monitor`.  A thread may also
  use the monitor of the counter directly, so `inc`, `dec` and `waitForZero` may be called
  by a thread that already holds it.  `m_count` is a `size_t` and wraps.
 */
module Counter {
  import opened Prelude
  import M = Monitor

  const SIZE_MAX: nat := 0xFFFF_FFFF_FFFF_FFFF

  /** Where a thread is inside an operation of the counter. */
  datatype Call =
    | NoCall
    | IncBody | DecBody | DecNotify | DecUnlock | Leave
    | ZeroTest | ZeroWait | ZeroUnlock | ZeroLeave

  /** `lost` are the sleepers that slept when an `inc` took the count from `SIZE_MAX` to 0, and sleep still. */
  datatype State = State(m: M.State, count: nat, calls: map<M.Tid, Call>, lost: set<M.Tid>)

  datatype Step =
    | Mon(step: M.Step)     // a user operation on the monitor, or the next action of any operation
    | CallInc(t: M.Tid)
    | CallDec(t: M.Tid)
    | CallWaitForZero(t: M.Tid)
    | Advance(t: M.Tid)     // the code of the counter between two monitor operations

  ghost predicate Init(s: State) {
    && M.Init(s.m)
    && s.count == 0
    && s.calls.Keys == s.m.threads.Keys
    && (forall t :: t in s.calls ==> s.calls[t] == NoCall)
    && s.lost == {}
  }

  predicate Ready(s: State, t: M.Tid) {
    t in s.calls && t in s.m.threads && s.m.threads[t].pc == M.Idle
  }

  predicate Enabled(s: State, step: Step) {
    match step
    case Mon(ms) =>
      M.Enabled(s.m, ms) && (ms.Begin? ==> ms.t in s.calls && s.calls[ms.t] == NoCall)
    case CallInc(t) => Ready(s, t) && s.calls[t] == NoCall
    case CallDec(t) => Ready(s, t) && s.calls[t] == NoCall
    case CallWaitForZero(t) => Ready(s, t) && s.calls[t] == NoCall
    // `wait` is for a caller inside the monitor, which a thread at its test always is (CallInv)
    case Advance(t) =>
      && Ready(s, t)
      && s.calls[t] != NoCall
      && (s.calls[t] == ZeroTest && s.count > 0 ==> s.m.threads[t].depth > 0)
  }

  function Do(s: State, t: M.Tid, op: M.Op, next: Call): State
    requires Ready(s, t) && M.Enabled(s.m, M.Begin(t, op))
  {
    var m := M.ApplyBegin(s.m, t, op);
    s.(m := m, calls := s.calls[t := next], lost := s.lost * m.waiters)
  }

  function ApplyAdvance(s: State, t: M.Tid): State
    requires Enabled(s, Advance(t))
  {
    match s.calls[t]
    case IncBody =>
      var s1 := s.(count := if s.count == SIZE_MAX then 0 else s.count + 1,
                   lost := if s.count == SIZE_MAX then s.m.waiters else s.lost);
      Do(s1, t, M.Unlock, Leave)
    case DecBody =>
      var s1 := s.(count := if s.count == 0 then SIZE_MAX else s.count - 1);
      if s1.count == 0 then s1.(calls := s1.calls[t := DecNotify]) else Do(s1, t, M.Unlock, Leave)
    case DecNotify => Do(s, t, M.Broadcast, DecUnlock)
    case DecUnlock => Do(s, t, M.Unlock, Leave)
    case ZeroTest =>
      if s.count > 0 then Do(s, t, M.Wait, ZeroWait) else s.(calls := s.calls[t := ZeroUnlock])
    // `wait` returned: an `InterruptedException` leaves through the destructor of `Synchronized`
    case ZeroWait =>
      if s.m.threads[t].threw then Do(s, t, M.Unlock, Leave) else s.(calls := s.calls[t := ZeroTest])
    case ZeroUnlock => Do(s, t, M.Unlock, ZeroLeave)
    case Leave | ZeroLeave => s.(calls := s.calls[t := NoCall])
  }

  function Apply(s: State, step: Step): State
    requires Enabled(s, step)
  {
    match step
    case Mon(ms) =>
      var m := M.Apply(s.m, ms);
      s.(m := m, lost := s.lost * m.waiters)
    case CallInc(t) => Do(s, t, M.Lock, IncBody)
    case CallDec(t) => Do(s, t, M.Lock, DecBody)
    case CallWaitForZero(t) => Do(s, t, M.Lock, ZeroTest)
    case Advance(t) => ApplyAdvance(s, t)
  }

  ghost predicate ValidRun(s: State, steps: seq<Step>)
    decreases |steps|
  {
    steps == [] || (Enabled(s, steps[0]) && ValidRun(Apply(s, steps[0]), steps[1..]))
  }

  ghost function Exec(s: State, steps: seq<Step>): State
    requires ValidRun(s, steps)
    decreases |steps|
  {
    if steps == [] then s else Exec(Apply(s, steps[0]), steps[1..])
  }

  // ---------- the invariant ----------

  predicate InFirstLock(pc: M.Pc) {
    match pc
    case Locking | Deadlock | FirstResetThread | FirstResetCount | FirstSetThread | FirstIncCount => true
    case _ => false
  }

  predicate InUnlock(pc: M.Pc) {
    match pc
    case Unlocking | UnlockDec | UnlockResetThread | UnlockResetCount | UnlockRelease => true
    case _ => false
  }

  /** About to sleep, or asleep and not yet notified. */
  predicate Unnotified(pc: M.Pc) {
    pc.WaitEnter? || pc.WaitSave? || pc.WaitBlock? || pc.Blocked?
  }

  /** Which monitor operation each place of a counter operation is in; outside it, the caller is inside. */
  predicate CallInv(s: State, t: M.Tid)
    requires t in s.calls && t in s.m.threads
  {
    var l := s.m.threads[t];
    match s.calls[t]
    case NoCall => true
    case IncBody | DecBody | ZeroTest => InFirstLock(l.pc) || (l.pc == M.Idle && l.depth > 0)
    case DecNotify | DecUnlock | ZeroUnlock => l.pc == M.Idle && l.depth > 0
    case ZeroWait => M.Waiting(l.pc) || (l.pc == M.Idle && l.depth > 0)
    case Leave | ZeroLeave => l.pc == M.Idle || InUnlock(l.pc)
  }

  /** Someone holds the monitor and is about to broadcast. */
  predicate BroadcastPending(s: State) {
    && s.m.mutex.Some?
    && s.m.mutex.value in s.calls
    && s.calls[s.m.mutex.value] == DecNotify
  }

  predicate WakeInv(s: State, t: M.Tid)
    requires t in s.calls && t in s.m.threads
  {
    s.calls[t] == ZeroWait && Unnotified(s.m.threads[t].pc) ==>
      s.count > 0 || t in s.lost || BroadcastPending(s)
  }

  /** Between its test and its return, a thread that holds the monitor knows that the count is 0. */
  predicate ZeroInv(s: State, t: M.Tid)
    requires t in s.calls
  {
    (s.calls[t] == ZeroUnlock || s.calls[t] == ZeroLeave) && s.m.mutex == Some(t) ==> s.count == 0
  }

  ghost predicate Inv(s: State) {
    && M.Inv(s.m)
    && s.calls.Keys == s.m.threads.Keys
    && s.count <= SIZE_MAX
    && s.lost <= s.m.waiters
    && (forall t :: t in s.calls ==> CallInv(s, t))
    && (forall t :: t in s.calls ==> WakeInv(s, t))
    && (forall t :: t in s.calls ==> ZeroInv(s, t))
  }

  /** A holder between operations is the one and only holder. */
  lemma HolderIsAlone(s: State, t: M.Tid)
    requires M.Inv(s.m) && t in s.m.threads && s.m.threads[t].pc == M.Idle && s.m.threads[t].depth > 0
    ensures s.m.mutex == Some(t)
    ensures forall u :: u in s.m.threads && M.Inside(s.m, u) ==> u == t
  {
    assert M.LocalInv(s.m, t, s.m.threads[t]);
    forall u | u in s.m.threads && M.Inside(s.m, u)
      ensures u == t
    {
      assert M.LocalInv(s.m, u, s.m.threads[u]);
    }
  }

  // ---------- monitor steps keep it ----------

  /** Unless it is its own, a monitor step can only take `t` off the condition. */
  lemma OthersSee(m: M.State, ms: M.Step, t: M.Tid)
    requires M.Inv(m) && M.Enabled(m, ms) && t in m.threads && ms != M.Run(t)
    requires ms.Begin? ==> ms.t != t
    ensures var m' := M.Apply(m, ms);
            && t in m'.threads
            && m'.threads[t].depth == m.threads[t].depth
            && (m'.threads[t].pc == m.threads[t].pc || (m.threads[t].pc == M.Blocked && m'.threads[t].pc == M.Woken))
  {
    assert M.LocalInv(m, t, m.threads[t]);
    if ms.Run? {
      M.RunMoves(m, ms.t);
    }
  }

  /** A running operation stays in its code until it is over; a lock ends inside the monitor. */
  lemma OwnLockRun(m: M.State, t: M.Tid)
    requires M.Inv(m) && M.Enabled(m, M.Run(t))
    ensures var l, l' := m.threads[t], M.ApplyRun(m, t).threads[t];
            && (InFirstLock(l.pc) ==> InFirstLock(l'.pc) || (l'.pc == M.Idle && l'.depth > 0))
            && (InUnlock(l.pc) ==> InUnlock(l'.pc) || l'.pc == M.Idle)
  {
    assert M.LocalInv(m, t, m.threads[t]);
  }

  /** And so does a wait. */
  lemma OwnWaitRun(m: M.State, t: M.Tid)
    requires M.Inv(m) && M.Enabled(m, M.Run(t))
    ensures var l, l' := m.threads[t], M.ApplyRun(m, t).threads[t];
            && (M.Waiting(l.pc) ==> M.Waiting(l'.pc) || (l'.pc == M.Idle && l'.depth > 0))
            && (Unnotified(l'.pc) ==> Unnotified(l.pc))
  {
    assert M.LocalInv(m, t, m.threads[t]);
  }

  /** Only the holder gives the mutex up, and not between operations; only a locker takes it. */
  lemma WhoMovesTheMutex(m: M.State, ms: M.Step, t: M.Tid)
    requires M.Inv(m) && M.Enabled(m, ms) && t in m.threads
    ensures var m' := M.Apply(m, ms);
            && (m.mutex == Some(t) && m.threads[t].pc == M.Idle ==> m'.mutex == Some(t))
            && (m'.mutex == Some(t) && (m.threads[t].pc == M.Idle || InUnlock(m.threads[t].pc)) ==> m.mutex == Some(t))
  {
    assert M.LocalInv(m, t, m.threads[t]);
    if ms.Run? {
      assert M.LocalInv(m, ms.t, m.threads[ms.t]);
      M.RunMoves(m, ms.t);
    }
  }

  lemma MonKeepsCall(s: State, ms: M.Step, t: M.Tid)
    requires Inv(s) && Enabled(s, Mon(ms)) && t in s.calls
    ensures t in M.Apply(s.m, ms).threads && CallInv(Apply(s, Mon(ms)), t)
  {
    assert CallInv(s, t);
    SameThreads(s.m, ms);
    if ms == M.Run(t) {
      OwnLockRun(s.m, t);
      OwnWaitRun(s.m, t);
    } else if !(ms.Begin? && ms.t == t) {
      OthersSee(s.m, ms, t);
    }
  }

  lemma MonKeepsWake(s: State, ms: M.Step, t: M.Tid)
    requires Inv(s) && Enabled(s, Mon(ms)) && t in s.calls
    ensures t in M.Apply(s.m, ms).threads && WakeInv(Apply(s, Mon(ms)), t)
  {
    assert CallInv(s, t) && WakeInv(s, t);
    StaysUnnotified(s.m, ms, t);
    if BroadcastPending(s) {
      assert CallInv(s, s.m.mutex.value);
      WhoMovesTheMutex(s.m, ms, s.m.mutex.value);
    }
  }

  /** Who is un-notified in a wait after a monitor step was so before, and if asleep is asleep still. */
  lemma StaysUnnotified(m: M.State, ms: M.Step, t: M.Tid)
    requires M.Inv(m) && M.Enabled(m, ms) && t in m.threads
    ensures var m' := M.Apply(m, ms);
            && t in m'.threads
            && (Unnotified(m'.threads[t].pc) && !(ms.Begin? && ms.t == t) ==>
                  Unnotified(m.threads[t].pc) && (t in m.waiters ==> t in m'.waiters))
  {
    SameThreads(m, ms);
    M.StepInv(m, ms);
    assert M.LocalInv(m, t, m.threads[t]) && M.LocalInv(M.Apply(m, ms), t, M.Apply(m, ms).threads[t]);
    if ms == M.Run(t) {
      OwnWaitRun(m, t);
    } else if !(ms.Begin? && ms.t == t) {
      OthersSee(m, ms, t);
    }
  }

  lemma MonInv(s: State, ms: M.Step)
    requires Inv(s) && Enabled(s, Mon(ms))
    ensures Inv(Apply(s, Mon(ms)))
  {
    var s' := Apply(s, Mon(ms));
    M.StepInv(s.m, ms);
    SameThreads(s.m, ms);
    forall t | t in s'.calls
      ensures CallInv(s', t) && WakeInv(s', t) && ZeroInv(s', t)
    {
      MonKeepsCall(s, ms, t);
      MonKeepsWake(s, ms, t);
      assert CallInv(s, t) && ZeroInv(s, t);
      WhoMovesTheMutex(s.m, ms, t);
    }
  }

  lemma SameThreads(m: M.State, ms: M.Step)
    requires M.Enabled(m, ms)
    ensures M.Apply(m, ms).threads.Keys == m.threads.Keys
  {
  }

  // ---------- the steps of the counter keep it ----------

  /** Begin of a monitor operation by `t`, between operations, as seen by the others. */
  lemma DoOthers(s: State, t: M.Tid, op: M.Op, next: Call, u: M.Tid)
    requires M.Inv(s.m) && Ready(s, t) && M.Enabled(s.m, M.Begin(t, op)) && !op.Interrupt?
    requires u in s.m.threads && u != t
    ensures var s' := Do(s, t, op, next);
            && u in s'.m.threads
            && s'.m.threads[u].depth == s.m.threads[u].depth
            && s'.m.mutex == s.m.mutex
            && (s'.m.threads[u].pc == s.m.threads[u].pc
                || (s.m.threads[u].pc == M.Blocked && s'.m.threads[u].pc == M.Woken))
            && (op == M.Broadcast ==> s'.m.threads[u].pc != M.Blocked)
  {
    assert M.LocalInv(s.m, u, s.m.threads[u]);
  }

  lemma CallKeepsInv(s: State, t: M.Tid, next: Call)
    requires Inv(s) && Ready(s, t) && s.calls[t] == NoCall && next in {IncBody, DecBody, ZeroTest}
    ensures Inv(Do(s, t, M.Lock, next))
  {
    var s' := Do(s, t, M.Lock, next);
    M.BeginInv(s.m, t, M.Lock);
    forall u | u in s'.calls
      ensures CallInv(s', u) && WakeInv(s', u) && ZeroInv(s', u)
    {
      assert CallInv(s, u) && WakeInv(s, u) && ZeroInv(s, u);
      CallKeeps(s, t, next, u);
    }
  }

  lemma CallKeeps(s: State, t: M.Tid, next: Call, u: M.Tid)
    requires Ready(s, t) && s.calls[t] == NoCall && next in {IncBody, DecBody, ZeroTest} && s.lost <= s.m.waiters
    requires u in s.calls && u in s.m.threads && CallInv(s, u) && WakeInv(s, u) && ZeroInv(s, u)
    ensures var s' := Do(s, t, M.Lock, next);
            u in s'.calls && u in s'.m.threads && CallInv(s', u) && WakeInv(s', u) && ZeroInv(s', u)
  {
  }

  /** The end of a call. */
  lemma LeaveKeepsInv(s: State, t: M.Tid)
    requires Inv(s) && Enabled(s, Advance(t)) && (s.calls[t] == Leave || s.calls[t] == ZeroLeave)
    ensures Inv(ApplyAdvance(s, t))
  {
    var s' := ApplyAdvance(s, t);
    forall u | u in s'.calls
      ensures CallInv(s', u) && WakeInv(s', u) && ZeroInv(s', u)
    {
      assert CallInv(s, u) && WakeInv(s, u) && ZeroInv(s, u);
    }
  }

  /** While `t` holds the monitor, no other thread is about to sleep, testing, or returning with it. */
  lemma OthersWhileHeld(s: State, t: M.Tid, u: M.Tid)
    requires Inv(s) && t in s.calls && u in s.calls && u != t
    requires s.m.threads[t].pc == M.Idle && s.m.threads[t].depth > 0
    ensures s.m.mutex == Some(t)
    ensures s.calls[u] == ZeroWait && Unnotified(s.m.threads[u].pc) ==>
              s.m.threads[u].pc == M.Blocked && (s.count > 0 || u in s.lost || s.calls[t] == DecNotify)
  {
    HolderIsAlone(s, t);
    assert CallInv(s, u) && WakeInv(s, u);
    assert M.LocalInv(s.m, u, s.m.threads[u]);
  }

  predicate InBody(s: State, t: M.Tid) {
    Enabled(s, Advance(t)) && s.calls[t] != Leave && s.calls[t] != ZeroLeave
  }

  /** The body of an operation, executed by the holder, as seen by the others. */
  lemma BodyMoves(s: State, t: M.Tid, u: M.Tid)
    requires Inv(s) && InBody(s, t) && u in s.calls && u != t
    ensures var s' := ApplyAdvance(s, t);
            && u in s'.calls && s'.calls[u] == s.calls[u]
            && u in s'.m.threads && s'.m.threads[u].depth == s.m.threads[u].depth
            && s'.m.mutex == s.m.mutex == Some(t)
            && (s'.m.threads[u].pc == s.m.threads[u].pc
                || (s.m.threads[u].pc == M.Blocked && s'.m.threads[u].pc == M.Woken))
            && (s.calls[t] == DecNotify ==> s'.m.threads[u].pc != M.Blocked)
  {
    assert CallInv(s, t);
    HolderIsAlone(s, t);
    match s.calls[t]
    case IncBody | DecUnlock | ZeroUnlock | DecBody => DoOthers(s, t, M.Unlock, Leave, u);
    case DecNotify => DoOthers(s, t, M.Broadcast, DecUnlock, u);
    case ZeroTest => if s.count > 0 { DoOthers(s, t, M.Wait, ZeroWait, u); }
    case ZeroWait => DoOthers(s, t, M.Unlock, Leave, u);
  }

  lemma BodyKeepsOthers(s: State, t: M.Tid, u: M.Tid)
    requires Inv(s) && InBody(s, t) && u in s.calls && u != t
    ensures var s' := ApplyAdvance(s, t);
            u in s'.calls && u in s'.m.threads && CallInv(s', u) && WakeInv(s', u) && ZeroInv(s', u)
  {
    assert CallInv(s, t) && CallInv(s, u);
    BodyMoves(s, t, u);
    OthersWhileHeld(s, t, u);
  }

  lemma BodyKeepsDomain(s: State, t: M.Tid)
    requires s.calls.Keys == s.m.threads.Keys && s.count <= SIZE_MAX && InBody(s, t)
    ensures var s' := ApplyAdvance(s, t);
            s'.calls.Keys == s'.m.threads.Keys == s.calls.Keys && s'.count <= SIZE_MAX
  {
  }

  lemma BodyKeepsLost(s: State, t: M.Tid)
    requires s.lost <= s.m.waiters && InBody(s, t)
    ensures ApplyAdvance(s, t).lost <= ApplyAdvance(s, t).m.waiters
  {
  }

  lemma BodyKeepsOwnCall(s: State, t: M.Tid)
    requires InBody(s, t) && CallInv(s, t) && (s.m.threads[t].depth > 0 ==> t !in s.m.waiters)
    ensures var s' := ApplyAdvance(s, t);
            t in s'.calls && t in s'.m.threads && CallInv(s', t)
  {
  }

  lemma BodyKeepsOwnZero(s: State, t: M.Tid)
    requires Inv(s) && InBody(s, t)
    ensures var s' := ApplyAdvance(s, t);
            t in s'.calls && t in s'.m.threads && WakeInv(s', t) && ZeroInv(s', t)
  {
    assert CallInv(s, t) && ZeroInv(s, t);
    HolderIsAlone(s, t);
  }

  lemma AdvanceKeepsMonitor(s: State, t: M.Tid)
    requires Inv(s) && Enabled(s, Advance(t))
    ensures M.Inv(ApplyAdvance(s, t).m)
  {
    assert CallInv(s, t);
    match s.calls[t]
    case IncBody | DecUnlock | ZeroUnlock | DecBody => M.BeginInv(s.m, t, M.Unlock);
    case DecNotify => M.BeginInv(s.m, t, M.Broadcast);
    case ZeroTest => if s.count > 0 { M.BeginInv(s.m, t, M.Wait); }
    case ZeroWait => M.BeginInv(s.m, t, M.Unlock);
    case _ =>
  }

  lemma AdvanceInv(s: State, t: M.Tid)
    requires Inv(s) && Enabled(s, Advance(t))
    ensures Inv(ApplyAdvance(s, t))
  {
    if s.calls[t] == Leave || s.calls[t] == ZeroLeave {
      LeaveKeepsInv(s, t);
    } else {
      AdvanceKeepsMonitor(s, t);
      BodyKeepsDomain(s, t);
      BodyKeepsLost(s, t);
      forall u | u in ApplyAdvance(s, t).calls
        ensures CallInv(ApplyAdvance(s, t), u) && WakeInv(ApplyAdvance(s, t), u) && ZeroInv(ApplyAdvance(s, t), u)
      {
        BodyKeepsAll(s, t, u);
      }
    }
  }

  lemma BodyKeepsAll(s: State, t: M.Tid, u: M.Tid)
    requires Inv(s) && InBody(s, t) && u in s.calls
    ensures var s' := ApplyAdvance(s, t);
            u in s'.calls && u in s'.m.threads && CallInv(s', u) && WakeInv(s', u) && ZeroInv(s', u)
  {
    if u == t {
      assert CallInv(s, t) && M.LocalInv(s.m, t, s.m.threads[t]);
      BodyKeepsOwnCall(s, t);
      BodyKeepsOwnZero(s, t);
    } else {
      BodyKeepsOthers(s, t, u);
    }
  }

  lemma StepInv(s: State, step: Step)
    requires Inv(s) && Enabled(s, step)
    ensures Inv(Apply(s, step))
  {
    match step
    case Mon(ms) => MonInv(s, ms);
    case CallInc(t) => CallKeepsInv(s, t, IncBody);
    case CallDec(t) => CallKeepsInv(s, t, DecBody);
    case CallWaitForZero(t) => CallKeepsInv(s, t, ZeroTest);
    case Advance(t) => AdvanceInv(s, t);
  }

  lemma {:induction false} RunsKeepInv(s: State, steps: seq<Step>)
    requires Inv(s) && ValidRun(s, steps)
    ensures Inv(Exec(s, steps))
    decreases |steps|
  {
    if steps != [] {
      StepInv(s, steps[0]);
      RunsKeepInv(Apply(s, steps[0]), steps[1..]);
    }
  }

  lemma InitInv(s: State)
    requires Init(s)
    ensures Inv(s)
  {
    M.InitInv(s.m);
  }

  // ---------- what every run guarantees ----------

  /**
    No lost wake-up.  Whenever the monitor is free and the count is 0, a thread sits un-notified in
    `waitForZero` if and only if it has slept since an `inc` took the count from `SIZE_MAX` to 0.
   */
  lemma {:induction false} NoLostWakeUp(s: State, steps: seq<Step>, t: M.Tid)
    requires Init(s) && ValidRun(s, steps)
    ensures var r := Exec(s, steps);
            r.m.mutex == None && r.count == 0 && t in r.calls && r.calls[t] == ZeroWait ==>
              (t in r.m.waiters <==> t in r.lost)
  {
    InitInv(s);
    RunsKeepInv(s, steps);
    var r := Exec(s, steps);
    if t in r.calls {
      assert CallInv(r, t) && WakeInv(r, t);
      assert M.LocalInv(r.m, t, r.m.threads[t]);
    }
  }

  /** No body of `inc` meets `SIZE_MAX`. */
  ghost predicate NoWrap(s: State, steps: seq<Step>)
    requires ValidRun(s, steps)
    decreases |steps|
  {
    steps == [] ||
    ((steps[0].Advance? && s.calls[steps[0].t] == IncBody ==> s.count < SIZE_MAX) && NoWrap(Apply(s, steps[0]), steps[1..]))
  }

  /** No body of `dec` meets 0. */
  ghost predicate NoUnderflow(s: State, steps: seq<Step>)
    requires ValidRun(s, steps)
    decreases |steps|
  {
    steps == [] ||
    ((steps[0].Advance? && s.calls[steps[0].t] == DecBody ==> s.count > 0) && NoUnderflow(Apply(s, steps[0]), steps[1..]))
  }

  lemma {:induction false} NothingLost(s: State, steps: seq<Step>)
    requires s.lost == {} && ValidRun(s, steps) && NoWrap(s, steps)
    ensures Exec(s, steps).lost == {}
    decreases |steps|
  {
    if steps != [] {
      NothingLost(Apply(s, steps[0]), steps[1..]);
    }
  }

  /** A count that is never taken below 0 wraps only after `SIZE_MAX` steps. */
  lemma {:induction false} BalancedIsEnough(s: State, steps: seq<Step>)
    requires ValidRun(s, steps) && NoUnderflow(s, steps) && s.count + |steps| <= SIZE_MAX
    ensures NoWrap(s, steps)
    decreases |steps|
  {
    if steps != [] {
      assert Apply(s, steps[0]).count <= s.count + 1;
      BalancedIsEnough(Apply(s, steps[0]), steps[1..]);
    }
  }

  /** So with no wrap, as in every balanced run that is short enough, nobody sits un-notified at a count of 0. */
  lemma {:induction false} EverybodyIsWoken(s: State, steps: seq<Step>, t: M.Tid)
    requires Init(s) && ValidRun(s, steps)
    ensures NoWrap(s, steps) || (NoUnderflow(s, steps) && |steps| <= SIZE_MAX) ==>
              var r := Exec(s, steps);
              r.lost == {} && (r.m.mutex == None && r.count == 0 && t in r.calls && r.calls[t] == ZeroWait ==> t !in r.m.waiters)
  {
    if NoUnderflow(s, steps) && |steps| <= SIZE_MAX {
      BalancedIsEnough(s, steps);
    }
    if NoWrap(s, steps) {
      NothingLost(s, steps);
      NoLostWakeUp(s, steps, t);
    }
  }

  /**
    `waitForZero` leaves its loop only by finding 0 with the monitor held, whatever woke it up;
    and a caller that still holds the monitor on return finds the count still 0.
   */
  lemma {:induction false} ReturnsOnlyAtZero(s: State, steps: seq<Step>, t: M.Tid)
    requires Init(s) && ValidRun(s, steps) && Enabled(Exec(s, steps), Advance(t))
    ensures var r := Exec(s, steps);
            && (r.calls[t] == ZeroTest ==>
                  r.m.mutex == Some(t) && (ApplyAdvance(r, t).calls[t] == ZeroUnlock <==> r.count == 0))
            && (r.calls[t] == ZeroUnlock ==> r.m.mutex == Some(t) && r.count == 0)
            && (r.calls[t] == ZeroLeave && r.m.threads[t].depth > 0 ==> r.count == 0)
            && (r.calls[t] == ZeroWait && !r.m.threads[t].threw ==> ApplyAdvance(r, t).calls[t] == ZeroTest)
  {
    InitInv(s);
    RunsKeepInv(s, steps);
    var r := Exec(s, steps);
    assert CallInv(r, t) && ZeroInv(r, t);
    assert M.LocalInv(r.m, t, r.m.threads[t]);
  }

  // ---------- sleepers can be lost ----------

  ghost predicate Reaches(s: State, steps: seq<Step>, r: State) {
    ValidRun(s, steps) && Exec(s, steps) == r
  }

  lemma {:induction false} Extend(s: State, steps: seq<Step>, r: State, step: Step)
    requires Reaches(s, steps, r) && Enabled(r, step)
    ensures Reaches(s, steps + [step], Apply(r, step))
    decreases |steps|
  {
    if steps == [] {
      assert ([] + [step])[1..] == [];
    } else {
      Extend(Apply(s, steps[0]), steps[1..], r, step);
      assert (steps + [step])[1..] == steps[1..] + [step];
    }
  }

  lemma TakeStep(s: State, steps: seq<Step>, r: State, step: Step) returns (steps': seq<Step>, r': State)
    requires Reaches(s, steps, r) && Enabled(r, step)
    ensures Reaches(s, steps', r') && r' == Apply(r, step)
  {
    Extend(s, steps, r, step);
    steps', r' := steps + [step], Apply(r, step);
  }

  /** The next action of `t`, given what it does. */
  lemma TakeRun(s: State, steps: seq<Step>, r: State, t: M.Tid, e: M.Effect) returns (steps': seq<Step>, r': State)
    requires Reaches(s, steps, r) && M.Enabled(r.m, M.Run(t))
    requires M.Act(r.m.mutex, r.m.lock, r.m.waiters, t, r.m.threads[t]) == e
    ensures Reaches(s, steps', r')
    ensures r' == r.(m := M.State(e.mutex, e.lock, e.waiters, r.m.threads[t := e.l]), lost := r.lost * e.waiters)
  {
    steps', r' := TakeStep(s, steps, r, Mon(M.Run(t)));
  }

  /** `t` is between operations and does not hold the monitor. */
  predicate Outside(r: State, t: M.Tid) {
    && Ready(r, t) && r.calls[t] == NoCall && r.m.threads[t].depth == 0
    && r.m.mutex == None
  }

  /** The call of an operation and the first half of its uncontended `lock`. */
  lemma Calls(s: State, steps: seq<Step>, r: State, t: M.Tid, step: Step, call: Call)
    returns (steps': seq<Step>, r': State)
    requires Reaches(s, steps, r) && Outside(r, t) && Enabled(r, step) && Apply(r, step) == Do(r, t, M.Lock, call)
    ensures Reaches(s, steps', r')
    ensures r'.m.mutex == Some(t) && r'.m.lock == M.Record(None, 0) && r'.m.waiters == r.m.waiters
    ensures r'.m.threads == r.m.threads[t := r.m.threads[t].(pc := M.FirstSetThread)]
    ensures r'.calls == r.calls[t := call] && r'.count == r.count
  {
    var l, w, n := r.m.threads[t], r.m.waiters, r.m.lock.count;
    steps', r' := TakeStep(s, steps, r, step);
    steps', r' := TakeRun(s, steps', r', t, M.Effect(Some(t), r.m.lock, w, l.(pc := M.FirstResetThread)));
    steps', r' := TakeRun(s, steps', r', t, M.Effect(Some(t), M.Record(None, n), w, l.(pc := M.FirstResetCount)));
    steps', r' := TakeRun(s, steps', r', t, M.Effect(Some(t), M.Record(None, 0), w, l.(pc := M.FirstSetThread)));
  }

  /** The uncontended `lock` at the start of an operation. */
  lemma Enters(s: State, steps: seq<Step>, r: State, t: M.Tid, step: Step, call: Call)
    returns (steps': seq<Step>, r': State)
    requires Reaches(s, steps, r) && Outside(r, t) && Enabled(r, step) && Apply(r, step) == Do(r, t, M.Lock, call)
    ensures Reaches(s, steps', r')
    ensures r'.m.mutex == Some(t) && r'.m.lock == M.Record(Some(t), 1) && r'.m.waiters == r.m.waiters
    ensures r'.m.threads == r.m.threads[t := r.m.threads[t].(depth := 1)]
    ensures r'.calls == r.calls[t := call] && r'.count == r.count
  {
    var l, w := r.m.threads[t], r.m.waiters;
    steps', r' := Calls(s, steps, r, t, step, call);
    steps', r' := TakeRun(s, steps', r', t, M.Effect(Some(t), M.Record(Some(t), 0), w, l.(pc := M.FirstIncCount)));
    steps', r' := TakeRun(s, steps', r', t, M.Effect(Some(t), M.Record(Some(t), 1), w, l.(depth := 1)));
  }

  /** The first two actions of the last `unlock` of an operation. */
  lemma Leaving(s: State, steps: seq<Step>, r: State, t: M.Tid) returns (steps': seq<Step>, r': State)
    requires Reaches(s, steps, r) && t in r.m.threads
    requires r.m.mutex == Some(t) && r.m.lock == M.Record(Some(t), 1)
    requires r.m.threads[t].pc == M.Unlocking && r.m.threads[t].depth == 1
    ensures Reaches(s, steps', r')
    ensures r'.m.mutex == Some(t) && r'.m.lock == M.Record(Some(t), 0) && r'.m.waiters == r.m.waiters
    ensures r'.m.threads == r.m.threads[t := r.m.threads[t].(pc := M.UnlockResetThread, depth := 0)]
    ensures r'.calls == r.calls && r'.count == r.count
  {
    var l, w := r.m.threads[t], r.m.waiters;
    steps', r' := TakeRun(s, steps, r, t, M.Effect(Some(t), r.m.lock, w, l.(pc := M.UnlockDec)));
    steps', r' := TakeRun(s, steps', r', t,
                          M.Effect(Some(t), M.Record(Some(t), 0), w, l.(pc := M.UnlockResetThread, depth := 0)));
  }

  /** The other three, and the return. */
  lemma Left(s: State, steps: seq<Step>, r: State, t: M.Tid) returns (steps': seq<Step>, r': State)
    requires Reaches(s, steps, r) && t in r.m.threads && t in r.calls && r.calls[t] == Leave
    requires r.m.mutex == Some(t) && r.m.lock == M.Record(Some(t), 0)
    requires r.m.threads[t].pc == M.UnlockResetThread
    ensures Reaches(s, steps', r')
    ensures r'.m.mutex == None && r'.m.lock == M.Record(None, 0) && r'.m.waiters == r.m.waiters
    ensures r'.m.threads == r.m.threads[t := r.m.threads[t].(pc := M.Idle)]
    ensures r'.calls == r.calls[t := NoCall] && r'.count == r.count
  {
    var l, w := r.m.threads[t], r.m.waiters;
    steps', r' := TakeRun(s, steps, r, t, M.Effect(Some(t), M.Record(None, 0), w, l.(pc := M.UnlockResetCount)));
    steps', r' := TakeRun(s, steps', r', t, M.Effect(Some(t), M.Record(None, 0), w, l.(pc := M.UnlockRelease)));
    steps', r' := TakeRun(s, steps', r', t, M.Effect(None, M.Record(None, 0), w, l.(pc := M.Idle)));
    steps', r' := TakeStep(s, steps', r', Advance(t));
  }

  /** The whole `unlock` that ends an operation, and the return. */
  lemma WalksOut(s: State, steps: seq<Step>, r: State, t: M.Tid) returns (steps': seq<Step>, r': State)
    requires Reaches(s, steps, r) && t in r.m.threads && t in r.calls && r.calls[t] == Leave
    requires r.m.mutex == Some(t) && r.m.lock == M.Record(Some(t), 1)
    requires r.m.threads[t].pc == M.Unlocking && r.m.threads[t].depth == 1
    ensures Reaches(s, steps', r')
    ensures r'.m.mutex == None && r'.m.lock == M.Record(None, 0) && r'.m.waiters == r.m.waiters
    ensures r'.m.threads == r.m.threads[t := r.m.threads[t].(pc := M.Idle, depth := 0)]
    ensures r'.calls == r.calls[t := NoCall] && r'.count == r.count
  {
    steps', r' := Leaving(s, steps, r, t);
    steps', r' := Left(s, steps', r', t);
  }

  /** The body of a `dec` at 0 or of an `inc` at `SIZE_MAX`, up to the begin of its `unlock`. */
  lemma Wraps(s: State, steps: seq<Step>, r: State, t: M.Tid) returns (steps': seq<Step>, r': State)
    requires Reaches(s, steps, r) && Ready(r, t)
    requires (r.calls[t] == DecBody && r.count == 0) || (r.calls[t] == IncBody && r.count == SIZE_MAX)
    ensures Reaches(s, steps', r')
    ensures r'.m == r.m.(threads := r.m.threads[t := r.m.threads[t].(pc := M.Unlocking)])
    ensures r'.calls == r.calls[t := Leave] && r'.count == SIZE_MAX - r.count
  {
    steps', r' := TakeStep(s, steps, r, Advance(t));
  }

  /** A whole `dec` at 0: no broadcast, and the count becomes `SIZE_MAX`. */
  lemma DecAtZero(s: State, steps: seq<Step>, r: State, t: M.Tid) returns (steps': seq<Step>, r': State)
    requires Reaches(s, steps, r) && Outside(r, t) && r.count == 0
    ensures Reaches(s, steps', r')
    ensures r'.m.mutex == None && r'.m.lock == M.Record(None, 0) && r'.m.waiters == r.m.waiters
    ensures r'.m.threads == r.m.threads && r'.calls == r.calls && r'.count == SIZE_MAX
  {
    steps', r' := Enters(s, steps, r, t, CallDec(t), DecBody);
    steps', r' := Wraps(s, steps', r', t);
    steps', r' := WalksOut(s, steps', r', t);
  }

  /** A whole `inc` at `SIZE_MAX`: the count becomes 0, and nobody is told. */
  lemma IncAtMax(s: State, steps: seq<Step>, r: State, t: M.Tid) returns (steps': seq<Step>, r': State)
    requires Reaches(s, steps, r) && Outside(r, t) && r.count == SIZE_MAX
    ensures Reaches(s, steps', r')
    ensures r'.m.mutex == None && r'.m.lock == M.Record(None, 0) && r'.m.waiters == r.m.waiters
    ensures r'.m.threads == r.m.threads && r'.calls == r.calls && r'.count == 0
  {
    steps', r' := Enters(s, steps, r, t, CallInc(t), IncBody);
    steps', r' := Wraps(s, steps', r', t);
    steps', r' := WalksOut(s, steps', r', t);
  }

  /** A thread that found a positive count goes to sleep. */
  lemma FallsAsleep(s: State, steps: seq<Step>, r: State, t: M.Tid) returns (steps': seq<Step>, r': State)
    requires Reaches(s, steps, r) && t in r.m.threads && r.m.threads[t].pc == M.WaitEnter && r.m.mutex == Some(t)
    ensures Reaches(s, steps', r')
    ensures r'.m.mutex == None && r'.count == r.count && r'.calls == r.calls
    ensures t in r'.m.threads && r'.m.waiters == r.m.waiters + {t}
    ensures r'.m.threads == r.m.threads[t := r'.m.threads[t]]
  {
    var l, w, lock := r.m.threads[t].(inWait := true), r.m.waiters, r.m.lock;
    steps', r' := TakeRun(s, steps, r, t, M.Effect(Some(t), lock, w, l.(pc := M.WaitSave)));
    l := l.(saved := lock);
    steps', r' := TakeRun(s, steps', r', t, M.Effect(Some(t), lock, w, l.(pc := M.WaitBlock)));
    steps', r' := TakeRun(s, steps', r', t, M.Effect(None, lock, w + {t}, l.(pc := M.Blocked)));
    assert r'.m.threads == r.m.threads[t := r'.m.threads[t]];
  }

  /** A whole `waitForZero` up to its sleep, with a positive count. */
  lemma GoesToSleep(s: State, steps: seq<Step>, r: State, t: M.Tid) returns (steps': seq<Step>, r': State)
    requires Reaches(s, steps, r) && Outside(r, t) && r.count > 0
    ensures Reaches(s, steps', r')
    ensures r'.m.mutex == None && r'.count == r.count && r'.calls == r.calls[t := ZeroWait]
    ensures t in r'.m.threads && r'.m.waiters == r.m.waiters + {t}
    ensures r'.m.threads == r.m.threads[t := r'.m.threads[t]]
  {
    steps', r' := Enters(s, steps, r, t, CallWaitForZero(t), ZeroTest);
    steps', r' := TakeStep(s, steps', r', Advance(t));
    assert r'.m.threads[t].pc == M.WaitEnter && r'.calls == r.calls[t := ZeroWait];
    steps', r' := FallsAsleep(s, steps', r', t);
  }

  /**
    A `dec` at 0 takes the count to `SIZE_MAX`; a thread then sleeps in `waitForZero`; an `inc`
    takes the count back to 0 without a broadcast.  The monitor is free, the count is 0,
    and the sleeper was not notified.
   */
  lemma UnderflowLosesAWakeUp() returns (s: State, steps: seq<Step>)
    ensures Init(s) && ValidRun(s, steps)
    ensures var r := Exec(s, steps);
            && r.m.mutex == None && r.count == 0
            && 1 in r.calls && r.calls[1] == ZeroWait && 1 in r.m.waiters
  {
    var l := M.Local(M.Idle, 0, M.Record(None, 0), false, false, false);
    s := State(M.State(None, M.Record(None, 0), {}, map[0 := l, 1 := l]), 0, map[0 := NoCall, 1 := NoCall], {});
    steps := [];
    var r := s;
    steps, r := DecAtZero(s, steps, r, 0);
    steps, r := GoesToSleep(s, steps, r, 1);
    steps, r := IncAtMax(s, steps, r, 0);
  }
}
