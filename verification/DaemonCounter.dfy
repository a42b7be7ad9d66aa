/**
  The count of daemon threads on the real `Counter`: `start` and `threadDeath` call `inc` and `dec`,
  whose single actions interleave with everything else, and `waitThreadTermination` is `waitForZero`.
 */
module DaemonCounter {
  import M = Monitor
  import C = Counter
  import D = Daemon

  /** Between the increment and the decrement: `Creating`, `Running` and `Dying`. */
  datatype Stage = Incrementing | Creating | Undoing | Running | Dying | Decrementing

  /** The start of a thread object up to the end of its death; `worker` is the thread that executes its code. */
  datatype Activity = Activity(obj: nat, worker: M.Tid, counted: bool, stage: Stage)

  /** `drift` sums up what ended activities left in the counter. */
  datatype State = State(c: C.State, threads: map<nat, D.Thread>, acts: seq<Activity>, drift: int)

  datatype Step =
    | Count(step: C.Step)          // the next action of a call, a user of the monitor, or a new `waitThreadTermination`
    | SetDaemon(obj: nat, value: bool)
    | Start(obj: nat, t: M.Tid)    // the checks, and the call of `inc` for a daemon
    | Incremented(k: nat)          // `inc` returned
    | CreateOk(k: nat)
    | CreateFails(k: nat)          // and the call of `dec` for a daemon
    | Undone(k: nat)               // that `dec` returned
    | Dies(k: nat, t: M.Tid)       // `threadDeath` marks the object dead ...
    | Ends(k: nat)                 // ... and calls `dec` if the object is a daemon by now
    | Decremented(k: nat)          // that `dec` returned

  // ---------- steps ----------

  predicate Busy(s: State, t: M.Tid) {
    exists k :: 0 <= k < |s.acts| && s.acts[k].worker == t && s.acts[k].stage != Running
  }

  predicate Free(s: State, t: M.Tid) {
    C.Ready(s.c, t) && s.c.calls[t] == C.NoCall && !Busy(s, t)
  }

  /** `start` holds the mutex of its object. */
  predicate Locked(s: State, obj: nat) {
    exists k :: 0 <= k < |s.acts| && s.acts[k].obj == obj && s.acts[k].stage in {Incrementing, Creating, Undoing}
  }

  predicate At(s: State, k: nat, stage: Stage) {
    k < |s.acts| && s.acts[k].stage == stage && s.acts[k].obj in s.threads && s.acts[k].worker in s.c.calls
  }

  predicate CanCount(s: State, step: C.Step) {
    C.Enabled(s.c, step) &&
    match step
    case CallInc(_) => false
    case CallDec(_) => false
    case CallWaitForZero(t) => !Busy(s, t)
    case Mon(ms) => ms.Begin? ==> !Busy(s, ms.t)
    case Advance(_) => true
  }

  predicate Enabled(s: State, step: Step) {
    match step
    case Count(cs) => CanCount(s, cs)
    case SetDaemon(obj, _) => obj in s.threads && !Locked(s, obj)
    case Start(obj, t) => obj in s.threads && !Locked(s, obj) && s.threads[obj].status == D.Created && Free(s, t)
    case Incremented(k) => At(s, k, Incrementing) && s.c.calls[s.acts[k].worker] == C.NoCall
    case CreateOk(k) => At(s, k, Creating)
    case CreateFails(k) => At(s, k, Creating) && C.Enabled(s.c, C.CallDec(s.acts[k].worker))
    case Undone(k) => At(s, k, Undoing) && s.c.calls[s.acts[k].worker] == C.NoCall
    case Dies(k, t) => At(s, k, Running) && Free(s, t)
    case Ends(k) => At(s, k, Dying) && C.Enabled(s.c, C.CallDec(s.acts[k].worker))
    case Decremented(k) => At(s, k, Decrementing) && s.c.calls[s.acts[k].worker] == C.NoCall
  }

  function To(s: State, k: nat, stage: Stage): (acts: seq<Activity>)
    requires k < |s.acts|
  {
    s.acts[k := s.acts[k].(stage := stage)]
  }

  /** Activity `k` is over; what it left in the counter is noted. */
  function Over(s: State, k: nat, left: int): (s': State)
    requires k < |s.acts|
  {
    s.(acts := D.Without(s.acts, k), drift := s.drift + left)
  }

  /** Activity `k` calls `dec` if its object is a daemon, and is over otherwise. */
  function CallsDec(s: State, k: nat, stage: Stage): (s': State)
    requires k < |s.acts| && s.acts[k].obj in s.threads && C.Enabled(s.c, C.CallDec(s.acts[k].worker))
  {
    var a := s.acts[k];
    if s.threads[a.obj].daemon then s.(c := C.Apply(s.c, C.CallDec(a.worker)), acts := To(s, k, stage))
    else Over(s, k, D.One(a.counted))
  }

  function Mark(s: State, k: nat, status: D.Status): (s': State)
    requires k < |s.acts| && s.acts[k].obj in s.threads
  {
    var obj := s.acts[k].obj;
    s.(threads := s.threads[obj := s.threads[obj].(status := status)])
  }

  function Apply(s: State, step: Step): (s': State)
    requires Enabled(s, step)
  {
    match step
    case Count(cs) => s.(c := C.Apply(s.c, cs))
    case SetDaemon(obj, value) => s.(threads := s.threads[obj := s.threads[obj].(daemon := value)])
    case Start(obj, t) =>
      if s.threads[obj].daemon
      then s.(c := C.Apply(s.c, C.CallInc(t)), acts := s.acts + [Activity(obj, t, true, Incrementing)])
      else s.(acts := s.acts + [Activity(obj, t, false, Creating)])
    case Incremented(k) => s.(acts := To(s, k, Creating))
    case CreateOk(k) => s.(acts := To(s, k, Running))
    case CreateFails(k) => CallsDec(Mark(s, k, D.Error), k, Undoing)
    case Undone(k) => Over(s, k, D.One(s.acts[k].counted) - 1)
    case Dies(k, t) => Mark(s, k, D.Dead).(acts := s.acts[k := s.acts[k].(worker := t, stage := Dying)])
    case Ends(k) => CallsDec(s, k, Decrementing)
    case Decremented(k) => Over(s, k, D.One(s.acts[k].counted) - 1)
  }

  predicate ValidRun(s: State, run: seq<Step>)
    decreases |run|
  {
    run == [] || (Enabled(s, run[0]) && ValidRun(Apply(s, run[0]), run[1..]))
  }

  function Exec(s: State, run: seq<Step>): (s': State)
    requires ValidRun(s, run)
    decreases |run|
  {
    if run == [] then s else Exec(Apply(s, run[0]), run[1..])
  }

  // ---------- what the activities did to the counter ----------

  function CallOf(calls: map<M.Tid, C.Call>, t: M.Tid): (call: C.Call) {
    if t in calls then calls[t] else C.NoCall
  }

  /** Increments less decrements that the activity has executed; `call` is where its thread stands. */
  function Net(a: Activity, call: C.Call): (n: int) {
    match a.stage
    case Incrementing => D.One(call != C.IncBody)
    case Creating | Running | Dying => D.One(a.counted)
    case Undoing | Decrementing => D.One(a.counted) - D.One(call != C.DecBody)
  }

  function Sum(acts: seq<Activity>, calls: map<M.Tid, C.Call>): (n: int) {
    if acts == [] then 0 else Net(acts[0], CallOf(calls, acts[0].worker)) + Sum(acts[1..], calls)
  }

  lemma {:induction false} SumOneMore(acts: seq<Activity>, a: Activity, calls: map<M.Tid, C.Call>)
    ensures Sum(acts + [a], calls) == Sum(acts, calls) + Net(a, CallOf(calls, a.worker))
  {
    if acts == [] {
      assert acts + [a] == [a] && [a][1..] == [];
    } else {
      SumOneMore(acts[1..], a, calls);
      assert (acts + [a])[1..] == acts[1..] + [a];
    }
  }

  lemma {:induction false} SumWithout(acts: seq<Activity>, k: nat, calls: map<M.Tid, C.Call>)
    requires k < |acts|
    ensures Sum(acts, calls) == Sum(D.Without(acts, k), calls) + Net(acts[k], CallOf(calls, acts[k].worker))
  {
    if k == 0 {
      assert D.Without(acts, 0) == acts[1..];
    } else {
      SumWithout(acts[1..], k - 1, calls);
      assert D.Without(acts, k)[1..] == D.Without(acts[1..], k - 1);
    }
  }

  lemma SumUpdate(acts: seq<Activity>, k: nat, a: Activity, calls: map<M.Tid, C.Call>)
    requires k < |acts|
    ensures Sum(acts[k := a], calls)
         == Sum(acts, calls) - Net(acts[k], CallOf(calls, acts[k].worker)) + Net(a, CallOf(calls, a.worker))
  {
    SumWithout(acts, k, calls);
    SumWithout(acts[k := a], k, calls);
    assert D.Without(acts[k := a], k) == D.Without(acts, k);
  }

  /** Only the place of thread `t` changed, and no activity waits for it. */
  lemma {:induction false} SumOfOthers(acts: seq<Activity>, calls: map<M.Tid, C.Call>, calls': map<M.Tid, C.Call>, t: M.Tid)
    requires forall u :: u != t ==> CallOf(calls', u) == CallOf(calls, u)
    requires forall k :: 0 <= k < |acts| && acts[k].worker == t ==> Net(acts[k], CallOf(calls', t)) == Net(acts[k], CallOf(calls, t))
    ensures Sum(acts, calls') == Sum(acts, calls)
  {
    if acts != [] {
      SumOfOthers(acts[1..], calls, calls', t);
      assert acts[0].worker != t ==> CallOf(calls', acts[0].worker) == CallOf(calls, acts[0].worker);
    }
  }

  /** Only the place of thread `t` changed, and activity `k` is the only one that it works for. */
  lemma SumOfOne(acts: seq<Activity>, k: nat, calls: map<M.Tid, C.Call>, calls': map<M.Tid, C.Call>, t: M.Tid)
    requires k < |acts| && acts[k].worker == t
    requires forall u :: u != t ==> CallOf(calls', u) == CallOf(calls, u)
    requires forall j :: 0 <= j < |acts| && j != k && acts[j].worker == t ==> acts[j].stage == Running
    ensures Sum(acts, calls') == Sum(acts, calls) - Net(acts[k], CallOf(calls, t)) + Net(acts[k], CallOf(calls', t))
  {
    SumWithout(acts, k, calls);
    SumWithout(acts, k, calls');
    var rest := D.Without(acts, k);
    forall j | 0 <= j < |rest| && rest[j].worker == t
      ensures Net(rest[j], CallOf(calls', t)) == Net(rest[j], CallOf(calls, t))
    {
      assert rest[j] == if j < k then acts[j] else acts[j + 1];
    }
    SumOfOthers(rest, calls, calls', t);
  }

  // ---------- the invariant ----------

  /** Where the thread that works for an activity can stand in its call. */
  predicate Stands(stage: Stage, call: C.Call) {
    match stage
    case Running => true
    case Creating | Dying => call == C.NoCall
    case Incrementing => call in {C.IncBody, C.Leave, C.NoCall}
    case Undoing | Decrementing => call in {C.DecBody, C.DecNotify, C.DecUnlock, C.Leave, C.NoCall}
  }

  predicate ActInv(c: C.State, threads: map<nat, D.Thread>, a: Activity) {
    && a.obj in threads && a.worker in c.calls && a.worker in c.m.threads
    && (a.stage == Incrementing ==> a.counted)
    && Stands(a.stage, c.calls[a.worker])
    && (a.stage != Running && c.calls[a.worker] == C.NoCall ==> c.m.threads[a.worker].pc == M.Idle)
  }

  /** A thread works for one activity at a time. */
  predicate Unique(acts: seq<Activity>) {
    forall i, j :: 0 <= i < j < |acts| && acts[i].stage != Running && acts[j].stage != Running ==>
      acts[i].worker != acts[j].worker
  }

  /** Whoever is about to change the count does so for an activity. */
  predicate Owned(acts: seq<Activity>, t: M.Tid, call: C.Call) {
    && (call == C.IncBody ==> exists k :: 0 <= k < |acts| && acts[k].worker == t && acts[k].stage == Incrementing)
    && (call == C.DecBody ==>
          exists k :: 0 <= k < |acts| && acts[k].worker == t && (acts[k].stage == Undoing || acts[k].stage == Decrementing))
  }

  predicate Law(s: State) {
    s.c.count == D.Wrap(Sum(s.acts, s.c.calls) + s.drift)
  }

  ghost predicate ActsInv(c: C.State, threads: map<nat, D.Thread>, acts: seq<Activity>) {
    && (forall k :: 0 <= k < |acts| ==> ActInv(c, threads, acts[k]))
    && Unique(acts)
    && (forall t :: t in c.calls ==> Owned(acts, t, c.calls[t]))
  }

  /** The books agree with the counter. */
  ghost predicate Books(s: State) {
    ActsInv(s.c, s.threads, s.acts) && Law(s)
  }

  ghost predicate Inv(s: State) {
    C.Inv(s.c) && Books(s)
  }

  ghost predicate Init(s: State) {
    C.Init(s.c) && s.acts == [] && s.drift == 0
  }

  lemma InitInv(s: State)
    requires Init(s)
    ensures Inv(s)
  {
    C.InitInv(s.c);
  }

  // ---------- the steps of the counter keep it ----------

  /** What a step of the counter does to the places of the threads and to the count. */
  lemma CallsMove(c: C.State, t: M.Tid)
    requires C.Enabled(c, C.Advance(t)) && c.count <= C.SIZE_MAX
    ensures var c' := C.ApplyAdvance(c, t);
            && t in c'.calls && c'.calls == c.calls[t := c'.calls[t]]
            && c'.calls[t] != C.IncBody && c'.calls[t] != C.DecBody
            && (c.calls[t] == C.IncBody ==> c'.calls[t] == C.Leave)
            && (c.calls[t] == C.DecBody ==> c'.calls[t] == C.DecNotify || c'.calls[t] == C.Leave)
            && (c.calls[t] == C.DecNotify ==> c'.calls[t] == C.DecUnlock)
            && (c.calls[t] == C.DecUnlock ==> c'.calls[t] == C.Leave)
            && (c.calls[t] == C.Leave ==> c'.calls[t] == C.NoCall && c'.m == c.m)
            && (c'.calls[t] == C.NoCall ==> c'.m == c.m)
            && c'.count == D.Wrap(c.count + (if c.calls[t] == C.IncBody then 1 else if c.calls[t] == C.DecBody then -1 else 0))
  {
  }

  /** A step of the counter that is not its own leaves a thread between calls where it is. */
  lemma IdleStays(c: C.State, cs: C.Step, u: M.Tid)
    requires C.Inv(c) && C.Enabled(c, cs) && u in c.calls && c.m.threads[u].pc == M.Idle && c.calls[u] == C.NoCall
    requires !cs.CallInc? && !cs.CallDec? && (cs.CallWaitForZero? ==> cs.t != u) && (cs.Mon? && cs.step.Begin? ==> cs.step.t != u)
    ensures var c' := C.Apply(c, cs); u in c'.m.threads && c'.m.threads[u].pc == M.Idle
  {
    match cs
    case Mon(ms) => C.OthersSee(c.m, ms, u);
    case CallWaitForZero(t) =>
    case Advance(t) =>
      CallsMove(c, t);
      if c.calls[t] != C.Leave && c.calls[t] != C.ZeroLeave {
        C.BodyMoves(c, t, u);
      }
  }

  lemma CountKeepsAct(s: State, cs: C.Step, k: nat)
    requires Inv(s) && CanCount(s, cs) && k < |s.acts|
    ensures ActInv(C.Apply(s.c, cs), s.threads, s.acts[k])
  {
    assert ActInv(s.c, s.threads, s.acts[k]);
    var c', a := C.Apply(s.c, cs), s.acts[k];
    assert c'.calls.Keys == c'.m.threads.Keys && a.worker in c'.calls by { CountKeepsKeys(s.c, cs); }
    if a.stage != Running {
      assert Busy(s, a.worker);
      if s.c.calls[a.worker] == C.NoCall {
        IdleStays(s.c, cs, a.worker);
      }
      StandsOn(s.c, cs, a.worker, a.stage);
    }
  }

  lemma CountKeepsKeys(c: C.State, cs: C.Step)
    requires C.Inv(c) && C.Enabled(c, cs)
    ensures var c' := C.Apply(c, cs); c'.calls.Keys == c'.m.threads.Keys == c.calls.Keys
  {
    C.StepInv(c, cs);
    if cs.Advance? {
      CallsMove(c, cs.t);
    }
  }

  /** The thread stays where its stage wants it, and is between operations when it has returned. */
  lemma StandsOn(c: C.State, cs: C.Step, t: M.Tid, stage: Stage)
    requires C.Enabled(c, cs) && c.count <= C.SIZE_MAX && t in c.calls && t in c.m.threads && Stands(stage, c.calls[t]) && stage != Running
    requires !cs.CallInc? && !cs.CallDec? && (cs.CallWaitForZero? ==> cs.t != t)
    ensures var c' := C.Apply(c, cs);
            && t in c'.calls && Stands(stage, c'.calls[t])
            && (c'.calls[t] == C.NoCall && c.calls[t] != C.NoCall ==> t in c'.m.threads && c'.m.threads[t].pc == M.Idle)
  {
    if cs.Advance? {
      CallsMove(c, cs.t);
    }
  }

  lemma CountKeepsOwned(s: State, cs: C.Step, t: M.Tid)
    requires Inv(s) && CanCount(s, cs) && t in C.Apply(s.c, cs).calls
    ensures Owned(s.acts, t, C.Apply(s.c, cs).calls[t])
  {
    if cs.Advance? {
      CallsMove(s.c, cs.t);
    }
    assert t in s.c.calls && Owned(s.acts, t, s.c.calls[t]);
  }

  lemma CountKeepsLaw(s: State, cs: C.Step)
    requires Law(s) && Unique(s.acts) && s.c.count <= C.SIZE_MAX && CanCount(s, cs)
    requires forall t :: t in s.c.calls ==> Owned(s.acts, t, s.c.calls[t])
    ensures Law(s.(c := C.Apply(s.c, cs)))
  {
    if cs.CallWaitForZero? {
      assert C.Apply(s.c, cs).calls == s.c.calls[cs.t := C.ZeroTest];
      WaiterCountsNothing(s, cs.t);
    } else if cs.Advance? {
      AdvanceKeepsLaw(s, cs.t);
    }
  }

  lemma WaiterCountsNothing(s: State, t: M.Tid)
    requires !Busy(s, t)
    ensures Sum(s.acts, s.c.calls[t := C.ZeroTest]) == Sum(s.acts, s.c.calls)
  {
    forall k | 0 <= k < |s.acts| && s.acts[k].worker == t
      ensures s.acts[k].stage == Running
    {
    }
    SumOfOthers(s.acts, s.c.calls, s.c.calls[t := C.ZeroTest], t);
  }

  lemma AdvanceKeepsLaw(s: State, t: M.Tid)
    requires Law(s) && Unique(s.acts) && C.Enabled(s.c, C.Advance(t)) && Owned(s.acts, t, s.c.calls[t]) && s.c.count <= C.SIZE_MAX
    ensures Law(s.(c := C.ApplyAdvance(s.c, t)))
  {
    CallsMove(s.c, t);
    var call := C.ApplyAdvance(s.c, t).calls[t];
    SumMoves(s.acts, s.c.calls, t, call);
    D.WrapStep(Sum(s.acts, s.c.calls) + s.drift, Sum(s.acts, s.c.calls[t := call]) - Sum(s.acts, s.c.calls));
  }

  /** The sum of the activities moves with the count. */
  lemma SumMoves(acts: seq<Activity>, calls: map<M.Tid, C.Call>, t: M.Tid, call: C.Call)
    requires t in calls && Unique(acts) && Owned(acts, t, calls[t]) && call != C.IncBody && call != C.DecBody
    ensures Sum(acts, calls[t := call])
         == Sum(acts, calls) + if calls[t] == C.IncBody then 1 else if calls[t] == C.DecBody then -1 else 0
  {
    if calls[t] == C.IncBody {
      var k :| 0 <= k < |acts| && acts[k].worker == t && acts[k].stage == Incrementing;
      OnlyWorker(acts, k);
      SumOfOne(acts, k, calls, calls[t := call], t);
    } else if calls[t] == C.DecBody {
      var k :| 0 <= k < |acts| && acts[k].worker == t && (acts[k].stage == Undoing || acts[k].stage == Decrementing);
      OnlyWorker(acts, k);
      SumOfOne(acts, k, calls, calls[t := call], t);
    } else {
      SumOfOthers(acts, calls, calls[t := call], t);
    }
  }

  lemma OnlyWorker(acts: seq<Activity>, k: nat)
    requires Unique(acts) && k < |acts| && acts[k].stage != Running
    ensures forall j :: 0 <= j < |acts| && j != k && acts[j].worker == acts[k].worker ==> acts[j].stage == Running
  {
  }

  lemma CountKeepsInv(s: State, cs: C.Step)
    requires Inv(s) && CanCount(s, cs)
    ensures Inv(s.(c := C.Apply(s.c, cs)))
  {
    C.StepInv(s.c, cs);
    CountKeepsLaw(s, cs);
    forall k | 0 <= k < |s.acts|
      ensures ActInv(C.Apply(s.c, cs), s.threads, s.acts[k])
    {
      CountKeepsAct(s, cs, k);
    }
    forall t | t in C.Apply(s.c, cs).calls
      ensures Owned(s.acts, t, C.Apply(s.c, cs).calls[t])
    {
      CountKeepsOwned(s, cs, t);
    }
  }

  // ---------- the other steps keep it ----------

  /** The thread of an activity is not about to change the count. */
  predicate Quiet(calls: map<M.Tid, C.Call>, a: Activity) {
    a.stage == Running || (CallOf(calls, a.worker) != C.IncBody && CallOf(calls, a.worker) != C.DecBody)
  }

  /** An activity moves on without touching the counter. */
  lemma MovesOn(s: State, k: nat, a: Activity)
    requires ActsInv(s.c, s.threads, s.acts) && Law(s)
    requires k < |s.acts| && Quiet(s.c.calls, s.acts[k]) && ActInv(s.c, s.threads, a)
    requires (a.worker == s.acts[k].worker && s.acts[k].stage != Running) || a.stage == Running || !Busy(s, a.worker)
    requires Net(a, CallOf(s.c.calls, a.worker)) == Net(s.acts[k], CallOf(s.c.calls, s.acts[k].worker))
    ensures ActsInv(s.c, s.threads, s.acts[k := a]) && Law(s.(acts := s.acts[k := a]))
  {
    SumUpdate(s.acts, k, a, s.c.calls);
    UpdateKeepsOwned(s.c.calls, s.acts, k, a);
  }

  lemma UpdateKeepsOwned(calls: map<M.Tid, C.Call>, acts: seq<Activity>, k: nat, a: Activity)
    requires k < |acts| && Quiet(calls, acts[k]) && forall t :: t in calls ==> Owned(acts, t, calls[t])
    ensures forall t :: t in calls ==> Owned(acts[k := a], t, calls[t])
  {
    var acts' := acts[k := a];
    forall j | 0 <= j < |acts| && j != k
      ensures acts[j] in acts'
    {
      assert acts'[j] == acts[j];
    }
    forall t | t in calls
      ensures Owned(acts', t, calls[t])
    {
      assert Owned(acts, t, calls[t]);
      KeepsOwner(acts, acts', k, t, calls[t]);
    }
  }

  /** If all activities but a quiet one are still there, so is the one that a count is changed for. */
  lemma KeepsOwner(acts: seq<Activity>, acts': seq<Activity>, k: nat, t: M.Tid, call: C.Call)
    requires k < |acts| && Owned(acts, t, call)
    requires forall j :: 0 <= j < |acts| && j != k ==> acts[j] in acts'
    requires acts[k].worker == t ==> acts[k].stage == Running || (call != C.IncBody && call != C.DecBody)
    ensures Owned(acts', t, call)
  {
    if call == C.IncBody {
      var j :| 0 <= j < |acts| && acts[j].worker == t && acts[j].stage == Incrementing;
      assert acts[j] in acts';
    }
    if call == C.DecBody {
      var j :| 0 <= j < |acts| && acts[j].worker == t && (acts[j].stage == Undoing || acts[j].stage == Decrementing);
      assert acts[j] in acts';
    }
  }

  /** An activity whose thread has returned is over. */
  lemma IsOver(s: State, k: nat, left: int)
    requires ActsInv(s.c, s.threads, s.acts) && Law(s) && k < |s.acts| && Quiet(s.c.calls, s.acts[k])
    requires left == Net(s.acts[k], CallOf(s.c.calls, s.acts[k].worker))
    ensures ActsInv(s.c, s.threads, D.Without(s.acts, k)) && Law(Over(s, k, left))
  {
    var rest := D.Without(s.acts, k);
    SumWithout(s.acts, k, s.c.calls);
    WithoutKeepsOwned(s.c.calls, s.acts, k);
    forall j | 0 <= j < |rest|
      ensures ActInv(s.c, s.threads, rest[j])
    {
      assert rest[j] == s.acts[if j < k then j else j + 1];
    }
    UniqueWithout(s.acts, k);
  }

  lemma WithoutKeepsOwned(calls: map<M.Tid, C.Call>, acts: seq<Activity>, k: nat)
    requires k < |acts| && Quiet(calls, acts[k]) && forall t :: t in calls ==> Owned(acts, t, calls[t])
    ensures forall t :: t in calls ==> Owned(D.Without(acts, k), t, calls[t])
  {
    var rest := D.Without(acts, k);
    forall j | 0 <= j < |acts| && j != k
      ensures acts[j] in rest
    {
      assert acts[j] == rest[if j < k then j else j - 1];
    }
    forall t | t in calls
      ensures Owned(rest, t, calls[t])
    {
      assert Owned(acts, t, calls[t]);
      KeepsOwner(acts, rest, k, t, calls[t]);
    }
  }

  lemma UniqueWithout(acts: seq<Activity>, k: nat)
    requires Unique(acts) && k < |acts|
    ensures Unique(D.Without(acts, k))
  {
    var rest := D.Without(acts, k);
    forall i, j | 0 <= i < j < |rest| && rest[i].stage != Running && rest[j].stage != Running
      ensures rest[i].worker != rest[j].worker
    {
      assert rest[i] == acts[if i < k then i else i + 1] && rest[j] == acts[if j < k then j else j + 1];
    }
  }

  /** A new activity of a free thread that counted nothing. */
  lemma Begins(s: State, a: Activity)
    requires ActsInv(s.c, s.threads, s.acts) && Law(s)
    requires ActInv(s.c, s.threads, a) && !Busy(s, a.worker) && Net(a, CallOf(s.c.calls, a.worker)) == 0
    ensures ActsInv(s.c, s.threads, s.acts + [a]) && Law(s.(acts := s.acts + [a]))
  {
    SumOneMore(s.acts, a, s.c.calls);
    forall t | t in s.c.calls
      ensures Owned(s.acts + [a], t, s.c.calls[t])
    {
      assert Owned(s.acts, t, s.c.calls[t]);
      if s.acts != [] {
        StillOwned(s.acts, a, t, s.c.calls[t]);
      }
    }
  }

  lemma StillOwned(acts: seq<Activity>, a: Activity, t: M.Tid, call: C.Call)
    requires Owned(acts, t, call)
    ensures Owned(acts + [a], t, call)
  {
    if call == C.IncBody {
      var j :| 0 <= j < |acts| && acts[j].worker == t && acts[j].stage == Incrementing;
      assert (acts + [a])[j] == acts[j];
    }
    if call == C.DecBody {
      var j :| 0 <= j < |acts| && acts[j].worker == t && (acts[j].stage == Undoing || acts[j].stage == Decrementing);
      assert (acts + [a])[j] == acts[j];
    }
  }

  /** The status and the flag of an object are nothing to the counter. */
  lemma ThreadsChange(c: C.State, threads: map<nat, D.Thread>, threads': map<nat, D.Thread>, acts: seq<Activity>)
    requires ActsInv(c, threads, acts) && threads'.Keys == threads.Keys
    ensures ActsInv(c, threads', acts)
  {
    forall k | 0 <= k < |acts|
      ensures ActInv(c, threads', acts[k])
    {
      assert ActInv(c, threads, acts[k]);
    }
  }

  /** What the call of `inc` or `dec` by a thread between calls changes: its own place. */
  lemma CallChanges(c: C.State, t: M.Tid, step: C.Step)
    requires (step == C.CallInc(t) || step == C.CallDec(t)) && C.Enabled(c, step)
    ensures var c' := C.Apply(c, step);
            && c'.calls == c.calls[t := if step.CallInc? then C.IncBody else C.DecBody] && c'.count == c.count
            && c'.m.threads.Keys == c.m.threads.Keys
            && forall u :: u in c.m.threads && u != t ==> c'.m.threads[u] == c.m.threads[u]
  {
  }

  /** `start` of a daemon calls `inc`. */
  lemma StartCalls(s: State, obj: nat, t: M.Tid)
    requires ActsInv(s.c, s.threads, s.acts) && Law(s) && obj in s.threads && Free(s, t) && C.Enabled(s.c, C.CallInc(t))
    ensures var c', acts' := C.Apply(s.c, C.CallInc(t)), s.acts + [Activity(obj, t, true, Incrementing)];
            ActsInv(c', s.threads, acts') && Law(s.(c := c', acts := acts'))
  {
    var c', a := C.Apply(s.c, C.CallInc(t)), Activity(obj, t, true, Incrementing);
    CallChanges(s.c, t, C.CallInc(t));
    forall k | 0 <= k < |s.acts|
      ensures ActInv(c', s.threads, s.acts[k])
    {
      assert ActInv(s.c, s.threads, s.acts[k]);
    }
    StartOwned(s.c.calls, s.acts, a);
    StartLaw(s, a);
  }

  lemma StartLaw(s: State, a: Activity)
    requires Unique(s.acts) && Law(s) && a.stage == Incrementing && Free(s, a.worker)
    ensures Unique(s.acts + [a]) && Law(s.(c := C.Apply(s.c, C.CallInc(a.worker)), acts := s.acts + [a]))
  {
    var calls := s.c.calls[a.worker := C.IncBody];
    CallChanges(s.c, a.worker, C.CallInc(a.worker));
    forall k | 0 <= k < |s.acts| && s.acts[k].worker == a.worker
      ensures s.acts[k].stage == Running
    {
    }
    SumOfOthers(s.acts, s.c.calls, calls, a.worker);
    SumOneMore(s.acts, a, calls);
  }

  lemma StartOwned(calls: map<M.Tid, C.Call>, acts: seq<Activity>, a: Activity)
    requires a.stage == Incrementing && a.worker in calls && forall t :: t in calls ==> Owned(acts, t, calls[t])
    ensures forall t :: t in calls ==> Owned(acts + [a], t, calls[a.worker := C.IncBody][t])
  {
    forall u | u in calls
      ensures Owned(acts + [a], u, calls[a.worker := C.IncBody][u])
    {
      if u == a.worker {
        assert (acts + [a])[|acts|] == a;
      } else {
        assert Owned(acts, u, calls[u]);
        StillOwned(acts, a, u, calls[u]);
      }
    }
  }

  /** An activity calls `dec`. */
  lemma EndCalls(s: State, k: nat, stage: Stage)
    requires ActsInv(s.c, s.threads, s.acts) && Law(s) && k < |s.acts| && (stage == Undoing || stage == Decrementing)
    requires (s.acts[k].stage == Creating || s.acts[k].stage == Dying) && C.Enabled(s.c, C.CallDec(s.acts[k].worker))
    ensures var c' := C.Apply(s.c, C.CallDec(s.acts[k].worker));
            ActsInv(c', s.threads, To(s, k, stage)) && Law(s.(c := c', acts := To(s, k, stage)))
  {
    var t, acts' := s.acts[k].worker, To(s, k, stage);
    assert ActInv(s.c, s.threads, s.acts[k]);
    CallChanges(s.c, t, C.CallDec(t));
    EndActs(s, k, stage);
    EndOwned(s.c.calls, s.acts, k, acts'[k]);
    EndLaw(s, k, stage);
  }

  lemma EndLaw(s: State, k: nat, stage: Stage)
    requires Unique(s.acts) && Law(s) && k < |s.acts| && (stage == Undoing || stage == Decrementing)
    requires (s.acts[k].stage == Creating || s.acts[k].stage == Dying) && C.Enabled(s.c, C.CallDec(s.acts[k].worker))
    ensures Unique(To(s, k, stage)) && Law(s.(c := C.Apply(s.c, C.CallDec(s.acts[k].worker)), acts := To(s, k, stage)))
  {
    CallChanges(s.c, s.acts[k].worker, C.CallDec(s.acts[k].worker));
    EndSum(s.acts, k, s.acts[k].(stage := stage), s.c.calls);
  }

  lemma EndActs(s: State, k: nat, stage: Stage)
    requires ActsInv(s.c, s.threads, s.acts) && k < |s.acts| && (stage == Undoing || stage == Decrementing)
    requires s.acts[k].stage != Running && C.Enabled(s.c, C.CallDec(s.acts[k].worker))
    ensures forall j :: 0 <= j < |s.acts| ==> ActInv(C.Apply(s.c, C.CallDec(s.acts[k].worker)), s.threads, To(s, k, stage)[j])
  {
    CallChanges(s.c, s.acts[k].worker, C.CallDec(s.acts[k].worker));
    OnlyWorker(s.acts, k);
    forall j | 0 <= j < |s.acts|
      ensures ActInv(C.Apply(s.c, C.CallDec(s.acts[k].worker)), s.threads, To(s, k, stage)[j])
    {
      assert ActInv(s.c, s.threads, s.acts[j]);
    }
  }

  lemma EndSum(acts: seq<Activity>, k: nat, a: Activity, calls: map<M.Tid, C.Call>)
    requires Unique(acts) && k < |acts| && (acts[k].stage == Creating || acts[k].stage == Dying)
    requires a == acts[k].(stage := a.stage) && (a.stage == Undoing || a.stage == Decrementing)
    ensures Sum(acts[k := a], calls[a.worker := C.DecBody]) == Sum(acts, calls)
  {
    OnlyWorker(acts, k);
    SumOfOne(acts, k, calls, calls[a.worker := C.DecBody], a.worker);
    SumUpdate(acts, k, a, calls[a.worker := C.DecBody]);
  }

  lemma EndOwned(calls: map<M.Tid, C.Call>, acts: seq<Activity>, k: nat, a: Activity)
    requires k < |acts| && a.worker == acts[k].worker && (a.stage == Undoing || a.stage == Decrementing) && a.worker in calls
    requires Quiet(calls, acts[k]) && forall t :: t in calls ==> Owned(acts, t, calls[t])
    ensures forall t :: t in calls ==> Owned(acts[k := a], t, calls[a.worker := C.DecBody][t])
  {
    UpdateKeepsOwned(calls, acts, k, a);
    assert acts[k := a][k] == a;
  }

  lemma StartKeepsBooks(s: State, obj: nat, t: M.Tid)
    requires Books(s) && obj in s.threads && Free(s, t)
    ensures Enabled(s, Start(obj, t)) ==> Books(Apply(s, Start(obj, t)))
  {
    if s.threads[obj].daemon {
      StartCalls(s, obj, t);
    } else {
      Begins(s, Activity(obj, t, false, Creating));
    }
  }

  lemma CallsDecKeepsBooks(s: State, k: nat, stage: Stage)
    requires Books(s) && k < |s.acts| && (s.acts[k].stage == Creating || s.acts[k].stage == Dying)
    requires s.acts[k].obj in s.threads && C.Enabled(s.c, C.CallDec(s.acts[k].worker)) && (stage == Undoing || stage == Decrementing)
    ensures Books(CallsDec(s, k, stage))
  {
    if s.threads[s.acts[k].obj].daemon {
      EndCalls(s, k, stage);
    } else {
      IsOver(s, k, D.One(s.acts[k].counted));
    }
  }

  lemma ThreadsKeepBooks(s: State, obj: nat, thread: D.Thread)
    requires Books(s) && obj in s.threads
    ensures Books(s.(threads := s.threads[obj := thread]))
  {
    ThreadsChange(s.c, s.threads, s.threads[obj := thread], s.acts);
  }

  lemma AdvancesBooks(s: State, k: nat, stage: Stage)
    requires Books(s) && k < |s.acts| && CallOf(s.c.calls, s.acts[k].worker) == C.NoCall
    requires (s.acts[k].stage == Incrementing && stage == Creating) || (s.acts[k].stage == Creating && stage == Running)
    ensures Books(s.(acts := To(s, k, stage)))
  {
    assert ActInv(s.c, s.threads, s.acts[k]);
    MovesOn(s, k, s.acts[k].(stage := stage));
  }

  lemma OverKeepsBooks(s: State, k: nat)
    requires Books(s) && k < |s.acts| && CallOf(s.c.calls, s.acts[k].worker) == C.NoCall
    requires s.acts[k].stage == Undoing || s.acts[k].stage == Decrementing
    ensures Books(Over(s, k, D.One(s.acts[k].counted) - 1))
  {
    IsOver(s, k, D.One(s.acts[k].counted) - 1);
  }

  lemma DiesKeepsBooks(s: State, k: nat, t: M.Tid)
    requires Books(s) && Enabled(s, Dies(k, t))
    ensures Books(Apply(s, Dies(k, t)))
  {
    var s1, a := Mark(s, k, D.Dead), s.acts[k].(worker := t, stage := Dying);
    ThreadsKeepBooks(s, s.acts[k].obj, s1.threads[s.acts[k].obj]);
    assert ActInv(s.c, s.threads, s.acts[k]);
    assert !Busy(s1, t);
    MovesOn(s1, k, a);
  }

  lemma CreateFailsKeepsBooks(s: State, k: nat)
    requires Books(s) && Enabled(s, CreateFails(k))
    ensures Books(Apply(s, CreateFails(k)))
  {
    var s1 := Mark(s, k, D.Error);
    ThreadsKeepBooks(s, s.acts[k].obj, s1.threads[s.acts[k].obj]);
    CallsDecKeepsBooks(s1, k, Undoing);
  }

  lemma StepKeepsBooks(s: State, step: Step)
    requires Books(s) && Enabled(s, step) && !step.Count?
    ensures Books(Apply(s, step))
  {
    match step
    case SetDaemon(obj, value) => ThreadsKeepBooks(s, obj, s.threads[obj].(daemon := value));
    case Start(obj, t) => StartKeepsBooks(s, obj, t);
    case Incremented(k) => AdvancesBooks(s, k, Creating);
    case CreateOk(k) =>
      assert ActInv(s.c, s.threads, s.acts[k]);
      AdvancesBooks(s, k, Running);
    case CreateFails(k) => CreateFailsKeepsBooks(s, k);
    case Undone(k) => OverKeepsBooks(s, k);
    case Dies(k, t) => DiesKeepsBooks(s, k, t);
    case Ends(k) => CallsDecKeepsBooks(s, k, Decrementing);
    case Decremented(k) => OverKeepsBooks(s, k);
  }

  lemma StepKeepsCounter(s: State, step: Step)
    requires C.Inv(s.c) && Enabled(s, step) && !step.Count?
    ensures C.Inv(Apply(s, step).c)
  {
    match step
    case Start(obj, t) => if s.threads[obj].daemon { C.StepInv(s.c, C.CallInc(t)); }
    case CreateFails(k) => if s.threads[s.acts[k].obj].daemon { C.StepInv(s.c, C.CallDec(s.acts[k].worker)); }
    case Ends(k) => if s.threads[s.acts[k].obj].daemon { C.StepInv(s.c, C.CallDec(s.acts[k].worker)); }
    case _ =>
  }

  /** Every step, of the threads and of the counter below, keeps the books. */
  lemma StepKeepsInv(s: State, step: Step)
    requires Inv(s) && Enabled(s, step)
    ensures Inv(Apply(s, step))
  {
    if step.Count? {
      CountKeepsInv(s, step.step);
    } else {
      StepKeepsCounter(s, step);
      StepKeepsBooks(s, step);
    }
  }

  /**
    Conservation, in every run and every interleaving of the actions of `inc` and `dec`: the value of
    the counter, a `size_t`, is what the activities under way have counted plus what ended ones left.
   */
  lemma {:induction false} Conservation(s: State, run: seq<Step>)
    requires Inv(s) && ValidRun(s, run)
    ensures Inv(Exec(s, run)) && Law(Exec(s, run))
    decreases |run|
  {
    if run != [] {
      StepKeepsInv(s, run[0]);
      Conservation(Apply(s, run[0]), run[1..]);
    }
  }

  // ---------- flags that are fixed before the start ----------

  /** `setDaemon` changes no flag of an object that was started and has not ended. */
  predicate Fixed(s: State, step: Step)
    requires Enabled(s, step)
  {
    step.SetDaemon? && s.threads[step.obj].daemon != step.value ==>
      forall k :: 0 <= k < |s.acts| ==> s.acts[k].obj != step.obj
  }

  predicate FixedRun(s: State, run: seq<Step>)
    requires ValidRun(s, run)
    decreases |run|
  {
    run == [] || (Fixed(s, run[0]) && FixedRun(Apply(s, run[0]), run[1..]))
  }

  /** Every activity finds the flag that its start found, and ended ones left nothing. */
  predicate FlagsInv(s: State) {
    && s.drift == 0
    && forall k :: 0 <= k < |s.acts| ==> FlagInv(s.threads, s.acts[k])
  }

  predicate FlagInv(threads: map<nat, D.Thread>, a: Activity) {
    && a.obj in threads && a.counted == threads[a.obj].daemon
    && (a.stage == Incrementing || a.stage == Undoing || a.stage == Decrementing ==> a.counted)
  }

  lemma StepKeepsFlags(s: State, step: Step)
    requires FlagsInv(s) && Enabled(s, step) && Fixed(s, step)
    ensures FlagsInv(Apply(s, step))
  {
    var s' := Apply(s, step);
    forall j | 0 <= j < |s'.acts|
      ensures FlagInv(s'.threads, s'.acts[j])
    {
      if j < |s.acts| {
        assert FlagInv(s.threads, s.acts[j]);
      }
      if j + 1 < |s.acts| {
        assert FlagInv(s.threads, s.acts[j + 1]);
      }
    }
  }

  lemma {:induction false} RunKeepsFlags(s: State, run: seq<Step>)
    requires FlagsInv(s) && ValidRun(s, run) && FixedRun(s, run)
    ensures FlagsInv(Exec(s, run))
    decreases |run|
  {
    if run != [] {
      StepKeepsFlags(s, run[0]);
      RunKeepsFlags(Apply(s, run[0]), run[1..]);
    }
  }

  /** An activity that is counted in: incremented, and not yet decremented. */
  predicate Outstanding(a: Activity, call: C.Call) {
    match a.stage
    case Incrementing => call != C.IncBody
    case Creating | Running | Dying => a.counted
    case Undoing | Decrementing => a.counted && call == C.DecBody
  }

  /** The sum counts the outstanding activities. */
  lemma {:induction false} SumOfFixed(threads: map<nat, D.Thread>, acts: seq<Activity>, calls: map<M.Tid, C.Call>)
    requires forall k :: 0 <= k < |acts| ==> FlagInv(threads, acts[k])
    ensures 0 <= Sum(acts, calls) <= |acts|
    ensures Sum(acts, calls) == 0 <==> forall k :: 0 <= k < |acts| ==> !Outstanding(acts[k], CallOf(calls, acts[k].worker))
  {
    if acts != [] {
      SumOfFixed(threads, acts[1..], calls);
      assert FlagInv(threads, acts[0]);
      assert Net(acts[0], CallOf(calls, acts[0].worker)) == D.One(Outstanding(acts[0], CallOf(calls, acts[0].worker)));
      if Sum(acts, calls) == 0 {
        forall k | 0 <= k < |acts|
          ensures !Outstanding(acts[k], CallOf(calls, acts[k].worker))
        {
          if k > 0 { assert acts[k] == acts[1..][k - 1]; }
        }
      } else if Sum(acts[1..], calls) != 0 {
        var k :| 0 <= k < |acts[1..]| && Outstanding(acts[1..][k], CallOf(calls, acts[1..][k].worker));
        assert acts[k + 1] == acts[1..][k];
      }
    }
  }

  /** A thread that leaves the loop of `waitForZero` found the count 0, and it is so still. */
  lemma ZeroAtUnlock(c: C.State, t: M.Tid)
    requires C.Inv(c) && t in c.calls && c.calls[t] == C.ZeroUnlock
    ensures c.count == 0
  {
    assert C.CallInv(c, t) && C.ZeroInv(c, t) && M.LocalInv(c.m, t, c.m.threads[t]);
  }

  /**
    `waitThreadTermination` returns only when no daemon is outstanding: in every run with flags that
    are fixed before the start, a thread that has left the wait loop finds no activity between its
    increment and its decrement.  (There are fewer than `SIZE` threads.)
   */
  lemma {:induction false} TerminationIsSeen(s: State, run: seq<Step>, t: M.Tid)
    requires Init(s) && ValidRun(s, run) && FixedRun(s, run)
    ensures var r := Exec(s, run);
            && (|r.acts| < D.SIZE ==> (r.c.count == 0 <==>
                  forall k :: 0 <= k < |r.acts| ==> !Outstanding(r.acts[k], CallOf(r.c.calls, r.acts[k].worker))))
            && (|r.acts| < D.SIZE && t in r.c.calls && r.c.calls[t] == C.ZeroUnlock ==>
                  forall k :: 0 <= k < |r.acts| ==> !Outstanding(r.acts[k], CallOf(r.c.calls, r.acts[k].worker)))
  {
    InitInv(s);
    Conservation(s, run);
    RunKeepsFlags(s, run);
    var r := Exec(s, run);
    SumOfFixed(r.threads, r.acts, r.c.calls);
    if t in r.c.calls && r.c.calls[t] == C.ZeroUnlock {
      ZeroAtUnlock(r.c, t);
    }
  }
}
