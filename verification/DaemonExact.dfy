/**
  The count of daemon threads in runs of any kind: when exactly it is right, and that nobody who is
  about to change it is ever stuck.
 */
module DaemonExact {
  import M = Monitor
  import C = Counter
  import D = Daemon
  import opened DaemonCounter
  import opened Prelude

  // ---------- nobody is stuck ----------

  /** The next step of activity `k` between two calls. */
  predicate OwnStep(s: State, k: nat) {
    || Enabled(s, Incremented(k)) || Enabled(s, Undone(k)) || Enabled(s, Decremented(k))
    || (Enabled(s, CreateOk(k)) && Enabled(s, CreateFails(k))) || Enabled(s, Ends(k))
  }

  /** Thread `t` can take a step: in the monitor, in the counter, or for the activity that it works for. */
  ghost predicate CanMove(s: State, t: M.Tid) {
    || Enabled(s, Count(C.Mon(M.Run(t)))) || Enabled(s, Count(C.Advance(t))) || Enabled(s, Count(C.Mon(M.Begin(t, M.Unlock))))
    || exists k :: 0 <= k < |s.acts| && s.acts[k].worker == t && OwnStep(s, k)
  }

  lemma BetweenCalls(s: State, k: nat)
    requires Inv(s) && k < |s.acts| && s.acts[k].stage != Running && CallOf(s.c.calls, s.acts[k].worker) == C.NoCall
    ensures OwnStep(s, k)
  {
    assert ActInv(s.c, s.threads, s.acts[k]);
  }

  /** Who holds the mutex can go on. */
  lemma HolderMoves(s: State, t: M.Tid)
    requires Inv(s) && s.c.m.mutex == Some(t)
    ensures CanMove(s, t)
  {
    assert M.LocalInv(s.c.m, t, s.c.m.threads[t]) && C.CallInv(s.c, t);
    if s.c.m.threads[t].pc != M.Idle {
      assert Enabled(s, Count(C.Mon(M.Run(t))));
    } else if s.c.calls[t] != C.NoCall {
      assert Enabled(s, Count(C.Advance(t)));
    } else if Busy(s, t) {
      var k :| 0 <= k < |s.acts| && s.acts[k].worker == t && s.acts[k].stage != Running;
      BetweenCalls(s, k);
    } else {
      assert Enabled(s, Count(C.Mon(M.Begin(t, M.Unlock))));
    }
  }

  /**
    In every reachable state an activity that is being started or is dying can go on, or it waits for the
    mutex of the counter, and then the holder of the mutex can.
   */
  lemma {:induction false} NeverStuck(s: State, run: seq<Step>, k: nat)
    requires Init(s) && ValidRun(s, run) && k < |Exec(s, run).acts| && Exec(s, run).acts[k].stage != Running
    ensures var r := Exec(s, run);
            var t := r.acts[k].worker;
            || CanMove(r, t)
            || (t in r.c.m.threads && r.c.m.threads[t].pc == M.Locking && r.c.m.mutex.Some? && r.c.m.mutex.value != t
                && CanMove(r, r.c.m.mutex.value))
  {
    InitInv(s);
    Conservation(s, run);
    var r := Exec(s, run);
    var t := r.acts[k].worker;
    assert ActInv(r.c, r.threads, r.acts[k]);
    if r.c.calls[t] == C.NoCall {
      BetweenCalls(r, k);
    } else {
      InsideACall(r, t, r.acts[k].stage);
      if r.c.m.mutex.Some? {
        HolderMoves(r, r.c.m.mutex.value);
      }
    }
  }

  /** Inside `inc` and `dec` a thread waits for the mutex only. */
  lemma InsideACall(s: State, t: M.Tid, stage: Stage)
    requires C.Inv(s.c) && t in s.c.calls && stage != Running && Stands(stage, s.c.calls[t]) && s.c.calls[t] != C.NoCall
    ensures || Enabled(s, Count(C.Mon(M.Run(t)))) || Enabled(s, Count(C.Advance(t)))
            || (s.c.m.threads[t].pc == M.Locking && s.c.m.mutex.Some? && s.c.m.mutex.value != t)
  {
    assert C.CallInv(s.c, t);
    if s.c.m.threads[t].pc == M.Idle {
      assert Enabled(s, Count(C.Advance(t)));
    } else {
      assert C.InFirstLock(s.c.m.threads[t].pc) || C.InUnlock(s.c.m.threads[t].pc);
    }
  }

  // ---------- which objects can be started ----------

  predicate Finished(s: State, obj: nat) {
    obj in s.threads && s.threads[obj].status != D.Created
  }

  lemma {:induction false} StaysFinished(s: State, run: seq<Step>, obj: nat)
    requires Finished(s, obj) && ValidRun(s, run)
    ensures Finished(Exec(s, run), obj)
    decreases |run|
  {
    if run != [] {
      StaysFinished(Apply(s, run[0]), run[1..], obj);
    }
  }

  /** An object that died, or whose creation failed, is never started again. */
  lemma EndedForGood(s: State, step: Step, run: seq<Step>)
    requires Enabled(s, step) && (step.Dies? || step.CreateFails?) && ValidRun(Apply(s, step), run)
    ensures var obj := s.acts[step.k].obj;
            var r := Exec(Apply(s, step), run);
            && Apply(s, step).threads[obj].status == (if step.Dies? then D.Dead else D.Error)
            && forall t :: !Enabled(r, Start(obj, t))
  {
    StaysFinished(Apply(s, step), run, s.acts[step.k].obj);
  }

  // ---------- what the counter should be ----------

  /** How many activities are between their increment and their decrement. */
  function Due(acts: seq<Activity>, calls: map<M.Tid, C.Call>): (n: nat) {
    if acts == [] then 0 else D.One(Outstanding(acts[0], CallOf(calls, acts[0].worker))) + Due(acts[1..], calls)
  }

  predicate RightNow(s: State) {
    s.c.count == D.Wrap(Due(s.acts, s.c.calls))
  }

  /** The counter is right in every state of the run. */
  predicate AlwaysRight(s: State, run: seq<Step>)
    requires ValidRun(s, run)
    decreases |run|
  {
    RightNow(s) && (run == [] || AlwaysRight(Apply(s, run[0]), run[1..]))
  }

  /** A death finds the daemon flag as the start found it. */
  predicate FlagKept(s: State, step: Step)
    requires Enabled(s, step)
  {
    step.Ends? ==> s.threads[s.acts[step.k].obj].daemon == s.acts[step.k].counted
  }

  predicate FlagsKept(s: State, run: seq<Step>)
    requires ValidRun(s, run)
    decreases |run|
  {
    run == [] || (FlagKept(s, run[0]) && FlagsKept(Apply(s, run[0]), run[1..]))
  }

  /** A decrement that no increment goes with. */
  predicate Unpaired(a: Activity) {
    !a.counted && (a.stage == Undoing || a.stage == Decrementing)
  }

  /** Such a decrement was called and has not been executed yet. */
  predicate WrongUnderWay(s: State) {
    WrongAmong(s.acts, s.c.calls)
  }

  predicate WrongAmong(acts: seq<Activity>, calls: map<M.Tid, C.Call>) {
    exists k :: 0 <= k < |acts| && Wrong(acts[k], calls)
  }

  predicate Wrong(a: Activity, calls: map<M.Tid, C.Call>) {
    Unpaired(a) && CallOf(calls, a.worker) == C.DecBody
  }

  /** Up to now nothing went wrong: unpaired decrements have not been executed, and nothing was left behind. */
  predicate Steady(s: State) {
    s.drift == 0 && AllSteady(s.acts, s.c.calls)
  }

  predicate AllSteady(acts: seq<Activity>, calls: map<M.Tid, C.Call>) {
    forall k :: 0 <= k < |acts| ==> SteadyAct(acts[k], CallOf(calls, acts[k].worker))
  }

  predicate SteadyAct(a: Activity, call: C.Call) {
    Unpaired(a) ==> call == C.DecBody
  }

  /** While `start` holds the mutex of its object the flag is what it was when the counter was incremented. */
  predicate StartsKept(s: State) {
    forall k :: 0 <= k < |s.acts| ==> StartKept(s.threads, s.acts[k])
  }

  predicate StartKept(threads: map<nat, D.Thread>, a: Activity) {
    a.stage == Incrementing || a.stage == Creating || a.stage == Undoing ==>
      a.obj in threads && a.counted == threads[a.obj].daemon && (a.stage != Creating ==> a.counted)
  }

  /** A step that makes the counter wrong: a death that finds the flag taken off, or an unpaired decrement. */
  predicate Bad(s: State, step: Step)
    requires Enabled(s, step)
  {
    match step
    case Ends(k) => s.acts[k].counted && !s.threads[s.acts[k].obj].daemon
    case Count(Advance(t)) =>
      s.c.calls[t] == C.DecBody && exists k :: 0 <= k < |s.acts| && s.acts[k].worker == t && Unpaired(s.acts[k])
    case _ => false
  }

  // ---------- sums ----------

  /** All activities are steady, but for activity `k`, which has executed an unpaired decrement. */
  lemma {:induction false} SumIsDueBut(acts: seq<Activity>, calls: map<M.Tid, C.Call>, k: int)
    requires forall j :: 0 <= j < |acts| && j != k ==> SteadyAct(acts[j], CallOf(calls, acts[j].worker))
    requires 0 <= k < |acts| ==> Unpaired(acts[k]) && CallOf(calls, acts[k].worker) != C.DecBody
    requires forall j :: 0 <= j < |acts| && acts[j].stage == Incrementing ==> acts[j].counted
    ensures Sum(acts, calls) == Due(acts, calls) - D.One(0 <= k < |acts|)
  {
    if acts != [] {
      SumIsDueBut(acts[1..], calls, k - 1);
    }
  }

  lemma Counted(s: State)
    requires Inv(s)
    ensures forall j :: 0 <= j < |s.acts| && s.acts[j].stage == Incrementing ==> s.acts[j].counted
  {
    forall j | 0 <= j < |s.acts| && s.acts[j].stage == Incrementing
      ensures s.acts[j].counted
    {
      assert ActInv(s.c, s.threads, s.acts[j]);
    }
  }

  lemma SteadyIsRight(s: State)
    requires Inv(s) && Steady(s)
    ensures RightNow(s)
  {
    Counted(s);
    SumIsDueBut(s.acts, s.c.calls, -1);
  }

  lemma OffByOne(n: int)
    ensures D.Wrap(n + 1) != D.Wrap(n) && D.Wrap(n - 1) != D.Wrap(n)
  {
  }

  /** After a bad step the counter is off by one. */
  lemma BadIsSeen(s: State, step: Step)
    requires Inv(s) && Steady(s) && Enabled(s, step) && Bad(s, step)
    ensures !RightNow(Apply(s, step))
  {
    StepKeepsInv(s, step);
    Counted(Apply(s, step));
    if step.Ends? {
      FlagTakenOff(s, step.k);
    } else {
      var t := step.step.t;
      var k :| 0 <= k < |s.acts| && s.acts[k].worker == t && Unpaired(s.acts[k]);
      var c := C.ApplyAdvance(s.c, t);
      CallsMove(s.c, t);
      DecrementedTwice(s, k, c, c.calls[t]);
    }
  }

  lemma FlagTakenOff(s: State, k: nat)
    requires Steady(s) && k < |s.acts| && Law(Over(s, k, 1))
    requires var acts := D.Without(s.acts, k); forall j :: 0 <= j < |acts| && acts[j].stage == Incrementing ==> acts[j].counted
    ensures !RightNow(Over(s, k, 1))
  {
    var acts := D.Without(s.acts, k);
    SteadyWithout(s, k);
    SumIsDueBut(acts, s.c.calls, -1);
    OffByOne(Due(acts, s.c.calls));
  }

  lemma DecrementedTwice(s: State, k: nat, c: C.State, call: C.Call)
    requires Steady(s) && Unique(s.acts) && k < |s.acts| && Unpaired(s.acts[k])
    requires c.calls == s.c.calls[s.acts[k].worker := call] && call != C.DecBody && Law(s.(c := c))
    requires forall j :: 0 <= j < |s.acts| && s.acts[j].stage == Incrementing ==> s.acts[j].counted
    ensures !RightNow(s.(c := c))
  {
    SteadyBut(s.acts, s.c.calls, k, call);
    SumIsDueBut(s.acts, c.calls, k);
    OffByOne(Due(s.acts, c.calls));
  }

  lemma SteadyBut(acts: seq<Activity>, calls: map<M.Tid, C.Call>, k: nat, call: C.Call)
    requires AllSteady(acts, calls) && Unique(acts) && k < |acts| && Unpaired(acts[k])
    ensures forall j :: 0 <= j < |acts| && j != k ==> SteadyAct(acts[j], CallOf(calls[acts[k].worker := call], acts[j].worker))
  {
    OnlyWorker(acts, k);
  }

  lemma SteadyWithout(s: State, k: nat)
    requires Steady(s) && k < |s.acts|
    ensures AllSteady(D.Without(s.acts, k), s.c.calls)
  {
  }

  // ---------- steps ----------

  lemma StepKeepsStarts(s: State, step: Step)
    requires StartsKept(s) && Enabled(s, step)
    ensures StartsKept(Apply(s, step))
  {
    match step
    case Count(_) =>
    case SetDaemon(obj, value) => FlagsStay(s, obj, s.threads[obj].(daemon := value));
    case Start(obj, t) =>
    case Incremented(k) => assert StartKept(s.threads, s.acts[k]);
    case CreateOk(k) => assert StartKept(s.threads, s.acts[k]);
    case CreateFails(k) =>
      assert StartKept(s.threads, s.acts[k]);
      MarkKeepsStarts(s, k, D.Error);
      var s1 := Mark(s, k, D.Error);
      StartsWithout(s1, k);
    case Undone(k) => StartsWithout(s, k);
    case Dies(k, t) => MarkKeepsStarts(s, k, D.Dead);
    case Ends(k) => StartsWithout(s, k);
    case Decremented(k) => StartsWithout(s, k);
  }

  /** A flag changes only while no `start` holds the mutex of its object. */
  lemma FlagsStay(s: State, obj: nat, thread: D.Thread)
    requires StartsKept(s) && obj in s.threads && (Locked(s, obj) ==> thread.daemon == s.threads[obj].daemon)
    ensures StartsKept(s.(threads := s.threads[obj := thread]))
  {
    forall j | 0 <= j < |s.acts|
      ensures StartKept(s.threads[obj := thread], s.acts[j])
    {
      assert StartKept(s.threads, s.acts[j]);
    }
  }

  lemma MarkKeepsStarts(s: State, k: nat, status: D.Status)
    requires StartsKept(s) && k < |s.acts| && s.acts[k].obj in s.threads
    ensures StartsKept(Mark(s, k, status))
  {
    var obj := s.acts[k].obj;
    FlagsStay(s, obj, s.threads[obj].(status := status));
  }

  lemma StartsWithout(s: State, k: nat)
    requires StartsKept(s) && k < |s.acts|
    ensures forall j :: 0 <= j < |s.acts| - 1 ==> StartKept(s.threads, D.Without(s.acts, k)[j])
  {
  }

  /** A step of the counter that is not bad leaves the unpaired decrements where they are. */
  lemma CountLeavesUnpaired(s: State, cs: C.Step, k: nat)
    requires Inv(s) && Enabled(s, Count(cs)) && !Bad(s, Count(cs)) && k < |s.acts|
    requires Unpaired(s.acts[k]) && CallOf(s.c.calls, s.acts[k].worker) == C.DecBody
    ensures CallOf(C.Apply(s.c, cs).calls, s.acts[k].worker) == C.DecBody
  {
    assert Busy(s, s.acts[k].worker);
    if cs.Advance? {
      CallsMove(s.c, cs.t);
    }
  }

  lemma CountKeepsSteady(s: State, cs: C.Step)
    requires Inv(s) && Steady(s) && Enabled(s, Count(cs)) && !Bad(s, Count(cs))
    ensures Steady(Apply(s, Count(cs)))
  {
    forall k | 0 <= k < |s.acts|
      ensures SteadyAct(s.acts[k], CallOf(C.Apply(s.c, cs).calls, s.acts[k].worker))
    {
      assert SteadyAct(s.acts[k], CallOf(s.c.calls, s.acts[k].worker));
      if Unpaired(s.acts[k]) {
        CountLeavesUnpaired(s, cs, k);
      }
    }
  }

  lemma StepKeepsSteady(s: State, step: Step)
    requires Inv(s) && Steady(s) && StartsKept(s) && Enabled(s, step) && !Bad(s, step)
    ensures Steady(Apply(s, step))
  {
    match step
    case Count(cs) => CountKeepsSteady(s, cs);
    case Start(obj, t) => StartKeepsSteady(s, obj, t);
    case CreateFails(k) =>
      assert StartKept(s.threads, s.acts[k]);
      CallsDecKeepsSteady(Mark(s, k, D.Error), k, Undoing);
    case Ends(k) => CallsDecKeepsSteady(s, k, Decrementing);
    case _ => MovesKeepSteady(s, step);
  }

  /** The steps that leave the counter alone. */
  lemma MovesKeepSteady(s: State, step: Step)
    requires Steady(s) && Enabled(s, step) && !step.Count? && !step.Start? && !step.CreateFails? && !step.Ends?
    ensures Steady(Apply(s, step))
  {
    match step
    case SetDaemon(obj, value) =>
    case Incremented(k) => SteadyTo(s, k, s.acts[k].(stage := Creating));
    case CreateOk(k) => SteadyTo(s, k, s.acts[k].(stage := Running));
    case Undone(k) => OverKeepsSteady(s, k);
    case Dies(k, t) => SteadyTo(s, k, s.acts[k].(worker := t, stage := Dying));
    case Decremented(k) => OverKeepsSteady(s, k);
  }

  lemma OverKeepsSteady(s: State, k: nat)
    requires Steady(s) && (At(s, k, Undoing) || At(s, k, Decrementing)) && CallOf(s.c.calls, s.acts[k].worker) == C.NoCall
    ensures Steady(Over(s, k, D.One(s.acts[k].counted) - 1))
  {
    assert SteadyAct(s.acts[k], CallOf(s.c.calls, s.acts[k].worker));
    SteadyWithout(s, k);
  }

  lemma SteadyTo(s: State, k: nat, a: Activity)
    requires Steady(s) && k < |s.acts| && !Unpaired(a)
    ensures AllSteady(s.acts[k := a], s.c.calls)
  {
  }

  /** A call of `inc` or `dec` by a thread between calls disturbs no one. */
  lemma OthersSteady(s: State, t: M.Tid, call: C.Call)
    requires Steady(s) && CallOf(s.c.calls, t) == C.NoCall
    ensures AllSteady(s.acts, s.c.calls[t := call])
  {
    forall j | 0 <= j < |s.acts|
      ensures SteadyAct(s.acts[j], CallOf(s.c.calls[t := call], s.acts[j].worker))
    {
      assert SteadyAct(s.acts[j], CallOf(s.c.calls, s.acts[j].worker));
    }
  }

  lemma StartKeepsSteady(s: State, obj: nat, t: M.Tid)
    requires Steady(s) && Enabled(s, Start(obj, t))
    ensures Steady(Apply(s, Start(obj, t)))
  {
    if s.threads[obj].daemon {
      OthersSteady(s, t, C.IncBody);
      CallChanges(s.c, t, C.CallInc(t));
    }
  }

  lemma CallsDecKeepsSteady(s: State, k: nat, stage: Stage)
    requires Steady(s) && k < |s.acts| && s.acts[k].obj in s.threads && C.Enabled(s.c, C.CallDec(s.acts[k].worker))
    requires (stage == Undoing || stage == Decrementing) && (s.acts[k].counted ==> s.threads[s.acts[k].obj].daemon)
    ensures Steady(CallsDec(s, k, stage))
  {
    var t := s.acts[k].worker;
    if s.threads[s.acts[k].obj].daemon {
      OthersSteady(s, t, C.DecBody);
      CallChanges(s.c, t, C.CallDec(t));
    } else {
      SteadyWithout(s, k);
    }
  }

  // ---------- unpaired decrements under way ----------

  /** Activity `j`, which is not one of them, changes or goes. */
  lemma WrongBesides(acts: seq<Activity>, calls: map<M.Tid, C.Call>, j: nat, a: Activity)
    requires j < |acts| && !Wrong(acts[j], calls) && !Wrong(a, calls)
    ensures WrongAmong(acts[j := a], calls) <==> WrongAmong(acts, calls)
    ensures WrongAmong(D.Without(acts, j), calls) <==> WrongAmong(acts, calls)
  {
    var rest := D.Without(acts, j);
    if WrongAmong(acts, calls) {
      var k :| 0 <= k < |acts| && Wrong(acts[k], calls);
      assert acts[j := a][k] == acts[k] && rest[if k < j then k else k - 1] == acts[k];
    }
    if WrongAmong(acts[j := a], calls) {
      var k :| 0 <= k < |acts| && Wrong(acts[j := a][k], calls);
      assert acts[k] == acts[j := a][k];
    }
    if WrongAmong(rest, calls) {
      var k :| 0 <= k < |rest| && Wrong(rest[k], calls);
      assert acts[if k < j then k else k + 1] == rest[k];
    }
  }

  lemma WrongAppended(acts: seq<Activity>, calls: map<M.Tid, C.Call>, a: Activity)
    requires !Wrong(a, calls)
    ensures WrongAmong(acts + [a], calls) <==> WrongAmong(acts, calls)
  {
    if WrongAmong(acts, calls) {
      var k :| 0 <= k < |acts| && Wrong(acts[k], calls);
      assert (acts + [a])[k] == acts[k];
    }
  }

  /** The thread of activity `j`, or of none, goes from one place to another. */
  lemma WrongElsewhere(acts: seq<Activity>, calls: map<M.Tid, C.Call>, t: M.Tid, call: C.Call)
    requires forall k :: 0 <= k < |acts| && acts[k].worker == t ==> !Unpaired(acts[k])
    ensures WrongAmong(acts, calls[t := call]) <==> WrongAmong(acts, calls)
  {
    if WrongAmong(acts, calls) {
      var k :| 0 <= k < |acts| && Wrong(acts[k], calls);
      assert Wrong(acts[k], calls[t := call]);
    }
    if WrongAmong(acts, calls[t := call]) {
      var k :| 0 <= k < |acts| && Wrong(acts[k], calls[t := call]);
      assert Wrong(acts[k], calls);
    }
  }

  lemma WrongInCount(s: State, cs: C.Step)
    requires Inv(s) && Enabled(s, Count(cs)) && !Bad(s, Count(cs))
    ensures WrongAmong(s.acts, C.Apply(s.c, cs).calls) <==> WrongAmong(s.acts, s.c.calls)
  {
    var calls := C.Apply(s.c, cs).calls;
    if WrongAmong(s.acts, s.c.calls) {
      var k :| 0 <= k < |s.acts| && Wrong(s.acts[k], s.c.calls);
      CountLeavesUnpaired(s, cs, k);
      assert Wrong(s.acts[k], calls);
    }
    if WrongAmong(s.acts, calls) {
      var k :| 0 <= k < |s.acts| && Wrong(s.acts[k], calls);
      CallsCameFrom(s.c, cs, s.acts[k].worker);
      assert Wrong(s.acts[k], s.c.calls);
    }
  }

  lemma CallsCameFrom(c: C.State, cs: C.Step, t: M.Tid)
    requires C.Inv(c) && C.Enabled(c, cs) && !cs.CallInc? && !cs.CallDec? && CallOf(C.Apply(c, cs).calls, t) == C.DecBody
    ensures CallOf(c.calls, t) == C.DecBody
  {
    if cs.Advance? {
      CallsMove(c, cs.t);
    }
  }

  lemma WrongInStart(s: State, obj: nat, t: M.Tid)
    requires Enabled(s, Start(obj, t))
    ensures WrongUnderWay(Apply(s, Start(obj, t))) <==> WrongUnderWay(s)
  {
    forall k | 0 <= k < |s.acts| && s.acts[k].worker == t
      ensures !Unpaired(s.acts[k])
    {
    }
    if s.threads[obj].daemon {
      CallChanges(s.c, t, C.CallInc(t));
      WrongElsewhere(s.acts, s.c.calls, t, C.IncBody);
      WrongAppended(s.acts, s.c.calls[t := C.IncBody], Activity(obj, t, true, Incrementing));
    } else {
      WrongAppended(s.acts, s.c.calls, Activity(obj, t, false, Creating));
    }
  }

  /** A failed or finished activity adds one exactly if it was not counted and the flag is on. */
  lemma WrongInCallsDec(s: State, k: nat, stage: Stage)
    requires (At(s, k, Creating) || At(s, k, Dying)) && C.Enabled(s.c, C.CallDec(s.acts[k].worker)) && Unique(s.acts)
    requires stage == Undoing || stage == Decrementing
    ensures WrongUnderWay(CallsDec(s, k, stage)) <==> WrongUnderWay(s) || (!s.acts[k].counted && s.threads[s.acts[k].obj].daemon)
  {
    var t, a := s.acts[k].worker, s.acts[k].(stage := stage);
    WrongBesides(s.acts, s.c.calls, k, s.acts[k]);
    if s.threads[s.acts[k].obj].daemon {
      CallChanges(s.c, t, C.CallDec(t));
      OnlyWorker(s.acts, k);
      var calls := s.c.calls[t := C.DecBody];
      WrongElsewhere(s.acts, s.c.calls, t, C.DecBody);
      if s.acts[k].counted {
        WrongBesides(s.acts, calls, k, a);
      } else {
        assert Wrong(s.acts[k := a][k], calls);
      }
    }
  }

  lemma WrongAfterStep(s: State, step: Step)
    requires Inv(s) && StartsKept(s) && Enabled(s, step) && !Bad(s, step)
    ensures WrongUnderWay(Apply(s, step)) <==> WrongUnderWay(s) || !FlagKept(s, step)
  {
    match step
    case Count(cs) => WrongInCount(s, cs);
    case Start(obj, t) => WrongInStart(s, obj, t);
    case CreateFails(k) =>
      assert StartKept(s.threads, s.acts[k]);
      WrongInCallsDec(Mark(s, k, D.Error), k, Undoing);
    case Ends(k) => WrongInCallsDec(s, k, Decrementing);
    case _ => WrongInMoves(s, step);
  }

  lemma WrongInMoves(s: State, step: Step)
    requires Enabled(s, step) && !step.Count? && !step.Start? && !step.CreateFails? && !step.Ends?
    ensures WrongUnderWay(Apply(s, step)) <==> WrongUnderWay(s)
  {
    match step
    case SetDaemon(obj, value) =>
    case Incremented(k) => WrongBesides(s.acts, s.c.calls, k, s.acts[k].(stage := Creating));
    case CreateOk(k) => WrongBesides(s.acts, s.c.calls, k, s.acts[k].(stage := Running));
    case Undone(k) => WrongBesides(s.acts, s.c.calls, k, s.acts[k]);
    case Dies(k, t) => WrongBesides(s.acts, s.c.calls, k, s.acts[k].(worker := t, stage := Dying));
    case Decremented(k) => WrongBesides(s.acts, s.c.calls, k, s.acts[k]);
  }

  // ---------- the exact condition ----------

  /**
    For a state in which nothing went wrong yet: every later death finds the flag of its start, and no
    unpaired decrement is under way, if and only if the counter is right from now on in every state and
    none is under way at the end.
   */
  lemma {:induction false} RightIffFlagsKept(s: State, run: seq<Step>)
    requires Inv(s) && Steady(s) && StartsKept(s) && ValidRun(s, run)
    ensures FlagsKept(s, run) && !WrongUnderWay(s) <==> AlwaysRight(s, run) && !WrongUnderWay(Exec(s, run))
    decreases |run|
  {
    SteadyIsRight(s);
    if run != [] {
      if Bad(s, run[0]) {
        BadIsSeen(s, run[0]);
        BadIsWrong(s, run[0]);
      } else {
        StepKeepsInv(s, run[0]);
        StepKeepsSteady(s, run[0]);
        StepKeepsStarts(s, run[0]);
        RightIffFlagsKept(Apply(s, run[0]), run[1..]);
        WrongAfterStep(s, run[0]);
      }
    }
  }

  lemma BadIsWrong(s: State, step: Step)
    requires Enabled(s, step) && Bad(s, step)
    ensures !FlagKept(s, step) || WrongUnderWay(s)
  {
    if step.Count? {
      var k :| 0 <= k < |s.acts| && s.acts[k].worker == step.step.t && Unpaired(s.acts[k]);
      assert Wrong(s.acts[k], s.c.calls);
    }
  }

  /**
    The exact condition, on the real counter and in every interleaving: every death of a run finds the
    daemon flag of its start if and only if the counter is right in every state of the run, and no
    decrement that no increment goes with is called but not yet executed at its end.
   */
  lemma AlwaysRightIffFlagsKept(s: State, run: seq<Step>)
    requires Init(s) && ValidRun(s, run)
    ensures FlagsKept(s, run) <==> AlwaysRight(s, run) && !WrongUnderWay(Exec(s, run))
  {
    InitInv(s);
    RightIffFlagsKept(s, run);
  }
}
