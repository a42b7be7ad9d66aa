/** The calls of `Counter` as a whole: each leaves the monitor to its caller just as deep as it found it. */
module CounterCalls {
  import opened Prelude
  import M = Monitor
  import L = MonitorLocks
  import opened Counter

  predicate IsCall(step: Step, t: M.Tid) {
    step == CallInc(t) || step == CallDec(t) || step == CallWaitForZero(t)
  }

  /** Thread `t` is inside a call in every state of the run but the last. */
  ghost predicate CallLasts(s: State, steps: seq<Step>, t: M.Tid)
    requires ValidRun(s, steps)
    decreases |steps|
  {
    steps == [] || (t in s.calls && s.calls[t] != NoCall && CallLasts(Apply(s, steps[0]), steps[1..], t))
  }

  /** How deep a thread is that was `d` deep when it called, by its place in the call and in the monitor. */
  predicate DepthFits(s: State, t: M.Tid, d: nat) {
    t in s.calls && t in s.m.threads &&
    var l := s.m.threads[t];
    match s.calls[t]
    case NoCall => l.depth == d
    case IncBody | DecBody | ZeroTest => l.depth == if l.pc == M.Idle then d + 1 else d
    case DecNotify | DecUnlock | ZeroUnlock | ZeroWait => l.depth == d + 1
    case Leave | ZeroLeave => l.depth == if l.pc == M.Unlocking || l.pc == M.UnlockDec then d + 1 else d
  }

  /** A step of the monitor by another thread. */
  lemma OthersKeepDepth(m: M.State, ms: M.Step, t: M.Tid)
    requires M.Inv(m) && M.Enabled(m, ms) && ms.t != t && t in m.threads
    ensures var m' := M.Apply(m, ms);
            && t in m'.threads && m'.threads[t].depth == m.threads[t].depth
            && (m'.threads[t].pc == m.threads[t].pc || (m.threads[t].pc == M.Blocked && m'.threads[t].pc == M.Woken))
  {
    assert M.LocalInv(m, t, m.threads[t]);
    match ms
    case Begin(u, op) => L.BeginLeaves(m, u, op, t);
    case Run(u) =>
      assert M.LocalInv(m, u, m.threads[u]);
      M.RunMoves(m, u);
    case Wake(u) =>
  }

  lemma WakeKeepsDepth(m: M.State, t: M.Tid)
    requires M.Inv(m) && M.Enabled(m, M.Wake(t))
    ensures var m' := M.Apply(m, M.Wake(t)); t in m'.threads && m'.threads[t] == m.threads[t].(pc := M.Woken)
    ensures m.threads[t].pc == M.Blocked
  {
    assert M.LocalInv(m, t, m.threads[t]);
  }

  /** The next action of the thread itself in the monitor. */
  lemma RunKeepsDepth(s: State, t: M.Tid, d: nat)
    requires M.Inv(s.m) && M.Enabled(s.m, M.Run(t)) && t in s.calls && CallInv(s, t) && s.calls[t] != NoCall && DepthFits(s, t, d)
    ensures DepthFits(s.(m := M.ApplyRun(s.m, t)), t, d)
  {
    assert M.LocalInv(s.m, t, s.m.threads[t]);
  }

  lemma AdvanceKeepsDepth(s: State, t: M.Tid, d: nat)
    requires Enabled(s, Advance(t)) && CallInv(s, t) && DepthFits(s, t, d)
    ensures DepthFits(ApplyAdvance(s, t), t, d)
  {
  }

  /** What the code of another thread between two monitor operations does to the monitor. */
  lemma AdvanceBegins(s: State, u: M.Tid, t: M.Tid)
    requires Inv(s) && Enabled(s, Advance(u)) && u != t && t in s.calls
    ensures var s' := ApplyAdvance(s, u);
            && t in s'.calls && s'.calls[t] == s.calls[t]
            && t in s'.m.threads && s'.m.threads[t].depth == s.m.threads[t].depth
            && (s'.m.threads[t].pc == s.m.threads[t].pc || (s.m.threads[t].pc == M.Blocked && s'.m.threads[t].pc == M.Woken))
  {
    assert M.LocalInv(s.m, t, s.m.threads[t]);
    match s.calls[u]
    case IncBody => L.BeginLeaves(s.m, u, M.Unlock, t);
    case DecBody => L.BeginLeaves(s.m, u, M.Unlock, t);
    case DecNotify => L.BeginLeaves(s.m, u, M.Broadcast, t);
    case DecUnlock => L.BeginLeaves(s.m, u, M.Unlock, t);
    case ZeroTest => if s.count > 0 { L.BeginLeaves(s.m, u, M.Wait, t); }
    case ZeroWait => L.BeginLeaves(s.m, u, M.Unlock, t);
    case ZeroUnlock => L.BeginLeaves(s.m, u, M.Unlock, t);
    case Leave =>
    case ZeroLeave =>
  }

  lemma StepKeepsDepth(s: State, step: Step, t: M.Tid, d: nat)
    requires Inv(s) && Enabled(s, step) && t in s.calls && s.calls[t] != NoCall && DepthFits(s, t, d)
    ensures DepthFits(Apply(s, step), t, d)
  {
    assert CallInv(s, t);
    match step
    case Mon(ms) =>
      if ms.t != t {
        OthersKeepDepth(s.m, ms, t);
      } else if ms.Wake? {
        WakeKeepsDepth(s.m, t);
      } else {
        RunKeepsDepth(s, t, d);
      }
    case CallInc(u) => OthersKeepDepth(s.m, M.Begin(u, M.Lock), t);
    case CallDec(u) => OthersKeepDepth(s.m, M.Begin(u, M.Lock), t);
    case CallWaitForZero(u) => OthersKeepDepth(s.m, M.Begin(u, M.Lock), t);
    case Advance(u) =>
      if u == t {
        AdvanceKeepsDepth(s, t, d);
      } else {
        AdvanceBegins(s, u, t);
      }
  }

  lemma {:induction false} RunKeepsFit(s: State, steps: seq<Step>, t: M.Tid, d: nat)
    requires Inv(s) && ValidRun(s, steps) && CallLasts(s, steps, t) && DepthFits(s, t, d)
    ensures DepthFits(Exec(s, steps), t, d)
    decreases |steps|
  {
    if steps != [] {
      StepInv(s, steps[0]);
      StepKeepsDepth(s, steps[0], t, d);
      RunKeepsFit(Apply(s, steps[0]), steps[1..], t, d);
    }
  }

  /**
    Whatever happens during a call of `inc`, `dec` or `waitForZero`, also if its `wait` throws: when it is
    over, the caller is as deep in the monitor as it was.
   */
  lemma CallsKeepDepth(s: State, call: Step, steps: seq<Step>, t: M.Tid)
    requires Inv(s) && IsCall(call, t) && Enabled(s, call)
    requires ValidRun(Apply(s, call), steps) && CallLasts(Apply(s, call), steps, t)
    ensures var r := Exec(Apply(s, call), steps);
            && t in r.calls && t in r.m.threads
            && (r.calls[t] == NoCall ==> r.m.threads[t].depth == s.m.threads[t].depth)
  {
    StepInv(s, call);
    RunKeepsFit(Apply(s, call), steps, t, s.m.threads[t].depth);
  }

  /** A `wait` that threw ends `waitForZero`, which gives the monitor back; one that did not is followed by a new test. */
  lemma InterruptionLeaves(s: State, t: M.Tid)
    requires Inv(s) && Enabled(s, Advance(t)) && s.calls[t] == ZeroWait
    ensures var s' := ApplyAdvance(s, t);
            && t in s'.calls && t in s'.m.threads
            && (s.m.threads[t].threw ==> s'.calls[t] == Leave && s'.m.threads[t].pc == M.Unlocking)
            && (!s.m.threads[t].threw ==> s'.calls[t] == ZeroTest && s'.m == s.m)
  {
  }

  /** What a call has changed of the count so far: nothing, or, for `inc` and `dec`, one up or one down. */
  lemma CountMovesByOne(s: State, step: Step)
    requires Inv(s) && Enabled(s, step)
    ensures var c := Apply(s, step).count;
            if step.Advance? && s.calls[step.t] == IncBody then c == (if s.count == SIZE_MAX then 0 else s.count + 1)
            else if step.Advance? && s.calls[step.t] == DecBody then c == (if s.count == 0 then SIZE_MAX else s.count - 1)
            else c == s.count
  {
  }
}
