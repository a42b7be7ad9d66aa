/**
  The count of daemon threads (`Thread::start`, `threadDeath`, `setDaemon`), for any number of
  thread objects and in every interleaving.

  `start` never marks a thread as running, so one object can be started again while it runs, and
  `setDaemon` never corrects the counter.
 */
module Daemon {

  const SIZE: nat := 0x1_0000_0000_0000_0000

  /** The value of a `size_t` that is counted up and down. */
  function Wrap(x: int): (n: nat)
    ensures n < SIZE && (0 <= x < SIZE ==> n == x)
  {
    x % SIZE
  }

  datatype Status = Created | Error | Dead

  datatype Thread = Thread(status: Status, daemon: bool)

  /** From the start of a thread object to the last step of its death. */
  datatype Stage = Starting | Running | Dying

  /** `counted` remembers whether the start incremented the counter. */
  datatype Activity = Activity(obj: nat, counted: bool, stage: Stage)

  /**
    `missed` and `extra` are the deaths that did not take back the increment of their start, and
    those that took one back that was never made.
   */
  datatype State = State(counter: nat, threads: map<nat, Thread>, acts: seq<Activity>, missed: nat, extra: nat)

  datatype Step =
    | SetDaemon(obj: nat, value: bool)
    | Start(obj: nat)            // the checks and the increment, under the mutex of the object
    | CreateOk(k: nat)           // `pthread_create` succeeds
    | CreateFails(k: nat)        // it fails: the object is in error and the increment is taken back
    | Dies(k: nat)               // `threadDeath` marks the object dead ...
    | Ends(k: nat)               // ... and then decrements, if the object is a daemon by now

  function Init(threads: map<nat, Thread>): (s: State) {
    State(0, threads, [], 0, 0)
  }

  /** `start` holds the mutex of its object. */
  predicate Locked(s: State, obj: nat) {
    exists k :: 0 <= k < |s.acts| && s.acts[k].obj == obj && s.acts[k].stage == Starting
  }

  predicate At(s: State, k: nat, stage: Stage) {
    k < |s.acts| && s.acts[k].stage == stage && s.acts[k].obj in s.threads
  }

  predicate Enabled(s: State, step: Step) {
    match step
    case SetDaemon(obj, _) => obj in s.threads && !Locked(s, obj)
    case Start(obj) => obj in s.threads && !Locked(s, obj) && s.threads[obj].status == Created
    case CreateOk(k) => At(s, k, Starting)
    case CreateFails(k) => At(s, k, Starting)
    case Dies(k) => At(s, k, Running)
    case Ends(k) => At(s, k, Dying)
  }

  function One(b: bool): (n: nat) {
    if b then 1 else 0
  }

  function Without<T>(q: seq<T>, k: nat): (r: seq<T>)
    requires k < |q|
  {
    q[..k] + q[k + 1..]
  }

  function Apply(s: State, step: Step): (s': State)
    requires Enabled(s, step)
  {
    match step
    case SetDaemon(obj, value) => s.(threads := s.threads[obj := s.threads[obj].(daemon := value)])
    case Start(obj) =>
      var daemon := s.threads[obj].daemon;
      s.(counter := Wrap(s.counter + One(daemon)), acts := s.acts + [Activity(obj, daemon, Starting)])
    case CreateOk(k) => s.(acts := s.acts[k := s.acts[k].(stage := Running)])
    case CreateFails(k) =>
      var obj := s.acts[k].obj;
      s.(counter := Wrap(s.counter - One(s.threads[obj].daemon)),
         threads := s.threads[obj := s.threads[obj].(status := Error)],
         acts := Without(s.acts, k))
    case Dies(k) =>
      var obj := s.acts[k].obj;
      s.(threads := s.threads[obj := s.threads[obj].(status := Dead)],
         acts := s.acts[k := s.acts[k].(stage := Dying)])
    case Ends(k) =>
      var a := s.acts[k];
      var daemon := s.threads[a.obj].daemon;
      s.(counter := Wrap(s.counter - One(daemon)),
         acts := Without(s.acts, k),
         missed := s.missed + One(a.counted && !daemon),
         extra := s.extra + One(!a.counted && daemon))
  }

  predicate ValidRun(s: State, run: seq<Step>)
    decreases |run|
  {
    run == [] || (Enabled(s, run[0]) && ValidRun(Apply(s, run[0]), run[1..]))
  }

  function Exec(s: State, run: seq<Step>): (s': State)
    requires ValidRun(s, run)
    decreases |run|
  {
    if run == [] then s else Exec(Apply(s, run[0]), run[1..])
  }

  // ---------- the law ----------

  /** Daemon starts that have not ended yet. */
  function Outstanding(acts: seq<Activity>): (n: nat) {
    if acts == [] then 0 else One(acts[0].counted) + Outstanding(acts[1..])
  }

  lemma {:induction false} OutstandingOneMore(acts: seq<Activity>, a: Activity)
    ensures Outstanding(acts + [a]) == Outstanding(acts) + One(a.counted)
  {
    if acts == [] {
      assert acts + [a] == [a] && [a][1..] == [];
    } else {
      OutstandingOneMore(acts[1..], a);
      assert (acts + [a])[1..] == acts[1..] + [a];
    }
  }

  lemma {:induction false} OutstandingAt(acts: seq<Activity>, k: nat, a: Activity)
    requires k < |acts|
    ensures Outstanding(Without(acts, k)) == Outstanding(acts) - One(acts[k].counted)
    ensures a.counted == acts[k].counted ==> Outstanding(acts[k := a]) == Outstanding(acts)
  {
    if k == 0 {
      assert Without(acts, 0) == acts[1..] && acts[k := a][1..] == acts[1..];
    } else {
      OutstandingAt(acts[1..], k - 1, a);
      assert Without(acts, k)[1..] == Without(acts[1..], k - 1);
      assert acts[k := a][1..] == acts[1..][k - 1 := a];
    }
  }

  /** While `start` holds the mutex the daemon flag is what it was when the counter was incremented. */
  ghost predicate StartsCounted(s: State) {
    forall k :: 0 <= k < |s.acts| && s.acts[k].stage == Starting ==>
      s.acts[k].obj in s.threads && s.acts[k].counted == s.threads[s.acts[k].obj].daemon
  }

  ghost predicate Law(s: State) {
    s.counter == Wrap(Outstanding(s.acts) + s.missed - s.extra)
  }

  lemma StepKeepsStarts(s: State, step: Step)
    requires StartsCounted(s) && Enabled(s, step)
    ensures StartsCounted(Apply(s, step))
  {
  }

  lemma WrapStep(x: int, d: int)
    ensures Wrap(Wrap(x) + d) == Wrap(x + d)
  {
  }

  /** What a step adds to the counter, and to what the counter should be. */
  function Change(s: State, step: Step): (d: int)
    requires Enabled(s, step)
  {
    match step
    case Start(obj) => One(s.threads[obj].daemon)
    case CreateFails(k) => -(One(s.threads[s.acts[k].obj].daemon) as int)
    case Ends(k) => -(One(s.threads[s.acts[k].obj].daemon) as int)
    case _ => 0
  }

  lemma StepKeepsLaw(s: State, step: Step)
    requires Law(s) && StartsCounted(s) && Enabled(s, step)
    ensures Law(Apply(s, step))
  {
    StepBalances(s, step);
    WrapStep(Outstanding(s.acts) + s.missed - s.extra, Change(s, step));
  }

  lemma StepBalances(s: State, step: Step)
    requires s.counter < SIZE && StartsCounted(s) && Enabled(s, step)
    ensures var s', d := Apply(s, step), Change(s, step);
            && s'.counter == Wrap(s.counter + d)
            && Outstanding(s'.acts) + s'.missed - s'.extra == Outstanding(s.acts) + s.missed - s.extra + d
  {
    match step
    case SetDaemon(obj, value) =>
    case Start(obj) => OutstandingOneMore(s.acts, Activity(obj, s.threads[obj].daemon, Starting));
    case CreateOk(k) => OutstandingAt(s.acts, k, s.acts[k].(stage := Running));
    case CreateFails(k) => OutstandingAt(s.acts, k, s.acts[k]);
    case Dies(k) => OutstandingAt(s.acts, k, s.acts[k].(stage := Dying));
    case Ends(k) => OutstandingAt(s.acts, k, s.acts[k]);
  }

  /**
    Conservation, in every run: the counter is the number of outstanding daemon starts, plus the
    deaths that missed their decrement, less those that made one too many.
   */
  lemma {:induction false} Conservation(s: State, run: seq<Step>)
    requires Law(s) && StartsCounted(s) && ValidRun(s, run)
    ensures Law(Exec(s, run)) && StartsCounted(Exec(s, run))
    decreases |run|
  {
    if run != [] {
      StepKeepsLaw(s, run[0]);
      StepKeepsStarts(s, run[0]);
      Conservation(Apply(s, run[0]), run[1..]);
    }
  }

  // ---------- flags that are fixed before the start ----------

  /** `setDaemon` changes no flag of an object that was started and has not ended. */
  predicate Fixed(s: State, step: Step)
    requires Enabled(s, step)
  {
    step.SetDaemon? && s.threads[step.obj].daemon != step.value ==>
      forall k :: 0 <= k < |s.acts| ==> s.acts[k].obj != step.obj
  }

  predicate FixedRun(s: State, run: seq<Step>)
    requires ValidRun(s, run)
    decreases |run|
  {
    run == [] || (Fixed(s, run[0]) && FixedRun(Apply(s, run[0]), run[1..]))
  }

  ghost predicate Exact(s: State) {
    && s.missed == 0 && s.extra == 0
    && forall k :: 0 <= k < |s.acts| ==>
         s.acts[k].obj in s.threads && s.acts[k].counted == s.threads[s.acts[k].obj].daemon
  }

  /**
    With flags that are fixed before the start the counter is the number of outstanding daemon
    starts, failed ones included, so it never wraps below zero and is zero only when none is left.
    (There are fewer than `SIZE` threads.)
   */
  lemma {:induction false} CounterIsOutstanding(s: State, run: seq<Step>)
    requires Law(s) && Exact(s) && ValidRun(s, run) && FixedRun(s, run)
    ensures var s' := Exec(s, run);
            && Exact(s') && s'.counter == Wrap(Outstanding(s'.acts))
            && (Outstanding(s'.acts) < SIZE ==> s'.counter == Outstanding(s'.acts))
            && (Outstanding(s'.acts) < SIZE ==>
                  (s'.counter == 0 <==> forall k :: 0 <= k < |s'.acts| ==> !s'.acts[k].counted))
    decreases |run|
  {
    if run == [] {
      NoneCounted(s.acts);
    } else {
      StepKeepsLaw(s, run[0]);
      StepIsExact(s, run[0]);
      CounterIsOutstanding(Apply(s, run[0]), run[1..]);
    }
  }

  lemma StepIsExact(s: State, step: Step)
    requires Exact(s) && Enabled(s, step) && Fixed(s, step)
    ensures Exact(Apply(s, step))
  {
  }

  lemma {:induction false} NoneCounted(acts: seq<Activity>)
    ensures Outstanding(acts) == 0 <==> forall k :: 0 <= k < |acts| ==> !acts[k].counted
  {
    if acts != [] {
      NoneCounted(acts[1..]);
      if Outstanding(acts) == 0 {
        forall k | 0 <= k < |acts|
          ensures !acts[k].counted
        {
          if k > 0 { assert acts[k] == acts[1..][k - 1]; }
        }
      }
    }
  }

  // ---------- which objects can be started ----------

  predicate Over(s: State, obj: nat) {
    obj in s.threads && s.threads[obj].status != Created
  }

  lemma {:induction false} StaysOver(s: State, run: seq<Step>, obj: nat)
    requires Over(s, obj) && ValidRun(s, run)
    ensures Over(Exec(s, run), obj)
    decreases |run|
  {
    if run != [] {
      StaysOver(Apply(s, run[0]), run[1..], obj);
    }
  }

  /** An object that died, or whose creation failed, is never started again. */
  lemma EndedForGood(s: State, step: Step, run: seq<Step>)
    requires Enabled(s, step) && (step.Dies? || step.CreateFails?) && ValidRun(Apply(s, step), run)
    ensures var obj := s.acts[step.k].obj;
            && Apply(s, step).threads[obj].status == (if step.Dies? then Dead else Error)
            && !Enabled(Exec(Apply(s, step), run), Start(obj))
  {
    StaysOver(Apply(s, step), run, s.acts[step.k].obj);
  }

  /** But one that runs is. */
  lemma StartedTwice() returns (run: seq<Step>)
    ensures var s := Init(map[0 := Thread(Created, true)]);
            ValidRun(s, run) && Exec(s, run).counter == 2 && Exec(s, run).acts == seq(2, i => Activity(0, true, if i == 0 then Running else Starting))
  {
    run := [Start(0), CreateOk(0), Start(0)];
    var s0 := Init(map[0 := Thread(Created, true)]);
    var s1 := Apply(s0, run[0]);
    var s2 := Apply(s1, run[1]);
    assert s2.acts == [Activity(0, true, Running)];
    var s3 := Apply(s2, run[2]);
    assert s3.acts == [Activity(0, true, Running), Activity(0, true, Starting)];
    Extend(s2, s3, run, 2);
    Extend(s1, s2, run, 1);
    Extend(s0, s1, run, 0);
    assert run[3..] == [] && run[0..] == run;
  }

  // ---------- the exact condition ----------

  ghost predicate RightNow(s: State) {
    s.counter == Wrap(Outstanding(s.acts))
  }

  /** The counter is right in every state of the run. */
  ghost predicate AlwaysRight(s: State, run: seq<Step>)
    requires ValidRun(s, run)
    decreases |run|
  {
    RightNow(s) && (run == [] || AlwaysRight(Apply(s, run[0]), run[1..]))
  }

  /** A death finds the daemon flag as the start found it. */
  predicate FlagKept(s: State, step: Step)
    requires Enabled(s, step)
  {
    step.Ends? ==> s.threads[s.acts[step.k].obj].daemon == s.acts[step.k].counted
  }

  predicate FlagsKept(s: State, run: seq<Step>)
    requires ValidRun(s, run)
    decreases |run|
  {
    run == [] || (FlagKept(s, run[0]) && FlagsKept(Apply(s, run[0]), run[1..]))
  }

  /** The counter is right throughout a run if and only if every death finds the flag of its start. */
  lemma {:induction false} AlwaysRightIffFlagsKept(s: State, run: seq<Step>)
    requires Law(s) && StartsCounted(s) && s.missed == s.extra && ValidRun(s, run)
    ensures AlwaysRight(s, run) <==> FlagsKept(s, run)
    decreases |run|
  {
    if run != [] {
      StepKeepsLaw(s, run[0]);
      StepKeepsStarts(s, run[0]);
      OneTooMany(s, run[0]);
      if FlagKept(s, run[0]) {
        AlwaysRightIffFlagsKept(Apply(s, run[0]), run[1..]);
      }
    }
  }

  /** After a death with another flag the counter is off by one. */
  lemma OneTooMany(s: State, step: Step)
    requires s.missed == s.extra && Enabled(s, step) && Law(Apply(s, step))
    ensures var s' := Apply(s, step);
            if FlagKept(s, step) then s'.missed == s'.extra else !RightNow(s')
  {
    var s' := Apply(s, step);
    if !FlagKept(s, step) {
      var n: int := Outstanding(s'.acts);
      assert s'.missed - s'.extra == 1 || s'.missed - s'.extra == -1;
      assert Wrap(n + 1) != Wrap(n) && Wrap(n - 1) != Wrap(n);
    }
  }

  /** A thread that becomes a daemon while it runs takes the counter below zero, that is, to the top. */
  lemma BecomingADaemonTooLate() returns (run: seq<Step>)
    ensures var s := Init(map[0 := Thread(Created, false)]);
            ValidRun(s, run) && Exec(s, run).counter == SIZE - 1 && Exec(s, run).acts == []
  {
    run := [Start(0), CreateOk(0), SetDaemon(0, true), Dies(0), Ends(0)];
    Replay(run, false, true);
  }

  /** One that stops being a daemon while it runs is waited for forever. */
  lemma CeasingToBeADaemon() returns (run: seq<Step>)
    ensures var s := Init(map[0 := Thread(Created, true)]);
            ValidRun(s, run) && Exec(s, run).counter == 1 && Exec(s, run).acts == []
  {
    run := [Start(0), CreateOk(0), SetDaemon(0, false), Dies(0), Ends(0)];
    Replay(run, true, false);
  }

  lemma Replay(run: seq<Step>, first: bool, later: bool)
    requires run == [Start(0), CreateOk(0), SetDaemon(0, later), Dies(0), Ends(0)]
    ensures var s := Init(map[0 := Thread(Created, first)]);
            ValidRun(s, run) && Exec(s, run).counter == Wrap(One(first) - One(later)) && Exec(s, run).acts == []
  {
    var s0 := Init(map[0 := Thread(Created, first)]);
    var s1 := Apply(s0, run[0]);
    var s2 := Apply(s1, run[1]);
    assert s2.acts == [Activity(0, first, Running)];
    var s3 := Apply(s2, run[2]);
    var s4 := Apply(s3, run[3]);
    var s5 := Apply(s4, run[4]);
    assert s5.acts == [];
    Extend(s4, s5, run, 4);
    Extend(s3, s4, run, 3);
    Extend(s2, s3, run, 2);
    Extend(s1, s2, run, 1);
    Extend(s0, s1, run, 0);
    assert run[5..] == [] && run[0..] == run;
  }

  lemma Extend(s: State, s': State, run: seq<Step>, i: nat)
    requires i < |run| && Enabled(s, run[i]) && s' == Apply(s, run[i])
    ensures ValidRun(s', run[i + 1..]) ==> ValidRun(s, run[i..]) && Exec(s, run[i..]) == Exec(s', run[i + 1..])
  {
    assert run[i..][1..] == run[i + 1..] && run[i..][0] == run[i];
  }
}
