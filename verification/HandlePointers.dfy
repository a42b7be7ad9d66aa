/** Where handles point: to what their last creation or assignment was given, whatever the other handles do. */
module HandlePointers {
  import opened Prelude
  import opened Handles

  /** The step begins an operation on handle `h`. */
  predicate Begins(step: Step, h: nat) {
    match step
    case Create(i, _) => i == h
    case Assign(i, _) => i == h
    case Destroy(i) => i == h
    case NewObject(_) => false
    case Go(_) => false
  }

  predicate NoneBegins(run: seq<Step>, h: nat) {
    forall i :: 0 <= i < |run| ==> !Begins(run[i], h)
  }

  /** `h` points to `v`, or is on its way there. */
  predicate BoundFor(s: State, h: nat, v: Option<nat>) {
    h in s.handles &&
    var a := s.handles[h];
    match a.todo
    case Idle | Acquire => a.value == v
    case Release | Delete => a.next == v && !a.dying
  }

  /** `h` is gone, or on its way there. */
  predicate Leaving(s: State, h: nat) {
    h in s.handles ==> (s.handles[h].todo == Release || s.handles[h].todo == Delete) && s.handles[h].dying
  }

  lemma OthersLeaveIt(s: State, step: Step, h: nat)
    requires Enabled(s, step) && !Begins(step, h) && step != Go(h)
    ensures h in Apply(s, step).handles <==> h in s.handles
    ensures h in s.handles ==> Apply(s, step).handles[h] == s.handles[h]
  {
  }

  lemma StepKeepsBound(s: State, step: Step, h: nat, v: Option<nat>)
    requires Enabled(s, step) && !Begins(step, h) && BoundFor(s, h, v)
    ensures BoundFor(Apply(s, step), h, v)
  {
    if step != Go(h) {
      OthersLeaveIt(s, step, h);
    }
  }

  lemma StepKeepsLeaving(s: State, step: Step, h: nat)
    requires Enabled(s, step) && !Begins(step, h) && Leaving(s, h)
    ensures Leaving(Apply(s, step), h)
  {
    if step != Go(h) {
      OthersLeaveIt(s, step, h);
    }
  }

  lemma {:induction false} RunKeepsBound(s: State, run: seq<Step>, h: nat, v: Option<nat>)
    requires ValidRun(s, run) && NoneBegins(run, h) && BoundFor(s, h, v)
    ensures BoundFor(Exec(s, run), h, v)
    decreases |run|
  {
    if run != [] {
      StepKeepsBound(s, run[0], h, v);
      RunKeepsBound(Apply(s, run[0]), run[1..], h, v);
    }
  }

  lemma {:induction false} RunKeepsLeaving(s: State, run: seq<Step>, h: nat)
    requires ValidRun(s, run) && NoneBegins(run, h) && Leaving(s, h)
    ensures Leaving(Exec(s, run), h)
    decreases |run|
  {
    if run != [] {
      StepKeepsLeaving(s, run[0], h);
      RunKeepsLeaving(Apply(s, run[0]), run[1..], h);
    }
  }

  /**
    A creation or an assignment of a handle that is given the pointer `v`: until the next operation on
    that handle it is bound for `v` in every run, and when it is quiet it points there.
   */
  lemma PointsToWhatItWasGiven(s: State, step: Step, run: seq<Step>, h: nat)
    requires Inv(s) && Enabled(s, step) && ((step.Create? || step.Assign?) && step.h == h)
    requires ValidRun(Apply(s, step), run) && NoneBegins(run, h)
    ensures var r := Exec(Apply(s, step), run);
            var v := match step.src case Null => None case New(o) => Some(o) case Of(g) => s.handles[g].value;
            BoundFor(r, h, v) && (Quiet(r, h) ==> r.handles[h].value == v)
  {
    if step.Assign? {
      assert TargetInv(s, h);
    }
    RunKeepsBound(Apply(s, step), run, h, Pointer(s, step.src));
  }

  /** A handle that is destroyed never points anywhere again, and is gone when it has nothing more to do. */
  lemma DestroyedIsGone(s: State, run: seq<Step>, h: nat)
    requires Enabled(s, Destroy(h)) && ValidRun(Apply(s, Destroy(h)), run) && NoneBegins(run, h)
    ensures var r := Exec(Apply(s, Destroy(h)), run); Leaving(r, h) && !Quiet(r, h)
  {
    RunKeepsLeaving(Apply(s, Destroy(h)), run, h);
  }

  // ---------- operations end ----------

  /** How many steps of its own an operation on the handle still takes at most. */
  function StepsLeft(a: Handle): (n: nat) {
    match a.todo
    case Idle => 0
    case Acquire => 1
    case Delete => 2
    case Release => 3
  }

  /** A handle that has something to do can do it, and comes nearer to its end. */
  lemma OperationsEnd(s: State, h: nat)
    requires Inv(s) && h in s.handles && s.handles[h].todo != Idle
    ensures Enabled(s, Go(h))
    ensures var s' := Apply(s, Go(h)); h in s'.handles ==> StepsLeft(s'.handles[h]) < StepsLeft(s.handles[h])
  {
    assert TargetInv(s, h);
  }

  // ---------- what an operation does to the objects ----------

  /** Counted in at `o`, as the source of a pointer sees it: quiet and pointing there. */
  predicate PointsTo(s: State, h: nat, o: nat) {
    Quiet(s, h) && s.handles[h].value == Some(o)
  }

  /** When everything is quiet, the count of an object is the number of handles that point to it. */
  lemma CountIsPointers(s: State, run: seq<Step>, o: nat)
    requires Inv(s) && ValidRun(s, run) && o in Exec(s, run).objects
    requires var r := Exec(s, run); forall h :: h in r.handles ==> Quiet(r, h)
    ensures var r := Exec(s, run); r.objects[o].count == |set h | h in r.handles && PointsTo(r, h, o)|
  {
    RunsKeepInv(s, run);
    var r := Exec(s, run);
    assert ObjectInv(r, o);
    assert Holders(r.handles, o) == set h | h in r.handles && PointsTo(r, h, o);
  }
}
