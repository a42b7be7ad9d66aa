/**
  Intrusive reference counting (`HandleT` and `RefCounter`), for any number of handles and objects
  and in every interleaving of their operations.

  An increment, a decrement and a deletion are steps of their own.  While a handle takes over the
  pointer of another one, that other handle stays as it is: its owner does not race with the copy.
 */
module Handles {
  import opened Prelude

  datatype Todo = Idle | Acquire | Release | Delete

  /**
    What a handle still has to do: count itself in at its object, count itself out of it, or delete it.
    After the last two it either takes `next` or, if `dying`, is gone.
    `guard` is the handle that the new pointer was taken from.
   */
  datatype Handle = Handle(value: Option<nat>, todo: Todo, next: Option<nat>, dying: bool, guard: Option<nat>)

  /** `used`: some handle was counted in at it. */
  datatype Object = Object(count: int, deletions: nat, used: bool)

  datatype State = State(objects: map<nat, Object>, handles: map<nat, Handle>)

  /** Where a pointer comes from: nowhere, a new object, or another handle. */
  datatype Source = Null | New(obj: nat) | Of(handle: nat)

  datatype Step =
    | NewObject(obj: nat)
    | Create(h: nat, src: Source)
    | Assign(h: nat, src: Source)
    | Destroy(h: nat)
    | Go(h: nat)

  // ---------- steps ----------

  predicate Guarded(s: State, g: nat) {
    exists h :: h in s.handles && s.handles[h].guard == Some(g)
  }

  predicate Quiet(s: State, h: nat) {
    h in s.handles && s.handles[h].todo == Idle
  }

  /** What a handle is about to point to. */
  function Target(a: Handle): (t: Option<nat>) {
    match a.todo
    case Idle => None
    case Acquire => a.value
    case Release | Delete => a.next
  }

  predicate Offered(s: State, src: Source) {
    match src
    case Null => true
    case New(o) => o in s.objects && !s.objects[o].used && forall h :: h in s.handles ==> Target(s.handles[h]) != Some(o)
    case Of(g) => Quiet(s, g)
  }

  function Pointer(s: State, src: Source): (v: Option<nat>)
    requires Offered(s, src)
  {
    match src
    case Null => None
    case New(o) => Some(o)
    case Of(g) => s.handles[g].value
  }

  predicate Enabled(s: State, step: Step) {
    match step
    case NewObject(o) => o !in s.objects
    case Create(h, src) => h !in s.handles && Offered(s, src)
    case Assign(h, src) => Quiet(s, h) && !Guarded(s, h) && Offered(s, src)
    case Destroy(h) => Quiet(s, h) && !Guarded(s, h)
    case Go(h) => h in s.handles && s.handles[h].todo != Idle && s.handles[h].value.Some? && s.handles[h].value.value in s.objects
  }

  function GuardOf(src: Source): (g: Option<nat>) {
    if src.Of? then Some(src.handle) else None
  }

  /** A handle that has the pointer `v` and is not yet counted in. */
  function Taking(v: Option<nat>, guard: Option<nat>): (a: Handle) {
    if v.None? then Handle(None, Idle, None, false, None) else Handle(v, Acquire, None, false, guard)
  }

  function Settle(s: State, h: nat): (hs: map<nat, Handle>)
    requires h in s.handles
  {
    var a := s.handles[h];
    if a.dying then s.handles - {h} else s.handles[h := Taking(a.next, a.guard)]
  }

  function Apply(s: State, step: Step): (s': State)
    requires Enabled(s, step)
  {
    match step
    case NewObject(o) => s.(objects := s.objects[o := Object(0, 0, false)])
    case Create(h, src) => s.(handles := s.handles[h := Taking(Pointer(s, src), GuardOf(src))])
    case Assign(h, src) =>
      var v := Pointer(s, src);
      var a := s.handles[h];
      if a.value == v then s
      else if a.value.Some? then
        s.(handles := s.handles[h := Handle(a.value, Release, v, false, if v.None? then None else GuardOf(src))])
      else s.(handles := s.handles[h := Taking(v, GuardOf(src))])
    case Destroy(h) =>
      var a := s.handles[h];
      if a.value.None? then s.(handles := s.handles - {h})
      else s.(handles := s.handles[h := Handle(a.value, Release, None, true, None)])
    case Go(h) => Act(s, h)
  }

  /** The next action of the handle on the count of its object. */
  function Act(s: State, h: nat): (s': State)
    requires Enabled(s, Go(h))
  {
    var a := s.handles[h];
    var o := a.value.value;
    var x := s.objects[o];
    match a.todo
    case Acquire =>
      State(s.objects[o := x.(count := x.count + 1, used := true)],
            s.handles[h := Handle(a.value, Idle, None, false, None)])
    case Release =>
      var objects := s.objects[o := x.(count := x.count - 1)];
      if x.count - 1 == 0 then State(objects, s.handles[h := a.(todo := Delete)]) else State(objects, Settle(s, h))
    case Delete => State(s.objects[o := x.(deletions := x.deletions + 1)], Settle(s, h))
  }

  predicate ValidRun(s: State, run: seq<Step>)
    decreases |run|
  {
    run == [] || (Enabled(s, run[0]) && ValidRun(Apply(s, run[0]), run[1..]))
  }

  function Exec(s: State, run: seq<Step>): (s': State)
    requires ValidRun(s, run)
    decreases |run|
  {
    if run == [] then s else Exec(Apply(s, run[0]), run[1..])
  }

  // ---------- the invariant ----------

  predicate Counted(a: Handle, o: nat) {
    a.value == Some(o) && (a.todo == Idle || a.todo == Release)
  }

  predicate Deletes(a: Handle, o: nat) {
    a.value == Some(o) && a.todo == Delete
  }

  /** The handles that are counted in at `o`. */
  function Holders(hs: map<nat, Handle>, o: nat): (r: set<nat>) {
    set h | h in hs && Counted(hs[h], o)
  }

  function Deleters(hs: map<nat, Handle>, o: nat): (r: set<nat>) {
    set h | h in hs && Deletes(hs[h], o)
  }

  /** The count is the number of holders; the deletion, done or due, comes with the last of them. */
  ghost predicate ObjectInv(s: State, o: nat)
    requires o in s.objects
  {
    var x := s.objects[o];
    && x.count == |Holders(s.handles, o)|
    && (x.count > 0 ==> x.used)
    && x.deletions + |Deleters(s.handles, o)| == if x.used && x.count == 0 then 1 else 0
  }

  /** Who is about to point to an object does so while another handle holds it, or alone at a new object. */
  ghost predicate TargetInv(s: State, h: nat)
    requires h in s.handles
  {
    var a := s.handles[h];
    && (a.todo != Idle ==> a.value.Some?)
    && (a.value.Some? ==> a.value.value in s.objects)
    && (Target(a).None? ==> a.guard.None?)
    && (Target(a).Some? ==>
          var n := Target(a).value;
          && n in s.objects
          && match a.guard
             case Some(g) => g != h && Quiet(s, g) && s.handles[g].value == Some(n)
             case None => !s.objects[n].used && forall i :: i in s.handles && i != h ==> Target(s.handles[i]) != Some(n))
  }

  ghost predicate Inv(s: State) {
    && (forall o :: o in s.objects ==> ObjectInv(s, o))
    && (forall h :: h in s.handles ==> TargetInv(s, h))
  }

  // ---------- the invariant is kept ----------

  lemma HoldersUpdate(hs: map<nat, Handle>, h: nat, a: Handle, o: nat)
    ensures Holders(hs[h := a], o) == if Counted(a, o) then Holders(hs, o) + {h} else Holders(hs, o) - {h}
    ensures Deleters(hs[h := a], o) == if Deletes(a, o) then Deleters(hs, o) + {h} else Deleters(hs, o) - {h}
  {
  }

  lemma HoldersRemove(hs: map<nat, Handle>, h: nat, o: nat)
    ensures Holders(hs - {h}, o) == Holders(hs, o) - {h} && Deleters(hs - {h}, o) == Deleters(hs, o) - {h}
  {
  }

  /** A step that changes neither the handles at `o` nor its count. */
  lemma SameHolders(s: State, s': State, o: nat)
    requires o in s.objects && o in s'.objects && s'.objects[o] == s.objects[o] && ObjectInv(s, o)
    requires Holders(s'.handles, o) == Holders(s.handles, o) && Deleters(s'.handles, o) == Deleters(s.handles, o)
    ensures ObjectInv(s', o)
  {
  }

  /** An object that a quiet handle points to has a count and is not deleted. */
  lemma HeldIsAlive(s: State, g: nat)
    requires Inv(s) && Quiet(s, g) && s.handles[g].value.Some?
    ensures var x := s.objects[s.handles[g].value.value];
            g in Holders(s.handles, s.handles[g].value.value) && x.count > 0 && x.used && x.deletions == 0
  {
    assert TargetInv(s, g);
    var o := s.handles[g].value.value;
    assert ObjectInv(s, o);
    assert g in Holders(s.handles, o);
  }

  lemma StepObject(s: State, step: Step, o: nat)
    requires Inv(s) && Enabled(s, step) && o in Apply(s, step).objects
    ensures ObjectInv(Apply(s, step), o)
  {
    if o !in s.objects {
      NobodyAt(s, o);
    } else {
      assert ObjectInv(s, o);
      match step
      case NewObject(n) => SameHolders(s, Apply(s, step), o);
      case Create(h, src) => CreateObject(s, step, o);
      case Assign(h, src) => AssignObject(s, step, o);
      case Destroy(h) => DestroyObject(s, step, o);
      case Go(h) => ActObject(s, h, o);
    }
  }

  /** A handle that changes but stays, or stays not, counted in at `o` and bound to delete it. */
  lemma UpdateKeepsObject(s: State, h: nat, a: Handle, o: nat)
    requires o in s.objects && ObjectInv(s, o)
    requires Counted(a, o) <==> h in Holders(s.handles, o)
    requires Deletes(a, o) <==> h in Deleters(s.handles, o)
    ensures ObjectInv(s.(handles := s.handles[h := a]), o)
  {
    var hs := s.handles[h := a];
    assert Holders(hs, o) == Holders(s.handles, o) && Deleters(hs, o) == Deleters(s.handles, o) by {
      HoldersUpdate(s.handles, h, a, o);
    }
    SameHolders(s, State(s.objects, hs), o);
  }

  lemma TakingHoldsNothing(v: Option<nat>, guard: Option<nat>, o: nat)
    ensures !Counted(Taking(v, guard), o) && !Deletes(Taking(v, guard), o)
  {
  }

  lemma CreateObject(s: State, step: Step, o: nat)
    requires step.Create? && Enabled(s, step) && o in s.objects && ObjectInv(s, o)
    ensures ObjectInv(Apply(s, step), o)
  {
    TakingHoldsNothing(Pointer(s, step.src), GuardOf(step.src), o);
    UpdateKeepsObject(s, step.h, Taking(Pointer(s, step.src), GuardOf(step.src)), o);
  }

  lemma AssignObject(s: State, step: Step, o: nat)
    requires step.Assign? && Enabled(s, step) && o in s.objects && ObjectInv(s, o)
    ensures ObjectInv(Apply(s, step), o)
  {
    var a, v, guard := s.handles[step.h], Pointer(s, step.src), GuardOf(step.src);
    if a.value != v {
      if a.value.Some? {
        UpdateKeepsObject(s, step.h, Handle(a.value, Release, v, false, if v.None? then None else guard), o);
      } else {
        TakingHoldsNothing(v, guard, o);
        UpdateKeepsObject(s, step.h, Taking(v, guard), o);
      }
    }
  }

  lemma DestroyObject(s: State, step: Step, o: nat)
    requires step.Destroy? && Enabled(s, step) && o in s.objects && ObjectInv(s, o)
    ensures ObjectInv(Apply(s, step), o)
  {
    var a := s.handles[step.h];
    if a.value.None? {
      HoldersRemove(s.handles, step.h, o);
      SameHolders(s, s.(handles := s.handles - {step.h}), o);
    } else {
      UpdateKeepsObject(s, step.h, Handle(a.value, Release, None, true, None), o);
    }
  }

  lemma NobodyAt(s: State, o: nat)
    requires Inv(s) && o !in s.objects
    ensures Holders(s.handles, o) == {} && Deleters(s.handles, o) == {}
  {
    forall h | h in s.handles
      ensures s.handles[h].value != Some(o)
    {
      assert TargetInv(s, h);
    }
  }

  /** What `Settle` makes of the holders: the handle is out of both sets. */
  lemma Settled(s: State, h: nat, o: nat)
    requires h in s.handles
    ensures Holders(Settle(s, h), o) == Holders(s.handles, o) - {h}
    ensures Deleters(Settle(s, h), o) == Deleters(s.handles, o) - {h}
  {
    var a := s.handles[h];
    if a.dying {
      HoldersRemove(s.handles, h, o);
    } else {
      HoldersUpdate(s.handles, h, Taking(a.next, a.guard), o);
    }
  }

  lemma ActObject(s: State, h: nat, o: nat)
    requires Inv(s) && Enabled(s, Go(h)) && o in s.objects
    ensures ObjectInv(Act(s, h), o)
  {
    assert ObjectInv(s, o) && TargetInv(s, h);
    var a := s.handles[h];
    match a.todo
    case Acquire =>
      if a.guard.Some? && a.value == Some(o) {
        HeldIsAlive(s, a.guard.value);
      }
      AcquireObject(s, h, o);
    case Release => ReleaseObject(s, h, o);
    case Delete => DeleteObject(s, h, o);
  }

  lemma AcquireObject(s: State, h: nat, o: nat)
    requires Enabled(s, Go(h)) && o in s.objects && ObjectInv(s, o) && s.handles[h].todo == Acquire
    requires s.handles[h].value == Some(o) ==> !s.objects[o].used || s.objects[o].count > 0
    ensures ObjectInv(Act(s, h), o)
  {
    var a := s.handles[h];
    HoldersUpdate(s.handles, h, Handle(a.value, Idle, None, false, None), o);
    assert h !in Holders(s.handles, o) && h !in Deleters(s.handles, o);
  }

  lemma ReleaseObject(s: State, h: nat, o: nat)
    requires Enabled(s, Go(h)) && o in s.objects && ObjectInv(s, o) && s.handles[h].todo == Release
    ensures ObjectInv(Act(s, h), o)
  {
    var a := s.handles[h];
    var hs, ds := Holders(s.handles, o), Deleters(s.handles, o);
    Settled(s, h, o);
    HoldersUpdate(s.handles, h, a.(todo := Delete), o);
    assert h !in ds && (h in hs <==> a.value == Some(o));
    if h in hs {
      assert |hs - {h}| == |hs| - 1;
      assert |ds + {h}| == |ds| + 1;
    }
  }

  lemma DeleteObject(s: State, h: nat, o: nat)
    requires Enabled(s, Go(h)) && o in s.objects && ObjectInv(s, o) && s.handles[h].todo == Delete
    ensures ObjectInv(Act(s, h), o)
  {
    var hs, ds := Holders(s.handles, o), Deleters(s.handles, o);
    Settled(s, h, o);
    assert h !in hs && (h in ds <==> s.handles[h].value == Some(o));
    if h in ds {
      assert |ds - {h}| == |ds| - 1;
    }
  }

  /** The new pointer of a handle is safe to take. */
  ghost predicate Safe(s: State, h: nat, v: Option<nat>, guard: Option<nat>) {
    && (v.None? ==> guard.None?)
    && (v.Some? ==>
          && v.value in s.objects
          && match guard
             case Some(g) => g != h && Quiet(s, g) && s.handles[g].value == v
             case None => !s.objects[v.value].used && forall i :: i in s.handles && i != h ==> Target(s.handles[i]) != v)
  }

  lemma OfferedIsSafe(s: State, h: nat, src: Source)
    requires Inv(s) && Offered(s, src)
    requires h !in s.handles || s.handles[h].value != Pointer(s, src)
    ensures Safe(s, h, Pointer(s, src), if Pointer(s, src).None? then None else GuardOf(src))
  {
    match src
    case Null =>
    case New(o) =>
    case Of(g) => assert TargetInv(s, g);
  }

  lemma NotGuarded(s: State, h: nat)
    requires Inv(s) && !Quiet(s, h)
    ensures !Guarded(s, h)
  {
    forall i | i in s.handles
      ensures s.handles[i].guard != Some(h)
    {
      assert TargetInv(s, i);
    }
  }

  /** Only handle `h` changes, and no count but perhaps that of its object. */
  ghost predicate OnlyHandle(s: State, s': State, h: nat) {
    && (forall i :: i != h ==> (i in s.handles <==> i in s'.handles))
    && (forall i :: i != h && i in s.handles ==> s'.handles[i] == s.handles[i])
    && (forall o :: o in s.objects ==> o in s'.objects && s'.objects[o].used == s.objects[o].used)
  }

  /** If its new pointer is safe, the others can go on. */
  lemma OthersUnmoved(s: State, s': State, h: nat, i: nat)
    requires Inv(s) && !Guarded(s, h) && OnlyHandle(s, s', h) && i != h && i in s.handles
    requires h in s'.handles ==> Safe(s, h, Target(s'.handles[h]), s'.handles[h].guard)
    ensures TargetInv(s', i)
  {
    assert TargetInv(s, i);
    var a := s.handles[i];
    if Target(a).Some? && a.guard.None? && h in s'.handles && Target(s'.handles[h]) == Target(a) {
      HeldIsAlive(s, s'.handles[h].guard.value);
      assert false;
    }
  }

  lemma ItselfSafe(s: State, s': State, h: nat)
    requires !Guarded(s, h) && OnlyHandle(s, s', h) && h in s'.handles
    requires Safe(s, h, Target(s'.handles[h]), s'.handles[h].guard)
    requires s'.handles[h].todo != Idle ==> s'.handles[h].value.Some?
    requires s'.handles[h].value.Some? ==> s'.handles[h].value.value in s.objects
    ensures TargetInv(s', h)
  {
  }

  lemma ChangeOne(s: State, s': State, h: nat, i: nat)
    requires Inv(s) && !Guarded(s, h) && OnlyHandle(s, s', h) && i in s'.handles
    requires h in s'.handles ==>
               && Safe(s, h, Target(s'.handles[h]), s'.handles[h].guard)
               && (s'.handles[h].todo != Idle ==> s'.handles[h].value.Some?)
               && (s'.handles[h].value.Some? ==> s'.handles[h].value.value in s.objects)
    ensures TargetInv(s', i)
  {
    if i == h {
      ItselfSafe(s, s', h);
    } else {
      OthersUnmoved(s, s', h, i);
    }
  }

  lemma StepTarget(s: State, step: Step, i: nat)
    requires Inv(s) && Enabled(s, step) && i in Apply(s, step).handles
    ensures TargetInv(Apply(s, step), i)
  {
    match step
    case NewObject(n) => assert TargetInv(s, i);
    case Create(h, src) => CreateTarget(s, step, i);
    case Assign(h, src) => AssignTarget(s, step, i);
    case Destroy(h) => DestroyTarget(s, step, i);
    case Go(h) =>
      NotGuarded(s, h);
      if s.handles[h].todo == Acquire {
        AcquireTarget(s, h, i);
      } else {
        LeaveTarget(s, h, i);
      }
  }

  lemma CreateTarget(s: State, step: Step, i: nat)
    requires Inv(s) && step.Create? && Enabled(s, step) && i in Apply(s, step).handles
    ensures TargetInv(Apply(s, step), i)
  {
    NotGuarded(s, step.h);
    OfferedIsSafe(s, step.h, step.src);
    ChangeOne(s, Apply(s, step), step.h, i);
  }

  lemma AssignTarget(s: State, step: Step, i: nat)
    requires Inv(s) && step.Assign? && Enabled(s, step) && i in Apply(s, step).handles
    ensures TargetInv(Apply(s, step), i)
  {
    assert TargetInv(s, step.h) && TargetInv(s, i);
    if s.handles[step.h].value != Pointer(s, step.src) {
      OfferedIsSafe(s, step.h, step.src);
      ChangeOne(s, Apply(s, step), step.h, i);
    }
  }

  lemma DestroyTarget(s: State, step: Step, i: nat)
    requires Inv(s) && step.Destroy? && Enabled(s, step) && i in Apply(s, step).handles
    ensures TargetInv(Apply(s, step), i)
  {
    assert TargetInv(s, step.h);
    ChangeOne(s, Apply(s, step), step.h, i);
  }

  lemma LeaveTarget(s: State, h: nat, i: nat)
    requires Inv(s) && Enabled(s, Go(h)) && s.handles[h].todo != Acquire && !Guarded(s, h) && i in Act(s, h).handles
    ensures TargetInv(Act(s, h), i)
  {
    assert TargetInv(s, h);
    LeaveOnly(s, h);
    LeaveSafe(s, h);
    ChangeOne(s, Act(s, h), h, i);
  }

  lemma LeaveOnly(s: State, h: nat)
    requires Enabled(s, Go(h)) && s.handles[h].todo != Acquire
    ensures OnlyHandle(s, Act(s, h), h)
  {
  }

  /** A handle that counts itself out goes on with the pointer that it was about to take. */
  lemma LeaveSafe(s: State, h: nat)
    requires Enabled(s, Go(h)) && s.handles[h].todo != Acquire && TargetInv(s, h)
    ensures h in Act(s, h).handles ==>
              var a := Act(s, h).handles[h];
              && Safe(s, h, Target(a), a.guard)
              && (a.todo != Idle ==> a.value.Some?)
              && (a.value.Some? ==> a.value.value in s.objects)
  {
    var a := s.handles[h];
    assert Safe(s, h, a.next, a.guard);
  }

  lemma AcquireTarget(s: State, h: nat, i: nat)
    requires Inv(s) && Enabled(s, Go(h)) && s.handles[h].todo == Acquire && !Guarded(s, h) && i in s.handles
    ensures TargetInv(Act(s, h), i)
  {
    var a := s.handles[h];
    assert TargetInv(s, h) && TargetInv(s, i);
    if a.guard.Some? {
      HeldIsAlive(s, a.guard.value);
    }
  }

  lemma StepKeepsInv(s: State, step: Step)
    requires Inv(s) && Enabled(s, step)
    ensures Inv(Apply(s, step))
  {
    forall o | o in Apply(s, step).objects
      ensures ObjectInv(Apply(s, step), o)
    {
      StepObject(s, step, o);
    }
    forall h | h in Apply(s, step).handles
      ensures TargetInv(Apply(s, step), h)
    {
      StepTarget(s, step, h);
    }
  }

  lemma {:induction false} RunsKeepInv(s: State, run: seq<Step>)
    requires Inv(s) && ValidRun(s, run)
    ensures Inv(Exec(s, run))
    decreases |run|
  {
    if run != [] {
      StepKeepsInv(s, run[0]);
      RunsKeepInv(Apply(s, run[0]), run[1..]);
    }
  }

  // ---------- what handles promise ----------

  /** In every run the reference count of an object is the number of handles that are counted in at it. */
  lemma CountIsHolders(run: seq<Step>, o: nat)
    requires ValidRun(State(map[], map[]), run) && o in Exec(State(map[], map[]), run).objects
    ensures var s := Exec(State(map[], map[]), run); s.objects[o].count == |Holders(s.handles, o)|
  {
    RunsKeepInv(State(map[], map[]), run);
  }

  /**
    An object is deleted at most once, and it is deleted, or one handle is bound to do so, exactly
    when it was used and no handle is counted in at it any more.
   */
  lemma DeletedOnceWithTheLast(run: seq<Step>, o: nat)
    requires ValidRun(State(map[], map[]), run) && o in Exec(State(map[], map[]), run).objects
    ensures var s := Exec(State(map[], map[]), run);
            && s.objects[o].deletions <= 1
            && (s.objects[o].used && Holders(s.handles, o) == {} <==> s.objects[o].deletions + |Deleters(s.handles, o)| == 1)
  {
    RunsKeepInv(State(map[], map[]), run);
    assert ObjectInv(Exec(State(map[], map[]), run), o);
  }

  /** No step counts at an object that is deleted or about to be. */
  lemma NoUseAfterDelete(run: seq<Step>, h: nat)
    requires ValidRun(State(map[], map[]), run) && h in Exec(State(map[], map[]), run).handles
    ensures var s := Exec(State(map[], map[]), run);
            var a := s.handles[h];
            && (a.value.Some? ==> a.value.value in s.objects)
            && (a.value.Some? && a.todo != Delete ==>
                  s.objects[a.value.value].deletions == 0 && Deleters(s.handles, a.value.value) == {})
            && (a.value.Some? && a.todo == Delete ==>
                  s.objects[a.value.value].deletions == 0 && Deleters(s.handles, a.value.value) == {h})
  {
    var s := Exec(State(map[], map[]), run);
    RunsKeepInv(State(map[], map[]), run);
    assert TargetInv(s, h);
    var a := s.handles[h];
    if a.value.Some? {
      var o := a.value.value;
      assert ObjectInv(s, o);
      if a.todo == Delete {
        assert h in Deleters(s.handles, o);
        OnlyOne(Deleters(s.handles, o), h);
      } else if a.todo == Acquire {
        if a.guard.Some? {
          HeldIsAlive(s, a.guard.value);
        }
      } else {
        assert h in Holders(s.handles, o);
      }
    }
  }

  lemma OnlyOne(s: set<nat>, h: nat)
    requires h in s && |s| <= 1
    ensures s == {h}
  {
    assert |s - {h}| == |s| - 1;
  }
}
