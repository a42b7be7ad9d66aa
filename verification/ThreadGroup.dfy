/**
  Thread groups: a tree of groups, each with its threads and its child groups in the order of
  their tables, and the two functions that list them into an array of the caller.
 */
module ThreadGroup {

  type Thread = int

  datatype Group = Group(id: int, threads: seq<Thread>, groups: seq<Group>)

  // ---------- what there is to list ----------

  /** What `own` gives of a group, and then what it gives of each child group and those below. */
  function Flat<T>(own: Group -> seq<T>, g: Group): (r: seq<T>)
    decreases g
  {
    own(g) + FlatAll(own, g.groups)
  }

  function FlatAll<T>(own: Group -> seq<T>, gs: seq<Group>): (r: seq<T>)
    decreases gs
  {
    if gs == [] then [] else Flat(own, gs[0]) + FlatAll(own, gs[1..])
  }

  /** Everything, or only what the group itself has. */
  function Listed<T>(own: Group -> seq<T>, g: Group, recurse: bool): (r: seq<T>) {
    if recurse then Flat(own, g) else own(g)
  }

  lemma {:induction false} FlatOneMore<T>(own: Group -> seq<T>, gs: seq<Group>, i: nat)
    requires i < |gs|
    ensures FlatAll(own, gs[..i + 1]) == FlatAll(own, gs[..i]) + Flat(own, gs[i])
  {
    if i == 0 {
      assert gs[..1][1..] == [];
    } else {
      FlatOneMore(own, gs[1..], i - 1);
      assert gs[..i + 1][1..] == gs[1..][..i] && gs[..i][1..] == gs[1..][..i - 1];
    }
  }

  lemma {:induction false} FlatPrefix<T>(own: Group -> seq<T>, gs: seq<Group>, i: nat)
    requires i <= |gs|
    ensures FlatAll(own, gs[..i]) <= FlatAll(own, gs)
    decreases |gs| - i
  {
    if i == |gs| {
      assert gs[..i] == gs;
    } else {
      FlatOneMore(own, gs, i);
      FlatPrefix(own, gs, i + 1);
    }
  }

  /** `d` is `g` or somewhere below it. */
  predicate Within(d: Group, g: Group) {
    d == g || exists i :: 0 <= i < |g.groups| && Within(d, g.groups[i])
  }

  /** The list has what some group of the tree has, and nothing else. */
  lemma {:induction false} FlatHolds<T>(own: Group -> seq<T>, g: Group, x: T)
    ensures x in Flat(own, g) <==> exists d :: Within(d, g) && x in own(d)
    decreases g
  {
    FlatAllHolds(own, g.groups, x);
    if x in own(g) {
      assert Within(g, g);
    }
    if x in FlatAll(own, g.groups) {
      var i, d :| 0 <= i < |g.groups| && Within(d, g.groups[i]) && x in own(d);
      assert Within(d, g);
    }
    if exists d :: Within(d, g) && x in own(d) {
      var d :| Within(d, g) && x in own(d);
      if d != g {
        var i :| 0 <= i < |g.groups| && Within(d, g.groups[i]);
      }
    }
  }

  lemma {:induction false} FlatAllHolds<T>(own: Group -> seq<T>, gs: seq<Group>, x: T)
    ensures x in FlatAll(own, gs) <==> exists i, d :: 0 <= i < |gs| && Within(d, gs[i]) && x in own(d)
    decreases gs
  {
    if gs != [] {
      FlatHolds(own, gs[0], x);
      FlatAllHolds(own, gs[1..], x);
      if x in Flat(own, gs[0]) {
        var d :| Within(d, gs[0]) && x in own(d);
      }
      if x in FlatAll(own, gs[1..]) {
        var i, d :| 0 <= i < |gs[1..]| && Within(d, gs[1..][i]) && x in own(d);
        assert Within(d, gs[i + 1]);
      }
      if exists i, d :: 0 <= i < |gs| && Within(d, gs[i]) && x in own(d) {
        var i, d :| 0 <= i < |gs| && Within(d, gs[i]) && x in own(d);
        if i > 0 {
          assert Within(d, gs[1..][i - 1]);
        }
      }
    }
  }

  function OwnThreads(g: Group): (r: seq<Thread>) {
    g.threads
  }

  function OwnGroups(g: Group): (r: seq<Group>) {
    g.groups
  }

  // ---------- listing ----------

  /** From `start` on, the first `count` places hold a prefix of `all`; the rest is as it was. */
  predicate Filled<T(==)>(before: seq<T>, after: seq<T>, start: nat, count: nat, all: seq<T>) {
    && |before| == |after| && start + count <= |after| && count <= |all|
    && after == before[..start] + all[..count] + before[start + count..]
  }

  lemma FillMore<T>(b: seq<T>, b1: seq<T>, b2: seq<T>, start: nat, all: seq<T>, count: nat, more: seq<T>)
    requires Filled(b, b1, start, |all|, all) && Filled(b1, b2, start + |all|, count, more)
    ensures Filled(b, b2, start, |all| + count, all + more)
  {
    assert b1[..start + |all|] == b[..start] + all;
    assert b1[start + |all| + count..] == b[start + |all| + count..];
    assert (all + more)[..|all| + count] == all + more[..count];
  }

  lemma FilledByPrefix<T>(b: seq<T>, b1: seq<T>, start: nat, count: nat, all: seq<T>, whole: seq<T>)
    requires Filled(b, b1, start, count, all) && all <= whole
    ensures Filled(b, b1, start, count, whole)
  {
    assert all[..count] == whole[..count];
  }

  function Min(x: nat, y: nat): (m: nat) {
    if x < y then x else y
  }

  lemma FillOne<T>(b: seq<T>, b1: seq<T>, start: nat, count: nat, all: seq<T>)
    requires Filled(b, b1, start, count, all) && count < |all| && start + count < |b|
    ensures Filled(b, b1[start + count := all[count]], start, count + 1, all)
  {
    assert all[..count + 1] == all[..count] + [all[count]];
    assert b[start + count..] == [b[start + count]] + b[start + count + 1..];
  }

  /** The loop over the table of the group itself. */
  method CopyOwn<T>(own: seq<T>, list: array<T>, start: nat, size: nat) returns (count: nat)
    requires start + size <= list.Length
    modifies list
    ensures count == Min(size, |own|) && Filled(old(list[..]), list[..], start, count, own)
  {
    count := 0;
    while count < size && count < |own|
      invariant count <= size && count <= |own| && Filled(old(list[..]), list[..], start, count, own)
    {
      FillOne(old(list[..]), list[..], start, count, own);
      list[start + count] := own[count];
      count := count + 1;
    }
  }

  /** What the loop over the child groups has done after `i` of them. */
  ghost predicate Progress<T>(own: Group -> seq<T>, g: Group, i: nat, b: seq<T>, b1: seq<T>, start: nat, size: nat, count: nat)
    requires i <= |g.groups|
  {
    var all := own(g) + FlatAll(own, g.groups[..i]);
    count == Min(size, |all|) && Filled(b, b1, start, count, all)
  }

  lemma NextChild<T>(own: Group -> seq<T>, g: Group, i: nat, b: seq<T>, b1: seq<T>, b2: seq<T>,
                     start: nat, size: nat, count: nat, more: nat)
    requires i < |g.groups| && count < size && Progress(own, g, i, b, b1, start, size, count)
    requires more == Min(size - count, |Flat(own, g.groups[i])|)
    requires Filled(b1, b2, start + count, more, Flat(own, g.groups[i]))
    ensures Progress(own, g, i + 1, b, b2, start, size, count + more)
  {
    var all := own(g) + FlatAll(own, g.groups[..i]);
    FlatOneMore(own, g.groups, i);
    FillMore(b, b1, b2, start, all, more, Flat(own, g.groups[i]));
    assert own(g) + FlatAll(own, g.groups[..i + 1]) == all + Flat(own, g.groups[i]);
  }

  lemma AllChildren<T>(own: Group -> seq<T>, g: Group, i: nat, b: seq<T>, b1: seq<T>, start: nat, size: nat, count: nat)
    requires i <= |g.groups| && Progress(own, g, i, b, b1, start, size, count)
    requires count >= size || i == |g.groups|
    ensures count == Min(size, |Flat(own, g)|) && Filled(b, b1, start, count, Flat(own, g))
  {
    FlatPrefix(own, g.groups, i);
    var all := own(g) + FlatAll(own, g.groups[..i]);
    assert all <= Flat(own, g);
    FilledByPrefix(b, b1, start, count, all, Flat(own, g));
    if i == |g.groups| {
      assert g.groups[..i] == g.groups;
    }
  }

  lemma NoChildYet<T>(own: Group -> seq<T>, g: Group, b: seq<T>, b1: seq<T>, start: nat, size: nat, count: nat)
    requires count == Min(size, |own(g)|) && Filled(b, b1, start, count, own(g))
    ensures Progress(own, g, 0, b, b1, start, size, count)
  {
    assert own(g) + FlatAll(own, g.groups[..0]) == own(g);
  }

  /** `enumerate` of threads: the first of them that fit, and how many they are. */
  method EnumerateThreads(g: Group, list: array<Thread>, start: nat, size: nat, recurse: bool) returns (count: nat)
    requires start + size <= list.Length
    modifies list
    ensures count == Min(size, |Listed(OwnThreads, g, recurse)|)
    ensures Filled(old(list[..]), list[..], start, count, Listed(OwnThreads, g, recurse))
    decreases g, 2
  {
    count := CopyOwn(g.threads, list, start, size);
    if count > size || !recurse {
      return;
    }
    NoChildYet(OwnThreads, g, old(list[..]), list[..], start, size, count);
    count := ThreadsOfChildren(g, list, start, size, count, old(list[..]));
  }

  method ThreadsOfChildren(g: Group, list: array<Thread>, start: nat, size: nat, own: nat, ghost b: seq<Thread>) returns (count: nat)
    requires start + size <= list.Length && own <= size && Progress(OwnThreads, g, 0, b, list[..], start, size, own)
    modifies list
    ensures count == Min(size, |Flat(OwnThreads, g)|) && Filled(b, list[..], start, count, Flat(OwnThreads, g))
    decreases g, 1
  {
    count := own;
    var i := 0;
    while count < size && i < |g.groups|
      invariant i <= |g.groups| && count <= size && Progress(OwnThreads, g, i, b, list[..], start, size, count)
      decreases |g.groups| - i
    {
      count := ThreadsOfChild(g, i, list, start, size, count, b);
      i := i + 1;
    }
    AllChildren(OwnThreads, g, i, b, list[..], start, size, count);
  }

  method ThreadsOfChild(g: Group, i: nat, list: array<Thread>, start: nat, size: nat, before: nat, ghost b: seq<Thread>) returns (count: nat)
    requires start + size <= list.Length && i < |g.groups| && before < size && Progress(OwnThreads, g, i, b, list[..], start, size, before)
    modifies list
    ensures count <= size && Progress(OwnThreads, g, i + 1, b, list[..], start, size, count)
    decreases g, 0
  {
    ghost var l := list[..];
    var more := EnumerateThreads(g.groups[i], list, start + before, size - before, true);
    assert Listed(OwnThreads, g.groups[i], true) == Flat(OwnThreads, g.groups[i]);
    NextChild(OwnThreads, g, i, b, l, list[..], start, size, before, more);
    count := before + more;
  }

  /** `enumerate` of groups. */
  method EnumerateGroups(g: Group, list: array<Group>, start: nat, size: nat, recurse: bool) returns (count: nat)
    requires start + size <= list.Length
    modifies list
    ensures count == Min(size, |Listed(OwnGroups, g, recurse)|)
    ensures Filled(old(list[..]), list[..], start, count, Listed(OwnGroups, g, recurse))
    decreases g, 2
  {
    count := CopyOwn(g.groups, list, start, size);
    if recurse {
      NoChildYet(OwnGroups, g, old(list[..]), list[..], start, size, count);
      if count >= size {
        AllChildren(OwnGroups, g, 0, old(list[..]), list[..], start, size, count);
      }
    }
    if count >= size || !recurse {
      return;
    }
    count := GroupsOfChildren(g, list, start, size, count, old(list[..]));
  }

  method GroupsOfChildren(g: Group, list: array<Group>, start: nat, size: nat, own: nat, ghost b: seq<Group>) returns (count: nat)
    requires start + size <= list.Length && own <= size && Progress(OwnGroups, g, 0, b, list[..], start, size, own)
    modifies list
    ensures count == Min(size, |Flat(OwnGroups, g)|) && Filled(b, list[..], start, count, Flat(OwnGroups, g))
    decreases g, 1
  {
    count := own;
    var i := 0;
    while count < size && i < |g.groups|
      invariant i <= |g.groups| && count <= size && Progress(OwnGroups, g, i, b, list[..], start, size, count)
      decreases |g.groups| - i
    {
      count := GroupsOfChild(g, i, list, start, size, count, b);
      i := i + 1;
    }
    AllChildren(OwnGroups, g, i, b, list[..], start, size, count);
  }

  method GroupsOfChild(g: Group, i: nat, list: array<Group>, start: nat, size: nat, before: nat, ghost b: seq<Group>) returns (count: nat)
    requires start + size <= list.Length && i < |g.groups| && before < size && Progress(OwnGroups, g, i, b, list[..], start, size, before)
    modifies list
    ensures count <= size && Progress(OwnGroups, g, i + 1, b, list[..], start, size, count)
    decreases g, 0
  {
    ghost var l := list[..];
    var more := EnumerateGroups(g.groups[i], list, start + before, size - before, true);
    assert Listed(OwnGroups, g.groups[i], true) == Flat(OwnGroups, g.groups[i]);
    NextChild(OwnGroups, g, i, b, l, list[..], start, size, before, more);
    count := before + more;
  }
}
