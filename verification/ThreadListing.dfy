/** What the two listings of `ThreadGroup` are in terms of the tables of the groups themselves. */
module ThreadListing {
  import opened ThreadGroup

  lemma InTheMiddle<T>(own: seq<T>, head: seq<T>, part: seq<T>, all: seq<T>)
    requires |head| + |part| <= |all| && all[..|head| + |part|] == head + part
    ensures (own + all)[|own| + |head|..|own| + |head| + |part|] == part
  {
    assert (own + all)[|own|..] == all;
    assert all[|head|..|head| + |part|] == (head + part)[|head|..];
  }

  lemma FilledPart<T>(b: seq<T>, l: seq<T>, start: nat, count: nat, all: seq<T>)
    requires Filled(b, l, start, count, all)
    ensures start + count <= |l| && l[start..start + count] == all[..count]
  {
  }

  lemma RestIsKept<T>(b: seq<T>, l: seq<T>, count: nat, all: seq<T>)
    requires Filled(b, l, 0, count, all)
    ensures |b| == |l| && count <= |l| && l[count..] == b[count..]
  {
  }

  // ---------- threads ----------

  /** How many threads the groups of the tree have in their tables. */
  function TotalThreads(g: Group): (n: nat)
    decreases g
  {
    |g.threads| + TotalThreadsBelow(g.groups)
  }

  function TotalThreadsBelow(gs: seq<Group>): (n: nat)
    decreases gs
  {
    if gs == [] then 0 else TotalThreads(gs[0]) + TotalThreadsBelow(gs[1..])
  }

  /** All the threads of the tree, each as often as it stands in a table. */
  function AllThreads(g: Group): (m: multiset<Thread>)
    decreases g
  {
    multiset(g.threads) + AllThreadsBelow(g.groups)
  }

  function AllThreadsBelow(gs: seq<Group>): (m: multiset<Thread>)
    decreases gs
  {
    if gs == [] then multiset{} else AllThreads(gs[0]) + AllThreadsBelow(gs[1..])
  }

  /** The listing has them all, none too often. */
  lemma {:induction false} AllThreadsAreListed(g: Group)
    ensures |Flat(OwnThreads, g)| == TotalThreads(g) && multiset(Flat(OwnThreads, g)) == AllThreads(g)
    decreases g
  {
    AllThreadsBelowAreListed(g.groups);
  }

  lemma {:induction false} AllThreadsBelowAreListed(gs: seq<Group>)
    ensures |FlatAll(OwnThreads, gs)| == TotalThreadsBelow(gs) && multiset(FlatAll(OwnThreads, gs)) == AllThreadsBelow(gs)
    decreases gs
  {
    if gs != [] {
      AllThreadsAreListed(gs[0]);
      AllThreadsBelowAreListed(gs[1..]);
    }
  }

  /** First come the threads of the group itself, and then, child by child, what is listed of each child. */
  lemma ThreadsInOrder(g: Group, i: nat)
    requires i < |g.groups|
    ensures g.threads <= Flat(OwnThreads, g)
    ensures var before := |g.threads| + TotalThreadsBelow(g.groups[..i]);
            && before + TotalThreads(g.groups[i]) <= |Flat(OwnThreads, g)|
            && Flat(OwnThreads, g)[before..before + TotalThreads(g.groups[i])] == Flat(OwnThreads, g.groups[i])
  {
    var gs := g.groups;
    AllThreadsBelowAreListed(gs[..i]);
    AllThreadsAreListed(gs[i]);
    FlatOneMore(OwnThreads, gs, i);
    FlatPrefix(OwnThreads, gs, i + 1);
    var head, part, all := FlatAll(OwnThreads, gs[..i]), Flat(OwnThreads, gs[i]), FlatAll(OwnThreads, gs);
    assert all[..|head| + |part|] == head + part;
    InTheMiddle(g.threads, head, part, all);
  }

  /** What `enumerate` leaves in the array of its caller. */
  predicate ThreadsListed(g: Group, l: seq<Thread>, start: nat, size: nat, count: nat, recurse: bool)
    requires start + size <= |l|
  {
    && count == Min(size, if recurse then TotalThreads(g) else |g.threads|)
    && (forall k :: 0 <= k < Min(size, |g.threads|) ==> l[start + k] == g.threads[k])
    && (!recurse ==> l[start..start + count] == g.threads[..count])
    && (recurse && TotalThreads(g) <= size ==> multiset(l[start..start + count]) == AllThreads(g))
  }

  lemma ThreadsAreListed(g: Group, b: seq<Thread>, l: seq<Thread>, start: nat, size: nat, count: nat, recurse: bool)
    requires start + size <= |l| && count == Min(size, |Listed(OwnThreads, g, recurse)|)
    requires Filled(b, l, start, count, Listed(OwnThreads, g, recurse))
    ensures ThreadsListed(g, l, start, size, count, recurse)
  {
    var all := Listed(OwnThreads, g, recurse);
    AllThreadsAreListed(g);
    FilledPart(b, l, start, count, all);
    assert all[..|g.threads|] == g.threads;
    forall k | 0 <= k < Min(size, |g.threads|)
      ensures l[start + k] == g.threads[k]
    {
      assert l[start + k] == l[start..start + count][k] == all[k];
    }
    if count == |all| {
      assert all[..count] == all;
    }
  }

  /** `enumerate`: its result, in terms of the tables of threads. */
  method ListThreads(g: Group, list: array<Thread>, size: nat, recurse: bool) returns (count: nat)
    requires size <= list.Length
    modifies list
    ensures ThreadsListed(g, list[..], 0, size, count, recurse) && list[count..] == old(list[count..])
  {
    ghost var b := list[..];
    count := EnumerateThreads(g, list, 0, size, recurse);
    ThreadsAreListed(g, b, list[..], 0, size, count, recurse);
    RestIsKept(b, list[..], count, Listed(OwnThreads, g, recurse));
    assert list[count..] == list[..][count..] && old(list[count..]) == b[count..];
  }

  // ---------- groups ----------

  /** How many groups the groups of the tree have in their tables. */
  function TotalGroups(g: Group): (n: nat)
    decreases g
  {
    |g.groups| + TotalGroupsBelow(g.groups)
  }

  function TotalGroupsBelow(gs: seq<Group>): (n: nat)
    decreases gs
  {
    if gs == [] then 0 else TotalGroups(gs[0]) + TotalGroupsBelow(gs[1..])
  }

  /** All the groups of the tree, each as often as it stands in a table. */
  function AllGroups(g: Group): (m: multiset<Group>)
    decreases g
  {
    multiset(g.groups) + AllGroupsBelow(g.groups)
  }

  function AllGroupsBelow(gs: seq<Group>): (m: multiset<Group>)
    decreases gs
  {
    if gs == [] then multiset{} else AllGroups(gs[0]) + AllGroupsBelow(gs[1..])
  }

  /** The listing has them all, none too often. */
  lemma {:induction false} AllGroupsAreListed(g: Group)
    ensures |Flat(OwnGroups, g)| == TotalGroups(g) && multiset(Flat(OwnGroups, g)) == AllGroups(g)
    decreases g
  {
    AllGroupsBelowAreListed(g.groups);
  }

  lemma {:induction false} AllGroupsBelowAreListed(gs: seq<Group>)
    ensures |FlatAll(OwnGroups, gs)| == TotalGroupsBelow(gs) && multiset(FlatAll(OwnGroups, gs)) == AllGroupsBelow(gs)
    decreases gs
  {
    if gs != [] {
      AllGroupsAreListed(gs[0]);
      AllGroupsBelowAreListed(gs[1..]);
    }
  }

  /** First come the groups of the group itself, and then, child by child, what is listed of each child. */
  lemma GroupsInOrder(g: Group, i: nat)
    requires i < |g.groups|
    ensures g.groups <= Flat(OwnGroups, g)
    ensures var before := |g.groups| + TotalGroupsBelow(g.groups[..i]);
            && before + TotalGroups(g.groups[i]) <= |Flat(OwnGroups, g)|
            && Flat(OwnGroups, g)[before..before + TotalGroups(g.groups[i])] == Flat(OwnGroups, g.groups[i])
  {
    var gs := g.groups;
    AllGroupsBelowAreListed(gs[..i]);
    AllGroupsAreListed(gs[i]);
    FlatOneMore(OwnGroups, gs, i);
    FlatPrefix(OwnGroups, gs, i + 1);
    var head, part, all := FlatAll(OwnGroups, gs[..i]), Flat(OwnGroups, gs[i]), FlatAll(OwnGroups, gs);
    assert all[..|head| + |part|] == head + part;
    InTheMiddle(g.groups, head, part, all);
  }

  /** What `enumerate` leaves in the array of its caller. */
  predicate GroupsListed(g: Group, l: seq<Group>, start: nat, size: nat, count: nat, recurse: bool)
    requires start + size <= |l|
  {
    && count == Min(size, if recurse then TotalGroups(g) else |g.groups|)
    && (forall k :: 0 <= k < Min(size, |g.groups|) ==> l[start + k] == g.groups[k])
    && (!recurse ==> l[start..start + count] == g.groups[..count])
    && (recurse && TotalGroups(g) <= size ==> multiset(l[start..start + count]) == AllGroups(g))
  }

  lemma GroupsAreListed(g: Group, b: seq<Group>, l: seq<Group>, start: nat, size: nat, count: nat, recurse: bool)
    requires start + size <= |l| && count == Min(size, |Listed(OwnGroups, g, recurse)|)
    requires Filled(b, l, start, count, Listed(OwnGroups, g, recurse))
    ensures GroupsListed(g, l, start, size, count, recurse)
  {
    var all := Listed(OwnGroups, g, recurse);
    AllGroupsAreListed(g);
    FilledPart(b, l, start, count, all);
    assert all[..|g.groups|] == g.groups;
    forall k | 0 <= k < Min(size, |g.groups|)
      ensures l[start + k] == g.groups[k]
    {
      assert l[start + k] == l[start..start + count][k] == all[k];
    }
    if count == |all| {
      assert all[..count] == all;
    }
  }

  /** `enumerate`: its result, in terms of the tables of groups. */
  method ListGroups(g: Group, list: array<Group>, size: nat, recurse: bool) returns (count: nat)
    requires size <= list.Length
    modifies list
    ensures GroupsListed(g, list[..], 0, size, count, recurse) && list[count..] == old(list[count..])
  {
    ghost var b := list[..];
    count := EnumerateGroups(g, list, 0, size, recurse);
    GroupsAreListed(g, b, list[..], 0, size, count, recurse);
    RestIsKept(b, list[..], count, Listed(OwnGroups, g, recurse));
    assert list[count..] == list[..][count..] && old(list[count..]) == b[count..];
  }
}
