/**
  The client of the lazy Anys: `NVListImpl` writes the in and inout arguments of a request to a
  stream and reads them from one.
 */
module NVList {
  import opened Prelude
  import opened Octet
  import opened Cdr
  import opened AnyChain

  datatype Flag = ArgIn | ArgOut | ArgInout

  datatype NamedValue = NamedValue(flags: Flag, value: AnyImpl)

  class CDROutputStream {
    var buffer: seq<octet>
  }

  /** The in and inout arguments, in order. */
  ghost function Ins(list: seq<NamedValue>): (r: seq<AnyImpl>)
    ensures forall a :: a in r ==> exists i :: 0 <= i < |list| && list[i].value == a && list[i].flags != ArgOut
  {
    if list == [] then [] else
    var last := list[|list| - 1];
    Ins(list[..|list| - 1]) + (if last.flags != ArgOut then [last.value] else [])
  }

  // ---------- writing ----------

  /** What `write_value` finds to write; `None` is its BAD_OPERATION, or a MARSHAL while reading again. */
  ghost function Content(any: AnyImpl): (v: Option<Value>)
    reads any, any.marshaled
  {
    if any.tc == TkNull then Some(Null)
    else if any.value.Some? then any.value
    else if any.marshaled == null then None
    else
      var r := Read(any.tc, any.marshaled.buffer, any.marshaled.starting);
      if r.None? then None else Some(r.value.0)
  }

  /** The holder of an Any fits its type. */
  ghost predicate Typed(any: AnyImpl)
    reads any
  {
    any.tc != TkNull && any.value.Some? ==> HasType(any.value.value, any.tc)
  }

  lemma ContentHasType(any: AnyImpl)
    requires Typed(any) && Content(any).Some?
    ensures HasType(Content(any).value, any.tc)
  {
    if any.tc != TkNull && any.value.None? {
      ReadIsTyped(any.tc, any.marshaled.buffer, any.marshaled.starting);
    }
  }

  /** `write_value`. */
  method WriteValue(any: AnyImpl, out: CDROutputStream) returns (thrown: bool)
    requires Typed(any)
    modifies out`buffer
    ensures thrown <==> Content(any).None?
    ensures !thrown ==> HasType(Content(any).value, any.tc)
    ensures !thrown ==> out.buffer == old(out.buffer) + Write(any.tc, Content(any).value, |old(out.buffer)|)
  {
    thrown := false;
    if any.tc == TkNull {
      return;
    }
    var v: Value;
    if any.value.Some? {
      v := any.value.value;
    } else if any.marshaled != null {
      var copy := any.marshaled.Copy();
      copy.Rewind();
      var r := Read(any.tc, copy.buffer, copy.position);
      if r.None? {
        thrown := true;
        return;
      }
      v := r.value.0;
      ReadIsTyped(any.tc, copy.buffer, copy.position);
    } else {
      thrown := true;
      return;
    }
    out.buffer := out.buffer + Write(any.tc, v, |out.buffer|);
  }

  lemma {:induction false} TypeOneMore(tcs: seq<TypeCode>, vs: seq<Value>, t: TypeCode, v: Value)
    requires HaveTypes(vs, tcs) && HasType(v, t)
    ensures HaveTypes(vs + [v], tcs + [t])
  {
    if tcs == [] {
      assert vs + [v] == [v] && tcs + [t] == [t];
    } else {
      TypeOneMore(tcs[1..], vs[1..], t, v);
      assert (vs + [v])[1..] == vs[1..] + [v] && (tcs + [t])[1..] == tcs[1..] + [t];
    }
  }

  lemma {:induction false} WriteOneMore(tcs: seq<TypeCode>, vs: seq<Value>, t: TypeCode, v: Value, pos: nat)
    requires HaveTypes(vs, tcs) && HasType(v, t) && HaveTypes(vs + [v], tcs + [t])
    ensures WriteMembers(tcs + [t], vs + [v], pos)
         == WriteMembers(tcs, vs, pos) + Write(t, v, pos + |WriteMembers(tcs, vs, pos)|)
  {
    if tcs == [] {
      WriteJust(vs, t, v, pos);
    } else {
      var mid := pos + |Write(tcs[0], vs[0], pos)|;
      TypeOneMore(tcs[1..], vs[1..], t, v);
      WriteOneMore(tcs[1..], vs[1..], t, v, mid);
      WriteOneBefore(tcs, vs, t, v, pos, mid);
    }
  }

  lemma WriteOneBefore(tcs: seq<TypeCode>, vs: seq<Value>, t: TypeCode, v: Value, pos: nat, mid: nat)
    requires HaveTypes(vs, tcs) && HasType(v, t) && HaveTypes(vs + [v], tcs + [t])
    requires tcs != [] && HaveTypes(vs[1..] + [v], tcs[1..] + [t]) && mid == pos + |Write(tcs[0], vs[0], pos)|
    requires WriteMembers(tcs[1..] + [t], vs[1..] + [v], mid)
          == WriteMembers(tcs[1..], vs[1..], mid) + Write(t, v, mid + |WriteMembers(tcs[1..], vs[1..], mid)|)
    ensures WriteMembers(tcs + [t], vs + [v], pos)
         == WriteMembers(tcs, vs, pos) + Write(t, v, pos + |WriteMembers(tcs, vs, pos)|)
  {
    var first, rest := Write(tcs[0], vs[0], pos), WriteMembers(tcs[1..], vs[1..], mid);
    WriteFirst(tcs, vs, t, v, pos);
    Assembled(first, rest, Write(t, v, mid + |rest|), WriteMembers(tcs, vs, pos), WriteMembers(tcs + [t], vs + [v], pos));
    assert mid + |rest| == pos + |WriteMembers(tcs, vs, pos)|;
  }

  lemma Assembled(first: seq<octet>, rest: seq<octet>, last: seq<octet>, w: seq<octet>, whole: seq<octet>)
    requires w == first + rest && whole == first + (rest + last)
    ensures whole == w + last
  {
    Associate(first, rest, last);
  }

  lemma WriteFirst(tcs: seq<TypeCode>, vs: seq<Value>, t: TypeCode, v: Value, pos: nat)
    requires tcs != [] && HaveTypes(vs, tcs) && HaveTypes(vs + [v], tcs + [t]) && HaveTypes(vs[1..] + [v], tcs[1..] + [t])
    ensures var first := Write(tcs[0], vs[0], pos);
            WriteMembers(tcs + [t], vs + [v], pos) == first + WriteMembers(tcs[1..] + [t], vs[1..] + [v], pos + |first|)
  {
    assert (vs + [v])[1..] == vs[1..] + [v] && (tcs + [t])[1..] == tcs[1..] + [t];
  }

  lemma WriteJust(vs: seq<Value>, t: TypeCode, v: Value, pos: nat)
    requires HasType(v, t) && HaveTypes(vs, []) && HaveTypes(vs + [v], [] + [t])
    ensures WriteMembers([], vs, pos) == [] && WriteMembers([] + [t], vs + [v], pos) == Write(t, v, pos)
  {
    assert [] + [t] == [t] && vs + [v] == [v] && [t][1..] == [] && [v][1..] == [];
    assert WriteMembers([t][1..], [v][1..], pos + |Write(t, v, pos)|) == [];
  }

  /** The Anys of `anys` hold the values `vs` of types `tcs`. */
  ghost predicate Hold(anys: seq<AnyImpl>, tcs: seq<TypeCode>, vs: seq<Value>)
    reads anys, set a | a in anys && a.marshaled != null :: a.marshaled
  {
    && |tcs| == |vs| == |anys|
    && HaveTypes(vs, tcs)
    && forall k :: 0 <= k < |anys| ==> anys[k].tc == tcs[k] && Content(anys[k]) == Some(vs[k])
  }

  lemma HoldOneMore(anys: seq<AnyImpl>, tcs: seq<TypeCode>, vs: seq<Value>, any: AnyImpl)
    requires Hold(anys, tcs, vs) && Typed(any) && Content(any).Some?
    ensures Hold(anys + [any], tcs + [any.tc], vs + [Content(any).value])
    ensures HasType(Content(any).value, any.tc)
  {
    ContentHasType(any);
    TypeOneMore(tcs, vs, any.tc, Content(any).value);
  }

  /** `out` holds `base` and then the values of `done`; `write_value` adds one more. */
  method WriteNext(ghost done: seq<AnyImpl>, any: AnyImpl, out: CDROutputStream, ghost base: seq<octet>,
                   ghost tcs: seq<TypeCode>, ghost vs: seq<Value>)
    returns (thrown: bool, ghost tcs': seq<TypeCode>, ghost vs': seq<Value>)
    requires Typed(any) && Hold(done, tcs, vs) && out.buffer == base + WriteMembers(tcs, vs, |base|)
    modifies out`buffer
    ensures thrown <==> Content(any).None?
    ensures !thrown ==> Hold(done + [any], tcs', vs') && out.buffer == base + WriteMembers(tcs', vs', |base|)
  {
    ghost var w := WriteMembers(tcs, vs, |base|);
    thrown := WriteValue(any, out);
    tcs', vs' := tcs, vs;
    if !thrown {
      tcs', vs' := tcs + [any.tc], vs + [Content(any).value];
      HoldOneMore(done, tcs, vs, any);
      WriteOneMore(tcs, vs, any.tc, Content(any).value, |base|);
      Associate(base, w, Write(any.tc, Content(any).value, |base| + |w|));
    }
  }

  lemma Associate(x: seq<octet>, y: seq<octet>, z: seq<octet>)
    ensures x + y + z == x + (y + z)
  {
  }

  /**
    `write_params_in`: the values of the in and inout arguments one after the other,
    as the members of a struct would be written.
   */
  method WriteParamsIn(list: seq<NamedValue>, out: CDROutputStream)
    returns (thrown: bool, ghost tcs: seq<TypeCode>, ghost vs: seq<Value>)
    requires forall a :: a in Ins(list) ==> Typed(a)
    modifies out`buffer
    ensures thrown ==> exists a :: a in Ins(list) && Content(a).None?
    ensures !thrown ==> Hold(Ins(list), tcs, vs)
    ensures !thrown ==> out.buffer == old(out.buffer) + WriteMembers(tcs, vs, |old(out.buffer)|)
  {
    thrown, tcs, vs := false, [], [];
    ghost var base, done := out.buffer, [];
    for i := 0 to |list|
      invariant done == Ins(list[..i])
      invariant Hold(done, tcs, vs) && out.buffer == base + WriteMembers(tcs, vs, |base|)
    {
      InsPrefix(list, i);
      if list[i].flags != ArgOut {
        var any := list[i].value;
        assert any == (done + [any])[|done|] == Ins(list)[|done|];
        thrown, tcs, vs := WriteNext(done, any, out, base, tcs, vs);
        if thrown {
          return;
        }
        done := done + [any];
      }
    }
    assert list[..|list|] == list;
  }

  lemma InsPrefix(list: seq<NamedValue>, i: nat)
    requires i < |list|
    ensures Ins(list[..i + 1]) == Ins(list[..i]) + (if list[i].flags != ArgOut then [list[i].value] else [])
    ensures Ins(list[..i + 1]) <= Ins(list)
    decreases |list| - i
  {
    assert list[..i + 1][..i] == list[..i];
    if i + 1 == |list| {
      assert list[..i + 1] == list;
    } else {
      InsPrefix(list, i + 1);
      assert Ins(list[..i + 2])[..|Ins(list[..i + 1])|] == Ins(list[..i + 1]);
    }
  }

  /** The in and the inout arguments are among them, one place for each, and the out arguments are not. */
  lemma InsAreInAndInout(list: seq<NamedValue>, i: nat)
    requires i < |list|
    ensures Ins(list[..0]) == [] && Ins(list[..|list|]) == Ins(list)
    ensures list[i].flags == ArgIn || list[i].flags == ArgInout ==>
              Ins(list[..i + 1]) == Ins(list[..i]) + [list[i].value] && |Ins(list[..i])| < |Ins(list)|
              && Ins(list)[|Ins(list[..i])|] == list[i].value
    ensures list[i].flags == ArgOut ==> Ins(list[..i + 1]) == Ins(list[..i])
  {
    InsPrefix(list, i);
    assert list[..|list|] == list;
  }

  // ---------- reading ----------

  /** A value of type `t` stands between the `k`-th position and the next one. */
  ghost predicate Reaches(b: seq<octet>, t: TypeCode, starts: seq<nat>, k: nat)
    requires k + 1 < |starts|
  {
    Read(t, b, starts[k]).Some? && Read(t, b, starts[k]).value.1 == starts[k + 1]
  }

  /** And it can be passed over. */
  ghost predicate Passes(b: seq<octet>, t: TypeCode, starts: seq<nat>, k: nat)
    requires k < |starts|
  {
    Passable(t, b, starts[k])
  }

  /** Where an eager reader finds each value. */
  ghost function StartsOf(tcs: seq<TypeCode>, b: seq<octet>, pos: nat): (r: seq<nat>)
    requires ReadMembers(tcs, b, pos).Some?
    ensures |r| == |tcs| + 1 && r[0] == pos
    ensures forall k :: 0 <= k < |tcs| ==> Reaches(b, tcs[k], r, k)
  {
    if tcs == [] then [pos] else
    [pos] + StartsOf(tcs[1..], b, Read(tcs[0], b, pos).value.1)
  }

  lemma {:induction false} EagerValues(tcs: seq<TypeCode>, b: seq<octet>, pos: nat, k: nat)
    requires ReadMembers(tcs, b, pos).Some? && k < |tcs|
    ensures |ReadMembers(tcs, b, pos).value.0| == |tcs|
    ensures Read(tcs[k], b, StartsOf(tcs, b, pos)[k]).value.0 == ReadMembers(tcs, b, pos).value.0[k]
    decreases tcs
  {
    var p := Read(tcs[0], b, pos).value.1;
    if k > 0 {
      EagerValues(tcs[1..], b, p, k - 1);
    } else if |tcs| > 1 {
      EagerValues(tcs[1..], b, p, 0);
    }
  }

  /** Anys that were never read, all different, of types `tcs`. */
  ghost predicate Readable(anys: seq<AnyImpl>, tcs: seq<TypeCode>)
    reads anys
  {
    && |anys| == |tcs|
    && (forall i, j :: 0 <= i < j < |anys| ==> anys[i] != anys[j])
    && forall k :: 0 <= k < |anys| ==> anys[k].Unread() && anys[k].tc == tcs[k]
  }

  /** `n` Anys of `anys` are read and make up the session; the others were not touched. */
  ghost predicate Reading(s: Session, input: CDRInputStream, anys: seq<AnyImpl>, tcs: seq<TypeCode>, starts: seq<nat>, n: nat)
    requires n <= |anys| == |tcs| && |starts| == |tcs| + 1
    reads anys, Streams(s), s.anys, input
  {
    && s.buf == input.buffer && Valid(s) && Follows(s, input)
    && s.anys == anys[..n] && s.types == tcs[..n] && s.starts == starts[..n + 1]
    && forall k :: n <= k < |anys| ==> anys[k].Unread() && anys[k].tc == tcs[k]
  }

  /** `read_value` of the next in or inout argument. */
  method ReadOne(ghost s: Session, any: AnyImpl, input: CDRInputStream, ghost anys: seq<AnyImpl>,
                 ghost tcs: seq<TypeCode>, ghost starts: seq<nat>, ghost n: nat, ghost born: set<object>)
    returns (ghost s': Session, ghost born': set<object>)
    requires n < |anys| == |tcs| && |starts| == |tcs| + 1 && Reaches(input.buffer, tcs[n], starts, n) && anys[n] == any
    requires n > 0 ==> Passes(input.buffer, tcs[n - 1], starts, n - 1)
    requires forall i, j :: 0 <= i < j < |anys| ==> anys[i] != anys[j]
    requires Reading(s, input, anys, tcs, starts, n) && Streams(s) <= born
    modifies any, input
    ensures Reading(s', input, anys, tcs, starts, n + 1) && Streams(s') <= born' && fresh(born' - born)
  {
    s' := Longer(s, any, any.tc);
    assert anys[..n + 1] == anys[..n] + [any];
    assert tcs[..n + 1] == tcs[..n] + [any.tc];
    assert starts[..n + 2] == starts[..n + 1] + [starts[n + 1]];
    ReadNext(s, any, input);
    born' := if any.marshaled == null then born else born + {any.marshaled};
  }

  lemma NextIn(list: seq<NamedValue>, i: nat, anys: seq<AnyImpl>)
    requires i < |list| && anys == Ins(list)
    ensures var n, n' := |Ins(list[..i])|, |Ins(list[..i + 1])|;
            if list[i].flags != ArgOut then n' == n + 1 <= |anys| && anys[n] == list[i].value else n' == n
  {
    InsPrefix(list, i);
    if list[i].flags != ArgOut {
      assert Ins(list[..i + 1])[|Ins(list[..i])|] == list[i].value;
    }
  }

  /** The values stand between the positions `starts`, and all but the last can be passed over. */
  ghost predicate Plan(b: seq<octet>, tcs: seq<TypeCode>, starts: seq<nat>) {
    && |starts| == |tcs| + 1
    && (forall k :: 0 <= k < |tcs| ==> Reaches(b, tcs[k], starts, k))
    && (forall k :: 0 <= k < |tcs| - 1 ==> Passes(b, tcs[k], starts, k))
  }

  /** What is read of the stream: the first `n` values that stand between the positions `starts`. */
  ghost predicate Progress(s: Session, input: CDRInputStream, anys: seq<AnyImpl>, tcs: seq<TypeCode>, starts: seq<nat>,
                           n: nat, born: set<object>)
    reads anys, Streams(s), s.anys, input
  {
    && n <= |anys| == |tcs| && Plan(input.buffer, tcs, starts)
    && Reading(s, input, anys, tcs, starts, n) && Streams(s) <= born
    && (forall i, j :: 0 <= i < j < |anys| ==> anys[i] != anys[j])
  }

  /** One argument: read, unless it is an out argument. */
  method ReadArgument(arg: NamedValue, input: CDRInputStream, ghost s: Session, ghost anys: seq<AnyImpl>,
                      ghost tcs: seq<TypeCode>, ghost starts: seq<nat>, ghost n: nat, ghost born: set<object>)
    returns (ghost s': Session, ghost n': nat, ghost born': set<object>)
    requires Progress(s, input, anys, tcs, starts, n, born)
    requires arg.flags != ArgOut ==> n < |anys| && anys[n] == arg.value
    modifies if arg.flags != ArgOut then {arg.value, input} else {}
    ensures Progress(s', input, anys, tcs, starts, n', born') && fresh(born' - born)
    ensures n' == if arg.flags != ArgOut then n + 1 else n
  {
    s', n', born' := s, n, born;
    if arg.flags != ArgOut {
      s', born' := ReadOne(s, arg.value, input, anys, tcs, starts, n, born);
      n' := n + 1;
    }
  }

  lemma NothingRead(input: CDRInputStream, anys: seq<AnyImpl>, tcs: seq<TypeCode>, starts: seq<nat>)
    requires Readable(anys, tcs) && input.pointOk
    requires Plan(input.buffer, tcs, starts) && starts[0] == input.position
    ensures Progress(Session(input.buffer, [], [], [input.position], [], 0), input, anys, tcs, starts, 0, {})
  {
  }

  /** The loop over the arguments. */
  method ReadArguments(list: seq<NamedValue>, input: CDRInputStream,
                       ghost anys: seq<AnyImpl>, ghost tcs: seq<TypeCode>, ghost starts: seq<nat>)
    returns (ghost s: Session)
    requires anys == Ins(list) && Readable(anys, tcs) && input.pointOk
    requires Plan(input.buffer, tcs, starts) && starts[0] == input.position
    modifies anys, input
    ensures Valid(s) && Follows(s, input) && fresh(Streams(s))
    ensures s.anys == anys && s.types == tcs && s.buf == input.buffer && s.starts == starts
  {
    s := Session(input.buffer, [], [], [input.position], [], 0);
    NothingRead(input, anys, tcs, starts);
    ghost var n, born: set<object> := 0, {};
    for i := 0 to |list|
      invariant n == |Ins(list[..i])| && Progress(s, input, anys, tcs, starts, n, born) && fresh(born)
    {
      NextIn(list, i, anys);
      s, n, born := ReadArgument(list[i], input, s, anys, tcs, starts, n, born);
    }
    assert list[..|list|] == list;
    AllRead(s, input, anys, tcs, starts, born);
  }

  /**
    `read_params_in`: the in and inout Anys become a session over the values an eager reader would
    find; nothing else changes, so out arguments are left alone.
   */
  method ReadParamsIn(list: seq<NamedValue>, input: CDRInputStream, ghost anys: seq<AnyImpl>, ghost tcs: seq<TypeCode>)
    returns (ghost s: Session)
    requires anys == Ins(list) && Readable(anys, tcs) && input.pointOk
    requires ReadMembers(tcs, input.buffer, input.position).Some?
    requires var starts := StartsOf(tcs, input.buffer, input.position);
             forall k :: 0 <= k < |tcs| - 1 ==> Passes(input.buffer, tcs[k], starts, k)
    modifies anys, input
    ensures Valid(s) && Follows(s, input) && fresh(Streams(s))
    ensures s.anys == anys && s.types == tcs && s.buf == input.buffer
    ensures s.starts == StartsOf(tcs, input.buffer, old(input.position))
  {
    s := ReadArguments(list, input, anys, tcs, StartsOf(tcs, input.buffer, input.position));
  }

  lemma AllRead(s: Session, input: CDRInputStream, anys: seq<AnyImpl>, tcs: seq<TypeCode>, starts: seq<nat>, born: set<object>)
    requires Progress(s, input, anys, tcs, starts, |anys|, born)
    ensures s.anys == anys && s.types == tcs && s.starts == starts
    ensures Valid(s) && Follows(s, input) && s.buf == input.buffer && Streams(s) <= born
  {
  }

  // ---------- one request ----------

  /** Forcing Anys in any order, some of them again and again, gives what an eager reader would. */
  method ForceAll(ghost s: Session, anys: seq<AnyImpl>, order: seq<nat>) returns (vs: seq<Option<Value>>)
    requires Valid(s) && s.anys == anys && forall i :: 0 <= i < |order| ==> order[i] < |anys|
    modifies s.anys, Streams(s)
    ensures Valid(s) && Renewed(s)
    ensures |vs| == |order| && forall i :: 0 <= i < |order| ==> vs[i] == Wanted(s, order[i])
  {
    vs := [];
    for n := 0 to |order|
      invariant Valid(s) && Renewed(s)
      invariant |vs| == n && forall i :: 0 <= i < n ==> vs[i] == Wanted(s, order[i])
    {
      var v := Force(s, order[n], anys[order[n]]);
      vs := vs + [v];
    }
  }

  /** The session read from what was written wants the values that were written. */
  lemma WantsWhatWasWritten(s: Session, tcs: seq<TypeCode>, ws: seq<Value>, b: seq<octet>, pos: nat, k: nat)
    requires HaveTypes(ws, tcs) && Stands(WriteMembers(tcs, ws, pos), b, pos) && k < |tcs| == |ws|
    requires ReadMembers(tcs, b, pos).Some?
    requires Shape(s) && s.types == tcs && s.buf == b && s.starts == StartsOf(tcs, b, pos)
    ensures Wanted(s, k) == if tcs[k] == TkNull then None else Some(ws[k])
  {
    MembersRoundTrip(tcs, ws, b, pos);
    WantedIsEager(s, k);
    EagerValues(tcs, b, pos, k);
  }

  /** Every structured value but the last has its `long double`s well placed when the values are written from `pos` on. */
  predicate PlacedButLast(tcs: seq<TypeCode>, vs: seq<Value>, pos: nat)
    requires HaveTypes(vs, tcs)
  {
    |tcs| <= 1 || ((Basic(tcs[0]) || Placed(tcs[0], vs[0], pos)) && PlacedButLast(tcs[1..], vs[1..], pos + |Write(tcs[0], vs[0], pos)|))
  }

  /** So each value that was written, but the last, can be passed over. */
  lemma {:induction false} PlacedPasses(tcs: seq<TypeCode>, ws: seq<Value>, b: seq<octet>, pos: nat, k: nat)
    requires HaveTypes(ws, tcs) && Stands(WriteMembers(tcs, ws, pos), b, pos) && PlacedButLast(tcs, ws, pos)
    requires ReadMembers(tcs, b, pos).Some? && k < |tcs| - 1
    ensures Passes(b, tcs[k], StartsOf(tcs, b, pos), k)
    decreases tcs
  {
    var mid := pos + |Write(tcs[0], ws[0], pos)|;
    FirstAndRest(tcs, ws, b, pos, mid);
    if k == 0 {
      PassesFirst(tcs[0], ws[0], b, pos, mid);
    } else {
      PlacedPasses(tcs[1..], ws[1..], b, mid, k - 1);
      PassesRest(tcs, b, pos, mid, k);
    }
  }

  /** The first value, and that the others stand behind it as they were written. */
  lemma FirstAndRest(tcs: seq<TypeCode>, ws: seq<Value>, b: seq<octet>, pos: nat, mid: nat)
    requires HaveTypes(ws, tcs) && Stands(WriteMembers(tcs, ws, pos), b, pos) && |tcs| > 1
    requires mid == pos + |Write(tcs[0], ws[0], pos)| && ReadMembers(tcs, b, pos).Some?
    ensures HasType(ws[0], tcs[0]) && Read(tcs[0], b, pos) == Some((ws[0], mid))
    ensures HaveTypes(ws[1..], tcs[1..]) && Stands(WriteMembers(tcs[1..], ws[1..], mid), b, mid)
    ensures ReadMembers(tcs[1..], b, mid).Some?
  {
    var first := Write(tcs[0], ws[0], pos);
    StandsApart(first, WriteMembers(tcs[1..], ws[1..], mid), b, pos);
    RoundTrip(tcs[0], ws[0], b, pos);
  }

  lemma PassesRest(tcs: seq<TypeCode>, b: seq<octet>, pos: nat, mid: nat, k: nat)
    requires 0 < k < |tcs| && ReadMembers(tcs, b, pos).Some? && Read(tcs[0], b, pos).value.1 == mid
    requires ReadMembers(tcs[1..], b, mid).Some? && Passes(b, tcs[1..][k - 1], StartsOf(tcs[1..], b, mid), k - 1)
    ensures Passes(b, tcs[k], StartsOf(tcs, b, pos), k)
  {
    assert StartsOf(tcs, b, pos)[k] == StartsOf(tcs[1..], b, mid)[k - 1];
  }

  lemma PassesFirst(t: TypeCode, v: Value, b: seq<octet>, pos: nat, mid: nat)
    requires Read(t, b, pos) == Some((v, mid)) && HasType(v, t) && (Basic(t) || Placed(t, v, pos))
    ensures Passable(t, b, pos)
  {
    if !Basic(t) {
      PlacedIsPassable(t, b, pos);
    }
  }

  /** The server's side: the values `ws` that stand in the buffer are what it finds. */
  method Receive(server: seq<NamedValue>, to: seq<AnyImpl>, ghost tcs: seq<TypeCode>, ghost ws: seq<Value>,
                 buffer: seq<octet>, pos: nat, order: seq<nat>)
    returns (vs: seq<Option<Value>>)
    requires to == Ins(server) && Readable(to, tcs) && forall i :: 0 <= i < |order| ==> order[i] < |to|
    requires |ws| == |tcs| && HaveTypes(ws, tcs) && Stands(WriteMembers(tcs, ws, pos), buffer, pos)
    requires PlacedButLast(tcs, ws, pos)
    modifies to
    ensures |vs| == |order|
    ensures forall i :: 0 <= i < |order| ==> vs[i] == if tcs[order[i]] == TkNull then None else Some(ws[order[i]])
  {
    MembersRoundTrip(tcs, ws, buffer, pos);
    forall k | 0 <= k < |tcs| - 1
      ensures Passes(buffer, tcs[k], StartsOf(tcs, buffer, pos), k)
    {
      PlacedPasses(tcs, ws, buffer, pos, k);
    }
    var input := new CDRInputStream(buffer, pos);
    ghost var s := ReadParamsIn(server, input, to, tcs);
    vs := ForceAll(s, to, order);
    forall i | 0 <= i < |order|
      ensures vs[i] == if tcs[order[i]] == TkNull then None else Some(ws[order[i]])
    {
      WantsWhatWasWritten(s, tcs, ws, buffer, pos, order[i]);
    }
  }

  lemma SameTypes(anys: seq<AnyImpl>, tcs: seq<TypeCode>, tcs': seq<TypeCode>, ws: seq<Value>)
    requires Hold(anys, tcs', ws) && |anys| == |tcs| && forall k :: 0 <= k < |anys| ==> anys[k].tc == tcs[k]
    ensures tcs' == tcs
  {
  }

  lemma StandsAfter(base: seq<octet>, w: seq<octet>)
    ensures Stands(w, base + w, |base|)
  {
  }

  /**
    A request from `client` to `server`: whatever the order in which the server asks for its in and
    inout arguments, it finds the values of the client.  It fails only if an argument has no value.
   */
  method Transfer(client: seq<NamedValue>, server: seq<NamedValue>, ghost from: seq<AnyImpl>, to: seq<AnyImpl>,
                  ghost tcs: seq<TypeCode>, out: CDROutputStream, order: seq<nat>)
    returns (thrown: bool, vs: seq<Option<Value>>)
    requires from == Ins(client) && to == Ins(server)
    requires |from| == |tcs| && forall k :: 0 <= k < |from| ==> from[k].tc == tcs[k] && Typed(from[k])
    requires Readable(to, tcs) && forall i :: 0 <= i < |order| ==> order[i] < |to|
    requires forall ws :: Hold(from, tcs, ws) ==> PlacedButLast(tcs, ws, |out.buffer|)
    modifies out`buffer, to
    ensures thrown ==> exists k :: 0 <= k < |from| && old(Content(from[k])).None?
    ensures !thrown ==> |vs| == |order|
    ensures !thrown ==> forall i :: 0 <= i < |order| ==>
              vs[i] == if tcs[order[i]] == TkNull then None else old(Content(from[order[i]]))
    ensures forall arg :: arg in server && arg.value !in to ==> unchanged(arg.value)
  {
    var pos := |out.buffer|;
    ghost var tcs', ws;
    vs := [];
    thrown, tcs', ws := WriteParamsIn(client, out);
    if thrown {
      return;
    }
    SameTypes(from, tcs, tcs', ws);
    StandsAfter(old(out.buffer), WriteMembers(tcs, ws, pos));
    vs := Receive(server, to, tcs, ws, out.buffer, pos, order);
  }
}
