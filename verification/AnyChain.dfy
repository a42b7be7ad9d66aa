/**
  Lazy unmarshalling of Anys (`AnyImpl`).

  The first structured Any read from a stream is not skipped: it only keeps a copy of the stream.
  From then on the position of the stream is unknown, and each later Any only records its
  predecessor.  An Any that is asked for its value finds its start by asking its predecessor for
  its end, and so on up the chain.
 */
module AnyChain {
  import opened Prelude
  import opened Octet
  import opened Cdr

  /** `CDRInputStream`: a buffer, a position and a mark, and whether the position is known. */
  class CDRInputStream {
    const buffer: seq<octet>
    var position: nat
    var starting: nat
    var pointOk: bool
    var anyRef: AnyImpl?

    constructor (buffer: seq<octet>, position: nat)
      ensures this.buffer == buffer && this.position == this.starting == position
      ensures pointOk && anyRef == null
    {
      this.buffer := buffer;
      this.position := position;
      starting := position;
      pointOk := true;
      anyRef := null;
    }

    method Copy() returns (c: CDRInputStream)
      ensures fresh(c)
      ensures c.buffer == buffer && c.position == position && c.starting == starting && c.pointOk == pointOk
    {
      c := new CDRInputStream(buffer, position);
      c.starting := starting;
      c.pointOk := pointOk;
    }

    method FixStarting()
      modifies this`starting
      ensures starting == position
    {
      starting := position;
    }

    method Rewind()
      modifies this`position
      ensures position == starting
    {
      position := starting;
    }
  }

  /** Kinds that `read_value` reads at once: everything but structs and sequences. */
  predicate Basic(tc: TypeCode) {
    !tc.TkStruct? && !tc.TkSequence?
  }

  /** A stream is moved over the value to where it ends: by reading it, or by skipping it to the right place. */
  ghost predicate Passable(t: TypeCode, b: seq<octet>, pos: nat) {
    Read(t, b, pos).Some? && (Basic(t) || Skip(t, b, pos) == Some(Read(t, b, pos).value.1))
  }

  /** A value whose every `long double` is well placed can be passed over. */
  lemma PlacedIsPassable(t: TypeCode, b: seq<octet>, pos: nat)
    requires PlacedAt(t, b, pos)
    ensures Passable(t, b, pos)
  {
    SkipEndsWhereReadEnds(t, b, pos);
  }

  /** `OK`, `DEPENDIENTE`, `PRIMERO`. */
  datatype SkipState = Ok | Dependent | First

  /** The Any holds what a reader of `tc` at `pos` gets; `tk_null` has no value to hold. */
  function Held(tc: TypeCode, b: seq<octet>, pos: nat): (v: Option<Value>) {
    if tc == TkNull || Read(tc, b, pos).None? then None else Some(Read(tc, b, pos).value.0)
  }

  // ---------- sessions ----------

  /** An eager reader finds value `k` between `starts[k]` and `starts[k + 1]`. */
  ghost predicate Spans(b: seq<octet>, types: seq<TypeCode>, starts: seq<nat>, vals: seq<Option<Value>>, k: nat)
    requires k < |types| == |vals| && |starts| == |types| + 1
  {
    && Read(types[k], b, starts[k]).Some? && Read(types[k], b, starts[k]).value.1 == starts[k + 1]
    && vals[k] == Held(types[k], b, starts[k])
  }

  ghost predicate Eager(b: seq<octet>, types: seq<TypeCode>, starts: seq<nat>, vals: seq<Option<Value>>) {
    && |starts| == |types| + 1 && |vals| == |types|
    && forall k :: 0 <= k < |types| ==> Spans(b, types, starts, vals, k)
  }

  /**
    The Anys read so far from one stream, and what an eager reader finds in their places; those
    before `first` are basic and were read at once.
   */
  datatype Session = Session(buf: seq<octet>, anys: seq<AnyImpl>, types: seq<TypeCode>, starts: seq<nat>,
                             vals: seq<Option<Value>>, first: nat)

  /** Value `k` can be passed over, as a reader of a later one must. */
  ghost predicate PassableAt(s: Session, k: nat)
    requires k < |s.types| && |s.starts| == |s.types| + 1
  {
    Passable(s.types[k], s.buf, s.starts[k])
  }

  ghost predicate Shape(s: Session) {
    && |s.anys| == |s.types| && s.first <= |s.anys|
    && Eager(s.buf, s.types, s.starts, s.vals)
    && (forall i, j :: 0 <= i < j < |s.anys| ==> s.anys[i] != s.anys[j])
    && (forall k :: 0 <= k < |s.types| - 1 ==> PassableAt(s, k))
    && (forall k :: 0 <= k < s.first ==> Basic(s.types[k]))
    && (s.first < |s.types| ==> !Basic(s.types[s.first]))
  }

  /** What the reader of Any `k` must find in it. */
  ghost function Wanted(s: Session, k: nat): Option<Value>
    requires k < |s.vals|
  {
    s.vals[k]
  }

  lemma WantedIsEager(s: Session, k: nat)
    requires Shape(s) && k < |s.types|
    ensures Read(s.types[k], s.buf, s.starts[k]).Some? && Read(s.types[k], s.buf, s.starts[k]).value.1 == s.starts[k + 1]
    ensures Wanted(s, k) == Held(s.types[k], s.buf, s.starts[k])
  {
    assert Spans(s.buf, s.types, s.starts, s.vals, k);
  }

  ghost predicate At(c: CDRInputStream?, b: seq<octet>, pos: nat)
    reads c
  {
    c != null && c.buffer == b && c.position == pos
  }

  /**
    Any `k` of the chain.  A dependent one knows its predecessor; the first one, or one that was
    asked for its end, knows its start; one that was read knows its value and its end.
   */
  ghost predicate Good(s: Session, k: nat)
    requires k < |s.anys| == |s.types| == |s.vals| && |s.starts| == |s.types| + 1
    reads s.anys[k], s.anys[k].marshaled
  {
    var a := s.anys[k];
    && a.tc == s.types[k]
    && if k < s.first then a.state == Ok && a.value == Wanted(s, k) && a.marshaled == null else
       && (k == s.first ==> a.anyRef == null && a.state != Dependent)
       && (k > s.first ==> a.anyRef == s.anys[k - 1] && a.typecode == Some(s.types[k]))
       && match a.state
          case Dependent => a.value == None && a.marshaled == null
          case First =>
            && At(a.marshaled, s.buf, s.starts[k]) && a.marshaled.starting == s.starts[k]
            && a.value == (if Basic(s.types[k]) then Wanted(s, k) else None)
          case Ok => At(a.marshaled, s.buf, s.starts[k + 1]) && a.value == Wanted(s, k)
  }

  ghost function Streams(s: Session): (r: set<object>)
    reads s.anys
  {
    set k | 0 <= k < |s.anys| && s.anys[k].marshaled != null :: s.anys[k].marshaled
  }

  /** No two Anys of the chain share a stream. */
  ghost predicate Apart(s: Session)
    reads s.anys
  {
    forall i, j :: s.first <= i < j < |s.anys| && s.anys[i].marshaled != null ==> s.anys[i].marshaled != s.anys[j].marshaled
  }

  /** Every stream in the session was in it before, or is new. */
  twostate predicate Renewed(s: Session)
    reads s.anys
  {
    forall j :: 0 <= j < |s.anys| && s.anys[j].marshaled != null ==>
      s.anys[j].marshaled == old(s.anys[j].marshaled) || fresh(s.anys[j].marshaled)
  }

  /**
    Any `k` was asked for its end at most once.  A second question to a basic Any would go wrong:
    reading it again marks it `Ok` while its stream still stands at its start.
   */
  ghost predicate AskedOnce(s: Session, k: nat)
    requires k < |s.anys| == |s.types|
    reads s.anys
  {
    s.first <= k && s.anys[k].state == First && Basic(s.types[k]) ==>
      k + 1 < |s.anys| && s.anys[k + 1].state != Dependent
  }

  ghost predicate Valid(s: Session)
    reads s.anys, Streams(s)
  {
    && Shape(s)
    && (forall k :: 0 <= k < |s.anys| ==> Good(s, k))
    && (forall k :: 0 <= k < |s.anys| ==> AskedOnce(s, k))
    && Apart(s)
  }

  class AnyImpl {
    var state: SkipState
    var anyRef: AnyImpl?
    var typecode: Option<TypeCode>
    var tc: TypeCode
    var marshaled: CDRInputStream?
    var value: Option<Value>

    constructor (tc: TypeCode)
      ensures Unread() && this.tc == tc && value == None
    {
      state := Ok;
      anyRef := null;
      typecode := None;
      this.tc := tc;
      marshaled := null;
      value := None;
    }

    /** An Any that was never read from a stream. */
    predicate Unread()
      reads this
    {
      state == Ok && anyRef == null
    }

    method ResetValue()
      modifies this`value, this`marshaled
      ensures value == None
      ensures marshaled == if anyRef == null then null else old(marshaled)
    {
      value := None;
      if marshaled != null && anyRef == null {
        marshaled := null;
      }
    }

    method SetType(t: TypeCode)
      modifies this`tc, this`value, this`marshaled
      ensures tc == t && value == None
      ensures marshaled == if anyRef == null then null else old(marshaled)
    {
      tc := t;
      ResetValue();
    }

    /** `insert_*`: the value of a scalar, a string or a structure put in by the user. */
    method Insert(v: Value, t: TypeCode)
      modifies this`tc, this`value, this`marshaled
      ensures tc == t && value == Some(v)
      ensures marshaled == if anyRef == null then null else old(marshaled)
    {
      SetType(t);
      value := Some(v);
    }

    /**
      `read_value`.  On a stream whose position is unknown, an Any that is not being skipped only
      joins the chain.  A basic value is read; a structured one is kept unread, and only in skip
      mode does the stream move over it.
     */
    method ReadValue(input: CDRInputStream, t: TypeCode, skipMode: bool) returns (thrown: bool)
      modifies this, input
      ensures input.starting == old(input.starting)
      ensures !skipMode && !old(input.pointOk) ==>
                && !thrown && state == Dependent && value == None && tc == old(tc)
                && anyRef == old(input.anyRef) && typecode == Some(t)
                && marshaled == (if old(anyRef) == null then null else old(marshaled))
                && input.anyRef == this && !input.pointOk && input.position == old(input.position)
      ensures skipMode || old(input.pointOk) ==> anyRef == old(anyRef) && typecode == old(typecode)
      ensures (skipMode || old(input.pointOk)) && Basic(t) ==>
                && thrown == Read(t, input.buffer, old(input.position)).None?
                && (!thrown ==>
                      && state == Ok && tc == t && value == Held(t, input.buffer, old(input.position))
                      && marshaled == (if anyRef == null then null else old(marshaled))
                      && input.position == Read(t, input.buffer, old(input.position)).value.1
                      && input.pointOk == old(input.pointOk) && input.anyRef == old(input.anyRef))
      ensures (skipMode || old(input.pointOk)) && !Basic(t) ==>
                && tc == t && value == None
                && marshaled != null && fresh(marshaled) && marshaled.buffer == input.buffer
                && marshaled.position == marshaled.starting == old(input.position)
      ensures !skipMode && old(input.pointOk) && !Basic(t) ==>
                && !thrown && state == First
                && input.anyRef == this && !input.pointOk && input.position == old(input.position)
      ensures skipMode && !Basic(t) ==>
                && state == old(state)
                && thrown == Skip(t, input.buffer, old(input.position)).None?
                && (!thrown ==> Skip(t, input.buffer, old(input.position)) == Some(input.position))
    {
      thrown := false;
      if !skipMode && !input.pointOk {
        ResetValue();
        anyRef := input.anyRef;
        typecode := Some(t);
        input.anyRef := this;
        state := Dependent;
        return;
      }
      var saved := state;
      state := Ok;
      if Basic(t) {
        var r := Read(t, input.buffer, input.position);
        if r.None? {
          thrown := true;
          return;
        }
        input.position := r.value.1;
        if t == TkNull {
          SetType(t);
        } else {
          Insert(r.value.0, t);
        }
        return;
      }
      state := saved;
      if !skipMode {
        state := First;
        SetType(t);
        marshaled := input.Copy();
        marshaled.FixStarting();
        input.pointOk := false;
        input.anyRef := this;
      } else {
        SetType(t);
        marshaled := input.Copy();
        marshaled.FixStarting();
        var r := Skip(t, input.buffer, input.position);
        if r.None? {
          thrown := true;
          return;
        }
        input.position := r.value;
      }
    }
  
    /** `read_value` in skip mode on a readable stream: the stream moves to the end of the value. */
    method PassOver(input: CDRInputStream, t: TypeCode)
      requires Passable(t, input.buffer, input.position)
      modifies this, input
      ensures input.position == Read(t, input.buffer, old(input.position)).value.1
      ensures tc == t && anyRef == old(anyRef) && typecode == old(typecode)
      ensures Basic(t) ==>
                && state == Ok && value == Held(t, input.buffer, old(input.position))
                && marshaled == (if anyRef == null then null else old(marshaled))
      ensures !Basic(t) ==>
                && state == old(state) && value == None
                && marshaled != null && fresh(marshaled) && marshaled.buffer == input.buffer
                && marshaled.position == marshaled.starting == old(input.position)
    {
      var thrown := ReadValue(input, t, true);
    }

    /** The link of Any `k` to its predecessor. */
    ghost predicate Linked(s: Session, k: nat)
      requires s.first <= k < |s.anys| == |s.types|
      reads this
    {
      && tc == s.types[k]
      && (k == s.first ==> anyRef == null)
      && (k > s.first ==> anyRef == s.anys[k - 1] && typecode == Some(s.types[k]))
    }

    /** `input` stands at the end of Any `k`, and every other Any is as it must be. */
    ghost predicate Answers(s: Session, k: nat, input: CDRInputStream)
      requires Shape(s) && s.first <= k < |s.anys| && s.anys[k] == this
      reads s.anys, Streams(s), input
    {
      && At(input, s.buf, s.starts[k + 1]) && input.starting == input.position
      && (forall j :: 0 <= j < |s.anys| && j != k ==> Good(s, j) && AskedOnce(s, j))
      && (forall j :: 0 <= j < |s.anys| && j != k ==> s.anys[j].marshaled != input)
      && Apart(s)
      && Linked(s, k) && state != Dependent
    }

    /**
      `skip_value`: a stream that stands at the end of this Any.  `own` tells whether the caller
      passed `m_marshaled_value` itself by reference, as `extract_*` does; the predecessor then
      already stored the stream here, and no copy is taken.
     */
    method SkipValue(ghost s: Session, ghost k: nat, own: bool) returns (input: CDRInputStream)
      requires Valid(s) && s.first <= k < |s.anys| && s.anys[k] == this
      requires own ==> state == Dependent && Basic(s.types[k])
      requires !own ==> k + 1 < |s.anys| && s.anys[k + 1].state == Dependent
      modifies s.anys
      ensures fresh(input) && Answers(s, k, input) && Renewed(s)
      ensures forall j :: k < j < |s.anys| ==> unchanged(s.anys[j])
      ensures if own then marshaled == input && value == Wanted(s, k) else Good(s, k) && marshaled != input
      decreases k, 1
    {
      assert Good(s, k) && AskedOnce(s, k);
      if state == Ok {
        input := marshaled.Copy();
        input.FixStarting();
      } else if state == First {
        input := SkipFirst(s, k);
      } else {
        input := SkipDependent(s, k, own);
      }
    }

    /** The case `PRIMERO`. */
    method SkipFirst(ghost s: Session, ghost k: nat) returns (input: CDRInputStream)
      requires Valid(s) && s.first <= k < |s.anys| && s.anys[k] == this
      requires state == First && k + 1 < |s.anys| && s.anys[k + 1].state == Dependent
      modifies this
      ensures fresh(input) && Answers(s, k, input) && Renewed(s)
      ensures Good(s, k) && marshaled != input
    {
      assert Good(s, k) && AskedOnce(s, k);
      WantedIsEager(s, k);
      assert PassableAt(s, k);
      input := marshaled.Copy();
      PassOver(input, tc);
      input.FixStarting();
      assert Good(s, k);
      forall j | 0 <= j < |s.anys| && j != k
        ensures Good(s, j) && AskedOnce(s, j)
      {
        assert old(Good(s, j) && AskedOnce(s, j));
        assert s.anys[j] != this && (j + 1 < |s.anys| && j + 1 != k ==> s.anys[j + 1] != this);
      }
    }

    /** The case `DEPENDIENTE`. */
    method SkipDependent(ghost s: Session, ghost k: nat, own: bool) returns (input: CDRInputStream)
      requires Valid(s) && s.first <= k < |s.anys| && s.anys[k] == this && state == Dependent
      requires own ==> Basic(s.types[k])
      requires !own ==> k + 1 < |s.anys| && s.anys[k + 1].state == Dependent
      modifies s.anys
      ensures fresh(input) && Answers(s, k, input) && Renewed(s)
      ensures forall j :: k < j < |s.anys| ==> unchanged(s.anys[j])
      ensures if own then marshaled == input && value == Wanted(s, k) else Good(s, k) && marshaled != input
      decreases k, 0
    {
      assert Good(s, k);
      input := anyRef.SkipValue(s, k - 1, false);
      if own {
        JoinOwn(s, k, input);
      } else {
        JoinCopy(s, k, input);
      }
    }

    /** The rest of it, on this Any alone: `input` stands at the start of its value. */
    method Join(own: bool, input: CDRInputStream, ghost t: TypeCode)
      requires state == Dependent && marshaled == null && anyRef != null && typecode == Some(t)
      requires Passable(t, input.buffer, input.position) && (own ==> Basic(t))
      modifies this, input
      ensures input.position == input.starting == Read(t, input.buffer, old(input.position)).value.1
      ensures state == First && tc == t && anyRef == old(anyRef) && typecode == old(typecode)
      ensures value == if Basic(t) then Held(t, input.buffer, old(input.position)) else None
      ensures own ==> marshaled == input
      ensures !own ==>
                && marshaled != null && fresh(marshaled) && marshaled.buffer == input.buffer
                && marshaled.position == old(input.position)
                && (old(input.starting == input.position) ==> marshaled.starting == marshaled.position)
    {
      if own {
        marshaled := input;
      } else if marshaled != input {
        marshaled := input.Copy();
      }
      PassOver(input, if typecode.Some? then typecode.value else tc);
      state := First;
      input.FixStarting();
    }

    /** The same in its session, for a caller that passed its own field: `input` comes from the predecessor. */
    method JoinOwn(ghost s: Session, ghost k: nat, input: CDRInputStream)
      requires Shape(s) && s.first < k < |s.anys| && s.anys[k] == this && s.anys[k - 1].Answers(s, k - 1, input)
      requires state == Dependent && Good(s, k - 1) && s.anys[k - 1].marshaled != input && Basic(s.types[k])
      modifies this, input
      ensures Answers(s, k, input) && marshaled == input && value == Wanted(s, k)
    {
      assert Good(s, k);
      WantedIsEager(s, k);
      Join(true, input, s.types[k]);
      forall j | 0 <= j < |s.anys| && j != k
        ensures Good(s, j) && AskedOnce(s, j) && s.anys[j].marshaled != input
      {
        assert s.anys[j] != this && (j + 1 < |s.anys| && j + 1 != k ==> s.anys[j + 1] != this);
        assert old(Good(s, j) && s.anys[j].marshaled != input && (j != k - 1 ==> AskedOnce(s, j)));
      }
    }

    /** And for another Any that asks for the end of this one. */
    method JoinCopy(ghost s: Session, ghost k: nat, input: CDRInputStream)
      requires Shape(s) && s.first < k < |s.anys| - 1 && s.anys[k] == this && s.anys[k - 1].Answers(s, k - 1, input)
      requires state == Dependent && Good(s, k - 1) && s.anys[k - 1].marshaled != input
      modifies this, input
      ensures Answers(s, k, input) && fresh(marshaled) && Good(s, k) && marshaled != input
    {
      assert Good(s, k);
      WantedIsEager(s, k);
      assert PassableAt(s, k);
      Join(false, input, s.types[k]);
      forall j | 0 <= j < |s.anys| && j != k
        ensures Good(s, j) && AskedOnce(s, j) && s.anys[j].marshaled != input
      {
        assert s.anys[j] != this && (j + 1 < |s.anys| && j + 1 != k ==> s.anys[j + 1] != this);
        assert old(Good(s, j) && s.anys[j].marshaled != input && (j != k - 1 ==> AskedOnce(s, j)));
      }
    }

    // ---------- forcing ----------

    /** `extract_*` of a scalar or a string: the value that an eager reader would have found. */
    method Extract(ghost s: Session, ghost k: nat) returns (v: Option<Value>)
      requires Valid(s) && k < |s.anys| && s.anys[k] == this && Basic(s.types[k]) && s.types[k] != TkNull
      modifies s.anys
      ensures Valid(s) && v == Wanted(s, k) && Renewed(s)
    {
      assert Good(s, k);
      WantedIsEager(s, k);
      if value == None && state != Ok {
        ghost var end := SkipValue(s, k, true);
        Finish(s, k);
      }
      v := value;
    }

    /** The state turns `OK` once the value is there and the stream stands at its end. */
    method Finish(ghost s: Session, ghost k: nat)
      requires Shape(s) && s.first <= k < |s.anys| && s.anys[k] == this && Linked(s, k)
      requires forall j :: 0 <= j < |s.anys| && j != k ==> Good(s, j) && (j != k - 1 ==> AskedOnce(s, j))
      requires At(marshaled, s.buf, s.starts[k + 1]) && value == Wanted(s, k) && Apart(s)
      modifies this`state
      ensures Valid(s)
    {
      state := Ok;
      forall j | 0 <= j < |s.anys| && j != k
        ensures Good(s, j) && AskedOnce(s, j)
      {
        assert s.anys[j] != this && (j + 1 < |s.anys| && j + 1 != k ==> s.anys[j + 1] != this);
        assert old(Good(s, j) && (j != k - 1 ==> AskedOnce(s, j)));
      }
      KeptWhenOk(s, k);
    }

    /** An Any that turns `Ok` at its end completes the session. */
    lemma KeptWhenOk(s: Session, k: nat)
      requires Shape(s) && s.first <= k < |s.anys| && s.anys[k] == this && state == Ok && Linked(s, k)
      requires forall j :: 0 <= j < |s.anys| && j != k ==> Good(s, j) && AskedOnce(s, j)
      requires At(marshaled, s.buf, s.starts[k + 1]) && value == Wanted(s, k) && Apart(s)
      ensures Valid(s)
    {
      assert Good(s, k) && AskedOnce(s, k);
    }

    /** This Any has a stream of its own, marked at its start; the others are as they must be. */
    ghost predicate Located(s: Session, k: nat)
      requires Shape(s) && s.first <= k < |s.anys| && s.anys[k] == this
      reads s.anys, Streams(s)
    {
      && (forall j :: 0 <= j < |s.anys| && j != k ==> Good(s, j) && (j != k - 1 ==> AskedOnce(s, j)))
      && (forall j :: 0 <= j < |s.anys| && j != k ==> s.anys[j].marshaled != marshaled)
      && marshaled != null && marshaled.buffer == s.buf && marshaled.starting == s.starts[k]
      && Apart(s) && Linked(s, k)
    }

    /**
      `set_Streamable` and `init_value` of a structured Any: read the value, unless it is already there.
      `thrown` is the BAD_OPERATION of an Any without a stream.
     */
    method InitValue(ghost s: Session, ghost k: nat) returns (thrown: bool)
      requires Valid(s) && k < |s.anys| && s.anys[k] == this && !Basic(s.types[k])
      modifies s.anys, marshaled
      ensures !thrown && Valid(s) && value == Wanted(s, k) && Renewed(s)
    {
      thrown := false;
      assert Good(s, k);
      WantedIsEager(s, k);
      if value.Some? {
        return;
      }
      if state == Dependent {
        AskPredecessor(s, k);
      } else {
        forall j | 0 <= j < |s.anys| && j != k
          ensures s.anys[j].marshaled != marshaled
        {
          assert Good(s, j);
        }
      }
      if marshaled == null {
        thrown := true;
        return;
      }
      ReadHolder(s, k);
    }

    /** The stream of a dependent Any starts where its predecessor ends. */
    method AskPredecessor(ghost s: Session, ghost k: nat)
      requires Valid(s) && s.first <= k < |s.anys| && s.anys[k] == this && state == Dependent
      modifies s.anys
      ensures Located(s, k) && fresh(marshaled) && Renewed(s)
    {
      assert Good(s, k);
      var start := anyRef.SkipValue(s, k - 1, false);
      assert Good(s, k);
      KeepStart(s, k, start);
    }

    method KeepStart(ghost s: Session, ghost k: nat, start: CDRInputStream)
      requires Shape(s) && s.first < k < |s.anys| && s.anys[k] == this && s.anys[k - 1].Answers(s, k - 1, start)
      requires state == Dependent && Good(s, k - 1) && s.anys[k - 1].marshaled != start
      modifies this
      ensures Located(s, k) && marshaled == start
    {
      assert Good(s, k);
      marshaled := start;
      forall j | 0 <= j < |s.anys| && j != k
        ensures Good(s, j) && (j != k - 1 ==> AskedOnce(s, j)) && s.anys[j].marshaled != marshaled
      {
        assert s.anys[j] != this && (j + 1 < |s.anys| && j + 1 != k ==> s.anys[j + 1] != this);
        assert old(Good(s, j) && s.anys[j].marshaled != start && (j != k - 1 ==> AskedOnce(s, j)));
      }
    }

    /** The holder reads the marshaled value from its start, and leaves the stream at its end. */
    method ReadHolder(ghost s: Session, ghost k: nat)
      requires Shape(s) && s.first <= k < |s.anys| && s.anys[k] == this && s.types[k] != TkNull && Located(s, k)
      modifies this, marshaled
      ensures Valid(s) && value == Wanted(s, k) && marshaled == old(marshaled)
    {
      marshaled.Rewind();
      WantedIsEager(s, k);
      var r := Read(tc, marshaled.buffer, marshaled.position);
      value := Some(r.value.0);
      marshaled.position := r.value.1;
      forall j | 0 <= j < |s.anys| && j != k
        ensures Good(s, j) && (j != k - 1 ==> AskedOnce(s, j))
      {
        assert s.anys[j] != this && (j + 1 < |s.anys| && j + 1 != k ==> s.anys[j + 1] != this);
        assert old(Good(s, j) && s.anys[j].marshaled != marshaled && (j != k - 1 ==> AskedOnce(s, j)));
      }
      Finish(s, k);
    }
  }

  /** Force Any `k`: the generated code extracts a basic value and initialises a structured one. */
  method Force(ghost s: Session, ghost k: nat, any: AnyImpl) returns (v: Option<Value>)
    requires Valid(s) && k < |s.anys| && s.anys[k] == any
    modifies s.anys, Streams(s)
    ensures Valid(s) && v == Wanted(s, k)
    ensures Renewed(s)
  {
    assert Good(s, k);
    WantedIsEager(s, k);
    if any.tc == TkNull {
      v := None;
    } else if Basic(any.tc) {
      v := any.Extract(s, k);
    } else {
      var thrown := any.InitValue(s, k);
      v := any.value;
    }
  }

  // ---------- reading one Any after another ----------

  /** The stream after the Anys of the session: at their end, or blocked with the last of them noted. */
  ghost predicate Follows(s: Session, input: CDRInputStream)
    requires |s.anys| == |s.types| && |s.starts| == |s.types| + 1 && s.first <= |s.anys|
    reads s.anys, input
  {
    && input.buffer == s.buf
    && input !in Streams(s)
    && if s.first == |s.anys| then input.pointOk && input.position == s.starts[|s.anys|]
       else !input.pointOk && input.anyRef == s.anys[|s.anys| - 1]
  }

  /** The session with one more Any, whose value is readable where the last one ends. */
  ghost function Longer(s: Session, any: AnyImpl, t: TypeCode): Session
    requires |s.starts| > 0 && Read(t, s.buf, s.starts[|s.starts| - 1]).Some?
  {
    var start := s.starts[|s.starts| - 1];
    var end := Read(t, s.buf, start).value.1;
    Session(s.buf, s.anys + [any], s.types + [t], s.starts + [end], s.vals + [Held(t, s.buf, start)],
            if s.first == |s.anys| && Basic(t) then s.first + 1 else s.first)
  }

  /** Reading the next Any from the stream extends the session. */
  method ReadNext(ghost s: Session, any: AnyImpl, input: CDRInputStream)
    requires Valid(s) && Follows(s, input) && any !in s.anys && any.Unread()
    requires Read(any.tc, s.buf, s.starts[|s.anys|]).Some? && (s.types != [] ==> PassableAt(s, |s.types| - 1))
    modifies any, input
    ensures any.tc == old(any.tc)
    ensures Valid(Longer(s, any, any.tc)) && Follows(Longer(s, any, any.tc), input)
    ensures any.marshaled != null ==> fresh(any.marshaled)
  {
    var thrown := any.ReadValue(input, any.tc, false);
    forall j | 0 <= j < |s.anys|
      ensures Good(s, j) && AskedOnce(s, j)
    {
      assert s.anys[j] != any && (j + 1 < |s.anys| ==> s.anys[j + 1] != any);
      assert old(Good(s, j) && AskedOnce(s, j));
    }
    ValidLonger(s, any, any.tc);
  }

  /** One more Any keeps a session valid if it is itself as it must be. */
  lemma ValidLonger(s: Session, any: AnyImpl, t: TypeCode)
    requires Valid(s) && any !in s.anys && Read(t, s.buf, s.starts[|s.anys|]).Some?
    requires s.types != [] ==> PassableAt(s, |s.types| - 1)
    requires var s' := Longer(s, any, t); Good(s', |s.anys|) && AskedOnce(s', |s.anys|)
    requires forall j :: 0 <= j < |s.anys| && s.anys[j].marshaled != null ==> s.anys[j].marshaled != any.marshaled
    ensures Valid(Longer(s, any, t))
  {
    var s' := Longer(s, any, t);
    assert Shape(s') by {
      EagerLonger(s, t);
      forall k | 0 <= k < |s'.types| - 1
        ensures PassableAt(s', k)
      {
        assert PassableAt(s, k);
      }
    }
    forall j | 0 <= j < |s.anys|
      ensures Good(s', j) && AskedOnce(s', j)
    {
      assert Good(s, j) && AskedOnce(s, j);
    }
  }

  lemma EagerLonger(s: Session, t: TypeCode)
    requires Eager(s.buf, s.types, s.starts, s.vals) && Read(t, s.buf, s.starts[|s.types|]).Some?
    ensures var start := s.starts[|s.types|];
            Eager(s.buf, s.types + [t], s.starts + [Read(t, s.buf, start).value.1], s.vals + [Held(t, s.buf, start)])
  {
    var start := s.starts[|s.types|];
    var types, starts, vals := s.types + [t], s.starts + [Read(t, s.buf, start).value.1], s.vals + [Held(t, s.buf, start)];
    forall k | 0 <= k < |types|
      ensures Spans(s.buf, types, starts, vals, k)
    {
      if k < |s.types| {
        assert Spans(s.buf, s.types, s.starts, s.vals, k);
      }
    }
  }

  // ---------- a chain that goes wrong ----------

  /** A structure of an octet and a `long double`, misplaced at 8, and an octet behind it. */
  const PAIR := TkStruct([TkNumber(TkOctet), TkNumber(TkLongDouble)])
  const OCTET := TkNumber(TkOctet)

  function Misplaced(): (b: seq<octet>)
    ensures |b| == 33 && b[24] == 1 && b[32] == 2
  {
    seq(24, _ => 0) + [1] + seq(7, _ => 0) + [2]
  }

  /** Reading the structure ends at 24, and skipping it at 32. */
  lemma MisplacedLayout()
    ensures var b := Misplaced();
            && Read(PAIR, b, 0).Some? && Read(PAIR, b, 0).value.1 == 24 && Skip(PAIR, b, 0) == Some(32)
            && Read(OCTET, b, 24) == Some((Number([1]), 25)) && Read(OCTET, b, 32) == Some((Number([2]), 33))
  {
    var b := Misplaced();
    PairIsRead(b);
    PairIsSkipped(b);
    OctetAt(b, 24);
    OctetAt(b, 32);
  }

  lemma OctetAt(b: seq<octet>, p: nat)
    requires p < |b|
    ensures Read(OCTET, b, p) == Some((Number([b[p]]), p + 1))
  {
    assert b[p..p + 1] == [b[p]];
  }

  lemma PairIsRead(b: seq<octet>)
    requires |b| == 33
    ensures Read(PAIR, b, 0).Some? && Read(PAIR, b, 0).value.1 == 24
  {
    var tcs := [TkNumber(TkOctet), TkNumber(TkLongDouble)];
    assert tcs[1..] == [TkNumber(TkLongDouble)] && tcs[1..][1..] == [];
    assert Read(tcs[0], b, 0).Some? && Read(tcs[0], b, 0).value.1 == 1;
    LongDoubleAt(b);
    assert ReadMembers(tcs[1..], b, 1).Some? && ReadMembers(tcs[1..], b, 1).value.1 == 24;
  }

  lemma LongDoubleAt(b: seq<octet>)
    requires |b| == 33
    ensures Read(TkNumber(TkLongDouble), b, 1).Some? && Read(TkNumber(TkLongDouble), b, 1).value.1 == 24
    ensures Skip(TkNumber(TkLongDouble), b, 1) == Some(32)
  {
    assert Align(1, 8) == 8 && Align(1, 16) == 16;
  }

  lemma PairIsSkipped(b: seq<octet>)
    requires |b| == 33
    ensures Skip(PAIR, b, 0) == Some(32)
  {
    var tcs := [TkNumber(TkOctet), TkNumber(TkLongDouble)];
    assert tcs[1..] == [TkNumber(TkLongDouble)] && tcs[1..][1..] == [];
    assert Skip(tcs[0], b, 0) == Some(1);
    LongDoubleAt(b);
    assert SkipMembers(tcs[1..], b, 1) == Some(32);
  }

  /**
    Two Anys are read from that buffer and the second is extracted: it asks the first for its end,
    the first skips its value, and the second finds 2 where an eager reader finds 1.
   */
  method SecondComesOutWrong() returns (v: Option<Value>)
    ensures v == Some(Number([2]))
    ensures Read(PAIR, Misplaced(), 0).Some?
    ensures var end := Read(PAIR, Misplaced(), 0).value.1; Held(OCTET, Misplaced(), end) == Some(Number([1]))
  {
    MisplacedLayout();
    var input := new CDRInputStream(Misplaced(), 0);
    var first := new AnyImpl(PAIR);
    var second := new AnyImpl(OCTET);
    var thrown := first.ReadValue(input, PAIR, false);
    thrown := second.ReadValue(input, OCTET, false);
    // `skip_value` of the first, which is PRIMERO
    var end := first.marshaled.Copy();
    thrown := first.ReadValue(end, first.tc, true);
    end.FixStarting();
    // and of the second, which is DEPENDIENTE
    second.marshaled := end;
    thrown := second.ReadValue(end, second.typecode.value, true);
    v := second.value;
  }
}
