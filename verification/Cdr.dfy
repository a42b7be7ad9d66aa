/**
  CDR values: what `CDROutputStream` writes, what `CDRInputStream` and the holders read back, and
  what `TypeCodeImpl::skip_value` jumps over.

  A buffer is one flat sequence of octets and a position is an offset into it; every number is
  aligned to its size, a `long double` to 8.  A number is the octets that it is made of; lengths are
  little-endian.
 */
module Cdr {
  import opened Prelude
  import opened Octet

  datatype NumberKind = TkOctet | TkShort | TkLong | TkLongLong | TkLongDouble

  datatype TypeCode =
    | TkNull
    | TkNumber(kind: NumberKind)
    | TkString
    | TkStruct(members: seq<TypeCode>)
    | TkSequence(element: TypeCode)

  datatype Value =
    | Null
    | Number(octets: seq<octet>)
    | Text(chars: seq<octet>)
    | Struct(fields: seq<Value>)
    | Sequence(items: seq<Value>)

  // ---------- numbers ----------

  function Size(kind: NumberKind): (n: nat)
    ensures IsSize(n)
  {
    match kind
    case TkOctet => 1
    case TkShort => 2
    case TkLong => 4
    case TkLongLong => 8
    case TkLongDouble => 16
  }

  function Alignment(kind: NumberKind): (n: nat)
    ensures IsSize(n) && (kind != TkLongDouble ==> n == Size(kind))
  {
    if kind == TkLongDouble then 8 else Size(kind)
  }

  predicate IsSize(n: nat) {
    n == 1 || n == 2 || n == 4 || n == 8 || n == 16
  }

  function Remainder(pos: nat, size: nat): (r: nat)
    requires IsSize(size)
    ensures r < size
  {
    if size == 1 then 0 else if size == 2 then pos % 2 else if size == 4 then pos % 4
    else if size == 8 then pos % 8 else pos % 16
  }

  /** The next multiple of `size`. */
  function Align(pos: nat, size: nat): (p: nat)
    requires IsSize(size)
    ensures pos <= p < pos + size
  {
    if Remainder(pos, size) == 0 then pos else pos + (size - Remainder(pos, size))
  }

  lemma AlignIsMultiple(pos: nat, size: nat)
    requires IsSize(size)
    ensures Remainder(Align(pos, size), size) == 0
  {
    if size == 2 {
      Next2(pos / 2);
    } else if size == 4 {
      Next4(pos / 4);
    } else if size == 8 {
      Next8(pos / 8);
    } else if size == 16 {
      Next16(pos / 16);
    }
  }

  lemma Next2(q: nat)
    ensures (2 * q) % 2 == 0 && (2 * q + 2) % 2 == 0
  {
  }

  lemma Next4(q: nat)
    ensures (4 * q) % 4 == 0 && (4 * q + 4) % 4 == 0
  {
  }

  lemma Next8(q: nat)
    ensures (8 * q) % 8 == 0 && (8 * q + 8) % 8 == 0
  {
  }

  lemma Next16(q: nat)
    ensures (16 * q) % 16 == 0 && (16 * q + 16) % 16 == 0
  {
  }

  // ---------- reading ----------

  /** `size` octets at the next multiple of `align`; `None` is the MARSHAL exception at the end of the buffer. */
  function ReadNumber(b: seq<octet>, pos: nat, size: nat, align: nat): (r: Option<(nat, nat)>)
    requires IsSize(align)
  {
    var p := Align(pos, align);
    if p + size <= |b| then Some((Bits(b[p..p + size]), p + size)) else None
  }

  /** The value of type `tc` at `pos` and the position after it. */
  function Read(tc: TypeCode, b: seq<octet>, pos: nat): (r: Option<(Value, nat)>)
    decreases tc, 0, 0
  {
    match tc
    case TkNull => Some((Null, pos))
    case TkNumber(kind) =>
      var p := Align(pos, Alignment(kind));
      if p + Size(kind) <= |b| then Some((Number(b[p..p + Size(kind)]), p + Size(kind))) else None
    case TkString =>
      var r := ReadNumber(b, pos, 4, 4);
      if r.None? then None else
      var (length, p) := r.value;
      if length == 0 || p + length > |b| then None else Some((Text(b[p..p + length - 1]), p + length))
    case TkStruct(members) =>
      var r := ReadMembers(members, b, pos);
      if r.None? then None else Some((Struct(r.value.0), r.value.1))
    case TkSequence(element) =>
      var n := ReadNumber(b, pos, 4, 4);
      if n.None? then None else
      var r := ReadItems(element, n.value.0, b, n.value.1);
      if r.None? then None else Some((Sequence(r.value.0), r.value.1))
  }

  function ReadMembers(tcs: seq<TypeCode>, b: seq<octet>, pos: nat): (r: Option<(seq<Value>, nat)>)
    decreases tcs, 0, 0
  {
    if tcs == [] then Some(([], pos)) else
    var first := Read(tcs[0], b, pos);
    if first.None? then None else
    var rest := ReadMembers(tcs[1..], b, first.value.1);
    if rest.None? then None else Some(([first.value.0] + rest.value.0, rest.value.1))
  }

  function ReadItems(tc: TypeCode, n: nat, b: seq<octet>, pos: nat): (r: Option<(seq<Value>, nat)>)
    decreases tc, 1, n
  {
    if n == 0 then Some(([], pos)) else
    var first := Read(tc, b, pos);
    if first.None? then None else
    var rest := ReadItems(tc, n - 1, b, first.value.1);
    if rest.None? then None else Some(([first.value.0] + rest.value.0, rest.value.1))
  }

  // ---------- writing ----------

  predicate HasType(v: Value, tc: TypeCode)
    decreases tc, 0, 0
  {
    match tc
    case TkNull => v == Null
    case TkNumber(kind) => v.Number? && |v.octets| == Size(kind)
    case TkString => v.Text? && |v.chars| + 1 < Pow256(4)
    case TkStruct(members) => v.Struct? && HaveTypes(v.fields, members)
    case TkSequence(element) =>
      v.Sequence? && |v.items| < Pow256(4) && AllHaveType(v.items, element)
  }

  predicate AllHaveType(vs: seq<Value>, tc: TypeCode)
    decreases tc, 1, |vs|
  {
    vs == [] || (HasType(vs[0], tc) && AllHaveType(vs[1..], tc))
  }

  predicate HaveTypes(vs: seq<Value>, tcs: seq<TypeCode>)
    decreases tcs, 0, 0
  {
    if tcs == [] then vs == []
    else vs != [] && HasType(vs[0], tcs[0]) && HaveTypes(vs[1..], tcs[1..])
  }

  function Padding(pos: nat, align: nat): (b: seq<octet>)
    requires IsSize(align)
    ensures |b| == Align(pos, align) - pos
  {
    seq(Align(pos, align) - pos, _ => 0)
  }

  function WriteNumber(n: nat, pos: nat, size: nat, align: nat): (b: seq<octet>)
    requires IsSize(align)
    ensures |b| == Align(pos, align) - pos + size
  {
    Padding(pos, align) + Octets(n, size)
  }

  /** The octets that writing `v` at position `pos` adds to the buffer. */
  function Write(tc: TypeCode, v: Value, pos: nat): (b: seq<octet>)
    requires HasType(v, tc)
    decreases tc, 0, 0
  {
    match tc
    case TkNull => []
    case TkNumber(kind) =>
      Padding(pos, Alignment(kind)) + v.octets
    case TkString => WriteNumber(|v.chars| + 1, pos, 4, 4) + v.chars + [0]
    case TkStruct(members) => WriteMembers(members, v.fields, pos)
    case TkSequence(element) => WriteSequence(element, v.items, pos)
  }

  function WriteSequence(element: TypeCode, items: seq<Value>, pos: nat): (b: seq<octet>)
    requires AllHaveType(items, element)
    decreases element, 2, 0
  {
    var head := WriteNumber(|items|, pos, 4, 4);
    head + WriteItems(element, items, pos + |head|)
  }

  function WriteMembers(tcs: seq<TypeCode>, vs: seq<Value>, pos: nat): (b: seq<octet>)
    requires HaveTypes(vs, tcs)
    decreases tcs, 0, 0
  {
    if tcs == [] then [] else
    var first := Write(tcs[0], vs[0], pos);
    first + WriteMembers(tcs[1..], vs[1..], pos + |first|)
  }

  function WriteItems(tc: TypeCode, vs: seq<Value>, pos: nat): (b: seq<octet>)
    requires AllHaveType(vs, tc)
    decreases tc, 1, |vs|
  {
    if vs == [] then [] else
    var first := Write(tc, vs[0], pos);
    first + WriteItems(tc, vs[1..], pos + |first|)
  }

  // ---------- reading what was written ----------

  /** The octets `w` stand at `pos` in the buffer. */
  predicate Stands(w: seq<octet>, b: seq<octet>, pos: nat) {
    pos + |w| <= |b| && b[pos..pos + |w|] == w
  }

  lemma StandsApart(x: seq<octet>, y: seq<octet>, b: seq<octet>, pos: nat)
    requires Stands(x + y, b, pos)
    ensures Stands(x, b, pos) && Stands(y, b, pos + |x|)
  {
    assert b[pos..pos + |x|] == (x + y)[..|x|];
    assert b[pos + |x|..pos + |x + y|] == (x + y)[|x|..];
  }

  lemma NumberRoundTrip(n: nat, size: nat, align: nat, b: seq<octet>, pos: nat)
    requires IsSize(align) && n < Pow256(size)
    requires Stands(WriteNumber(n, pos, size, align), b, pos)
    ensures ReadNumber(b, pos, size, align) == Some((n, pos + |WriteNumber(n, pos, size, align)|))
  {
    StandsApart(Padding(pos, align), Octets(n, size), b, pos);
    OctetsBits(n, size);
  }

  /** Wherever a written value stands, it is read back and the position after it is found. */
  lemma {:induction false} RoundTrip(tc: TypeCode, v: Value, b: seq<octet>, pos: nat)
    requires HasType(v, tc) && Stands(Write(tc, v, pos), b, pos)
    ensures Read(tc, b, pos) == Some((v, pos + |Write(tc, v, pos)|))
    decreases tc, 0, 0
  {
    match tc
    case TkNull =>
    case TkNumber(kind) =>
      NumericRoundTrip(kind, v.octets, b, pos);
    case TkString => StringRoundTrip(v.chars, b, pos);
    case TkStruct(members) => StructRoundTrip(members, v.fields, b, pos);
    case TkSequence(element) => SequenceRoundTrip(element, v.items, b, pos);
  }

  lemma NumericRoundTrip(kind: NumberKind, octets: seq<octet>, b: seq<octet>, pos: nat)
    requires HasType(Number(octets), TkNumber(kind)) && Stands(Write(TkNumber(kind), Number(octets), pos), b, pos)
    ensures Read(TkNumber(kind), b, pos) == Some((Number(octets), pos + |Write(TkNumber(kind), Number(octets), pos)|))
  {
    StandsApart(Padding(pos, Alignment(kind)), octets, b, pos);
  }

  lemma {:induction false} StructRoundTrip(members: seq<TypeCode>, fields: seq<Value>, b: seq<octet>, pos: nat)
    requires HasType(Struct(fields), TkStruct(members)) && Stands(Write(TkStruct(members), Struct(fields), pos), b, pos)
    ensures Read(TkStruct(members), b, pos)
         == Some((Struct(fields), pos + |Write(TkStruct(members), Struct(fields), pos)|))
    decreases members, 1, 0
  {
    MembersRoundTrip(members, fields, b, pos);
  }

  lemma {:induction false} SequenceRoundTrip(element: TypeCode, items: seq<Value>, b: seq<octet>, pos: nat)
    requires HasType(Sequence(items), TkSequence(element))
    requires Stands(Write(TkSequence(element), Sequence(items), pos), b, pos)
    ensures Read(TkSequence(element), b, pos)
         == Some((Sequence(items), pos + |Write(TkSequence(element), Sequence(items), pos)|))
    decreases element, 2, 0
  {
    var mid := pos + |WriteNumber(|items|, pos, 4, 4)|;
    SequenceStands(element, items, b, pos, mid);
    ItemsRoundTrip(element, items, b, mid);
    ReadSequence(element, items, b, pos, mid, mid + |WriteItems(element, items, mid)|);
  }

  /** Where the length and the items of a written sequence stand. */
  lemma SequenceStands(element: TypeCode, items: seq<Value>, b: seq<octet>, pos: nat, mid: nat)
    requires HasType(Sequence(items), TkSequence(element)) && mid == pos + |WriteNumber(|items|, pos, 4, 4)|
    requires Stands(Write(TkSequence(element), Sequence(items), pos), b, pos)
    ensures AllHaveType(items, element) && ReadNumber(b, pos, 4, 4) == Some((|items|, mid))
    ensures Stands(WriteItems(element, items, mid), b, mid)
    ensures pos + |Write(TkSequence(element), Sequence(items), pos)| == mid + |WriteItems(element, items, mid)|
  {
    assert Stands(WriteSequence(element, items, pos), b, pos);
    StandsApart(WriteNumber(|items|, pos, 4, 4), WriteItems(element, items, mid), b, pos);
    NumberRoundTrip(|items|, 4, 4, b, pos);
  }

  lemma ReadSequence(element: TypeCode, items: seq<Value>, b: seq<octet>, pos: nat, mid: nat, end: nat)
    requires ReadNumber(b, pos, 4, 4) == Some((|items|, mid))
    requires ReadItems(element, |items|, b, mid) == Some((items, end))
    ensures Read(TkSequence(element), b, pos) == Some((Sequence(items), end))
  {
  }

  lemma StringRoundTrip(chars: seq<octet>, b: seq<octet>, pos: nat)
    requires HasType(Text(chars), TkString) && Stands(Write(TkString, Text(chars), pos), b, pos)
    ensures Read(TkString, b, pos) == Some((Text(chars), pos + |Write(TkString, Text(chars), pos)|))
  {
    var head := WriteNumber(|chars| + 1, pos, 4, 4);
    StandsApart(head + chars, [0], b, pos);
    StandsApart(head, chars, b, pos);
    NumberRoundTrip(|chars| + 1, 4, 4, b, pos);
  }

  lemma {:induction false} MembersRoundTrip(tcs: seq<TypeCode>, vs: seq<Value>, b: seq<octet>, pos: nat)
    requires HaveTypes(vs, tcs) && Stands(WriteMembers(tcs, vs, pos), b, pos)
    ensures ReadMembers(tcs, b, pos) == Some((vs, pos + |WriteMembers(tcs, vs, pos)|))
    decreases tcs, 0, 0
  {
    if tcs != [] {
      var first := Write(tcs[0], vs[0], pos);
      StandsApart(first, WriteMembers(tcs[1..], vs[1..], pos + |first|), b, pos);
      RoundTrip(tcs[0], vs[0], b, pos);
      MembersRoundTrip(tcs[1..], vs[1..], b, pos + |first|);
      assert vs == [vs[0]] + vs[1..];
    }
  }

  lemma {:induction false} ItemsRoundTrip(tc: TypeCode, vs: seq<Value>, b: seq<octet>, pos: nat)
    requires AllHaveType(vs, tc)
    requires Stands(WriteItems(tc, vs, pos), b, pos)
    ensures ReadItems(tc, |vs|, b, pos) == Some((vs, pos + |WriteItems(tc, vs, pos)|))
    decreases tc, 1, |vs|
  {
    if vs != [] {
      var first, rest := vs[0], vs[1..];
      var mid := pos + |Write(tc, first, pos)|;
      ItemsStand(tc, vs, first, rest, b, pos, mid);
      RoundTrip(tc, first, b, pos);
      ItemsRoundTrip(tc, rest, b, mid);
      ReadOneMore(tc, vs, rest, b, pos, mid, pos + |WriteItems(tc, vs, pos)|);
    }
  }

  lemma ItemsStand(tc: TypeCode, vs: seq<Value>, first: Value, rest: seq<Value>, b: seq<octet>, pos: nat, mid: nat)
    requires vs != [] && first == vs[0] && rest == vs[1..] && AllHaveType(vs, tc)
    requires mid == pos + |Write(tc, first, pos)| && Stands(WriteItems(tc, vs, pos), b, pos)
    ensures Stands(Write(tc, first, pos), b, pos) && Stands(WriteItems(tc, rest, mid), b, mid)
    ensures pos + |WriteItems(tc, vs, pos)| == mid + |WriteItems(tc, rest, mid)|
  {
    StandsApart(Write(tc, first, pos), WriteItems(tc, rest, mid), b, pos);
  }

  lemma ReadOneMore(tc: TypeCode, vs: seq<Value>, rest: seq<Value>, b: seq<octet>, pos: nat, mid: nat, end: nat)
    requires vs != [] && rest == vs[1..]
    requires Read(tc, b, pos) == Some((vs[0], mid))
    requires ReadItems(tc, |rest|, b, mid) == Some((rest, end))
    ensures ReadItems(tc, |vs|, b, pos) == Some((vs, end))
  {
    ReadItemsStep(tc, |rest| + 1, b, pos, vs[0], mid, rest, end);
    assert vs == [vs[0]] + rest;
  }

  /** One step of reading items. */
  lemma ReadItemsStep(tc: TypeCode, n: nat, b: seq<octet>, pos: nat, v: Value, mid: nat, rest: seq<Value>, end: nat)
    requires n > 0 && Read(tc, b, pos) == Some((v, mid)) && ReadItems(tc, n - 1, b, mid) == Some((rest, end))
    ensures ReadItems(tc, n, b, pos) == Some(([v] + rest, end))
  {
  }

  // ---------- skipping ----------

  /** `skip_type`: `size` octets at the next multiple of `size`. */
  function SkipNumber(b: seq<octet>, pos: nat, size: nat): (r: Option<nat>)
    requires IsSize(size)
  {
    var p := Align(pos, size);
    if p + size <= |b| then Some(p + size) else None
  }

  /** `TypeCodeImpl::skip_value` and its redefinitions. */
  function Skip(tc: TypeCode, b: seq<octet>, pos: nat): (r: Option<nat>)
    decreases tc, 0, 0
  {
    match tc
    case TkNull => Some(pos)
    case TkNumber(kind) => SkipNumber(b, pos, Size(kind))
    case TkString =>
      var r := ReadNumber(b, pos, 4, 4);
      if r.None? || r.value.1 + r.value.0 > |b| then None else Some(r.value.1 + r.value.0)
    case TkStruct(members) => SkipMembers(members, b, pos)
    case TkSequence(element) =>
      var n := ReadNumber(b, pos, 4, 4);
      if n.None? then None else SkipArray(element, n.value.0, b, n.value.1)
  }

  function SkipMembers(tcs: seq<TypeCode>, b: seq<octet>, pos: nat): (r: Option<nat>)
    decreases tcs, 0, 0
  {
    if tcs == [] then Some(pos) else
    var r := Skip(tcs[0], b, pos);
    if r.None? then None else SkipMembers(tcs[1..], b, r.value)
  }

  /** `skip_value_array`: numbers in one jump, anything else one by one. */
  function SkipArray(tc: TypeCode, n: nat, b: seq<octet>, pos: nat): (r: Option<nat>)
    decreases tc, 1, n
  {
    if n == 0 then Some(pos)
    else if tc.TkNumber? && tc.kind != TkLongDouble then
      var p := Align(pos, Size(tc.kind));
      if p + n * Size(tc.kind) <= |b| then Some(p + n * Size(tc.kind)) else None
    else
      var r := Skip(tc, b, pos);
      if r.None? then None else SkipArray(tc, n - 1, b, r.value)
  }

  // ---------- where skipping is right ----------

  /** Every `long double` of the value stands at a place that reading, at a multiple of 8, and skipping, at one of 16, agree on. */
  predicate Placed(tc: TypeCode, v: Value, pos: nat)
    requires HasType(v, tc)
    decreases tc, 0, 0
  {
    match tc
    case TkNumber(kind) => kind == TkLongDouble ==> Align(pos, 8) == Align(pos, 16)
    case TkStruct(members) => PlacedMembers(members, v.fields, pos)
    case TkSequence(element) => PlacedItems(element, v.items, pos + |WriteNumber(|v.items|, pos, 4, 4)|)
    case _ => true
  }

  predicate PlacedMembers(tcs: seq<TypeCode>, vs: seq<Value>, pos: nat)
    requires HaveTypes(vs, tcs)
    decreases tcs, 0, 0
  {
    tcs == [] || (Placed(tcs[0], vs[0], pos) && PlacedMembers(tcs[1..], vs[1..], pos + |Write(tcs[0], vs[0], pos)|))
  }

  predicate PlacedItems(tc: TypeCode, vs: seq<Value>, pos: nat)
    requires AllHaveType(vs, tc)
    decreases tc, 1, |vs|
  {
    vs == [] || (Placed(tc, vs[0], pos) && PlacedItems(tc, vs[1..], pos + |Write(tc, vs[0], pos)|))
  }

  /** Whatever is read as a `tc` is a value of type `tc`, and takes the room that writing it would take. */
  lemma {:induction false} ReadIsTyped(tc: TypeCode, b: seq<octet>, pos: nat)
    requires Read(tc, b, pos).Some?
    ensures var (v, end) := Read(tc, b, pos).value;
            HasType(v, tc) && end == pos + |Write(tc, v, pos)|
    decreases tc, 0, 0
  {
    match tc
    case TkNull =>
    case TkNumber(kind) =>
    case TkString => NumberFits(b, pos, 4, 4);
    case TkStruct(members) => ReadMembersAreTyped(members, b, pos);
    case TkSequence(element) => ReadSequenceIsTyped(element, b, pos);
  }

  lemma {:induction false} ReadSequenceIsTyped(element: TypeCode, b: seq<octet>, pos: nat)
    requires Read(TkSequence(element), b, pos).Some?
    ensures var (v, end) := Read(TkSequence(element), b, pos).value;
            HasType(v, TkSequence(element)) && end == pos + |Write(TkSequence(element), v, pos)|
    decreases element, 2, 0
  {
    NumberFits(b, pos, 4, 4);
    var (n, p) := ReadNumber(b, pos, 4, 4).value;
    ReadItemsAreTyped(element, n, b, p);
    assert p == pos + |WriteNumber(n, pos, 4, 4)|;
  }

  lemma {:induction false} ReadMembersAreTyped(tcs: seq<TypeCode>, b: seq<octet>, pos: nat)
    requires ReadMembers(tcs, b, pos).Some?
    ensures var (vs, end) := ReadMembers(tcs, b, pos).value;
            |vs| == |tcs| && HaveTypes(vs, tcs) && end == pos + |WriteMembers(tcs, vs, pos)|
    decreases tcs, 0, 0
  {
    if tcs != [] {
      ReadIsTyped(tcs[0], b, pos);
      ReadMembersAreTyped(tcs[1..], b, Read(tcs[0], b, pos).value.1);
    }
  }

  lemma {:induction false} ReadItemsAreTyped(tc: TypeCode, n: nat, b: seq<octet>, pos: nat)
    requires ReadItems(tc, n, b, pos).Some?
    ensures var (vs, end) := ReadItems(tc, n, b, pos).value;
            |vs| == n && AllHaveType(vs, tc) && end == pos + |WriteItems(tc, vs, pos)|
    decreases tc, 1, n
  {
    if n > 0 {
      ReadIsTyped(tc, b, pos);
      var (v, mid) := Read(tc, b, pos).value;
      ReadItemsAreTyped(tc, n - 1, b, mid);
      var (rest, end) := ReadItems(tc, n - 1, b, mid).value;
      ReadItemsStep(tc, n, b, pos, v, mid, rest, end);
      WriteItemsStep(tc, v, rest, pos);
    }
  }

  lemma WriteItemsStep(tc: TypeCode, v: Value, rest: seq<Value>, pos: nat)
    requires HasType(v, tc) && AllHaveType(rest, tc)
    ensures AllHaveType([v] + rest, tc)
    ensures var first := Write(tc, v, pos); WriteItems(tc, [v] + rest, pos) == first + WriteItems(tc, rest, pos + |first|)
  {
    assert ([v] + rest)[1..] == rest;
  }

  lemma NumberFits(b: seq<octet>, pos: nat, size: nat, align: nat)
    requires IsSize(align) && ReadNumber(b, pos, size, align).Some?
    ensures ReadNumber(b, pos, size, align).value.0 < Pow256(size)
  {
    var p := Align(pos, align);
    BitsBound(b[p..p + size]);
  }

  /** A type without a `long double` in it. */
  predicate NoLongDouble(tc: TypeCode) {
    match tc
    case TkNumber(kind) => kind != TkLongDouble
    case TkStruct(members) => forall i :: 0 <= i < |members| ==> NoLongDouble(members[i])
    case TkSequence(element) => NoLongDouble(element)
    case _ => true
  }

  /** Its values are well placed everywhere. */
  lemma {:induction false} NoLongDoubleIsPlaced(tc: TypeCode, v: Value, pos: nat)
    requires NoLongDouble(tc) && HasType(v, tc)
    ensures Placed(tc, v, pos)
    decreases tc, 0, 0
  {
    match tc
    case TkStruct(members) => MembersArePlaced(members, v.fields, pos);
    case TkSequence(element) => ItemsArePlaced(element, v.items, pos + |WriteNumber(|v.items|, pos, 4, 4)|);
    case _ =>
  }

  lemma {:induction false} MembersArePlaced(tcs: seq<TypeCode>, vs: seq<Value>, pos: nat)
    requires (forall i :: 0 <= i < |tcs| ==> NoLongDouble(tcs[i])) && HaveTypes(vs, tcs)
    ensures PlacedMembers(tcs, vs, pos)
    decreases tcs, 0, 0
  {
    if tcs != [] {
      NoLongDoubleIsPlaced(tcs[0], vs[0], pos);
      MembersArePlaced(tcs[1..], vs[1..], pos + |Write(tcs[0], vs[0], pos)|);
    }
  }

  lemma {:induction false} ItemsArePlaced(tc: TypeCode, vs: seq<Value>, pos: nat)
    requires NoLongDouble(tc) && AllHaveType(vs, tc)
    ensures PlacedItems(tc, vs, pos)
    decreases tc, 1, |vs|
  {
    if vs != [] {
      NoLongDoubleIsPlaced(tc, vs[0], pos);
      ItemsArePlaced(tc, vs[1..], pos + |Write(tc, vs[0], pos)|);
    }
  }

  /** The value that stands at `pos` is readable there and well placed. */
  ghost predicate PlacedAt(tc: TypeCode, b: seq<octet>, pos: nat) {
    Read(tc, b, pos).Some? && (ReadIsTyped(tc, b, pos); Placed(tc, Read(tc, b, pos).value.0, pos))
  }

  ghost predicate MembersPlacedAt(tcs: seq<TypeCode>, b: seq<octet>, pos: nat) {
    ReadMembers(tcs, b, pos).Some? && (ReadMembersAreTyped(tcs, b, pos); PlacedMembers(tcs, ReadMembers(tcs, b, pos).value.0, pos))
  }

  ghost predicate ItemsPlacedAt(tc: TypeCode, n: nat, b: seq<octet>, pos: nat) {
    ReadItems(tc, n, b, pos).Some? && (ReadItemsAreTyped(tc, n, b, pos); PlacedItems(tc, ReadItems(tc, n, b, pos).value.0, pos))
  }

  /** Members are well placed if the first is, and the others are behind it. */
  lemma MembersPlacedUnfold(tcs: seq<TypeCode>, b: seq<octet>, pos: nat)
    requires tcs != [] && ReadMembers(tcs, b, pos).Some?
    ensures Read(tcs[0], b, pos).Some?
    ensures var mid := Read(tcs[0], b, pos).value.1;
            && ReadMembers(tcs[1..], b, mid).Some? && ReadMembers(tcs, b, pos).value.1 == ReadMembers(tcs[1..], b, mid).value.1
            && (MembersPlacedAt(tcs, b, pos) <==> PlacedAt(tcs[0], b, pos) && MembersPlacedAt(tcs[1..], b, mid))
  {
    var (v, mid) := Read(tcs[0], b, pos).value;
    ReadIsTyped(tcs[0], b, pos);
    ReadMembersUnfold(tcs, b, pos, v, mid);
    ReadMembersAreTyped(tcs, b, pos);
  }

  lemma ItemsPlacedUnfold(tc: TypeCode, n: nat, b: seq<octet>, pos: nat)
    requires n > 0 && ReadItems(tc, n, b, pos).Some?
    ensures Read(tc, b, pos).Some?
    ensures var mid := Read(tc, b, pos).value.1;
            && ReadItems(tc, n - 1, b, mid).Some? && ReadItems(tc, n, b, pos).value.1 == ReadItems(tc, n - 1, b, mid).value.1
            && (ItemsPlacedAt(tc, n, b, pos) <==> PlacedAt(tc, b, pos) && ItemsPlacedAt(tc, n - 1, b, mid))
  {
    ReadItemsUnfold(tc, n, b, pos);
    ReadIsTyped(tc, b, pos);
    var (v, mid) := Read(tc, b, pos).value;
    ReadItemsAreTyped(tc, n - 1, b, mid);
    PlacedItemsUnfold(tc, v, ReadItems(tc, n - 1, b, mid).value.0, pos);
  }

  lemma PlacedItemsUnfold(tc: TypeCode, v: Value, rest: seq<Value>, pos: nat)
    requires HasType(v, tc) && AllHaveType(rest, tc)
    ensures AllHaveType([v] + rest, tc)
    ensures PlacedItems(tc, [v] + rest, pos) <==> Placed(tc, v, pos) && PlacedItems(tc, rest, pos + |Write(tc, v, pos)|)
  {
    assert ([v] + rest)[1..] == rest;
  }

  /** A sequence is well placed if its items are. */
  lemma SequencePlaced(element: TypeCode, b: seq<octet>, pos: nat)
    requires Read(TkSequence(element), b, pos).Some?
    ensures ReadNumber(b, pos, 4, 4).Some?
    ensures var (n, p) := ReadNumber(b, pos, 4, 4).value;
            && ReadItems(element, n, b, p).Some? && Read(TkSequence(element), b, pos).value.1 == ReadItems(element, n, b, p).value.1
            && (PlacedAt(TkSequence(element), b, pos) <==> ItemsPlacedAt(element, n, b, p))
  {
    var (n, p) := ReadNumber(b, pos, 4, 4).value;
    ReadIsTyped(TkSequence(element), b, pos);
    ReadItemsAreTyped(element, n, b, p);
    assert p == pos + |WriteNumber(n, pos, 4, 4)|;
  }

  /** Where a value is well placed, skipping it ends where reading it ends. */
  lemma {:induction false} SkipEndsWhereReadEnds(tc: TypeCode, b: seq<octet>, pos: nat)
    requires PlacedAt(tc, b, pos)
    ensures Skip(tc, b, pos) == Some(Read(tc, b, pos).value.1)
    decreases tc, 0, 0
  {
    ReadIsTyped(tc, b, pos);
    match tc
    case TkStruct(members) =>
      ReadMembersAreTyped(members, b, pos);
      SkipMembersEnds(members, b, pos);
    case TkSequence(element) => SkipSequenceEnds(element, b, pos);
    case _ =>
  }

  lemma {:induction false} SkipSequenceEnds(element: TypeCode, b: seq<octet>, pos: nat)
    requires PlacedAt(TkSequence(element), b, pos)
    ensures Skip(TkSequence(element), b, pos) == Some(Read(TkSequence(element), b, pos).value.1)
    decreases element, 2, 0
  {
    SequencePlaced(element, b, pos);
    var (n, p) := ReadNumber(b, pos, 4, 4).value;
    SkipArrayEnds(element, n, b, p);
  }

  lemma {:induction false} SkipMembersEnds(tcs: seq<TypeCode>, b: seq<octet>, pos: nat)
    requires MembersPlacedAt(tcs, b, pos)
    ensures SkipMembers(tcs, b, pos) == Some(ReadMembers(tcs, b, pos).value.1)
    decreases tcs, 0, 0
  {
    if tcs != [] {
      MembersPlacedUnfold(tcs, b, pos);
      SkipEndsWhereReadEnds(tcs[0], b, pos);
      var mid := Read(tcs[0], b, pos).value.1;
      SkipMembersEnds(tcs[1..], b, mid);
      SkipMembersStep(tcs, b, pos, mid);
    }
  }

  lemma ReadMembersUnfold(tcs: seq<TypeCode>, b: seq<octet>, pos: nat, v: Value, mid: nat)
    requires tcs != [] && ReadMembers(tcs, b, pos).Some? && Read(tcs[0], b, pos) == Some((v, mid))
    ensures ReadMembers(tcs[1..], b, mid).Some?
    ensures var (rest, end) := ReadMembers(tcs[1..], b, mid).value;
            ReadMembers(tcs, b, pos) == Some(([v] + rest, end)) && ([v] + rest)[1..] == rest
  {
  }

  lemma ReadItemsUnfold(tc: TypeCode, n: nat, b: seq<octet>, pos: nat)
    requires n > 0 && ReadItems(tc, n, b, pos).Some?
    ensures Read(tc, b, pos).Some? && ReadItems(tc, n - 1, b, Read(tc, b, pos).value.1).Some?
    ensures var (v, mid) := Read(tc, b, pos).value;
            var (rest, end) := ReadItems(tc, n - 1, b, mid).value;
            ReadItems(tc, n, b, pos) == Some(([v] + rest, end)) && ([v] + rest)[1..] == rest
  {
  }

  lemma {:induction false} SkipArrayEnds(tc: TypeCode, n: nat, b: seq<octet>, pos: nat)
    requires ItemsPlacedAt(tc, n, b, pos)
    ensures SkipArray(tc, n, b, pos) == Some(ReadItems(tc, n, b, pos).value.1)
    decreases tc, 1, n
  {
    if tc.TkNumber? && tc.kind != TkLongDouble {
      NumbersEnd(tc.kind, n, b, pos);
    } else if n > 0 {
      ItemsPlacedUnfold(tc, n, b, pos);
      SkipEndsWhereReadEnds(tc, b, pos);
      var mid := Read(tc, b, pos).value.1;
      SkipArrayEnds(tc, n - 1, b, mid);
      SkipArrayStep(tc, n, b, pos, mid);
    }
  }

  lemma SkipArrayStep(tc: TypeCode, n: nat, b: seq<octet>, pos: nat, mid: nat)
    requires n > 0 && !(tc.TkNumber? && tc.kind != TkLongDouble) && Skip(tc, b, pos) == Some(mid)
    ensures SkipArray(tc, n, b, pos) == SkipArray(tc, n - 1, b, mid)
  {
  }

  lemma SkipMembersStep(tcs: seq<TypeCode>, b: seq<octet>, pos: nat, mid: nat)
    requires tcs != [] && Skip(tcs[0], b, pos) == Some(mid)
    ensures SkipMembers(tcs, b, pos) == SkipMembers(tcs[1..], b, mid)
  {
  }

  /** The jump over numbers ends where reading them one by one ends. */
  lemma {:induction false} NumbersEnd(kind: NumberKind, n: nat, b: seq<octet>, pos: nat)
    requires kind != TkLongDouble && ReadItems(TkNumber(kind), n, b, pos).Some?
    ensures SkipArray(TkNumber(kind), n, b, pos) == Some(ReadItems(TkNumber(kind), n, b, pos).value.1)
  {
    if n > 0 {
      ReadItemsUnfold(TkNumber(kind), n, b, pos);
      var mid := Read(TkNumber(kind), b, pos).value.1;
      NumbersEnd(kind, n - 1, b, mid);
      JumpOver(kind, n, b, pos, mid);
    }
  }

  lemma JumpOver(kind: NumberKind, n: nat, b: seq<octet>, pos: nat, p: nat)
    requires kind != TkLongDouble && n > 0 && SkipNumber(b, pos, Size(kind)) == Some(p)
    requires SkipArray(TkNumber(kind), n - 1, b, p).Some?
    ensures SkipArray(TkNumber(kind), n, b, pos) == SkipArray(TkNumber(kind), n - 1, b, p)
  {
    AlignIsMultiple(pos, Size(kind));
    OneJump(Align(pos, Size(kind)), n, Size(kind));
  }

  /** After the first number of an array, the others need no alignment. */
  lemma OneJump(p: nat, n: nat, size: nat)
    requires IsSize(size) && Remainder(p, size) == 0 && n > 0
    ensures Align(p + size, size) == p + size
    ensures p + n * size == (p + size) + (n - 1) * size
  {
  }

  /** A `long double` is written and read at a multiple of 8, but skipped at a multiple of 16. */
  lemma LongDoubleIsSkippedWrong(b: seq<octet>, pos: nat)
    requires Read(TkNumber(TkLongDouble), b, pos).Some?
    ensures Skip(TkNumber(TkLongDouble), b, pos) == Some(Read(TkNumber(TkLongDouble), b, pos).value.1) <==> Align(pos, 8) == Align(pos, 16)
    ensures Skip(TkNumber(TkLongDouble), seq(32, _ => 0), 8) == Some(32)
    ensures Read(TkNumber(TkLongDouble), seq(32, _ => 0), 8).Some? && Read(TkNumber(TkLongDouble), seq(32, _ => 0), 8).value.1 == 24
  {
  }

  // ---------- the converse, for values of fixed layout ----------

  /** A type whose values all have the same layout: no string and no sequence in it. */
  predicate FixedLayout(tc: TypeCode) {
    match tc
    case TkString => false
    case TkSequence(_) => false
    case TkStruct(members) => forall i :: 0 <= i < |members| ==> FixedLayout(members[i])
    case _ => true
  }

  lemma AlignShift(pos: nat, size: nat, d: nat)
    requires IsSize(size) && size <= 8 && d % 8 == 0
    ensures Align(pos + d, size) == Align(pos, size) + d
  {
    assert Remainder(pos + d, size) == Remainder(pos, size) by { RemainderShift(pos, size, d); }
  }

  lemma RemainderShift(pos: nat, size: nat, d: nat)
    requires IsSize(size) && size <= 8 && d % 8 == 0
    ensures Remainder(pos + d, size) == Remainder(pos, size)
  {
    var m := d / 8;
    assert d == 8 * m;
    if size == 2 {
      EvenShift(pos, 4 * m);
    } else if size == 4 {
      FourShift(pos, 2 * m);
    } else if size == 8 {
      EightShift(pos, m);
    }
  }

  lemma EvenShift(pos: nat, m: nat)
    ensures (pos + 2 * m) % 2 == pos % 2
  {
  }

  lemma FourShift(pos: nat, m: nat)
    ensures (pos + 4 * m) % 4 == pos % 4
  {
  }

  lemma EightShift(pos: nat, m: nat)
    ensures (pos + 8 * m) % 8 == pos % 8
  {
  }

  /** The next multiple of 16 is the next multiple of 8 or the one after it. */
  lemma EightOrSixteen(pos: nat)
    ensures Align(pos, 16) == Align(pos, 8) || Align(pos, 16) == Align(pos, 8) + 8
    ensures Align(pos, 8) % 8 == 0
  {
    var u, v := pos / 16, pos % 16;
    assert pos == 16 * u + v;
    EightShift(v, 2 * u);
    assert pos % 8 == if v < 8 then v else v - 8;
    Next8(2 * u);
    Next8(2 * u + 1);
    assert Align(pos, 16) == if v == 0 then 16 * u else 16 * u + 16;
    assert Align(pos, 8) == if v == 0 then 16 * u else if v <= 8 then 16 * u + 8 else 16 * u + 16;
  }

  /** Skipping that started `d` octets ahead of reading stays ahead, and falls behind nowhere. */
  predicate Ahead(skipped: Option<nat>, end: nat, d: nat) {
    skipped.Some? ==> skipped.value >= end + d && (skipped.value - end) % 8 == 0
  }

  lemma NumberAhead(kind: NumberKind, b: seq<octet>, pos: nat, d: nat)
    requires d % 8 == 0 && Read(TkNumber(kind), b, pos).Some?
    ensures Ahead(Skip(TkNumber(kind), b, pos + d), Read(TkNumber(kind), b, pos).value.1, d)
    ensures d == 0 && kind == TkLongDouble && Align(pos, 8) != Align(pos, 16) ==>
              Ahead(Skip(TkNumber(kind), b, pos), Read(TkNumber(kind), b, pos).value.1, 8)
  {
    if kind == TkLongDouble {
      AlignSixteen(pos, d);
    } else {
      AlignShift(pos, Size(kind), d);
    }
  }

  lemma AlignSixteen(pos: nat, d: nat)
    requires d % 8 == 0
    ensures Align(pos + d, 16) >= Align(pos, 8) + d && (Align(pos + d, 16) - Align(pos, 8)) % 8 == 0
    ensures Align(pos, 8) != Align(pos, 16) ==> Align(pos, 16) == Align(pos, 8) + 8
  {
    AlignShift(pos, 8, d);
    EightOrSixteen(pos + d);
    EightOrSixteen(pos);
  }

  /** Who starts to skip ahead of the reader stays ahead. */
  lemma {:induction false} SkipAhead(tc: TypeCode, b: seq<octet>, pos: nat, d: nat)
    requires FixedLayout(tc) && d % 8 == 0 && Read(tc, b, pos).Some?
    ensures Ahead(Skip(tc, b, pos + d), Read(tc, b, pos).value.1, d)
    decreases tc, 0
  {
    match tc
    case TkNumber(kind) => NumberAhead(kind, b, pos, d);
    case TkStruct(members) => MembersAhead(members, b, pos, d);
    case _ =>
  }

  lemma {:induction false} MembersAhead(tcs: seq<TypeCode>, b: seq<octet>, pos: nat, d: nat)
    requires (forall i :: 0 <= i < |tcs| ==> FixedLayout(tcs[i])) && d % 8 == 0 && ReadMembers(tcs, b, pos).Some?
    ensures Ahead(SkipMembers(tcs, b, pos + d), ReadMembers(tcs, b, pos).value.1, d)
    decreases tcs, 0
  {
    if tcs != [] {
      SkipAhead(tcs[0], b, pos, d);
      var mid, e := Read(tcs[0], b, pos).value.1, Skip(tcs[0], b, pos + d);
      if e.Some? {
        MembersAhead(tcs[1..], b, mid, e.value - mid);
      }
    }
  }

  lemma {:induction false} ItemsAhead(tc: TypeCode, n: nat, b: seq<octet>, pos: nat, d: nat)
    requires FixedLayout(tc) && d % 8 == 0 && ReadItems(tc, n, b, pos).Some?
    ensures Ahead(SkipArray(tc, n, b, pos + d), ReadItems(tc, n, b, pos).value.1, d)
    decreases n
  {
    if tc.TkNumber? && tc.kind != TkLongDouble {
      NumbersEnd(tc.kind, n, b, pos);
      AlignShift(pos, Size(tc.kind), d);
    } else if n > 0 {
      ReadItemsUnfold(tc, n, b, pos);
      SkipAhead(tc, b, pos, d);
      var mid, e := Read(tc, b, pos).value.1, Skip(tc, b, pos + d);
      if e.Some? {
        ItemsAhead(tc, n - 1, b, mid, e.value - mid);
      }
    }
  }

  /**
    A type in which nothing of varying length, a string or a sequence, follows a `long double`; sequences
    of elements that have such a layout themselves are among them.
   */
  predicate LongDoublesLast(tc: TypeCode) {
    match tc
    case TkSequence(element) => NoLongDouble(element) || FixedLayout(element)
    case TkStruct(members) =>
      && (forall i :: 0 <= i < |members| ==> LongDoublesLast(members[i]))
      && MembersLast(members)
    case _ => true
  }

  predicate MembersLast(tcs: seq<TypeCode>) {
    forall i, j :: 0 <= i < j < |tcs| ==> NoLongDouble(tcs[i]) || FixedLayout(tcs[j])
  }

  /** A misplaced `long double` puts it ahead. */
  lemma {:induction false} MisplacedAhead(tc: TypeCode, b: seq<octet>, pos: nat)
    requires LongDoublesLast(tc) && Read(tc, b, pos).Some? && !PlacedAt(tc, b, pos)
    ensures Ahead(Skip(tc, b, pos), Read(tc, b, pos).value.1, 8)
    decreases tc, 0, 0
  {
    ReadIsTyped(tc, b, pos);
    match tc
    case TkNumber(kind) => NumberAhead(kind, b, pos, 0);
    case TkStruct(members) =>
      ReadMembersAreTyped(members, b, pos);
      MisplacedMembersAhead(members, b, pos);
    case TkSequence(element) => MisplacedSequenceAhead(element, b, pos);
    case _ =>
  }

  lemma {:induction false} MisplacedMembersAhead(tcs: seq<TypeCode>, b: seq<octet>, pos: nat)
    requires (forall i :: 0 <= i < |tcs| ==> LongDoublesLast(tcs[i])) && MembersLast(tcs)
    requires ReadMembers(tcs, b, pos).Some? && !MembersPlacedAt(tcs, b, pos)
    ensures Ahead(SkipMembers(tcs, b, pos), ReadMembers(tcs, b, pos).value.1, 8)
    decreases tcs, 0, 0
  {
    MembersPlacedUnfold(tcs, b, pos);
    var mid := Read(tcs[0], b, pos).value.1;
    if PlacedAt(tcs[0], b, pos) {
      SkipEndsWhereReadEnds(tcs[0], b, pos);
      MisplacedMembersAhead(tcs[1..], b, mid);
      SkipMembersStep(tcs, b, pos, mid);
    } else {
      HasLongDouble(tcs[0], b, pos);
      MisplacedAhead(tcs[0], b, pos);
      RestAhead(tcs, b, pos, mid);
    }
  }

  lemma RestAhead(tcs: seq<TypeCode>, b: seq<octet>, pos: nat, mid: nat)
    requires tcs != [] && (forall i :: 0 < i < |tcs| ==> FixedLayout(tcs[i])) && ReadMembers(tcs[1..], b, mid).Some?
    requires Ahead(Skip(tcs[0], b, pos), mid, 8)
    ensures Ahead(SkipMembers(tcs, b, pos), ReadMembers(tcs[1..], b, mid).value.1, 8)
  {
    var e := Skip(tcs[0], b, pos);
    if e.Some? {
      MembersAhead(tcs[1..], b, mid, e.value - mid);
      SkipMembersStep(tcs, b, pos, e.value);
    }
  }

  lemma HasLongDouble(tc: TypeCode, b: seq<octet>, pos: nat)
    requires Read(tc, b, pos).Some? && !PlacedAt(tc, b, pos)
    ensures !NoLongDouble(tc)
  {
    ReadIsTyped(tc, b, pos);
    if NoLongDouble(tc) {
      NoLongDoubleIsPlaced(tc, Read(tc, b, pos).value.0, pos);
    }
  }

  lemma {:induction false} MisplacedSequenceAhead(element: TypeCode, b: seq<octet>, pos: nat)
    requires LongDoublesLast(TkSequence(element)) && Read(TkSequence(element), b, pos).Some? && !PlacedAt(TkSequence(element), b, pos)
    ensures Ahead(Skip(TkSequence(element), b, pos), Read(TkSequence(element), b, pos).value.1, 8)
    decreases element, 2, 0
  {
    HasLongDouble(TkSequence(element), b, pos);
    SequencePlaced(element, b, pos);
    var (n, p) := ReadNumber(b, pos, 4, 4).value;
    MisplacedItemsAhead(element, n, b, p);
  }

  lemma {:induction false} MisplacedItemsAhead(tc: TypeCode, n: nat, b: seq<octet>, pos: nat)
    requires FixedLayout(tc) && !NoLongDouble(tc) && ReadItems(tc, n, b, pos).Some? && !ItemsPlacedAt(tc, n, b, pos)
    ensures Ahead(SkipArray(tc, n, b, pos), ReadItems(tc, n, b, pos).value.1, 8)
    decreases tc, 1, n
  {
    ItemsPlacedUnfold(tc, n, b, pos);
    var mid, e := Read(tc, b, pos).value.1, Skip(tc, b, pos);
    if PlacedAt(tc, b, pos) {
      SkipEndsWhereReadEnds(tc, b, pos);
      MisplacedItemsAhead(tc, n - 1, b, mid);
    } else {
      FixedIsLast(tc);
      MisplacedAhead(tc, b, pos);
      if e.Some? {
        ItemsAhead(tc, n - 1, b, mid, e.value - mid);
      }
    }
  }

  lemma {:induction false} FixedIsLast(tc: TypeCode)
    requires FixedLayout(tc)
    ensures LongDoublesLast(tc)
  {
    if tc.TkStruct? {
      forall i | 0 <= i < |tc.members|
        ensures LongDoublesLast(tc.members[i])
      {
        FixedIsLast(tc.members[i]);
      }
    }
  }

  /**
    Skipping ends where reading ends if and only if every `long double` is well placed, unless a string or
    a sequence follows a `long double`.
   */
  lemma SkipIsRightIffPlaced(tc: TypeCode, b: seq<octet>, pos: nat)
    requires LongDoublesLast(tc) && Read(tc, b, pos).Some?
    ensures Skip(tc, b, pos) == Some(Read(tc, b, pos).value.1) <==> PlacedAt(tc, b, pos)
  {
    if PlacedAt(tc, b, pos) {
      SkipEndsWhereReadEnds(tc, b, pos);
    } else {
      MisplacedAhead(tc, b, pos);
    }
  }

  // ---------- a string behind a long double ----------

  const TAILED := TkStruct([TkNumber(TkLongDouble), TkString])

  /** A `long double` at 8, a string of 12 octets at 24, and in it, at 32, what looks like the length 4. */
  function Accident(): (b: seq<octet>) {
    seq(24, _ => 0) + [12, 0, 0, 0] + [0, 0, 0, 0] + [4, 0, 0, 0] + [0, 0, 0, 0]
  }

  /** Where a string follows, skipping may be right by accident although the `long double` is misplaced. */
  lemma RightByAccident()
    ensures var b := Accident();
            && Read(TAILED, b, 8).Some? && Read(TAILED, b, 8).value.1 == 40 && Skip(TAILED, b, 8) == Some(40)
            && !PlacedAt(TAILED, b, 8)
  {
    var b := Accident();
    var tcs := [TkNumber(TkLongDouble), TkString];
    assert tcs[1..] == [TkString] && tcs[1..][1..] == [];
    LongDoubleAtEight(b);
    LengthAt(b, 24, 12);
    LengthAt(b, 32, 4);
    StringBehind(b);
    ReadMembersAreTyped(tcs, b, 8);
    MembersPlacedUnfold(tcs, b, 8);
    SkipMembersStep(tcs, b, 8, 32);
  }

  lemma LongDoubleAtEight(b: seq<octet>)
    requires |b| == 40
    ensures Read(TkNumber(TkLongDouble), b, 8).Some? && Read(TkNumber(TkLongDouble), b, 8).value.1 == 24
    ensures Skip(TkNumber(TkLongDouble), b, 8) == Some(32) && !PlacedAt(TkNumber(TkLongDouble), b, 8)
  {
    assert Align(8, 8) == 8 && Align(8, 16) == 16;
    ReadIsTyped(TkNumber(TkLongDouble), b, 8);
  }

  lemma StringBehind(b: seq<octet>)
    requires |b| == 40 && ReadNumber(b, 24, 4, 4) == Some((12, 28)) && ReadNumber(b, 32, 4, 4) == Some((4, 36))
    ensures ReadMembers([TkString], b, 24).Some? && ReadMembers([TkString], b, 24).value.1 == 40
    ensures SkipMembers([TkString], b, 32) == Some(40)
  {
    assert [TkString][1..] == [];
    assert Read(TkString, b, 24).Some? && Read(TkString, b, 24).value.1 == 40 && Skip(TkString, b, 32) == Some(40);
  }

  lemma LengthAt(b: seq<octet>, p: nat, n: octet)
    requires p % 4 == 0 && p + 4 <= |b| && b[p..p + 4] == [n, 0, 0, 0]
    ensures ReadNumber(b, p, 4, 4) == Some((n as nat, p + 4))
  {
    var w: seq<octet> := [n, 0, 0, 0];
    var z: seq<octet> := [0, 0, 0];
    assert w[1..] == z && Bits(z) == 0 by {
      assert z[1..] == [0, 0] && z[1..][1..] == [0] && z[1..][1..][1..] == [];
    }
  }
}
