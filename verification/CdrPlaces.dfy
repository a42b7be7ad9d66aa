/** Where numbers and strings stand in a buffer, octet by octet. */
module CdrPlaces {
  import opened Prelude
  import opened Octet
  import opened Cdr

  predicate NextMultiple(p: nat, pos: nat, m: nat)
    requires m > 0
  {
    pos <= p < pos + m && p % m == 0
  }

  /** A multiple of one of the alignments. */
  lemma AlignIsNext(pos: nat, m: nat)
    requires IsSize(m)
    ensures NextMultiple(Align(pos, m), pos, m)
  {
    AlignIsMultiple(pos, m);
    var r := Remainder(Align(pos, m), m);
    if m == 2 {
      assert r == Align(pos, m) % 2;
    } else if m == 4 {
      assert r == Align(pos, m) % 4;
    } else if m == 8 {
      assert r == Align(pos, m) % 8;
    } else if m == 16 {
      assert r == Align(pos, m) % 16;
    }
  }

  /**
    An octet is read where it is, a short at the next multiple of 2, a long of 4, a long long and a long
    double of 8, and each as the octets that it has; if they are not all there, reading throws.
   */
  lemma NumbersAreRead(kind: NumberKind, b: seq<octet>, pos: nat) returns (p: nat)
    ensures var n := match kind case TkOctet => 1 case TkShort => 2 case TkLong => 4 case TkLongLong => 8 case TkLongDouble => 16;
            var m := match kind case TkOctet => 1 case TkShort => 2 case TkLong => 4 case TkLongLong => 8 case TkLongDouble => 8;
            && NextMultiple(p, pos, m)
            && Read(TkNumber(kind), b, pos) == if p + n <= |b| then Some((Number(b[p..p + n]), p + n)) else None
  {
    p := Align(pos, Alignment(kind));
    AlignIsNext(pos, Alignment(kind));
  }

  /** Skipping jumps over as many octets, but looks for a long double at a multiple of 16. */
  lemma NumbersAreSkipped(kind: NumberKind, b: seq<octet>, pos: nat) returns (p: nat)
    ensures var n := match kind case TkOctet => 1 case TkShort => 2 case TkLong => 4 case TkLongLong => 8 case TkLongDouble => 16;
            && NextMultiple(p, pos, n)
            && Skip(TkNumber(kind), b, pos) == if p + n <= |b| then Some(p + n) else None
  {
    p := Align(pos, Size(kind));
    AlignIsNext(pos, Size(kind));
  }

  /** A number is written behind zeros up to its place. */
  lemma NumbersAreWritten(kind: NumberKind, octets: seq<octet>, pos: nat) returns (p: nat)
    requires HasType(Number(octets), TkNumber(kind))
    ensures var m := match kind case TkOctet => 1 case TkShort => 2 case TkLong => 4 case TkLongLong => 8 case TkLongDouble => 8;
            var w := Write(TkNumber(kind), Number(octets), pos);
            && NextMultiple(p, pos, m) && |w| == p - pos + |octets| && w[p - pos..] == octets
            && forall i :: 0 <= i < p - pos ==> w[i] == 0
  {
    p := Align(pos, Alignment(kind));
    AlignIsNext(pos, Alignment(kind));
  }

  /**
    A string is its length in four octets, the lowest first, at the next multiple of 4, and then so many
    octets, of which the last, the NUL, does not belong to it.
   */
  lemma StringsAreRead(b: seq<octet>, pos: nat) returns (p: nat)
    ensures NextMultiple(p, pos, 4)
    ensures p + 4 > |b| ==> Read(TkString, b, pos) == None
    ensures p + 4 <= |b| ==>
              var n := (b[p] as int) + 256 * (b[p + 1] as int) + 65536 * (b[p + 2] as int) + 16777216 * (b[p + 3] as int);
              Read(TkString, b, pos)
              == if n == 0 || p + 4 + n > |b| then None else Some((Text(b[p + 4..p + 4 + n - 1]), p + 4 + n))
  {
    p := Align(pos, 4);
    AlignIsNext(pos, 4);
    if p + 4 <= |b| {
      FourOctets(b[p..p + 4]);
    }
  }

  lemma FourOctets(w: seq<octet>)
    requires |w| == 4
    ensures Bits(w) == (w[0] as int) + 256 * (w[1] as int) + 65536 * (w[2] as int) + 16777216 * (w[3] as int)
  {
    var x, y, z := w[1..], w[2..], w[3..];
    assert x[1..] == y && y[1..] == z && z[1..] == [];
    assert Bits(z) == z[0];
  }

  /** The members of a structure stand one behind the other, with nothing before the first. */
  lemma StructsAreRead(members: seq<TypeCode>, b: seq<octet>, pos: nat)
    ensures members == [] ==> Read(TkStruct(members), b, pos) == Some((Struct([]), pos))
    ensures members != [] ==>
              var first := Read(members[0], b, pos);
              if first.None? then Read(TkStruct(members), b, pos) == None
              else
                var rest := Read(TkStruct(members[1..]), b, first.value.1);
                Read(TkStruct(members), b, pos)
                == if rest.None? then None else Some((Struct([first.value.0] + rest.value.0.fields), rest.value.1))
  {
  }

  /** A sequence is its length, like that of a string, and then its items, one behind the other. */
  lemma SequencesAreRead(element: TypeCode, b: seq<octet>, pos: nat) returns (p: nat)
    ensures NextMultiple(p, pos, 4)
    ensures p + 4 > |b| ==> Read(TkSequence(element), b, pos) == None
    ensures p + 4 <= |b| ==>
              var n := (b[p] as int) + 256 * (b[p + 1] as int) + 65536 * (b[p + 2] as int) + 16777216 * (b[p + 3] as int);
              var items := Read(TkStruct(seq(n, _ => element)), b, p + 4);
              Read(TkSequence(element), b, pos)
              == if items.None? then None else Some((Sequence(items.value.0.fields), items.value.1))
  {
    p := Align(pos, 4);
    AlignIsNext(pos, 4);
    if p + 4 <= |b| {
      FourOctets(b[p..p + 4]);
      ItemsAreMembers(element, Bits(b[p..p + 4]), b, p + 4);
    }
  }

  lemma {:induction false} ItemsAreMembers(element: TypeCode, n: nat, b: seq<octet>, pos: nat)
    ensures ReadItems(element, n, b, pos) == ReadMembers(seq(n, _ => element), b, pos)
    decreases n
  {
    if n > 0 {
      var tcs := seq(n, _ => element);
      assert tcs[1..] == seq(n - 1, _ => element);
      if Read(element, b, pos).Some? {
        ItemsAreMembers(element, n - 1, b, Read(element, b, pos).value.1);
      }
    }
  }
}
