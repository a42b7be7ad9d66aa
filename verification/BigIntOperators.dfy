/** The operators of `BigInt` on a sign and a magnitude: they compute what the module `BigInt` says. */
module BigIntOperators {
  import opened Prelude
  import opened Octet
  import opened Decimal
  import opened Magnitude
  import B = BigInt

  /** The sign is -1, 0 or 1. */
  datatype Big = Big(sign: int, mag: Mag)

  predicate Proper(a: Big) {
    -1 <= a.sign <= 1 && (a.sign == 0 <==> Bits(a.mag) == 0)
  }

  function Value(a: Big): (v: int) {
    var n: int := Bits(a.mag);
    if a.sign < 0 then -n else n
  }

  lemma ValueFits(a: Big)
    requires Proper(a)
    ensures B.Fits(Value(a))
    ensures (a.sign < 0 <==> Value(a) < 0) && (a.sign > 0 <==> Value(a) > 0)
  {
    BitsWhole(a.mag);
  }

  function Opposite(a: Big): (r: Big)
    ensures Proper(a) ==> Proper(r) && Value(r) == -Value(a)
  {
    Big(-a.sign, a.mag)
  }

  // ---------- order ----------

  method Less(a: Big, b: Big) returns (r: bool)
    requires Proper(a) && Proper(b)
    ensures r == (Value(a) < Value(b))
  {
    ValueFits(a);
    ValueFits(b);
    if a.sign == b.sign {
      if a.sign == 0 {
        return false;
      }
      var c := Compare(a.mag, b.mag);
      return if a.sign == 1 then c < 0 else c > 0;
    }
    if a.sign == 1 {
      return false;
    }
    if a.sign == 0 {
      return b.sign != -1;
    }
    return true;
  }

  method AtMost(a: Big, b: Big) returns (r: bool)
    requires Proper(a) && Proper(b)
    ensures r == B.AtMost(Value(a), Value(b))
  {
    ValueFits(a);
    ValueFits(b);
    if a.sign == b.sign {
      if a.sign == 0 {
        return true;
      }
      var c := Compare(a.mag, b.mag);
      return if a.sign == 1 then c < 0 else c > 0;
    }
    return a.sign != 1;
  }

  method Equal(a: Big, b: Big) returns (r: bool)
    requires Proper(a) && Proper(b)
    ensures r == (Value(a) == Value(b))
  {
    ValueFits(a);
    ValueFits(b);
    if a.sign != b.sign {
      return false;
    }
    for i := 0 to SIZE
      invariant a.mag[SIZE - i..] == b.mag[SIZE - i..]
    {
      ghost var k := SIZE - i - 1;
      if a.mag[SIZE - i - 1] != b.mag[SIZE - i - 1] {
        if a.mag[k] < b.mag[k] {
          HighestDecides(a.mag, b.mag, k);
        } else {
          HighestDecides(b.mag, a.mag, k);
        }
        return false;
      }
      assert a.mag[k..] == [a.mag[k]] + a.mag[k + 1..] && b.mag[k..] == [b.mag[k]] + b.mag[k + 1..];
    }
    assert a.mag[0..] == a.mag && b.mag[0..] == b.mag;
    return true;
  }

  // ---------- sums ----------

  /** A result that is there exactly when the number `v` is, and stands for it. */
  ghost predicate Stands(r: Option<Big>, v: Option<int>) {
    (r.None? <==> v.None?) && (r.Some? ==> Proper(r.value) && Value(r.value) == v.value)
  }

  /** Magnitudes of the same sign are added. */
  method SameSign(a: Big, b: Big) returns (r: Option<Big>)
    requires Proper(a) && Proper(b) && a.sign == b.sign != 0
    ensures Stands(r, B.Plus(Value(a), Value(b)))
  {
    ValueFits(a);
    ValueFits(b);
    var z, carry := AddMagnitudes(a.mag, b.mag);
    BitsWhole(z);
    if carry != 0 {
      return None;
    }
    r := Some(Big(a.sign, z));
  }

  method Plus(a: Big, b: Big) returns (r: Option<Big>)
    requires Proper(a) && Proper(b)
    ensures Stands(r, B.Plus(Value(a), Value(b)))
    decreases if a.sign * b.sign < 0 then 3 else 0
  {
    ValueFits(a);
    ValueFits(b);
    if a.sign == 0 {
      return Some(b);
    }
    if b.sign == 0 {
      return Some(a);
    }
    if a.sign == b.sign {
      r := SameSign(a, b);
    } else if a.sign == -1 {
      B.MinusOfPositives(Value(b), -Value(a));
      r := Minus(b, Opposite(a));
    } else {
      var difference := Minus(a, b);
      r := if difference.None? then None else Some(a);
    }
  }

  /** Two magnitudes are subtracted as they come, whatever their common sign. */
  method Subtract(a: Big, b: Big) returns (r: Big)
    requires Proper(a) && Proper(b) && a.sign == b.sign != 0 && Value(a) >= Value(b)
    ensures Proper(r) && B.Minus(Value(a), Value(b)) == Some(Value(r))
  {
    ValueFits(a);
    ValueFits(b);
    var z, borrow := SubMagnitudes(a.mag, b.mag);
    BitsWhole(z);
    BitsWhole(a.mag);
    BitsWhole(b.mag);
    var zero := true;
    for i := 0 to SIZE
      invariant zero <==> forall j :: 0 <= j < i ==> z[j] == 0
    {
      if z[i] != 0 {
        zero := false;
      }
    }
    ZeroOctets(z);
    r := Big(if zero then 0 else 1, z);
  }

  lemma {:induction false} ZeroOctets(s: seq<octet>)
    ensures Bits(s) == 0 <==> forall j :: 0 <= j < |s| ==> s[j] == 0
  {
    if s != [] {
      ZeroOctets(s[1..]);
      if Bits(s) == 0 {
        forall j | 0 <= j < |s|
          ensures s[j] == 0
        {
          if j > 0 { assert s[j] == s[1..][j - 1]; }
        }
      }
    }
  }

  method Minus(a: Big, b: Big) returns (r: Option<Big>)
    requires Proper(a) && Proper(b)
    ensures Stands(r, B.Minus(Value(a), Value(b)))
    decreases if Value(a) < Value(b) then 2 else 1
  {
    ValueFits(a);
    ValueFits(b);
    var less := Less(a, b);
    if less {
      r := Minus(b, a);
      if r.Some? {
        r := Some(Opposite(r.value));
      }
    } else if a.sign == b.sign {
      if a.sign == 0 {
        return Some(a);
      }
      var d := Subtract(a, b);
      r := Some(d);
    } else if b.sign == -1 {
      r := Plus(a, Opposite(b));
    } else {
      r := Some(a);
    }
  }

  // ---------- products and quotients ----------

  method Times(a: Big, b: Big) returns (r: Option<Big>)
    requires Proper(a) && Proper(b)
    ensures Stands(r, B.Times(Value(a), Value(b)))
  {
    ValueFits(a);
    ValueFits(b);
    Signs(Bits(a.mag), Bits(b.mag));
    Signs(Bits(a.mag), -(Bits(b.mag) as int));
    var z := TimesMagnitude(a.mag, b.mag);
    if z.None? {
      return None;
    }
    r := Some(Big(a.sign * b.sign, z.value));
  }

  /** `div`, for the quotient: truncated toward zero, and left alone by a divisor of zero. */
  method Quotient(a: Big, b: Big) returns (q: int)
    requires Proper(a) && Proper(b)
    ensures q == B.Quotient(Value(a), Value(b))
  {
    if b.sign == 0 || a.sign == 0 {
      ZeroQuotient(Value(a), Value(b));
      return 0;
    }
    ValueFits(a);
    ValueFits(b);
    var n, r := Divide(a.mag, Bits(b.mag));
    q := if a.sign == b.sign then n else -n;
    SignedQuotient(Bits(a.mag), Bits(b.mag), n, r, a.sign < 0, b.sign < 0);
  }

  lemma ZeroQuotient(x: int, y: int)
    requires x == 0 || y == 0
    ensures B.Quotient(x, y) == 0
  {
  }

  lemma SignedQuotient(x: nat, y: nat, n: int, r: int, negative: bool, negative': bool)
    requires x > 0 && y > 0 && x == n * y + r && 0 <= r < y && n >= 0
    ensures B.Quotient(if negative then -(x as int) else x, if negative' then -(y as int) else y)
         == if negative == negative' then n else -n
  {
    DivisionIs(x, y, n, r);
  }

  lemma DivisionIs(x: nat, y: nat, q: int, r: int)
    requires y > 0 && x == q * y + r && 0 <= r < y && q >= 0
    ensures q == x / y
  {
    var d := x / y;
    assert x == d * y + x % y;
    SameMultiple(q, d, y);
  }
}
