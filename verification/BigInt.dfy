/**
  Arithmetic of `BigInt`: a sign and a magnitude of 32 octets.

  The functions give, for each operator, the number that the code computes, which is not always the
  number that it should; `None` is the DATA_CONVERSION exception of an overflow.
 */
module BigInt {
  import opened Prelude
  import opened Decimal
  import opened Octet

  /** Every magnitude is below this. */
  const LIMIT: int := 0x1_0000000000000000_0000000000000000_0000000000000000_0000000000000000

  /** How many octets a magnitude has. */
  const WIDTH: nat := 32

  predicate Fits(x: int) {
    -LIMIT < x < LIMIT
  }

  function Fit(x: int): (r: Option<int>) {
    if Fits(x) then Some(x) else None
  }

  /** `operator+`.  A positive plus a negative computes the sum, which may overflow, and returns its left operand. */
  function Plus(a: int, b: int): (r: Option<int>) {
    if a == 0 then Some(b)
    else if b == 0 then Some(a)
    else if (a > 0 && b > 0) || (a < 0 && b < 0) then Fit(a + b)
    else if a < 0 then Some(a + b)
    else if Fits(a - b) then Some(a) else None
  }

  /**
    `operator-`.  Two negatives are subtracted as magnitudes in the wrong order, and the last borrow
    is lost.
   */
  function Minus(a: int, b: int): (r: Option<int>)
    ensures r.Some? && Fits(a) && Fits(b) ==> Fits(r.value)
    decreases a < b
  {
    if a < b then
      var r :- Minus(b, a);
      Some(-r)
    else if a > 0 && b > 0 then Some(a - b)
    else if a < 0 && b < 0 then Some(if a == b then 0 else LIMIT - (a - b))
    else if b < 0 then Plus(a, -b)
    else Some(a)
  }

  function Times(a: int, b: int): (r: Option<int>) {
    Fit(a * b)
  }

  /** `x100`: `times` multiplications by one hundred; a count that is not positive does nothing. */
  function Hundredfold(a: int, times: int): (r: Option<int>)
    decreases times
  {
    if times <= 0 then Some(a) else
    var next :- Fit(100 * a);
    Hundredfold(next, times - 1)
  }

  /**
    `operator*(int)` for ten.  A negative is turned into a positive times minus ten, and of each
    product of an octet only the two lowest octets are kept.
   */
  function TimesTen(a: int): (r: Option<int>) {
    if a >= 0 then Fit(10 * a) else
    var (b, carry) := Smear(Octets(-a, WIDTH), 0);
    var magnitude: int := Bits(b);
    if carry != 0 then None else Some(-magnitude)
  }

  function Smear(b: seq<octet>, carry: octet): (r: (seq<octet>, octet))
    ensures |r.0| == |b|
  {
    if b == [] then ([], carry) else
    var low: int := b[0];
    var product := carry - 10 * low;
    var rest := Smear(b[1..], product / 256 % 256);
    ([product % 256] + rest.0, rest.1)
  }

  /** The quotient truncated toward zero. */
  function TruncDiv(a: int, b: int): (q: int)
    requires b != 0
  {
    var q := Abs(a) / Abs(b);
    if (a < 0) == (b < 0) then q else -q
  }

  /** `div` into a quotient that was zero: a divisor of zero leaves it alone. */
  function Quotient(a: int, b: int): (q: int) {
    if b == 0 then 0 else TruncDiv(a, b)
  }

  /** `operator<=`: two equal numbers other than zero are not found equal, and zero passes for below every negative. */
  function AtMost(a: int, b: int): (r: bool) {
    if a == 0 && b == 0 then true
    else if (a > 0 && b > 0) || (a < 0 && b < 0) then a < b
    else a <= 0
  }

  // ---------- when the operators are right ----------

  /** `operator+` is right exactly when it is not a positive plus a negative. */
  lemma PlusIsExact(a: int, b: int)
    requires Fits(a) && Fits(b) && Plus(a, b).Some?
    ensures Plus(a, b) == Some(a + b) <==> !(a > 0 && b < 0)
    ensures a > 0 && b < 0 ==> Plus(a, b) == Some(a)
  {
  }

  /** `operator-` is right except for two different negatives. */
  lemma MinusIsExact(a: int, b: int)
    requires Fits(a) && Fits(b) && Minus(a, b).Some?
    ensures Minus(a, b) == Some(a - b) <==> !(a < 0 && b < 0 && a != b) || 2 * Abs(a - b) == LIMIT
    ensures a < 0 && b < 0 && a != b ==>
              Minus(a, b) == Some(if a < b then (b - a) - LIMIT else LIMIT - (a - b))
  {
  }

  /** The operands that `operator+` does not throw for. */
  predicate PlusReturns(a: int, b: int) {
    a == 0 || b == 0 || (a < 0 && b > 0) || Abs(a) + Abs(b) < LIMIT
  }

  lemma PlusReturnsIff(a: int, b: int)
    ensures Plus(a, b).Some? <==> PlusReturns(a, b)
  {
  }

  /** The operands that `operator-` does not throw for. */
  predicate MinusReturns(a: int, b: int) {
    ((a > 0 && b < 0) || (a < 0 && b > 0)) ==> Abs(a) + Abs(b) < LIMIT
  }

  lemma MinusReturnsIff(a: int, b: int)
    ensures Minus(a, b).Some? <==> MinusReturns(a, b)
  {
    if a < b {
      assert Minus(b, a).Some? <==> MinusReturns(b, a);
    }
  }

  lemma MinusOfPositives(a: int, b: int)
    requires a > 0 && b > 0
    ensures Minus(a, b) == Some(a - b)
  {
    if a < b {
      assert Minus(b, a) == Some(b - a);
    }
  }

  /** `operator<=` is right except for two equal numbers other than zero, and for zero before a negative. */
  lemma AtMostIsRight(a: int, b: int)
    ensures AtMost(a, b) == (a <= b) <==> !(a == b != 0) && !(a == 0 && b < 0)
  {
  }

  lemma {:induction false} HundredfoldIs(a: int, times: int)
    requires Fits(a)
    ensures times <= 0 ==> Hundredfold(a, times) == Some(a)
    ensures times >= 0 ==> Hundredfold(a, times) == Fit(a * Pow10(2 * times))
    decreases times
  {
    if times > 0 {
      var p := Pow10(2 * (times - 1));
      assert Pow10(2 * times) == 100 * p by {
        assert Pow10(2 * times) == 10 * Pow10(2 * times - 1);
      }
      Regrouped(a, p);
      if Fits(100 * a) {
        HundredfoldIs(100 * a, times - 1);
      } else {
        TooBig(100 * a, p);
      }
    }
  }

  lemma Regrouped(a: int, p: int)
    ensures a * (100 * p) == (100 * a) * p
  {
  }

  lemma TooBig(x: int, p: int)
    requires !Fits(x) && p >= 1
    ensures !Fits(x * p)
  {
    if x > 0 {
      assert x * p >= x;
    } else {
      assert (-x) * p >= -x;
    }
  }

  /** What is left over has the sign of the dividend and is smaller than the divisor. */
  lemma TruncDivIs(a: int, b: int)
    requires b != 0
    ensures var r := a - TruncDiv(a, b) * b; Abs(r) < Abs(b) && (a >= 0 ==> r >= 0) && (a <= 0 ==> r <= 0)
  {
    var q, m := Abs(a) / Abs(b), Abs(a) % Abs(b);
    assert Abs(a) == q * Abs(b) + m;
    Signs(q, b);
  }

  // ---------- ten times a negative ----------

  /** `operator*(int)` never gets ten times a negative right. */
  lemma TimesTenIsRight(a: int)
    requires Fits(a) && TimesTen(a).Some?
    ensures TimesTen(a) == Some(10 * a) <==> a >= 0
  {
    if a < 0 {
      Limit();
      OctetsBits(-a, WIDTH);
      SmearIsWrong(Octets(-a, WIDTH));
    }
  }

  /** It returns for every number of 31 octets. */
  lemma TimesTenReturns(a: int)
    requires 256 * Abs(a) < LIMIT
    ensures TimesTen(a).Some?
  {
    if a < 0 {
      Limit();
      assert Pow256(32) == 256 * Pow256(31);
      NoTopOctet(-a, 31);
      SmearedAway(Octets(-a, WIDTH), 0);
    }
  }

  lemma {:induction false} NoTopOctet(n: nat, size: nat)
    requires n < Pow256(size)
    ensures Octets(n, size + 1)[size] == 0
  {
    if size > 0 {
      NoTopOctet(n / 256, size - 1);
    }
  }

  lemma {:induction false} SmearedAway(b: seq<octet>, carry: octet)
    requires b != [] && b[|b| - 1] == 0
    ensures Smear(b, carry).1 == 0
  {
    if |b| > 1 {
      var low: int := b[0];
      var product := carry - 10 * low;
      SmearedAway(b[1..], product / 256 % 256);
    }
  }

  lemma Limit()
    ensures Pow256(32) == LIMIT
  {
    assert Pow256(8) == 0x1_0000000000000000;
    Pow256Twice(8);
    Pow256Twice(16);
  }

  lemma Pow256Twice(n: nat)
    ensures Pow256(n + n) == Pow256(n) * Pow256(n)
  {
    Pow256Sum(n, n);
  }

  lemma {:induction false} SmearIsWrong(b: seq<octet>)
    requires Bits(b) > 0 && Smear(b, 0).1 == 0
    ensures Bits(Smear(b, 0).0) != 10 * Bits(b)
  {
    var s := Smear(b, 0).0;
    if b[0] == 0 {
      assert s[1..] == Smear(b[1..], 0).0;
      SmearIsWrong(b[1..]);
    } else {
      var low: int := b[0];
      var c := -10 * low / 256 % 256;
      var rest := Smear(b[1..], c);
      assert s[0] == -10 * low % 256 && s[1..] == rest.0;
      if Bits(s) == 10 * Bits(b) {
        FirstOctet(low, s[0], Bits(s[1..]), Bits(b[1..]));
        assert |b| > 1;
        assert Bits(rest.0) == rest.0[0] + 256 * Bits(rest.0[1..]);
        assert Bits(b[1..]) == b[1] + 256 * Bits(b[1..][1..]);
        SecondOctet(low, b[1], rest.0[0], Bits(rest.0[1..]), Bits(b[1..][1..]));
        assert false;
      }
    }
  }

  lemma FirstOctet(low: int, d: int, x: int, y: int)
    requires 0 < low < 256 && d == -10 * low % 256 && d + 256 * x == 10 * (low + 256 * y)
    ensures low == 64 || low == 128 || low == 192
  {
    var m := (d + 10 * low) / 256;
    assert d + 10 * low == 256 * m;
    var j := m - 10 * y + x;
    assert 5 * low == 64 * j;
    assert low == 64 * (13 * j - low);
  }

  lemma SecondOctet(low: int, b: int, d: int, x: int, y: int)
    requires low == 64 || low == 128 || low == 192
    requires d == (-10 * low / 256 % 256 - 10 * b) % 256
    ensures -10 * low % 256 + 256 * (d + 256 * x) != 10 * (low + 256 * (b + 256 * y))
  {
    if low == 64 {
      assert d == (253 - 10 * b) % 256;
    } else if low == 128 {
      assert d == (251 - 10 * b) % 256;
    } else {
      assert d == (248 - 10 * b) % 256;
    }
  }

  /** Ten times -5 is -65486. */
  lemma TenTimesMinusFive()
    ensures TimesTen(-5) == Some(-65486)
  {
    var zeros := Octets(0, 30);
    NothingSmeared(30);
    assert Octets(5, 32) == [5] + ([0] + zeros) by {
      assert Octets(0, 31) == [0] + zeros;
    }
    FiveSmeared(zeros);
  }

  lemma FiveSmeared(zeros: seq<octet>)
    requires Smear(zeros, 0) == (zeros, 0) && Bits(zeros) == 0
    ensures Smear([5] + ([0] + zeros), 0) == ([206] + ([255] + zeros), 0) && Bits([206] + ([255] + zeros)) == 65486
  {
    var b, s := [5] + ([0] + zeros), [206] + ([255] + zeros);
    assert b[1..] == [0] + zeros && ([0] + zeros)[1..] == zeros;
    assert Smear([0] + zeros, 255) == ([255] + zeros, 0);
    assert s[1..] == [255] + zeros && ([255] + zeros)[1..] == zeros;
    assert Bits([255] + zeros) == 255;
  }

  lemma {:induction false} NothingSmeared(n: nat)
    ensures Smear(Octets(0, n), 0) == (Octets(0, n), 0) && Bits(Octets(0, n)) == 0
  {
    if n > 0 {
      NothingSmeared(n - 1);
      assert Octets(0, n)[1..] == Octets(0, n - 1);
    }
  }
}
