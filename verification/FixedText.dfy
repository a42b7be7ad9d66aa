/** Reading and printing fixed-point numbers (`extractFromString` and `to_string`). */
module FixedText {
  import opened Prelude
  import opened Decimal
  import opened BigInt
  import opened Fixed
  import opened Text

  // ---------- reading ----------

  /** `timesTenToThe`: hundreds, and then perhaps a ten. */
  function TimesTenToThe(v: int, k: nat): (r: Option<int>) {
    var h :- Hundredfold(v, k / 2);
    if k % 2 == 1 then TimesTen(h) else Some(h)
  }

  /** It is a multiplication by a power of ten, for numbers that are not negative. */
  lemma TimesTenToTheIs(v: int, k: nat)
    requires 0 <= v && Fits(v)
    ensures TimesTenToThe(v, k) == Fit(v * Pow10(k))
  {
    HundredfoldIs(v, k / 2);
    EvenOrOdd(v, k);
  }

  /** For a negative it is so exactly when the power is even. */
  lemma TimesTenToTheOfNegative(v: int, k: nat)
    requires v < 0 && Fits(v) && TimesTenToThe(v, k).Some?
    ensures TimesTenToThe(v, k) == Some(v * Pow10(k)) <==> k % 2 == 0
  {
    HundredfoldIs(v, k / 2);
    EvenOrOdd(v, k);
    if k % 2 == 1 {
      TimesTenIsRight(v * Pow10(2 * (k / 2)));
    }
  }

  /** It returns for numbers of 32 digits and powers up to 31. */
  lemma TimesTenToTheReturns(v: int, k: nat)
    requires Abs(v) < Pow10(32) && k <= 31
    ensures TimesTenToThe(v, k).Some?
  {
    var p := Pow10(2 * (k / 2));
    Pow10Grows(2 * (k / 2), 30);
    Pow10Sum(32, 30);
    Pow10Of62();
    Below(v, Pow10(32), p, Pow10(30));
    Pow10Grows(0, 30);
    AtLeastOnce(Pow10(30), Pow10(32));
    HundredfoldIs(v, k / 2);
    if k % 2 == 1 {
      TimesTenReturns(v * p);
    }
  }

  lemma Below(v: int, m: int, p: int, q: int)
    requires Abs(v) < m && 0 < p <= q
    ensures Abs(v * p) < m * q
  {
    TimesOrder(v, m, p);
    TimesOrder(-m, v, p);
    AtLeastOnce(m, q - p);
    assert m * (q - p) == m * q - m * p;
  }

  lemma EvenOrOdd(v: int, k: nat)
    ensures var w := v * Pow10(2 * (k / 2));
            && (v >= 0 ==> w >= 0) && (v < 0 ==> w < 0)
            && v * Pow10(k) == if k % 2 == 1 then 10 * w else w
  {
    TimesOrder(v, 0, Pow10(2 * (k / 2)));
    if k % 2 == 1 {
      assert Pow10(k) == 10 * Pow10(2 * (k / 2));
      Regroup(v, 10, Pow10(2 * (k / 2)));
    }
  }

  /** An integer and how many digits `BigInt` counts in it: none in the zero that has a minus sign. */
  datatype Integer = Integer(value: int, digits: nat)

  /** The constructor of `BigInt` from a text: a minus sign anywhere takes the first character away. */
  function ReadInteger(s: string): (r: Option<Integer>)
    ensures r.Some? ==> Fits(r.value.value)
  {
    if '-' in s then
      if AllDigits(s[1..]) && ValueOf(s[1..]) < LIMIT then
        var n: int := ValueOf(s[1..]);
        Some(Integer(-n, if n == 0 then 0 else Digits(n)))
      else None
    else
      if AllDigits(s) && ValueOf(s) < LIMIT then Some(Integer(ValueOf(s), Digits(ValueOf(s)))) else None
  }

  function DigitPrefix(s: string): (r: string)
    ensures AllDigits(r)
  {
    if s != [] && IsDigit(s[0]) then [s[0]] + DigitPrefix(s[1..]) else []
  }

  /** `atoi`. */
  function Atoi(s: string): (n: int) {
    var t := DropSpaces(s);
    if t != [] && t[0] == '-' then -(ValueOf(DigitPrefix(t[1..])) as int)
    else if t != [] && t[0] == '+' then ValueOf(DigitPrefix(t[1..]))
    else ValueOf(DigitPrefix(t))
  }

  /** A `d` may end the text but stand nowhere else; a `D` is looked for only if there is no `d`. */
  function DropSuffix(s: string): (r: Option<string>)
    ensures r.Some? ==> r.value == s || (s != [] && s[|s| - 1] in "dD" && r.value == s[..|s| - 1])
  {
    var i := FindEither(s, 'd', 'D');
    if i == |s| then Some(s) else if i == |s| - 1 then Some(s[..i]) else None
  }

  function FindEither(s: string, c: char, c': char): (i: nat)
    ensures i <= |s| && (i < |s| ==> s[i] == c || s[i] == c')
    ensures i == |s| <==> c !in s && c' !in s
  {
    if Find(s, c) < |s| then Find(s, c) else Find(s, c')
  }

  /** The number before the exponent. */
  function Significand(s: string): (r: Option<Fixed>)
    ensures r.Some? ==> r.value.scale >= 0
  {
    var p := Find(s, '.');
    if p >= |s| - 1 then
      var n :- ReadInteger(s[..p]);
      Some(Fixed(n.value, 0, n.digits))
    else WithFraction(s[..p], s[p + 1..])
  }

  /** What stands before the point, and the digits after it. */
  function WithFraction(i: string, digits: string): (r: Option<Fixed>)
    requires digits != []
    ensures r.Some? ==> r.value.scale >= 0
  {
    if digits[0] == '-' then None else
    var f := TrimZeros(digits);
    var fraction :- ReadInteger(f);
    WithParts(i, fraction, fraction.digits + LeadingZeros(f))
  }

  function WithParts(i: string, fraction: Integer, scale: nat): (r: Option<Fixed>)
    ensures r.Some? ==> r.value.scale >= 0
  {
    if i == "" then Some(Fixed(fraction.value, scale, scale))
    else if i == "-" then Some(Fixed(-fraction.value, scale, scale))
    else
      var v :- Joined(i, fraction.value, scale);
      Some(Fixed(v, scale, Digits(v)))
  }

  /** The integer part, moved before the fraction, and the fraction. */
  function Joined(s: string, fraction: int, scale: nat): (r: Option<int>)
    requires s != []
  {
    if s[0] == '-' then
      var n :- ReadInteger(s[1..]);
      var w :- TimesTenToThe(n.value, scale);
      var v :- BigInt.Plus(w, fraction);
      Some(-v)
    else
      var n :- ReadInteger(s);
      var w :- TimesTenToThe(n.value, scale);
      if w < 0 then BigInt.Minus(w, fraction) else BigInt.Plus(w, fraction)
  }

  /** `extractFromString`. */
  function Extracted(str: string): (r: Option<Fixed>) {
    var t := DropSpaces(str);
    var plus := t != [] && t[0] == '+';
    var s := if plus then t[1..] else t;
    if plus && s != [] && s[0] == '-' then None else ExtractedUnsigned(s)
  }

  /** The text of the number and the exponent, as the parser finds them after the plus sign. */
  function Unwrap(s: string): (r: Option<(string, int)>) {
    var decimal :- DropSuffix(s);
    var e := FindEither(s, 'e', 'E');
    if e == |s| then Some((decimal, 0))
    else if e == 0 then None
    else Some((decimal[..e], Atoi(s[e + 1..])))
  }

  function ExtractedUnsigned(s: string): (r: Option<Fixed>) {
    var parts :- Unwrap(s);
    WithExponent(parts.0, parts.1)
  }

  function WithExponent(s: string, exponent: int): (r: Option<Fixed>) {
    var n :- Significand(s);
    if exponent > 31 || n.digits > 32 then None else
    var scale := n.scale - exponent;
    if scale >= 0 then Some(Fixed(n.val, scale, n.digits)) else
    var v :- TimesTenToThe(n.val, -scale);
    Some(Fixed(v, 0, if n.val == 0 then n.digits else Digits(n.val)))
  }

  // ---------- printing ----------

  /** The digits after the point: without the zeros at their end, but at least one. */
  function Fraction(f: string): (r: string) {
    if TrimZeros(f) == [] then "0" else TrimZeros(f)
  }

  function Body(d: string, scale: int, digits: int): (r: string) {
    if scale >= |d| then "0" + "." + Fraction(Zeros(scale - digits) + d)
    else if scale > 0 then d[..|d| - scale] + "." + Fraction(d[|d| - scale..])
    else d + Zeros(-scale)
  }

  /** `to_string`. */
  function Printed(f: Fixed): (r: string) {
    if f.val == 0 then "0"
    else (if f.val < 0 then "-" else "") + Body(Numeral(Abs(f.val)), f.scale, f.digits)
  }

  // ---------- print and read ----------

  /** A text of digits, points and minus signs has no exponent and no suffix. */
  predicate Plain(s: string) {
    s != [] && forall i :: 0 <= i < |s| ==> IsDigit(s[i]) || s[i] == '.' || s[i] == '-'
  }

  lemma ExtractPlain(s: string)
    requires Plain(s)
    ensures Extracted(s) == WithExponent(s, 0)
  {
    assert DropSpaces(s) == s && s[0] != '+';
    assert DropSuffix(s) == Some(s);
    assert FindEither(s, 'e', 'E') == |s|;
  }

  function Signed(neg: bool, s: string): (r: string) {
    if neg then "-" + s else s
  }

  function Sign(neg: bool, n: int): (r: int) {
    if neg then -n else n
  }

  lemma SignificandOfInteger(neg: bool, d: string)
    requires AllDigits(d) && 0 < ValueOf(d) < LIMIT
    ensures Significand(Signed(neg, d)) == Some(Fixed(Sign(neg, ValueOf(d)), 0, Digits(ValueOf(d))))
  {
    var s := Signed(neg, d);
    FindIs(s, '.', |s|);
    assert s[..|s|] == s;
    if neg {
      assert s[1..] == d;
    }
  }

  /** What the fraction of a printed number is read as. */
  lemma ReadFraction(f: string)
    requires AllDigits(f) && ValueOf(TrimZeros(f)) < LIMIT
    ensures var t := TrimZeros(f);
            var r := ReadInteger(t);
            && r.Some? && r.value.value == ValueOf(t)
            && r.value.digits + LeadingZeros(t) == PointScale(f)
  {
    var t := TrimZeros(f);
    TrimValue(f);
    if t != [] {
      LeadingZerosValue(t);
      NotAllZeros(t);
      DigitsOfNumeral(t[LeadingZeros(t)..]);
    }
  }

  lemma {:induction false} NotAllZeros(t: string)
    requires t != [] && t[|t| - 1] != '0'
    ensures LeadingZeros(t) < |t|
  {
    if t[0] == '0' {
      NotAllZeros(t[1..]);
    }
  }

  /** The scale and the mantissa that digits before and after a point are read as. */
  function PointScale(f: string): (k: nat)
    ensures k >= 1
  {
    if TrimZeros(f) == [] then 1 else |TrimZeros(f)|
  }

  function PointValue(i: string, f: string): (v: nat)
    requires AllDigits(i) && AllDigits(f)
  {
    ValueOf(i) * Pow10(PointScale(f)) + ValueOf(TrimZeros(f))
  }

  lemma SignificandOfPoint(neg: bool, i: string, f: string)
    requires AllDigits(i) && AllDigits(f) && i != [] && f != [] && PointValue(i, f) < LIMIT
    ensures var v := PointValue(i, f);
            Significand(Signed(neg, i + "." + f)) == Some(Fixed(Sign(neg, v), PointScale(f), Digits(v)))
  {
    SignedParts(neg, i, f);
    SignificandParts(Signed(neg, i), f);
    FractionOfPoint(neg, i, f);
  }

  lemma SignedParts(neg: bool, i: string, f: string)
    requires AllDigits(i)
    ensures Signed(neg, i + "." + f) == Signed(neg, i) + "." + f && '.' !in Signed(neg, i)
  {
  }

  lemma FractionOfPoint(neg: bool, i: string, f: string)
    requires AllDigits(i) && AllDigits(f) && i != [] && f != [] && PointValue(i, f) < LIMIT
    ensures var v := PointValue(i, f);
            WithFraction(Signed(neg, i), f) == Some(Fixed(Sign(neg, v), PointScale(f), Digits(v)))
  {
    ReadFraction(f);
    JoinedIs(neg, i, ValueOf(TrimZeros(f)), PointScale(f));
    DigitsOfOpposite(PointValue(i, f));
    WithFractionIs(Signed(neg, i), f, ReadInteger(TrimZeros(f)).value);
    PartsAre(Signed(neg, i), ReadInteger(TrimZeros(f)).value, PointScale(f));
  }

  lemma WithFractionIs(i: string, f: string, fraction: Integer)
    requires f != [] && f[0] != '-' && ReadInteger(TrimZeros(f)) == Some(fraction)
    ensures WithFraction(i, f) == WithParts(i, fraction, fraction.digits + LeadingZeros(TrimZeros(f)))
  {
  }

  lemma PartsAre(i: string, fraction: Integer, k: nat)
    requires i != "" && i != "-" && Joined(i, fraction.value, k).Some?
    ensures var v := Joined(i, fraction.value, k).value; WithParts(i, fraction, k) == Some(Fixed(v, k, Digits(v)))
  {
  }

  lemma DigitsOfOpposite(n: int)
    ensures Digits(-n) == Digits(n)
  {
  }

  lemma SignificandParts(i: string, f: string)
    requires '.' !in i && f != []
    ensures Significand(i + "." + f) == WithFraction(i, f)
  {
    var s := i + "." + f;
    FindIs(s, '.', |i|);
    assert s[|i| + 1..] == f && s[..|i|] == i;
  }

  lemma JoinedIs(neg: bool, i: string, fraction: nat, k: nat)
    requires AllDigits(i) && i != [] && ValueOf(i) * Pow10(k) + fraction < LIMIT
    ensures Joined(Signed(neg, i), fraction, k) == Some(Sign(neg, ValueOf(i) * Pow10(k) + fraction))
  {
    AtLeastOnce(Pow10(k), ValueOf(i));
    TimesTenToTheIs(ValueOf(i), k);
    if neg {
      assert Signed(neg, i)[1..] == i;
    }
  }

  /** Digits before and after a point are read as the number that they are together, at the scale of the point. */
  lemma PointIsRight(i: string, f: string)
    requires AllDigits(i) && AllDigits(f) && f != []
    ensures AllDigits(i + f) && PointScale(f) <= |f|
    ensures At(PointValue(i, f), PointScale(f), |f|) == ValueOf(i + f)
  {
    var t := TrimZeros(f);
    ValueOfSum(i, f);
    TrimValue(f);
    PointArithmetic(ValueOf(i), ValueOf(t), |t|, PointScale(f), |f|);
  }

  lemma PointArithmetic(i: int, t: int, s: nat, k: nat, l: nat)
    requires s <= l && k <= l && (s == k || t == 0)
    ensures At(i * Pow10(k) + t, k, l) == At(i, 0, l) + At(t, s, l)
  {
    AtFiner(i, 0, k, l);
    Distribute(i * Pow10(k), -t, Pow10(l - k));
    Signs(t, Pow10(l - k));
  }

  lemma TrimTwice(f: string)
    ensures TrimZeros(TrimZeros(f)) == TrimZeros(f)
  {
    var t := TrimZeros(f);
    TrimZerosIs(t, |t|);
    assert t[..|t|] == t;
  }

  /** The zeros that are not printed are not missed. */
  lemma FractionReadsTheSame(i: string, f: string)
    requires AllDigits(i) && AllDigits(f)
    ensures AllDigits(Fraction(f)) && Fraction(f) != []
    ensures PointScale(Fraction(f)) == PointScale(f) && PointValue(i, Fraction(f)) == PointValue(i, f)
  {
    TrimTwice(f);
    assert "0"[..0] == [];
    assert TrimZeros("0") == [];
  }

  predicate Normalised(f: Fixed) {
    f.digits == Digits(f.val) <= 31
  }

  /** Reading back a number that is printed with a point. */
  lemma ReadPoint(neg: bool, i: string, f: string, n: nat)
    requires AllDigits(i) && AllDigits(f) && i != [] && f != [] && Digits(n) <= 31
    requires AllDigits(i + f) && ValueOf(i + f) == n
    ensures var r := Extracted(Signed(neg, i + "." + Fraction(f)));
            r.Some? && Same(r.value.val, r.value.scale, Sign(neg, n), |f|)
  {
    var v, k := PointValue(i, f), PointScale(f);
    PointIsRight(i, f);
    FractionReadsTheSame(i, f);
    SmallerMantissa(v, Pow10(|f| - k), n);
    ExtractPoint(neg, i, Fraction(f));
    Signs(v, Pow10(|f| - k));
    assert At(Sign(neg, v), k, |f|) == Sign(neg, n) == At(Sign(neg, n), |f|, |f|);
  }

  lemma SmallerMantissa(v: nat, p: int, n: nat)
    requires v * p == n && p >= 1 && Digits(n) <= 31
    ensures v < LIMIT && Digits(v) <= 31
  {
    AtLeastOnce(p, v);
    SmallNumber(n);
    DigitsAtMost(n, 31);
    DigitsAtMost(v, 31);
  }

  lemma ExtractPoint(neg: bool, i: string, f: string)
    requires AllDigits(i) && AllDigits(f) && i != [] && f != []
    requires PointValue(i, f) < LIMIT && Digits(PointValue(i, f)) <= 31
    ensures Extracted(Signed(neg, i + "." + f))
         == Some(Fixed(Sign(neg, PointValue(i, f)), PointScale(f), Digits(PointValue(i, f))))
  {
    SignificandOfPoint(neg, i, f);
    PlainPoint(neg, i, f);
    ExtractPlain(Signed(neg, i + "." + f));
  }

  lemma PlainPoint(neg: bool, i: string, f: string)
    requires AllDigits(i) && AllDigits(f)
    ensures Plain(Signed(neg, i + "." + f))
  {
  }

  lemma SmallNumber(n: nat)
    requires Digits(n) <= 32
    ensures n < LIMIT
  {
    DigitsAtMost(n, 32);
    Pow10Of31();
    assert Pow10(32) == 10 * Pow10(31);
  }

  /** Reading back a number that is printed without one. */
  lemma ReadInteger32(neg: bool, d: string)
    requires AllDigits(d) && d != [] && d[0] != '0'
    ensures var r := Extracted(Signed(neg, d));
            if |d| <= 32 then r == Some(Fixed(Sign(neg, ValueOf(d)), 0, |d|)) else r.None?
  {
    DigitsOfNumeral(d);
    ExtractPlain(Signed(neg, d));
    if |d| <= 32 {
      SmallNumber(ValueOf(d));
    }
    if ValueOf(d) < LIMIT {
      SignificandOfInteger(neg, d);
    } else {
      TooBigToRead(neg, d);
    }
  }

  lemma TooBigToRead(neg: bool, d: string)
    requires AllDigits(d) && ValueOf(d) >= LIMIT
    ensures Significand(Signed(neg, d)).None?
  {
    var s := Signed(neg, d);
    FindIs(s, '.', |s|);
    assert s[..|s|] == s;
    if neg {
      assert s[1..] == d;
    }
  }

  /**
    Printing and then reading gives the same number back, unless it is printed as an integer of more
    than 32 digits, which cannot be read.
   */
  lemma PrintThenRead(f: Fixed)
    requires Normalised(f)
    ensures var r := Extracted(Printed(f));
            && (r.Some? <==> f.val == 0 || f.scale >= 0 || f.digits - f.scale <= 32)
            && (r.Some? ==> Same(r.value.val, r.value.scale, f.val, f.scale))
  {
    DigitsOfOpposite(f.val);
    if f.val == 0 {
      ReadZero(f.scale);
    } else if f.scale > 0 {
      ReadPrintedPoint(f);
    } else {
      ReadPrintedInteger(f);
    }
  }

  lemma ReadPrintedPoint(f: Fixed)
    requires f.digits == Digits(Abs(f.val)) <= 31 && f.val != 0 && f.scale > 0
    ensures var r := Extracted(Printed(f)); r.Some? && Same(r.value.val, r.value.scale, f.val, f.scale)
  {
    var i, t := PrintedPoint(f);
    ReadPoint(f.val < 0, i, t, Abs(f.val));
  }

  /** The digits that are printed before the point, and those after it with their zeros. */
  lemma PrintedPoint(f: Fixed) returns (i: string, t: string)
    requires f.digits == Digits(Abs(f.val)) && f.val != 0 && f.scale > 0
    ensures AllDigits(i) && AllDigits(t) && i != [] && |t| == f.scale
    ensures AllDigits(i + t) && ValueOf(i + t) == Abs(f.val)
    ensures Printed(f) == Signed(f.val < 0, i + "." + Fraction(t))
  {
    NumeralValue(Abs(f.val));
    i, t := BodyPoint(Numeral(Abs(f.val)), f.scale);
  }

  lemma BodyPoint(d: string, scale: nat) returns (i: string, t: string)
    requires scale > 0 && AllDigits(d) && d != []
    ensures AllDigits(i) && AllDigits(t) && i != [] && |t| == scale
    ensures AllDigits(i + t) && ValueOf(i + t) == ValueOf(d)
    ensures Body(d, scale, |d|) == i + "." + Fraction(t)
  {
    if scale >= |d| {
      i, t := "0", Zeros(scale - |d|) + d;
      ZerosInFront(scale - |d|, d);
      DigitsOfBoth("0", t);
    } else {
      i, t := d[..|d| - scale], d[|d| - scale..];
      assert i + t == d;
      DigitsOfBoth(i, t);
    }
  }

  lemma DigitsOfBoth(i: string, t: string)
    requires AllDigits(i + t)
    ensures AllDigits(i) && AllDigits(t)
  {
    forall k | 0 <= k < |t|
      ensures IsDigit(t[k])
    {
      assert (i + t)[|i| + k] == t[k];
    }
    forall k | 0 <= k < |i|
      ensures IsDigit(i[k])
    {
      assert (i + t)[k] == i[k];
    }
  }

  lemma ZerosInFront(k: int, d: string)
    requires AllDigits(d)
    ensures AllDigits("0" + (Zeros(k) + d)) && ValueOf("0" + (Zeros(k) + d)) == ValueOf(d)
  {
    ZerosValue(k);
    ValueOfSum(Zeros(k), d);
    assert "0"[..0] == [];
    ValueOfSum("0", Zeros(k) + d);
  }

  lemma ReadPrintedInteger(f: Fixed)
    requires f.digits == Digits(Abs(f.val)) && f.val != 0 && f.scale <= 0
    ensures var r := Extracted(Printed(f));
            && (r.Some? <==> f.digits - f.scale <= 32)
            && (r.Some? ==> Same(r.value.val, r.value.scale, f.val, f.scale))
  {
    var d := PrintedInteger(f);
    ReadInteger32(f.val < 0, d);
    SameInteger(f.val, f.scale, ValueOf(d));
  }

  lemma SameInteger(v: int, scale: int, w: int)
    requires scale <= 0 && w == At(Abs(v), scale, 0)
    ensures Same(Sign(v < 0, w), 0, v, scale)
  {
    Signs(Abs(v), Pow10(-scale));
    AtItsScale(Sign(v < 0, w), 0);
  }

  lemma PrintedInteger(f: Fixed) returns (d: string)
    requires f.digits == Digits(Abs(f.val)) && f.val != 0 && f.scale <= 0
    ensures AllDigits(d) && |d| == f.digits - f.scale && d[0] != '0' && ValueOf(d) == At(Abs(f.val), f.scale, 0)
    ensures Printed(f) == Signed(f.val < 0, d)
  {
    d := Numeral(Abs(f.val));
    NumeralValue(Abs(f.val));
    ZerosValue(-f.scale);
    ValueOfSum(d, Zeros(-f.scale));
    d := d + Zeros(-f.scale);
  }

  lemma ReadZero(scale: int)
    ensures Extracted("0") == Some(Fixed(0, 0, 1)) && Same(0, 0, 0, scale)
  {
    ExtractPlain("0");
    assert Significand("0") == Some(Fixed(0, 0, 1)) by {
      FindIs("0", '.', 1);
      assert "0"[..1] == "0" && "0"[..0] == [];
      assert AllDigits("0") && ValueOf("0") == 0 && '-' !in "0";
      assert ReadInteger("0") == Some(Integer(0, 1));
    }
  }
}
