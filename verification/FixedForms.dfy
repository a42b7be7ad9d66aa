/** What every text of the usual form is read as: spaces, sign, digits, point, digits, exponent, suffix. */
module FixedForms {
  import opened Prelude
  import opened Decimal
  import opened BigInt
  import opened Fixed
  import opened Text
  import opened FixedText

  /** An exponent: `e` or `E`, a sign or none, digits. */
  datatype Exponent = Exponent(letter: char, sign: string, digits: string)

  /** A text, in parts; `point` tells whether there is a point before `fraction`. */
  datatype Form = Form(spaces: string, plus: bool, minus: bool, whole: string, point: bool, fraction: string,
                       exponent: Option<Exponent>, suffix: string)

  predicate WellFormed(t: Form) {
    && (forall i :: 0 <= i < |t.spaces| ==> IsSpace(t.spaces[i]))
    && !(t.plus && t.minus)
    && AllDigits(t.whole) && AllDigits(t.fraction) && (!t.point ==> t.fraction == [])
    && (t.whole != [] || t.fraction != [])
    && (t.exponent.Some? ==> IsExponent(t.exponent.value))
    && IsSuffix(t.suffix)
  }

  predicate IsExponent(e: Exponent) {
    && (e.letter == 'e' || e.letter == 'E')
    && (e.sign == [] || (|e.sign| == 1 && (e.sign[0] == '-' || e.sign[0] == '+')))
    && AllDigits(e.digits)
  }

  predicate IsSuffix(s: string) {
    s == [] || (|s| == 1 && (s[0] == 'd' || s[0] == 'D'))
  }

  function Body(t: Form): (s: string) {
    Signed(t.minus, t.whole + if t.point then "." + t.fraction else "")
  }

  function Tail(t: Form): (s: string) {
    (if t.exponent.None? then "" else [t.exponent.value.letter] + ExponentText(t.exponent.value)) + t.suffix
  }

  function ExponentText(e: Exponent): (s: string) {
    e.sign + e.digits
  }

  function TextOf(t: Form): (s: string) {
    t.spaces + ((if t.plus then "+" else "") + (Body(t) + Tail(t)))
  }

  function ExponentOf(t: Form): (n: int)
    requires WellFormed(t)
  {
    if t.exponent.None? then 0 else Power(t.exponent.value)
  }

  function Power(e: Exponent): (n: int)
    requires IsExponent(e)
  {
    Sign(e.sign != [] && e.sign[0] == '-', ValueOf(e.digits))
  }

  /** The number before the exponent, without its sign: mantissa and scale. */
  function Mantissa(t: Form): (v: nat)
    requires WellFormed(t)
  {
    if t.fraction == [] then ValueOf(t.whole) else PointValue(t.whole, t.fraction)
  }

  function Scale(t: Form): (k: nat) {
    if t.fraction == [] then 0 else PointScale(t.fraction)
  }

  /** The digits that are counted: none in an integer zero with a minus sign, and those of the scale without whole digits. */
  function Counted(t: Form): (d: nat)
    requires WellFormed(t)
  {
    if t.whole == [] then Scale(t)
    else if t.fraction == [] && t.minus && Mantissa(t) == 0 then 0
    else Digits(Mantissa(t))
  }

  // ---------- around the number ----------

  lemma {:induction false} SpacesDropped(sp: string, s: string)
    requires (forall i :: 0 <= i < |sp| ==> IsSpace(sp[i])) && s != [] && !IsSpace(s[0])
    ensures DropSpaces(sp + s) == s
  {
    if sp == [] {
      assert sp + s == s;
    } else {
      SpacesDropped(sp[1..], s);
      assert (sp + s)[1..] == sp[1..] + s;
    }
  }

  lemma {:induction false} PrefixOfDigits(d: string, s: string)
    requires AllDigits(d) && (s == [] || !IsDigit(s[0]))
    ensures DigitPrefix(d + s) == d
  {
    if d == [] {
      assert d + s == s;
    } else {
      PrefixOfDigits(d[1..], s);
      assert (d + s)[1..] == d[1..] + s;
    }
  }

  lemma ExponentIsRead(e: Exponent, suffix: string)
    requires IsExponent(e) && IsSuffix(suffix)
    ensures Atoi(ExponentText(e) + suffix) == Power(e)
  {
    var s := ExponentText(e) + suffix;
    PrefixOfDigits(e.digits, suffix);
    assert DropSpaces(s) == s;
    if e.sign == [] {
      assert s == e.digits + suffix;
    } else {
      assert s[1..] == e.digits + suffix;
    }
  }

  /** The body has digits, points and a minus sign only. */
  lemma BodyIsPlain(t: Form)
    requires WellFormed(t)
    ensures Plain(Body(t)) && Body(t)[0] != '+' && !IsSpace(Body(t)[0]) && (!t.minus ==> Body(t)[0] != '-')
  {
  }

  /** A text without `d` and `D`, and then perhaps one of them. */
  lemma SuffixDropped(w: string, suffix: string)
    requires 'd' !in w && 'D' !in w && IsSuffix(suffix)
    ensures DropSuffix(w + suffix) == Some(w)
  {
    var u := w + suffix;
    if suffix == [] {
      assert u == w;
    } else {
      assert u[..|w|] == w;
      if suffix[0] == 'd' {
        FindIs(u, 'd', |w|);
      } else {
        FindIs(u, 'd', |u|);
        FindIs(u, 'D', |w|);
      }
    }
  }

  lemma NoExponentFound(u: string)
    requires 'e' !in u && 'E' !in u
    ensures FindEither(u, 'e', 'E') == |u|
  {
  }

  lemma ExponentFound(b: string, c: char, rest: string)
    requires 'e' !in b && 'E' !in b && 'e' !in rest && 'E' !in rest && (c == 'e' || c == 'E')
    ensures FindEither(b + [c] + rest, 'e', 'E') == |b|
  {
    var u := b + [c] + rest;
    if c == 'e' {
      FindIs(u, 'e', |b|);
    } else {
      FindIs(u, 'e', |u|);
      FindIs(u, 'E', |b|);
    }
  }

  /** Spaces, a plus sign, the exponent and the suffix are taken off. */
  lemma FormIsUnwrapped(t: Form)
    requires WellFormed(t)
    ensures Extracted(TextOf(t)) == WithExponent(Body(t), ExponentOf(t))
  {
    BodyIsPlain(t);
    var u := Body(t) + Tail(t);
    SignDropped(t.spaces, t.plus, u);
    TailDropped(Body(t), t);
  }

  lemma SignDropped(spaces: string, plus: bool, u: string)
    requires forall i :: 0 <= i < |spaces| ==> IsSpace(spaces[i])
    requires u != [] && u[0] != '+' && !IsSpace(u[0]) && (plus ==> u[0] != '-')
    ensures Extracted(spaces + ((if plus then "+" else "") + u)) == ExtractedUnsigned(u)
  {
    var rest := (if plus then "+" else "") + u;
    if plus {
      assert rest[1..] == u;
    } else {
      assert rest == u;
    }
    SpacesDropped(spaces, rest);
  }

  lemma TailDropped(b: string, t: Form)
    requires WellFormed(t) && Plain(b)
    ensures Unwrap(b + Tail(t)) == Some((b, ExponentOf(t)))
  {
    TailIs(b, t);
    if t.exponent.None? {
      WithoutExponent(b, t.suffix);
    } else {
      WithAnExponent(b, t.exponent.value, t.suffix);
    }
  }

  lemma TailIs(b: string, t: Form)
    ensures t.exponent.None? ==> b + Tail(t) == b + t.suffix
    ensures t.exponent.Some? ==> b + Tail(t) == Wrapped(b, t.exponent.value, t.suffix)
  {
  }

  function Wrapped(b: string, e: Exponent, suffix: string): (s: string) {
    b + [e.letter] + (ExponentText(e) + suffix)
  }

  lemma WithoutExponent(b: string, suffix: string)
    requires Plain(b) && IsSuffix(suffix)
    ensures Unwrap(b + suffix) == Some((b, 0))
  {
    SuffixDropped(b, suffix);
    NoExponentFound(b + suffix);
  }

  lemma WithAnExponent(b: string, e: Exponent, suffix: string)
    requires Plain(b) && IsExponent(e) && IsSuffix(suffix)
    ensures Unwrap(Wrapped(b, e, suffix)) == Some((b, Power(e)))
  {
    var x := ExponentText(e);
    var w := b + [e.letter] + x;
    NoLetters(b, e, suffix);
    SuffixDropped(w, suffix);
    ExponentFound(b, e.letter, x + suffix);
    ExponentIsRead(e, suffix);
    Parts(b, e.letter, x, suffix);
    UnwrapIs(Wrapped(b, e, suffix), w, |b|);
  }

  lemma NoLetters(b: string, e: Exponent, suffix: string)
    requires Plain(b) && IsExponent(e) && IsSuffix(suffix)
    ensures var x := ExponentText(e);
            'd' !in b + [e.letter] + x && 'D' !in b + [e.letter] + x && 'e' !in x + suffix && 'E' !in x + suffix
  {
    assert forall c <- ExponentText(e) :: IsDigit(c) || c == '-' || c == '+';
  }

  lemma Parts(b: string, c: char, x: string, suffix: string)
    ensures var u, w := b + [c] + (x + suffix), b + [c] + x;
            u == w + suffix && u[|b| + 1..] == x + suffix && w[..|b|] == b
  {
  }

  lemma UnwrapIs(s: string, decimal: string, e: nat)
    requires DropSuffix(s) == Some(decimal) && FindEither(s, 'e', 'E') == e && 0 < e < |s| && e <= |decimal|
    ensures Unwrap(s) == Some((decimal[..e], Atoi(s[e + 1..])))
  {
  }

  // ---------- the number ----------

  /** The number before the exponent is read as what it says, if it fits. */
  lemma BodyIsRead(t: Form)
    requires WellFormed(t)
    ensures Significand(Body(t))
         == if Mantissa(t) < LIMIT then Some(Fixed(Sign(t.minus, Mantissa(t)), Scale(t), Counted(t))) else None
  {
    if t.fraction != [] {
      assert Body(t) == Signed(t.minus, t.whole + "." + t.fraction);
      PointIsRead(t);
    } else {
      WholeIsRead(t);
    }
  }

  lemma WholeIsRead(t: Form)
    requires WellFormed(t) && t.fraction == []
    ensures Significand(Body(t))
         == if Mantissa(t) < LIMIT then Some(Fixed(Sign(t.minus, Mantissa(t)), 0, Counted(t))) else None
  {
    var s, d := Body(t), Signed(t.minus, t.whole);
    assert s == if t.point then d + "." else d;
    assert '.' !in d;
    FindIs(s, '.', |d|);
    assert s[..|d|] == d;
    IntegerIsRead(t.minus, t.whole);
  }

  lemma IntegerIsRead(neg: bool, d: string)
    requires AllDigits(d) && d != []
    ensures var v := ValueOf(d);
            ReadInteger(Signed(neg, d))
            == if v < LIMIT then Some(Integer(Sign(neg, v), if neg && v == 0 then 0 else Digits(v))) else None
  {
    if neg {
      assert Signed(neg, d)[1..] == d;
    }
  }

  lemma PointIsRead(t: Form)
    requires WellFormed(t) && t.fraction != []
    ensures var v := PointValue(t.whole, t.fraction);
            Significand(Signed(t.minus, t.whole + "." + t.fraction))
            == if v < LIMIT then Some(Fixed(Sign(t.minus, v), PointScale(t.fraction), Counted(t))) else None
  {
    var i, f := t.whole, t.fraction;
    SignedParts(t.minus, i, f);
    SignificandParts(Signed(t.minus, i), f);
    TrimValue(f);
    if ValueOf(TrimZeros(f)) >= LIMIT {
      FractionTooBig(Signed(t.minus, i), f);
      AtLeastOnce(Pow10(PointScale(f)), ValueOf(i));
    } else if i == [] {
      FractionAlone(t.minus, f);
    } else if PointValue(i, f) < LIMIT {
      FractionOfPoint(t.minus, i, f);
    } else {
      PointTooBig(t.minus, i, f);
    }
  }

  lemma FractionAlone(neg: bool, f: string)
    requires AllDigits(f) && f != [] && ValueOf(TrimZeros(f)) < LIMIT
    ensures PointValue([], f) == ValueOf(TrimZeros(f))
    ensures WithFraction(Signed(neg, []), f) == Some(Fixed(Sign(neg, ValueOf(TrimZeros(f))), PointScale(f), PointScale(f)))
  {
    ReadFraction(f);
    WithFractionIs(Signed(neg, []), f, ReadInteger(TrimZeros(f)).value);
  }

  lemma PointTooBig(neg: bool, i: string, f: string)
    requires AllDigits(i) && AllDigits(f) && i != [] && f != [] && PointValue(i, f) >= LIMIT
    requires AllDigits(TrimZeros(f)) && ValueOf(TrimZeros(f)) < LIMIT
    ensures WithFraction(Signed(neg, i), f).None?
  {
    ReadFraction(f);
    JoinedTooBig(neg, i, ValueOf(TrimZeros(f)), PointScale(f));
    WithFractionIs(Signed(neg, i), f, ReadInteger(TrimZeros(f)).value);
    NoParts(Signed(neg, i), ReadInteger(TrimZeros(f)).value, PointScale(f));
  }

  lemma NoParts(i: string, fraction: Integer, k: nat)
    requires i != "" && i != "-" && Joined(i, fraction.value, k).None?
    ensures WithParts(i, fraction, k).None?
  {
  }

  lemma FractionTooBig(i: string, f: string)
    requires AllDigits(f) && f != [] && AllDigits(TrimZeros(f)) && ValueOf(TrimZeros(f)) >= LIMIT
    ensures WithFraction(i, f).None?
  {
    assert '-' !in TrimZeros(f);
    assert ReadInteger(TrimZeros(f)).None?;
  }

  lemma JoinedTooBig(neg: bool, i: string, fraction: nat, k: nat)
    requires AllDigits(i) && i != [] && fraction < LIMIT && ValueOf(i) * Pow10(k) + fraction >= LIMIT
    ensures Joined(Signed(neg, i), fraction, k).None?
  {
    if ValueOf(i) < LIMIT {
      TimesTenToTheIs(ValueOf(i), k);
      SignAt(ValueOf(i), 0, k);
    }
    if neg {
      assert Signed(neg, i)[1..] == i;
    }
  }

  // ---------- the text ----------

  /**
    `r` is what a text of mantissa `v`, scale `k`, `d` counted digits and exponent `e` is read as.  It is
    read unless it has more than 32 digits or an exponent above 31, at the scale that is left, with the digits
    that were counted, or those of the mantissa if zeros are put behind it, and as the number that it says, unless that is a negative with an odd power of ten beyond its digits.
   */
  predicate ReadAs(r: Option<Fixed>, v: int, k: nat, d: nat, e: int) {
    && (r.Some? <==> d <= 32 && e <= 31)
    && (r.Some? ==> r.value.scale == (if e > k then 0 else k - e))
    && (r.Some? ==> r.value.digits == if e > k && v != 0 then Digits(v) else d)
    && (r.Some? ==> (Same(r.value.val, r.value.scale, v, k - e) <==> !(v < 0 && e > k && (e - k) % 2 == 1)))
  }

  lemma TextIsRead(t: Form)
    requires WellFormed(t)
    ensures ReadAs(Extracted(TextOf(t)), Sign(t.minus, Mantissa(t)), Scale(t), Counted(t), ExponentOf(t))
  {
    FormIsUnwrapped(t);
    BodyIsRead(t);
    CountedFits(t);
    ExponentTakenIn(Body(t), t.minus, Mantissa(t), Scale(t), Counted(t), ExponentOf(t));
  }

  lemma CountedFits(t: Form)
    requires WellFormed(t)
    ensures Counted(t) <= 32 ==> Digits(Mantissa(t)) <= 32
  {
    if t.whole == [] {
      FractionFits(t.fraction);
    }
  }

  lemma FractionFits(f: string)
    requires AllDigits(f)
    ensures PointScale(f) <= 32 ==> Digits(PointValue([], f)) <= 32
  {
    TrimValue(f);
    ValueBound(TrimZeros(f));
    if PointScale(f) <= 32 {
      Pow10Grows(|TrimZeros(f)|, 32);
      DigitsAtMost(ValueOf(TrimZeros(f)), 32);
    }
  }

  lemma ExponentTakenIn(s: string, neg: bool, m: nat, k: nat, d: nat, e: int)
    requires Significand(s) == if m < LIMIT then Some(Fixed(Sign(neg, m), k, d)) else None
    requires d <= 32 ==> Digits(m) <= 32
    ensures ReadAs(WithExponent(s, e), Sign(neg, m), k, d, e)
  {
    if d <= 32 && e <= 31 {
      DigitsOfOpposite(m);
      PowersReturn(Sign(neg, m), e - k);
      ExponentRead(s, Fixed(Sign(neg, m), k, d), e);
    }
  }

  lemma ExponentRead(s: string, f: Fixed, e: int)
    requires Significand(s) == Some(f) && f.scale >= 0 && f.digits <= 32 && e <= 31 && Fits(f.val)
    requires e > f.scale ==> TimesTenToThe(f.val, e - f.scale).Some?
    ensures ReadAs(WithExponent(s, e), f.val, f.scale, f.digits, e)
  {
    Powers(f.val, e - f.scale);
  }

  lemma PowersReturn(v: int, n: int)
    requires Digits(v) <= 32 && n <= 31
    ensures Fits(v) && (n > 0 ==> TimesTenToThe(v, n).Some?)
  {
    DigitsAtMost(v, 32);
    Pow10Of62();
    Pow10Grows(32, 62);
    if n > 0 {
      TimesTenToTheReturns(v, n);
    }
  }

  lemma Powers(v: int, n: int)
    requires Fits(v)
    ensures n <= 0 ==> Same(v, -n, v, -n)
    ensures n > 0 && TimesTenToThe(v, n).Some? ==>
              (Same(TimesTenToThe(v, n).value, 0, v, -n) <==> !(v < 0 && n % 2 == 1))
  {
    if n > 0 && TimesTenToThe(v, n).Some? {
      AtItsScale(TimesTenToThe(v, n).value, 0);
      if v < 0 {
        TimesTenToTheOfNegative(v, n);
      } else {
        TimesTenToTheIs(v, n);
      }
    }
  }

  const MINUS_FIFTY := Form("", false, true, "5", false, "", Some(Exponent('e', "", "1")), "")

  /** "-5e1" is read as -65486. */
  lemma MinusFiftyIsMisread()
    ensures WellFormed(MINUS_FIFTY) && TextOf(MINUS_FIFTY) == "-5e1"
    ensures var r := Extracted(TextOf(MINUS_FIFTY)); r.Some? && r.value.val == -65486 && r.value.scale == 0
  {
    MinusFiftyIs();
    FormIsUnwrapped(MINUS_FIFTY);
    BodyIsRead(MINUS_FIFTY);
    assert TimesTenToThe(-5, 1) == Some(-65486) by { TenTimesMinusFive(); }
  }

  lemma MinusFiftyIs()
    ensures WellFormed(MINUS_FIFTY) && TextOf(MINUS_FIFTY) == "-5e1"
    ensures Mantissa(MINUS_FIFTY) == 5 && ExponentOf(MINUS_FIFTY) == 1 && Counted(MINUS_FIFTY) == 1
  {
    assert "5"[..0] == [] && "1"[..0] == [];
    assert ValueOf("5") == 5 && ValueOf("1") == 1;
  }
}
