/** What a printed number looks like. */
module FixedPrinted {
  import opened Decimal
  import opened Fixed
  import opened Text
  import opened FixedText

  /** White space is what `isspace` takes for it in the C locale. */
  lemma SpacesAre(c: char)
    ensures IsSpace(c) <==> c == ' ' || c == '\t' || c == '\n' || c == '\U{0B}' || c == '\U{0C}' || c == '\r'
  {
  }

  lemma ZeroIsPrinted(f: Fixed)
    requires f.val == 0
    ensures Printed(f) == "0"
  {
  }

  /** The text of a number without its sign. */
  function Unsigned(f: Fixed): (s: string) {
    if f.val < 0 then Printed(f)[1..] else Printed(f)
  }

  /**
    Digits, before them a minus sign for negatives and nothing else, and no leading zero but the one that
    stands alone before a point, which is there exactly if the number is below 1.
   */
  lemma PrintedShape(f: Fixed)
    requires f.val != 0 && f.digits == Digits(f.val)
    ensures Printed(f) != [] && (Printed(f)[0] == '-' <==> f.val < 0)
    ensures var s := Unsigned(f);
            && s != [] && IsDigit(s[0]) && s[|s| - 1] != '.' && '-' !in s
            && (s[0] == '0' <==> f.scale >= f.digits)
            && (s[0] == '0' ==> |s| >= 3 && s[1] == '.')
            && ('.' in s <==> f.scale > 0)
            && ('.' in s && s[|s| - 1] == '0' ==> |s| >= 3 && s[|s| - 2] == '.')
  {
    var d := Numeral(Abs(f.val));
    AbsDigits(f.val);
    BodyShape(d, f.scale, f.digits);
    assert Printed(f) == (if f.val < 0 then "-" else "") + Body(d, f.scale, f.digits);
    assert Unsigned(f) == Body(d, f.scale, f.digits);
  }

  lemma AbsDigits(x: int)
    ensures Digits(Abs(x)) == Digits(x)
  {
  }

  lemma BodyShape(d: string, scale: int, digits: int)
    requires AllDigits(d) && d != [] && d[0] != '0' && digits == |d|
    ensures var s := Body(d, scale, digits);
            && s != [] && IsDigit(s[0]) && s[|s| - 1] != '.' && '-' !in s
            && (s[0] == '0' <==> scale >= digits)
            && (s[0] == '0' ==> |s| >= 3 && s[1] == '.')
            && ('.' in s <==> scale > 0)
            && ('.' in s && s[|s| - 1] == '0' ==> |s| >= 3 && s[|s| - 2] == '.')
  {
    var s := Body(d, scale, digits);
    if scale >= |d| {
      PointShape("0", Zeros(scale - digits) + d);
      assert s[0] == '0' && s[1] == '.';
    } else if scale > 0 {
      PointShape(d[..|d| - scale], d[|d| - scale..]);
      assert s[0] == d[0];
    } else {
      assert s[0] == d[0];
    }
  }

  lemma PointShape(i: string, f: string)
    requires AllDigits(i) && AllDigits(f) && i != []
    ensures var s := i + "." + Fraction(f);
            && '-' !in s && '.' in s && IsDigit(s[0]) && s[|s| - 1] != '.' && |s| >= 3
            && (s[|s| - 1] == '0' ==> s[|s| - 2] == '.')
  {
    var t := Fraction(f);
    var s := i + "." + t;
    FractionShape(f);
    assert s[|i|] == '.' && s[|s| - 1] == t[|t| - 1];
    if t == "0" {
      assert s[|s| - 2] == '.';
    }
  }

  lemma FractionShape(f: string)
    requires AllDigits(f)
    ensures Fraction(f) != [] && AllDigits(Fraction(f)) && (Fraction(f) == "0" || Fraction(f)[|Fraction(f)| - 1] != '0')
  {
    assert TrimZeros(f) == f[..|TrimZeros(f)|];
  }
}
