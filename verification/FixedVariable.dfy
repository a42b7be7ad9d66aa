/** A variable of type `CORBA::Fixed`: assignment keeps its scale, and so do the compound operators. */
module FixedVariable {
  import opened Prelude
  import opened Decimal
  import opened BigInt
  import opened Fixed
  import O = FixedOperators

  class Variable {
    var val: int
    var scale: int
    var digits: int

    constructor (f: Fixed)
      ensures View() == f
    {
      val, scale, digits := f.val, f.scale, f.digits;
    }

    function View(): (f: Fixed)
      reads this
    {
      Fixed(val, scale, digits)
    }

    /**
      `operator=`: the nearest number at the scale of the variable.  More than 31 digits throw when
      the variable has already changed.
     */
    method Assign(f: Fixed) returns (thrown: bool)
      modifies this
      ensures scale == old(scale)
      ensures thrown <==> Result(scale, f.scale, f.val).None? || Result(scale, f.scale, f.val).value.digits > 31
      ensures View() == if Result(scale, f.scale, f.val).None? then old(View()) else Result(scale, f.scale, f.val).value
      ensures var k := Max(scale, f.scale); !thrown ==> digits <= 31 && Nearest(val, Seen(f, k), Pow10(k - scale))
    {
      var v := Rescale(scale, f.scale, f.val, true);
      if v.None? {
        return true;
      }
      RescaleRounds(scale, f.scale, f.val, Max(scale, f.scale));
      val := v.value;
      digits := Digits(val);
      thrown := digits > 31;
    }

    /** What a compound operator leaves: the variable is written only if nothing throws before. */
    twostate predicate Leaves(r: Option<Fixed>, thrown: bool)
      reads this
    {
      if old(digits) > 31 || old(scale) > 31 || r.None? then thrown && View() == old(View())
      else View() == r.value && (thrown <==> r.value.digits > 31)
    }

    method AddAssign(f: Fixed) returns (thrown: bool)
      modifies this
      ensures Leaves(Add(old(scale), old(View()), f), thrown)
    {
      thrown := Store(Add(scale, View(), f));
    }

    method SubAssign(f: Fixed) returns (thrown: bool)
      modifies this
      ensures Leaves(Sub(old(scale), old(View()), f), thrown)
    {
      thrown := Store(Sub(scale, View(), f));
    }

    method MulAssign(f: Fixed) returns (thrown: bool)
      modifies this
      ensures Leaves(Mul(old(scale), old(View()), f), thrown)
    {
      thrown := Store(Mul(scale, View(), f));
    }

    method DivAssign(f: Fixed) returns (thrown: bool)
      modifies this
      ensures Leaves(Div(old(scale), old(View()), f), thrown)
    {
      thrown := Store(Div(scale, View(), f));
    }

    /** A result of the scale of this variable is built, which may throw, and then assigned. */
    method Store(r: Option<Fixed>) returns (thrown: bool)
      requires r.Some? ==> r.value.scale == scale && r.value.digits == Digits(r.value.val)
      modifies this
      ensures Leaves(r, thrown)
    {
      if digits > 31 || scale > 31 || r.None? {
        return true;
      }
      thrown := Assign(r.value);
    }

    /**
      `adjust`: divide by ten while there is no remainder.  The number stays, and the mantissa that is
      left is not a multiple of ten.
     */
    method Adjust()
      modifies this`val, this`scale
      ensures old(val) == 0 || old(scale) == 0 ==> View() == old(View())
      ensures old(val) != 0 && old(scale) != 0 ==>
                val % 10 != 0 && scale <= old(scale) && old(val) == At(val, scale, old(scale))
    {
      if val != 0 && scale != 0 {
        var rest, quotient, dividend, nscale := 0, val, 0, 0;
        while rest == 0
          invariant val == old(val) && scale == old(scale)
          invariant rest == 0 ==> quotient != 0 && quotient * Pow10(nscale) == val
          invariant rest != 0 ==> nscale >= 1 && dividend * Pow10(nscale - 1) == val && dividend % 10 != 0
          decreases rest == 0, Abs(quotient)
        {
          dividend := quotient;
          quotient := TruncDiv(dividend, 10);
          rest := dividend - 10 * quotient;
          nscale := nscale + 1;
          Regroup(quotient, 10, Pow10(nscale - 1));
        }
        nscale := nscale - 1;
        scale := scale - nscale;
        val := dividend;
      }
    }
  }

  /** Two equal numbers whose mantissas are not multiples of ten have the same mantissa and scale. */
  lemma AdjustedIsUnique(v: int, s: int, v': int, s': int)
    requires v % 10 != 0 && v' % 10 != 0 && Same(v, s, v', s')
    ensures v == v' && s == s'
  {
    if s < s' {
      MultipleOfTen(v, s' - s);
      assert false;
    } else if s' < s {
      MultipleOfTen(v', s - s');
      assert false;
    }
  }

  lemma MultipleOfTen(v: int, n: nat)
    requires n >= 1
    ensures (v * Pow10(n)) % 10 == 0
  {
    Regroup(v, 10, Pow10(n - 1));
    assert v * Pow10(n) == 10 * (v * Pow10(n - 1));
  }

  // ---------- compound operators and binary ones ----------

  /** Unless the table asks for more than 31 digits, `a += b` leaves what `a = a + b` leaves: nothing is rounded twice. */
  lemma PlusAssignIsPlus(a: Fixed, b: Fixed)
    requires O.Plus(a, b).Some? && O.SumDigits(a, b) <= 31
    ensures a.digits <= 31 && a.scale <= 31
    ensures var c := O.Plus(a, b).value; Add(a.scale, a, b) == Result(a.scale, c.scale, c.val)
  {
  }

  lemma MinusAssignIsMinus(a: Fixed, b: Fixed)
    requires O.Minus(a, b).Some? && O.SumDigits(a, b) <= 31
    ensures a.digits <= 31 && a.scale <= 31
    ensures var c := O.Minus(a, b).value; Sub(a.scale, a, b) == Result(a.scale, c.scale, c.val)
  {
  }

  /**
    Likewise `a *= b`, when it returns: the product is first aligned, so it must have room for half of
    the unit that it is rounded to, which is more room than `a = a * b` takes.
   */
  lemma TimesAssignIsTimes(a: Fixed, b: Fixed)
    requires Fits(a.val) && Fits(b.val) && a.digits + b.digits <= 31
    ensures Mul(a.scale, a, b).Some? <==> MulReturns(a.scale, a, b)
    ensures O.Times(a, b).Some? ==>
            var c := O.Times(a, b).value;
            Result(a.scale, c.scale, c.val).Some? <==> RescaleReturns(a.scale, a.scale + b.scale, a.val * b.val)
    ensures O.Times(a, b).Some? ==>
            var c := O.Times(a, b).value;
            Mul(a.scale, a, b).Some? && Result(a.scale, c.scale, c.val).Some? ==>
              Mul(a.scale, a, b) == Result(a.scale, c.scale, c.val)
  {
    MulReturnsIff(a.scale, a, b);
    if O.Times(a, b).Some? {
      var c := O.Times(a, b).value;
      ProductIsExact(a, b);
      assert Fits(c.val) by { ProductFits(a, b); }
      RescaleReturnsIff(a.scale, a.scale + b.scale, c.val);
      if Mul(a.scale, a, b).Some? && Result(a.scale, c.scale, c.val).Some? {
        SameProduct(a, b);
      }
    }
  }

  lemma SameProduct(a: Fixed, b: Fixed)
    requires Fits(a.val) && Fits(b.val) && Mul(a.scale, a, b).Some?
    requires Result(a.scale, a.scale + b.scale, a.val * b.val).Some?
    ensures Mul(a.scale, a, b) == Result(a.scale, a.scale + b.scale, a.val * b.val)
  {
    var s := a.scale + b.scale;
    var k := Max(a.scale, s);
    MulRounds(a.scale, a, b, k);
    RescaleRounds(a.scale, s, a.val * b.val, k);
    NearestUnique(Mul(a.scale, a, b).value.val, Result(a.scale, s, a.val * b.val).value.val, At(a.val * b.val, s, k), Pow10(k - a.scale));
  }

  lemma ProductFits(a: Fixed, b: Fixed)
    requires Fits(a.val) && Fits(b.val)
    ensures O.Times(a, b).Some? ==> Fits(a.val * b.val)
  {
    if O.Times(a, b).Some? {
      O.TimesIsMul(a, b);
      AlignIs(a, b);
      var (x, y, t) := Align(a, b).value;
      ProductAt(a, b, t);
      AbsScaled(a.val * b.val, Pow10(2 * t - (a.scale + b.scale)));
      AtLeastOnce(Pow10(2 * t - (a.scale + b.scale)), Abs(a.val * b.val));
    }
  }

  /** 1 at scale -16 times 1 at scale 31: `a = a * b` returns, and `a *= b` throws. */
  lemma TimesAssignThrows()
    ensures var a, b := Fixed(1, -16, 1), Fixed(1, 31, 2);
            && O.Times(a, b).Some? && a.digits + b.digits <= 31 && Mul(a.scale, a, b).None?
            && Result(a.scale, O.Times(a, b).value.scale, O.Times(a, b).value.val).Some?
  {
    var a, b := Fixed(1, -16, 1), Fixed(1, 31, 2);
    BinaryReturns(a, b);
    ProductIsExact(a, b);
    assert Result(-16, 15, 1).Some? by {
      Pow10Of31();
      RescaleReturnsIff(-16, 15, 1);
    }
    assert Mul(-16, a, b).None? by {
      MulReturnsIff(-16, a, b);
    }
  }

  lemma BinaryReturns(a: Fixed, b: Fixed)
    requires a == Fixed(1, -16, 1) && b == Fixed(1, 31, 2)
    ensures O.Times(a, b).Some?
  {
    PowersFit();
    AlignedOnes(a, b, Pow10(47));
    ReturnsAt(15, a, b);
  }

  lemma ReturnsAt(s: int, a: Fixed, b: Fixed)
    requires Fits(a.val) && Fits(b.val) && a.digits + b.digits <= 31 && s == a.scale + b.scale <= 31
    requires MulReturns(s, a, b)
    ensures O.Times(a, b).Some?
  {
    MulReturnsIff(s, a, b);
    O.TimesUnfolds(a, b);
  }

  lemma PowersFit()
    ensures 0 < Pow10(47) < LIMIT && Pow10(47) + 5 * Pow10(46) < LIMIT
  {
    Pow10Grows(47, 62);
    Pow10Grows(46, 62);
    Pow10Of62();
  }

  lemma AlignedOnes(a: Fixed, b: Fixed, x: int)
    requires a == Fixed(1, -16, 1) && b == Fixed(1, 31, 2) && x == Pow10(47) && 0 < x < LIMIT
    ensures AlignReturns(a, b) && Seen(a, 31) == x && Seen(b, 31) == 1 && Seen(a, 31) * Seen(b, 31) == x
  {
    assert Pow10(0) == 1;
  }

  lemma ProductIsExact(a: Fixed, b: Fixed)
    requires Fits(a.val) && Fits(b.val) && a.digits + b.digits <= 31
    ensures O.Times(a, b).Some? ==> O.Times(a, b).value.val == a.val * b.val && O.Times(a, b).value.scale == a.scale + b.scale
  {
    if O.Times(a, b).Some? {
      O.TimesIsMul(a, b);
      ExactProduct(a, b, O.Times(a, b).value, a.val * b.val);
    }
  }

  lemma ExactProduct(a: Fixed, b: Fixed, r: Fixed, p: int)
    requires Fits(a.val) && Fits(b.val) && r.scale == a.scale + b.scale && Mul(r.scale, a, b) == Some(r) && p == a.val * b.val
    ensures r.val == p
  {
    MulRounds(r.scale, a, b, r.scale);
    AtItsScale(p, r.scale);
    NearestExact(r.val, p, 1);
  }
}
