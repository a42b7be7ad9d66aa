/** The six comparison operators of `CORBA::Fixed`; `None` when aligning the operands overflows. */
module FixedComparisons {
  import opened Prelude
  import opened Decimal
  import B = BigInt
  import opened Fixed
  import O = FixedOperators

  function Equal(a: Fixed, b: Fixed): (r: Option<bool>) {
    var xyt :- Align(a, b);
    Some(xyt.0 == xyt.1)
  }

  function NotEqual(a: Fixed, b: Fixed): (r: Option<bool>) {
    var eq :- Equal(a, b);
    Some(!eq)
  }

  function Less(a: Fixed, b: Fixed): (r: Option<bool>) {
    var xyt :- Align(a, b);
    Some(xyt.0 < xyt.1)
  }

  function AtMost(a: Fixed, b: Fixed): (r: Option<bool>) {
    var xyt :- Align(a, b);
    Some(B.AtMost(xyt.0, xyt.1))
  }

  function Greater(a: Fixed, b: Fixed): (r: Option<bool>) {
    var le :- AtMost(a, b);
    Some(!le)
  }

  function AtLeast(a: Fixed, b: Fixed): (r: Option<bool>) {
    var lt :- Less(a, b);
    Some(!lt)
  }

  /** The coarser operand has room for the digits of the finer one. */
  predicate Defined(a: Fixed, b: Fixed) {
    B.Fits(a.val) && B.Fits(b.val) && AlignReturns(a, b)
  }

  /** All six comparisons return exactly for such operands. */
  lemma ComparisonsReturnIff(a: Fixed, b: Fixed)
    requires B.Fits(a.val) && B.Fits(b.val)
    ensures Equal(a, b).Some? <==> Defined(a, b)
    ensures Less(a, b).Some? <==> Defined(a, b)
    ensures AtMost(a, b).Some? <==> Defined(a, b)
    ensures NotEqual(a, b).Some? == Greater(a, b).Some? == AtLeast(a, b).Some? == Defined(a, b)
  {
    AlignReturnsIff(a, b);
  }

  /** And always for operands with scales between 0 and 31. */
  lemma ComparisonsAlwaysReturn(a: Fixed, b: Fixed)
    requires O.InRange(a) && O.InRange(b)
    ensures Defined(a, b) && Equal(a, b).Some? && Less(a, b).Some? && AtMost(a, b).Some?
    ensures NotEqual(a, b).Some? && Greater(a, b).Some? && AtLeast(a, b).Some?
  {
    O.AlignAlwaysReturns(a, b);
  }

  lemma AlignedAt(a: Fixed, b: Fixed, k: int)
    requires Defined(a, b) && k >= a.scale && k >= b.scale
    ensures Align(a, b).Some?
    ensures var (x, y, t) := Align(a, b).value;
            && (x < y <==> Seen(a, k) < Seen(b, k)) && (x == y <==> Seen(a, k) == Seen(b, k))
            && (x == 0 <==> a.val == 0) && (y < 0 <==> b.val < 0)
  {
    AlignReturnsIff(a, b);
    AlignIs(a, b);
    var (x, y, t) := Align(a, b).value;
    AtFiner(a.val, a.scale, t, k);
    AtFiner(b.val, b.scale, t, k);
    TimesOrder(x, y, Pow10(k - t));
    SignAt(a.val, a.scale, t);
    SignAt(b.val, b.scale, t);
  }

  /** `==`, `!=`, `<` and `>=` compare the numbers, whatever their scales. */
  lemma FourAreRight(a: Fixed, b: Fixed, k: int)
    requires Defined(a, b) && k >= a.scale && k >= b.scale
    ensures Equal(a, b) == Some(Seen(a, k) == Seen(b, k)) && NotEqual(a, b) == Some(Seen(a, k) != Seen(b, k))
    ensures Less(a, b) == Some(Seen(a, k) < Seen(b, k)) && AtLeast(a, b) == Some(Seen(a, k) >= Seen(b, k))
  {
    AlignedAt(a, b, k);
  }

  /** `<=` and `>` do so unless the numbers are equal and not zero, or zero and a negative. */
  lemma TwoAreRightUnless(a: Fixed, b: Fixed, k: int)
    requires Defined(a, b) && k >= a.scale && k >= b.scale
    ensures AtMost(a, b) == Some(Seen(a, k) <= Seen(b, k))
            <==> !(a.val != 0 && Seen(a, k) == Seen(b, k)) && !(a.val == 0 && b.val < 0)
    ensures Greater(a, b) == Some(Seen(a, k) > Seen(b, k))
            <==> !(a.val != 0 && Seen(a, k) == Seen(b, k)) && !(a.val == 0 && b.val < 0)
  {
    AlignedAt(a, b, k);
    var (x, y, t) := Align(a, b).value;
    B.AtMostIsRight(x, y);
  }

  /** `<=` is not reflexive: it holds of zero alone. */
  lemma AtMostIsNotReflexive(a: Fixed)
    ensures AtMost(a, a) == Some(a.val == 0)
  {
  }

  // ---------- the order ----------

  lemma LessIsTransitive(a: Fixed, b: Fixed, c: Fixed)
    requires Defined(a, b) && Defined(b, c) && Defined(a, c)
    requires Less(a, b) == Some(true) && Less(b, c) == Some(true)
    ensures Less(a, c) == Some(true)
  {
    var k := Max(a.scale, Max(b.scale, c.scale));
    FourAreRight(a, b, k);
    FourAreRight(b, c, k);
    FourAreRight(a, c, k);
  }

  /** Exactly one of `<`, `==` and the reverse `<` holds. */
  lemma Trichotomy(a: Fixed, b: Fixed)
    requires Defined(a, b)
    ensures Defined(b, a) && Less(a, b).Some? && Less(b, a).Some? && Equal(a, b).Some?
    ensures Equal(a, b).value == (!Less(a, b).value && !Less(b, a).value)
    ensures !(Less(a, b).value && Less(b, a).value)
  {
    var k := Max(a.scale, b.scale);
    FourAreRight(a, b, k);
    FourAreRight(b, a, k);
  }

  lemma EqualIsAnEquivalence(a: Fixed, b: Fixed, c: Fixed)
    requires Defined(a, b) && Defined(b, c) && Defined(a, c)
    ensures Equal(a, a) == Some(true) && Equal(b, a) == Equal(a, b)
    ensures Equal(a, b) == Some(true) && Equal(b, c) == Some(true) ==> Equal(a, c) == Some(true)
  {
    var k := Max(a.scale, Max(b.scale, c.scale));
    FourAreRight(a, b, k);
    FourAreRight(b, c, k);
    FourAreRight(a, c, k);
    FourAreRight(b, a, k);
  }

  /** Equal operands give equal sums, differences, products and quotients. */
  lemma OperationsRespectEquality(s: int, a: Fixed, a': Fixed, b: Fixed, b': Fixed)
    requires Defined(a, a') && Defined(b, b') && Equal(a, a') == Some(true) && Equal(b, b') == Some(true)
    ensures Add(s, a, b).Some? && Add(s, a', b').Some? ==> Add(s, a, b) == Add(s, a', b')
    ensures !TwoNegatives(a, b) && Sub(s, a, b).Some? && Sub(s, a', b').Some? ==> Sub(s, a, b) == Sub(s, a', b')
    ensures Mul(s, a, b).Some? && Mul(s, a', b').Some? ==> Mul(s, a, b) == Mul(s, a', b')
    ensures Div(s, a, b).Some? && Div(s, a', b').Some? ==> Div(s, a, b) == Div(s, a', b')
  {
    AddRespectsEquality(s, a, a', b, b');
    SubRespectsEquality(s, a, a', b, b');
    MulRespectsEquality(s, a, a', b, b');
    DivRespectsEquality(s, a, a', b, b');
  }

  lemma AddRespectsEquality(s: int, a: Fixed, a': Fixed, b: Fixed, b': Fixed)
    requires Defined(a, a') && Defined(b, b') && Equal(a, a') == Some(true) && Equal(b, b') == Some(true)
    ensures Add(s, a, b).Some? && Add(s, a', b').Some? ==> Add(s, a, b) == Add(s, a', b')
  {
    if Add(s, a, b).Some? && Add(s, a', b').Some? {
      var k := Max(s, Max(Max(a.scale, a'.scale), Max(b.scale, b'.scale)));
      SameSigns(a, a', k);
      SameSigns(b, b', k);
      AddRounds(s, a, b, k);
      AddRounds(s, a', b', k);
      NearestUnique(Add(s, a, b).value.val, Add(s, a', b').value.val, Summed(a, b, k), Pow10(k - s));
    }
  }

  lemma SubRespectsEquality(s: int, a: Fixed, a': Fixed, b: Fixed, b': Fixed)
    requires Defined(a, a') && Defined(b, b') && Equal(a, a') == Some(true) && Equal(b, b') == Some(true)
    ensures !TwoNegatives(a, b) && Sub(s, a, b).Some? && Sub(s, a', b').Some? ==> Sub(s, a, b) == Sub(s, a', b')
  {
    var k := Max(s, Max(Max(a.scale, a'.scale), Max(b.scale, b'.scale)));
    SameSigns(a, a', k);
    SameSigns(b, b', k);
    DifferenceAt(a, b, k);
    DifferenceAt(a', b', k);
    if !TwoNegatives(a, b) {
      SubOfSame(s, a, a', b, b', k);
    }
  }

  lemma SubOfSame(s: int, a: Fixed, a': Fixed, b: Fixed, b': Fixed, k: int)
    requires B.Fits(a.val) && B.Fits(a'.val) && B.Fits(b.val) && B.Fits(b'.val)
    requires k >= a.scale && k >= a'.scale && k >= b.scale && k >= b'.scale && k >= s
    requires Seen(a, k) == Seen(a', k) && Seen(b, k) == Seen(b', k) && !TwoNegatives(a, b) && !TwoNegatives(a', b')
    ensures Sub(s, a, b).Some? && Sub(s, a', b').Some? ==> Sub(s, a, b) == Sub(s, a', b')
  {
    if Sub(s, a, b).Some? && Sub(s, a', b').Some? {
      SubRounds(s, a, b, k);
      SubRounds(s, a', b', k);
      DifferenceFiner(a, b, k);
      DifferenceFiner(a', b', k);
      NearestUnique(Sub(s, a, b).value.val, Sub(s, a', b').value.val, Seen(a, k) - Seen(b, k), Pow10(k - s));
    }
  }

  lemma DifferenceAt(a: Fixed, b: Fixed, k: int)
    requires k >= a.scale && k >= b.scale
    ensures Difference(a, b) == 0 <==> Seen(a, k) == Seen(b, k)
  {
    SameAt(a.val, a.scale, b.val, b.scale, k);
  }

  lemma SameSigns(a: Fixed, a': Fixed, k: int)
    requires Defined(a, a') && Equal(a, a') == Some(true) && k >= a.scale && k >= a'.scale
    ensures Seen(a, k) == Seen(a', k) && (a.val > 0 <==> a'.val > 0) && (a.val < 0 <==> a'.val < 0)
  {
    FourAreRight(a, a', k);
    SignAt(a.val, a.scale, k);
    SignAt(a'.val, a'.scale, k);
  }

  lemma MulRespectsEquality(s: int, a: Fixed, a': Fixed, b: Fixed, b': Fixed)
    requires Defined(a, a') && Defined(b, b') && Equal(a, a') == Some(true) && Equal(b, b') == Some(true)
    ensures Mul(s, a, b).Some? && Mul(s, a', b').Some? ==> Mul(s, a, b) == Mul(s, a', b')
  {
    var k := Max(if s > 0 then s else 0, Max(Max(a.scale, a'.scale), Max(b.scale, b'.scale)));
    SameSigns(a, a', k);
    SameSigns(b, b', k);
    if Mul(s, a, b).Some? && Mul(s, a', b').Some? {
      MulRoundsSeen(s, a, b, k);
      MulRoundsSeen(s, a', b', k);
      NearestUnique(Mul(s, a, b).value.val, Mul(s, a', b').value.val, Seen(a, k) * Seen(b, k), Pow10(2 * k - s));
    }
  }

  lemma MulRoundsSeen(s: int, a: Fixed, b: Fixed, k: int)
    requires B.Fits(a.val) && B.Fits(b.val) && k >= a.scale && k >= b.scale && 2 * k >= s
    ensures Mul(s, a, b).Some? ==> Nearest(Mul(s, a, b).value.val, Seen(a, k) * Seen(b, k), Pow10(2 * k - s))
  {
    if Mul(s, a, b).Some? {
      ProductAt(a, b, k);
      MulRounds(s, a, b, 2 * k);
    }
  }

  lemma DivRespectsEquality(s: int, a: Fixed, a': Fixed, b: Fixed, b': Fixed)
    requires Defined(a, a') && Defined(b, b') && Equal(a, a') == Some(true) && Equal(b, b') == Some(true)
    ensures Div(s, a, b).Some? && Div(s, a', b').Some? ==> Div(s, a, b) == Div(s, a', b')
  {
    if Div(s, a, b).Some? && Div(s, a', b').Some? {
      var k := Max(Max(a.scale, a'.scale), Max(b.scale, b'.scale));
      SameSigns(a, a', k);
      SameSigns(b, b', k);
      if b.val == 0 {
        DivByZero(s, a, b);
        DivByZero(s, a', b');
      } else {
        DivComputesAt(s, a, b, k);
        DivComputesAt(s, a', b', k);
        NearestUnique(Div(s, a, b).value.val, Div(s, a', b').value.val, Seen(a, k) * Power10(s + 1).value, Seen(b, k) * 10);
      }
    }
  }

  /** -1 and -1.0 are equal, but not so -1 - -2 and -1.0 - -2: the borrow is lost at another place. */
  lemma DifferencesOfEquals()
    ensures var a, a', b := Fixed(-1, 0, 1), Fixed(-10, 1, 2), Fixed(-2, 0, 1);
            && Equal(a, a') == Some(true)
            && Sub(0, a, b).Some? && Sub(0, a', b).Some? && Sub(0, a, b).value.val != Sub(0, a', b).value.val
  {
    var a, a', b := Fixed(-1, 0, 1), Fixed(-10, 1, 2), Fixed(-2, 0, 1);
    Power10Is(1);
    Power10Is(0);
    assert Pow10(1) == 10 * Pow10(0) == 10;
    assert Align(a, a') == Some((-10, -10, 1)) && Align(a', b) == Some((-10, -20, 1)) && Align(a, b) == Some((-1, -2, 0));
    assert B.Minus(-1, -2) == Some(B.LIMIT - 1) && B.Minus(-10, -20) == Some(B.LIMIT - 10);
    assert HalfUnit(1) == Some(5);
    assert Rescale(0, 1, B.LIMIT - 10, true) == Some((B.LIMIT - 5) / 10);
  }
}
