/**
  The operators of `CORBA::Fixed`: digit counts and scales of results follow the fixed-point table
  of section 3.10.2 of the CORBA 3.0 specification, reduced to at most 31 digits.
 */
module FixedOperators {
  import opened Prelude
  import opened Decimal
  import opened BigInt
  import opened Fixed

  const MAX_DIGITS := 31

  /** The digit count is enough for the mantissa. */
  predicate Sound(f: Fixed) {
    0 <= f.digits <= MAX_DIGITS && Abs(f.val) < Pow10(f.digits)
  }

  lemma SoundFits(f: Fixed)
    requires Sound(f)
    ensures Fits(f.val) && Abs(f.val) < Pow10(MAX_DIGITS)
  {
    Pow10Grows(f.digits, MAX_DIGITS);
    Pow10Of31();
  }

  /** How many of `digits` digits are too many. */
  function Excess(digits: int): (n: nat) {
    if digits > MAX_DIGITS then digits - MAX_DIGITS else 0
  }

  /** The scale of a result that needs `digits` digits; the constructor refuses one above 31. */
  function NewScale(digits: int, scale: int): (r: Option<int>) {
    var s := scale - Excess(digits);
    if s > 31 then None else Some(s)
  }

  function SumDigits(a: Fixed, b: Fixed): (d: int) {
    1 + Max(a.scale, b.scale) + Max(a.digits - a.scale, b.digits - b.scale)
  }

  function Plus(a: Fixed, b: Fixed): (r: Option<Fixed>) {
    var s :- NewScale(SumDigits(a, b), Max(a.scale, b.scale));
    Add(s, a, b)
  }

  function Minus(a: Fixed, b: Fixed): (r: Option<Fixed>) {
    var s :- NewScale(SumDigits(a, b), Max(a.scale, b.scale));
    Sub(s, a, b)
  }

  function Times(a: Fixed, b: Fixed): (r: Option<Fixed>) {
    var s :- NewScale(a.digits + b.digits, a.scale + b.scale);
    Mul(s, a, b)
  }

  /** Division keeps the scale of the dividend. */
  function Divide(a: Fixed, b: Fixed): (r: Option<Fixed>) {
    if a.digits > MAX_DIGITS || a.scale > 31 then None else Div(a.scale, a, b)
  }

  // ---------- sums ----------

  /** At the finer scale each operand has one digit less than the sum. */
  lemma OperandBound(a: Fixed, b: Fixed)
    requires Sound(a)
    ensures SumDigits(a, b) >= 1 && Abs(Seen(a, Max(a.scale, b.scale))) < Pow10(SumDigits(a, b) - 1)
  {
    var k := Max(a.scale, b.scale);
    Pow10Sum(a.digits, k - a.scale);
    AbsScaled(a.val, Pow10(k - a.scale));
    TimesOrder(Abs(a.val), Pow10(a.digits), Pow10(k - a.scale));
    Pow10Grows(a.digits + (k - a.scale), SumDigits(a, b) - 1);
  }

  /** Rounding does not pass a bound that the exact number keeps. */
  lemma NearestBound(q: int, n: int, d: int, bound: int)
    requires d > 0 && Nearest(q, n, d) && Abs(n) <= bound * d
    ensures Abs(q) <= bound
  {
    AbsScaled(q, d);
    Distribute(bound, -1, d);
    TimesOrder(Abs(q), bound + 1, d);
  }

  /** What is below twice a power of ten keeps 31 digits when the excess is rounded away. */
  lemma SumFitsIn31(q: int, n: int, digits: int)
    requires digits >= 1 && Abs(n) < 2 * Pow10(digits - 1) && Nearest(q, n, Pow10(Excess(digits)))
    ensures Digits(q) <= 31 && (digits <= 31 ==> q == n)
  {
    if digits > 31 {
      Pow10Sum(30, digits - 31);
      Regroup(2, Pow10(30), Pow10(digits - 31));
      NearestBound(q, n, Pow10(digits - 31), 2 * Pow10(30));
      Pow10Of31();
    } else {
      NearestExact(q, n, 1);
      Pow10Grows(digits, 31);
    }
    DigitsAtMost(q, 31);
  }

  lemma PlusIsAdd(a: Fixed, b: Fixed)
    requires Plus(a, b).Some?
    ensures var r := Plus(a, b).value;
            && r.scale == Max(a.scale, b.scale) - Excess(SumDigits(a, b)) && r.digits == Digits(r.val)
            && Add(r.scale, a, b) == Some(r)
  {
  }

  /**
    What a sum should be, but for a positive plus a negative, which gives the positive: with `k` digits
    behind the point and `i` before it in the longer operand, and one more, it is exact if these are at
    most 31, and otherwise the nearest number at the scale that leaves 31 of them.
   */
  predicate RightSum(a: Fixed, b: Fixed, r: Fixed) {
    var k, i := Max(a.scale, b.scale), Max(a.digits - a.scale, b.digits - b.scale);
    var sum := if a.val > 0 && b.val < 0 then Seen(a, k) else Seen(a, k) + Seen(b, k);
    && r.digits == Digits(r.val) <= 31
    && (if k + i + 1 <= 31 then r.scale == k && r.val == sum
        else r.scale == 30 - i && Nearest(r.val, sum, Pow10(k + i - 30)))
    && (k + i + 1 <= 31 ==> (r.val == Seen(a, k) + Seen(b, k) <==> !(a.val > 0 && b.val < 0)))
  }

  predicate SumByTable(a: Fixed, b: Fixed, r: Fixed) {
    var k, d := Max(a.scale, b.scale), SumDigits(a, b);
    && r.digits == Digits(r.val) <= 31
    && r.scale == k - Excess(d)
    && Nearest(r.val, Summed(a, b, k), Pow10(Excess(d)))
    && (d <= 31 ==> r.val == Summed(a, b, k))
    && (d <= 31 ==> (r.val == Seen(a, k) + Seen(b, k) <==> !(a.val > 0 && b.val < 0)))
  }

  lemma PlusResult(a: Fixed, b: Fixed)
    requires Sound(a) && Sound(b) && Plus(a, b).Some?
    ensures SumByTable(a, b, Plus(a, b).value)
  {
    PlusIsAdd(a, b);
    SoundFits(a);
    SoundFits(b);
    AddRounds(Plus(a, b).value.scale, a, b, Max(a.scale, b.scale));
    SummedFits(Plus(a, b).value.val, a, b);
  }

  /** The scale of the sum is accepted, and `add` returns. */
  predicate PlusDefined(a: Fixed, b: Fixed) {
    var s := Max(a.scale, b.scale) - Excess(SumDigits(a, b));
    s <= 31 && AddReturns(s, a, b)
  }

  /**
    `operator+`: when it returns, and then at most 31 digits; exact up to 31 digits of the table,
    rounded to the nearest beyond, except that a positive plus a negative gives the positive.
   */
  lemma PlusIsRight(a: Fixed, b: Fixed)
    requires Sound(a) && Sound(b)
    ensures var k, i := Max(a.scale, b.scale), Max(a.digits - a.scale, b.digits - b.scale);
            var s := if k + i + 1 <= 31 then k else 30 - i;
            Plus(a, b).Some? <==> s <= 31 && AddReturns(s, a, b)
    ensures Plus(a, b).Some? ==> RightSum(a, b, Plus(a, b).value)
  {
    var k, i := Max(a.scale, b.scale), Max(a.digits - a.scale, b.digits - b.scale);
    SumTable(a, b);
    PlusReturnsAt(a, b, if k + i + 1 <= 31 then k else 30 - i);
    if Plus(a, b).Some? {
      PlusResult(a, b);
      SumIsRight(a, b, Plus(a, b).value);
    }
  }

  lemma PlusReturnsAt(a: Fixed, b: Fixed, s: int)
    requires Sound(a) && Sound(b) && s == Max(a.scale, b.scale) - Excess(SumDigits(a, b))
    ensures Plus(a, b).Some? <==> s <= 31 && AddReturns(s, a, b)
  {
    SoundFits(a);
    SoundFits(b);
    PlusDefinedIff(a, b);
  }

  lemma SumIsRight(a: Fixed, b: Fixed, r: Fixed)
    requires SumByTable(a, b, r)
    ensures RightSum(a, b, r)
  {
    SumTable(a, b);
  }

  /** The table of sums, written out. */
  lemma SumTable(a: Fixed, b: Fixed)
    ensures var k, i := Max(a.scale, b.scale), Max(a.digits - a.scale, b.digits - b.scale);
            && SumDigits(a, b) == k + i + 1
            && Excess(SumDigits(a, b)) == if k + i + 1 <= 31 then 0 else k + i - 30
  {
  }

  lemma PlusDefinedIff(a: Fixed, b: Fixed)
    requires Fits(a.val) && Fits(b.val)
    ensures Plus(a, b).Some? <==> PlusDefined(a, b)
  {
    PlusUnfolds(a, b);
    AddReturnsIff(Max(a.scale, b.scale) - Excess(SumDigits(a, b)), a, b);
  }

  lemma PlusUnfolds(a: Fixed, b: Fixed)
    ensures var s := Max(a.scale, b.scale) - Excess(SumDigits(a, b)); Plus(a, b) == if s > 31 then None else Add(s, a, b)
  {
  }

  lemma SummedFits(q: int, a: Fixed, b: Fixed)
    requires Sound(a) && Sound(b)
    requires Nearest(q, Summed(a, b, Max(a.scale, b.scale)), Pow10(Excess(SumDigits(a, b))))
    ensures var k := Max(a.scale, b.scale);
            && Digits(q) <= 31
            && (SumDigits(a, b) <= 31 ==> q == Summed(a, b, k))
            && (SumDigits(a, b) <= 31 ==> (q == Seen(a, k) + Seen(b, k) <==> !(a.val > 0 && b.val < 0)))
  {
    var k := Max(a.scale, b.scale);
    SummedBound(a, b);
    SignAt(b.val, b.scale, k);
    SumFitsIn31(q, Summed(a, b, k), SumDigits(a, b));
  }

  lemma SummedBound(a: Fixed, b: Fixed)
    requires Sound(a) && Sound(b)
    ensures SumDigits(a, b) >= 1 && Abs(Summed(a, b, Max(a.scale, b.scale))) < 2 * Pow10(SumDigits(a, b) - 1)
  {
    OperandBound(a, b);
    OperandBound(b, a);
  }

  lemma MinusIsSub(a: Fixed, b: Fixed)
    ensures Minus(a, b).Some? ==>
            var r := Minus(a, b).value;
            && r.scale == Max(a.scale, b.scale) - Excess(SumDigits(a, b)) && r.digits == Digits(r.val)
            && Sub(r.scale, a, b) == Some(r)
  {
  }

  /** What a difference should be, by the same table, but for two different negatives, which lose a borrow. */
  predicate RightDifference(a: Fixed, b: Fixed, r: Fixed) {
    var k, i := Max(a.scale, b.scale), Max(a.digits - a.scale, b.digits - b.scale);
    var d := Seen(a, k) - Seen(b, k);
    var wrong := a.val < 0 && b.val < 0 && d != 0;
    var difference := if !wrong then d else if d < 0 then -d - LIMIT else LIMIT - d;
    && r.digits == Digits(r.val) && (!wrong ==> r.digits <= 31)
    && (if k + i + 1 <= 31 then r.scale == k && r.val == difference
        else r.scale == 30 - i && Nearest(r.val, difference, Pow10(k + i - 30)))
    && (k + i + 1 <= 31 ==> (r.val == d <==> !wrong))
  }

  predicate DifferenceByTable(a: Fixed, b: Fixed, r: Fixed) {
    var d := SumDigits(a, b);
    && r.scale == Max(a.scale, b.scale) - Excess(d) && r.digits == Digits(r.val)
    && Nearest(r.val, Subtracted(a, b), Pow10(Excess(d)))
    && (!TwoNegatives(a, b) ==> r.digits <= 31)
    && (d <= 31 ==> r.val == Subtracted(a, b))
    && (d <= 31 ==> (r.val == Difference(a, b) <==> !TwoNegatives(a, b)))
  }

  lemma MinusResult(a: Fixed, b: Fixed)
    requires Sound(a) && Sound(b)
    ensures Minus(a, b).Some? ==> DifferenceByTable(a, b, Minus(a, b).value)
  {
    if Minus(a, b).Some? {
      MinusRounds(a, b);
      DifferenceBound(a, b);
      RoundedDifference(Minus(a, b).value.val, Difference(a, b), TwoNegatives(a, b), SumDigits(a, b));
    }
  }

  predicate MinusDefined(a: Fixed, b: Fixed) {
    var s := Max(a.scale, b.scale) - Excess(SumDigits(a, b));
    s <= 31 && SubReturns(s, a, b)
  }

  /** `operator-` likewise, except for two different negatives. */
  lemma MinusIsRight(a: Fixed, b: Fixed)
    requires Sound(a) && Sound(b)
    ensures var k, i := Max(a.scale, b.scale), Max(a.digits - a.scale, b.digits - b.scale);
            var s := if k + i + 1 <= 31 then k else 30 - i;
            Minus(a, b).Some? <==> s <= 31 && SubReturns(s, a, b)
    ensures Minus(a, b).Some? ==> RightDifference(a, b, Minus(a, b).value)
  {
    var k, i := Max(a.scale, b.scale), Max(a.digits - a.scale, b.digits - b.scale);
    SumTable(a, b);
    MinusReturnsAt(a, b, if k + i + 1 <= 31 then k else 30 - i);
    if Minus(a, b).Some? {
      MinusResult(a, b);
      DifferenceTable(a, b, Minus(a, b).value);
    }
  }

  lemma MinusReturnsAt(a: Fixed, b: Fixed, s: int)
    requires Sound(a) && Sound(b) && s == Max(a.scale, b.scale) - Excess(SumDigits(a, b))
    ensures Minus(a, b).Some? <==> s <= 31 && SubReturns(s, a, b)
  {
    SoundFits(a);
    SoundFits(b);
    MinusDefinedIff(a, b);
  }

  lemma DifferenceTable(a: Fixed, b: Fixed, r: Fixed)
    requires DifferenceByTable(a, b, r)
    ensures RightDifference(a, b, r)
  {
    SumTable(a, b);
  }

  lemma MinusDefinedIff(a: Fixed, b: Fixed)
    requires Fits(a.val) && Fits(b.val)
    ensures Minus(a, b).Some? <==> MinusDefined(a, b)
  {
    var s := Max(a.scale, b.scale) - Excess(SumDigits(a, b));
    MinusUnfolds(a, b, NewScale(SumDigits(a, b), Max(a.scale, b.scale)));
    SubReturnsIff(s, a, b);
  }

  lemma MinusUnfolds(a: Fixed, b: Fixed, s: Option<int>)
    requires s == NewScale(SumDigits(a, b), Max(a.scale, b.scale))
    ensures Minus(a, b) == if s.None? then None else Sub(s.value, a, b)
  {
  }

  lemma MinusRounds(a: Fixed, b: Fixed)
    requires Sound(a) && Sound(b)
    ensures Minus(a, b).Some? ==>
            var r, d := Minus(a, b).value, SumDigits(a, b);
            && r.scale == Max(a.scale, b.scale) - Excess(d) && r.digits == Digits(r.val)
            && Nearest(r.val, Subtracted(a, b), Pow10(Excess(d)))
  {
    if Minus(a, b).Some? {
      MinusIsSub(a, b);
      SoundFits(a);
      SoundFits(b);
      SubRoundsAtFiner(Minus(a, b).value.scale, a, b);
    }
  }

  lemma DifferenceBound(a: Fixed, b: Fixed)
    requires Sound(a) && Sound(b)
    ensures SumDigits(a, b) >= 1 && Abs(Difference(a, b)) < 2 * Pow10(SumDigits(a, b) - 1)
  {
    OperandBound(a, b);
    OperandBound(b, a);
  }

  lemma RoundedDifference(q: int, n: int, bad: bool, digits: int)
    requires digits >= 1 && Abs(n) < 2 * Pow10(digits - 1)
    requires Nearest(q, if bad then Complement(n) else n, Pow10(Excess(digits)))
    ensures !bad ==> Digits(q) <= 31
    ensures digits <= 31 ==> q == if bad then Complement(n) else n
    ensures digits <= 31 ==> (q == n <==> !bad)
  {
    if !bad {
      SumFitsIn31(q, n, digits);
    } else if digits <= 31 {
      NearestExact(q, Complement(n), 1);
      HalfLimitIsFar(n, digits);
    }
  }

  lemma HalfLimitIsFar(n: int, digits: int)
    requires 1 <= digits <= 31 && Abs(n) < 2 * Pow10(digits - 1)
    ensures 2 * Abs(n) < LIMIT
  {
    Pow10Grows(digits, 31);
    Pow10Of31();
  }

  // ---------- products ----------

  lemma ProductBound(x: int, y: int, m: nat, n: nat)
    requires m <= 31 && n <= 31 && m + n >= 31 && Abs(x) < Pow10(m) && Abs(y) < Pow10(n)
    ensures Abs(x * y) <= (Pow10(31) - 1) * Pow10(m + n - 31)
  {
    var p, q, e := Pow10(m), Pow10(n), Pow10(m + n - 31);
    assert Pow10(31) * e == p * q by {
      Pow10Sum(m, n);
      Pow10Sum(31, m + n - 31);
    }
    assert e <= p by { Pow10Grows(m + n - 31, m); }
    AbsTimes(x, y);
    BelowBoth(Abs(x), Abs(y), p, q, Pow10(31), e);
  }

  lemma BelowBoth(x: int, y: int, p: int, q: int, b: int, e: int)
    requires 0 <= x < p && 0 <= y < q && b * e == p * q && e <= p
    ensures x * y <= (b - 1) * e
  {
    ProductOrder(x, y, p - 1, q - 1);
    assert (p - 1) * (q - 1) == p * q - p - q + 1;
    Distribute(b, 1, e);
  }

  lemma ProductOrder(x: int, y: int, p: int, q: int)
    requires 0 <= x <= p && 0 <= y <= q
    ensures x * y <= p * q
  {
    assert x * y <= x * q <= p * q;
  }

  lemma TimesIsMul(a: Fixed, b: Fixed)
    ensures Times(a, b).Some? ==>
            var r := Times(a, b).value;
            && r.scale == a.scale + b.scale - Excess(a.digits + b.digits) && r.digits == Digits(r.val)
            && Mul(r.scale, a, b) == Some(r)
  {
  }

  /** What a product should be: exact if the digits of the operands are at most 31 together, and the nearest number otherwise. */
  predicate RightProduct(a: Fixed, b: Fixed, r: Fixed) {
    && r.digits == Digits(r.val) <= 31
    && (if a.digits + b.digits <= 31 then r.scale == a.scale + b.scale && r.val == a.val * b.val
        else
          && r.scale == 31 - a.digits - b.digits + a.scale + b.scale
          && Nearest(r.val, a.val * b.val, Pow10(a.digits + b.digits - 31)))
  }

  predicate ProductByTable(a: Fixed, b: Fixed, r: Fixed) {
    var k, d := a.scale + b.scale, a.digits + b.digits;
    && r.digits == Digits(r.val) <= 31
    && r.scale == k - Excess(d)
    && Nearest(r.val, a.val * b.val, Pow10(Excess(d)))
    && (d <= 31 ==> r.val == a.val * b.val)
  }

  lemma TimesResult(a: Fixed, b: Fixed)
    requires Sound(a) && Sound(b)
    ensures Times(a, b).Some? ==> ProductByTable(a, b, Times(a, b).value)
  {
    if Times(a, b).Some? {
      var r, k := Times(a, b).value, a.scale + b.scale;
      TimesIsMul(a, b);
      SoundFits(a);
      SoundFits(b);
      MulRounds(r.scale, a, b, k);
      assert At(a.val * b.val, k, k) == a.val * b.val;
      ProductFitsIn31(r.val, a, b);
    }
  }

  predicate TimesDefined(a: Fixed, b: Fixed) {
    var s := a.scale + b.scale - Excess(a.digits + b.digits);
    s <= 31 && MulReturns(s, a, b)
  }

  /**
    `operator*`: when it returns, and then at most 31 digits; exact up to 31 digits of the table,
    rounded to the nearest beyond.
   */
  lemma TimesIsRight(a: Fixed, b: Fixed)
    requires Sound(a) && Sound(b)
    ensures var s := if a.digits + b.digits <= 31 then a.scale + b.scale else 31 - a.digits - b.digits + a.scale + b.scale;
            Times(a, b).Some? <==> s <= 31 && MulReturns(s, a, b)
    ensures Times(a, b).Some? ==> RightProduct(a, b, Times(a, b).value)
  {
    TimesReturnsAt(a, b, if a.digits + b.digits <= 31 then a.scale + b.scale else 31 - a.digits - b.digits + a.scale + b.scale);
    if Times(a, b).Some? {
      TimesResult(a, b);
      ProductIsRight(a, b, Times(a, b).value);
    }
  }

  lemma TimesReturnsAt(a: Fixed, b: Fixed, s: int)
    requires Sound(a) && Sound(b) && s == a.scale + b.scale - Excess(a.digits + b.digits)
    ensures Times(a, b).Some? <==> s <= 31 && MulReturns(s, a, b)
  {
    SoundFits(a);
    SoundFits(b);
    TimesDefinedIff(a, b);
  }

  lemma ProductIsRight(a: Fixed, b: Fixed, r: Fixed)
    requires ProductByTable(a, b, r)
    ensures RightProduct(a, b, r)
  {
  }

  lemma TimesDefinedIff(a: Fixed, b: Fixed)
    requires Fits(a.val) && Fits(b.val)
    ensures Times(a, b).Some? <==> TimesDefined(a, b)
  {
    var s := a.scale + b.scale - Excess(a.digits + b.digits);
    assert Times(a, b) == if s > 31 then None else Mul(s, a, b) by { TimesUnfolds(a, b); }
    assert Mul(s, a, b).Some? <==> MulReturns(s, a, b) by { MulReturnsIff(s, a, b); }
  }

  lemma TimesUnfolds(a: Fixed, b: Fixed)
    ensures var s := a.scale + b.scale - Excess(a.digits + b.digits); Times(a, b) == if s > 31 then None else Mul(s, a, b)
  {
  }

  lemma ProductFitsIn31(q: int, a: Fixed, b: Fixed)
    requires Sound(a) && Sound(b) && Nearest(q, a.val * b.val, Pow10(Excess(a.digits + b.digits)))
    ensures Digits(q) <= 31 && (a.digits + b.digits <= 31 ==> q == a.val * b.val)
  {
    var d := a.digits + b.digits;
    if d > 31 {
      ProductBound(a.val, b.val, a.digits, b.digits);
      NearestBound(q, a.val * b.val, Pow10(d - 31), Pow10(31) - 1);
    } else {
      NearestExact(q, a.val * b.val, 1);
      SmallProduct(a, b);
    }
    DigitsAtMost(q, 31);
  }

  lemma SmallProduct(a: Fixed, b: Fixed)
    requires Sound(a) && Sound(b) && a.digits + b.digits <= 31
    ensures Abs(a.val * b.val) < Pow10(31)
  {
    AbsTimes(a.val, b.val);
    ProductOrder(Abs(a.val), Abs(b.val), Pow10(a.digits) - 1, Pow10(b.digits));
    Pow10Sum(a.digits, b.digits);
    Distribute(Pow10(a.digits), 1, Pow10(b.digits));
    Pow10Grows(a.digits + b.digits, 31);
  }

  // ---------- operands with scales between 0 and 31 ----------

  /** An operand as the constructor from digits and scale admits it. */
  predicate InRange(f: Fixed) {
    Sound(f) && 0 <= f.scale <= 31
  }

  lemma SeenBound(f: Fixed, t: int)
    requires InRange(f) && f.scale <= t <= 31
    ensures Abs(Seen(f, t)) < Pow10(62) && Room(f.val, t - f.scale)
  {
    SoundFits(f);
    var p := Pow10(t - f.scale);
    AbsScaled(f.val, p);
    TimesOrder(Abs(f.val), Pow10(31), p);
    Pow10Sum(31, t - f.scale);
    Pow10Grows(31 + (t - f.scale), 62);
    Pow10Of62();
  }

  /** Operands in range can be aligned, so all six comparisons return. */
  lemma AlignAlwaysReturns(a: Fixed, b: Fixed)
    requires InRange(a) && InRange(b)
    ensures AlignReturns(a, b) && Align(a, b).Some? && Fits(a.val) && Fits(b.val)
  {
    assert AlignReturns(a, b) by {
      SeenBound(a, Max(a.scale, b.scale));
      SeenBound(b, Max(a.scale, b.scale));
    }
    assert Fits(a.val) && Fits(b.val) by {
      SoundFits(a);
      SoundFits(b);
    }
    AlignReturnsIff(a, b);
  }

  /** What is not too big can be rescaled by up to 62 digits. */
  lemma DropAlwaysReturns(n: int, o: int, v: int)
    requires n <= o <= n + 62 && Abs(v) <= 2 * Pow10(62)
    ensures RescaleReturns(n, o, v)
  {
    Pow10Of62();
    if n < o {
      Pow10Grows(o - n - 1, 62);
    }
  }

  lemma ExcessInRange(a: Fixed, b: Fixed)
    requires InRange(a) && InRange(b)
    ensures 0 <= Excess(SumDigits(a, b)) <= 32 && 0 <= Excess(a.digits + b.digits) <= 31
  {
  }

  /** `+` always returns for operands in range. */
  lemma PlusAlwaysReturns(a: Fixed, b: Fixed)
    requires InRange(a) && InRange(b)
    ensures Plus(a, b).Some?
  {
    var t := Max(a.scale, b.scale);
    AlignAlwaysReturns(a, b);
    SeenBound(a, t);
    SeenBound(b, t);
    ExcessInRange(a, b);
    Pow10Of62();
    DropAlwaysReturns(t - Excess(SumDigits(a, b)), t, Summed(a, b, t));
    PlusDefinedIff(a, b);
  }

  /** Two negatives whose difference, wrong as it is, leaves no room for half a unit. */
  predicate NoRoomForHalf(a: Fixed, b: Fixed) {
    var k := Excess(SumDigits(a, b));
    TwoNegatives(a, b) && k > 0 && Abs(Difference(a, b)) <= 5 * Pow10(k - 1)
  }

  /** `-` always returns for operands in range, except for two negatives that are close to each other. */
  lemma MinusReturnsUnless(a: Fixed, b: Fixed)
    requires InRange(a) && InRange(b)
    ensures Minus(a, b).Some? <==> !NoRoomForHalf(a, b)
  {
    AlignAlwaysReturns(a, b);
    ExcessInRange(a, b);
    OperandsSubtract(a, b);
    SubReturnsUnless(a, b);
    MinusDefinedIff(a, b);
  }

  lemma SubReturnsUnless(a: Fixed, b: Fixed)
    requires AlignReturns(a, b) && Max(a.scale, b.scale) <= 31 && Excess(SumDigits(a, b)) <= 62
    requires var t := Max(a.scale, b.scale); MinusReturns(Seen(a, t), Seen(b, t))
    requires Abs(Difference(a, b)) < 2 * Pow10(62)
    ensures MinusDefined(a, b) <==> !NoRoomForHalf(a, b)
  {
    var t, k, d := Max(a.scale, b.scale), Excess(SumDigits(a, b)), Difference(a, b);
    if TwoNegatives(a, b) {
      ComplementReturns(t - k, t, d);
    } else {
      DropAlwaysReturns(t - k, t, d);
    }
  }

  lemma OperandsSubtract(a: Fixed, b: Fixed)
    requires InRange(a) && InRange(b)
    ensures var t := Max(a.scale, b.scale); MinusReturns(Seen(a, t), Seen(b, t))
    ensures Abs(Difference(a, b)) < 2 * Pow10(62)
  {
    var t := Max(a.scale, b.scale);
    SeenBound(a, t);
    SeenBound(b, t);
    Pow10Of62();
  }

  lemma ComplementReturns(n: int, o: int, d: int)
    requires n <= o <= n + 62 && 0 < Abs(d) < 2 * Pow10(62)
    ensures RescaleReturns(n, o, Complement(d)) <==> n == o || Abs(d) > 5 * Pow10(o - n - 1)
  {
    Pow10Of62();
    if n == o {
      assert Pow10(0) == 1;
    }
  }

  /** `*` returns for operands in range exactly if the scale is accepted and the aligned product, with half a unit, fits. */
  lemma TimesReturnsIff(a: Fixed, b: Fixed)
    requires InRange(a) && InRange(b)
    ensures var s, t := a.scale + b.scale - Excess(a.digits + b.digits), Max(a.scale, b.scale);
            var half := if s == 2 * t then 0 else 5 * Pow10(2 * t - s - 1);
            s <= 2 * t && (Times(a, b).Some? <==> s <= 31 && Abs(Seen(a, t) * Seen(b, t)) + half < LIMIT)
  {
    AlignAlwaysReturns(a, b);
    ExcessInRange(a, b);
    MulReturnsGiven(a, b);
    TimesDefinedIff(a, b);
  }

  lemma MulReturnsGiven(a: Fixed, b: Fixed)
    requires AlignReturns(a, b) && -31 <= a.scale - b.scale <= 31 && Excess(a.digits + b.digits) <= 31
    ensures var s, t := a.scale + b.scale - Excess(a.digits + b.digits), Max(a.scale, b.scale);
            var half := if s == 2 * t then 0 else 5 * Pow10(2 * t - s - 1);
            s <= 2 * t && (TimesDefined(a, b) <==> s <= 31 && Abs(Seen(a, t) * Seen(b, t)) + half < LIMIT)
  {
    var s, t := a.scale + b.scale - Excess(a.digits + b.digits), Max(a.scale, b.scale);
    ProductReturns(s, 2 * t, Seen(a, t) * Seen(b, t));
  }

  lemma ProductReturns(n: int, o: int, v: int)
    requires n <= o <= n + 62
    ensures var half := if n == o then 0 else 5 * Pow10(o - n - 1);
            Fits(v) && RescaleReturns(n, o, v) <==> Abs(v) + half < LIMIT
  {
    if n == o {
      assert Pow10(0) == 1;
    }
  }

  /** `/` always returns for operands in range, and is the exact quotient rounded half away from zero. */
  lemma DivideIsRight(a: Fixed, b: Fixed)
    requires InRange(a) && InRange(b)
    ensures Divide(a, b).Some? && Divide(a, b).value.scale == a.scale
    ensures b.val == 0 ==> Divide(a, b).value.val == 0
    ensures var k := Max(a.scale, b.scale);
            b.val != 0 ==> Seen(b, k) != 0 && Nearest(Divide(a, b).value.val, Seen(a, k) * Pow10(a.scale), Seen(b, k))
  {
    DivideAlwaysReturns(a, b);
    SoundFits(a);
    SoundFits(b);
    if b.val == 0 {
      DivByZero(a.scale, a, b);
    } else {
      var k, r := Max(a.scale, b.scale), Divide(a, b).value.val;
      DivRounds(a.scale, a, b, k);
      var x, y := Seen(a, k) * Pow10(a.scale), Seen(b, k);
      assert Seen(a, k) * Pow10(a.scale + 1) == x * 10 by { Regroup(Seen(a, k), 10, Pow10(a.scale)); }
      NearestScaled(r, x, y, 10);
    }
  }

  lemma DivideAlwaysReturns(a: Fixed, b: Fixed)
    requires InRange(a) && InRange(b)
    ensures Divide(a, b).Some?
  {
    var t := Max(a.scale, b.scale);
    AlignAlwaysReturns(a, b);
    DividendBound(a, t);
    var n := Seen(a, t) * Pow10(a.scale + 1);
    Pow10Of77();
    QuotientFits(n, Seen(b, t));
    DivReturnsIff(a.scale, a, b);
  }

  lemma DividendBound(a: Fixed, t: int)
    requires InRange(a) && a.scale <= t <= 31
    ensures Abs(Seen(a, t) * Pow10(a.scale + 1)) + 5 < Pow10(77)
  {
    SoundFits(a);
    var p := Pow10(t + 1);
    Pow10Sum(t - a.scale, a.scale + 1);
    Regroup(a.val, Pow10(t - a.scale), Pow10(a.scale + 1));
    AbsScaled(a.val, p);
    TimesOrder(Abs(a.val), Pow10(31), p);
    Pow10Sum(31, t + 1);
    Pow10Grows(31 + (t + 1), 63);
    Pow10Of62();
    Pow10Of77();
    assert Pow10(63) == 10 * Pow10(62);
  }

  // ---------- results that are not right, and exceptions ----------

  const NINES := 9_999_999_999_999_999_999_999_999_999_999

  /** 31 nines times 31 nines behind the point: the result has a scale that is accepted, but the aligned product is too big. */
  lemma NinesTimesNines()
    ensures var a, b := Fixed(NINES, 0, 31), Fixed(NINES, 31, 31);
            InRange(a) && InRange(b) && NewScale(a.digits + b.digits, a.scale + b.scale) == Some(0) && Times(a, b).None?
  {
    var a, b := Fixed(NINES, 0, 31), Fixed(NINES, 31, 31);
    Pow10Of31();
    assert Seen(a, 31) == NINES * Pow10(31) && Seen(b, 31) == NINES * Pow10(0);
    TimesReturnsIff(a, b);
  }

  /** Two negatives of 31 digits that differ by one cannot be subtracted. */
  lemma CloseNegatives()
    ensures var a, b := Fixed(-NINES, 0, 31), Fixed(-NINES + 1, 0, 31); InRange(a) && InRange(b) && Minus(a, b).None?
  {
    var a, b := Fixed(-NINES, 0, 31), Fixed(-NINES + 1, 0, 31);
    Pow10Of31();
    assert Pow10(0) == 1;
    assert Difference(a, b) == -1;
    MinusReturnsUnless(a, b);
  }

  /** 5 + -3 is 5. */
  lemma FiveMinusThree()
    ensures var r := Plus(Fixed(5, 0, 1), Fixed(-3, 0, 1)); r.Some? && r.value.val == 5 && r.value.scale == 0
  {
    assert Align(Fixed(5, 0, 1), Fixed(-3, 0, 1)) == Some((5, -3, 0));
    assert BigInt.Plus(5, -3) == Some(5);
    assert Result(0, 0, 5).Some? && Result(0, 0, 5).value.val == 5;
    assert Add(0, Fixed(5, 0, 1), Fixed(-3, 0, 1)) == Result(0, 0, 5);
  }

  /** -1 - -2 is not 1 but one less than the limit of the mantissa. */
  lemma MinusOneMinusMinusTwo()
    ensures var r := Minus(Fixed(-1, 0, 1), Fixed(-2, 0, 1)); r.Some? && r.value.val == LIMIT - 1
  {
  }

  /** 500 / 1 at the scale -2 of the dividend is 500 hundreds. */
  lemma FiveHundredByOne()
    ensures var r := Divide(Fixed(5, -2, 1), Fixed(1, 0, 1)); r.Some? && r.value.val == 500 && r.value.scale == -2
  {
    Power10Is(2);
    Power10Is(-1);
    Power10Is(1);
    Power10Is(0);
    assert Pow10(2) == 10 * Pow10(1) && Pow10(1) == 10 * Pow10(0);
    assert Align(Fixed(5, -2, 1), Fixed(1, 0, 1)) == Some((500, 1, 0));
    assert Rescale(-2, -1, 5000, true) == Some(500);
  }
}
