/**
  CORBA fixed-point decimals (`CORBA::Fixed`): a mantissa, a scale and a digit count.

  `None` is the DATA_CONVERSION exception, of an overflow of the 256-bit mantissa or of a digit
  count or scale above 31.
 */
module Fixed {
  import opened Prelude
  import opened Decimal
  import opened BigInt

  /** Stands for `val * 10^-scale`. */
  datatype Fixed = Fixed(val: int, scale: int, digits: int)

  function Max(x: int, y: int): (m: int) {
    if x > y then x else y
  }

  /** `v` at scale `o` and `v'` at scale `o'` are the same number. */
  predicate Same(v: int, o: int, v': int, o': int) {
    At(v, o, Max(o, o')) == At(v', o', Max(o, o'))
  }

  lemma SameAt(v: int, o: int, v': int, o': int, k: int)
    requires k >= o && k >= o'
    ensures Same(v, o, v', o') <==> At(v, o, k) == At(v', o', k)
  {
    var t := Max(o, o');
    AtFiner(v, o, t, k);
    AtFiner(v', o', t, k);
    TimesOrder(At(v, o, t), At(v', o', t), Pow10(k - t));
  }

  // ---------- powers of ten ----------

  /** `power10`: as many hundreds as possible, and then perhaps a ten. */
  function Power10(x: int): (r: Option<int>) {
    var hundreds := TruncDiv(x, 2);
    var p :- Hundredfold(1, hundreds);
    if x - 2 * hundreds != 0 then Times(p, 10) else Some(p)
  }

  /** It is a power of ten for every exponent that is not negative, and 1 or 10 for the others. */
  lemma Power10Is(x: int)
    ensures x >= 0 ==> Power10(x) == Fit(Pow10(x))
    ensures x < 0 ==> Power10(x) == Some(if x % 2 == 0 then 1 else 10)
  {
    var hundreds := TruncDiv(x, 2);
    HundredfoldIs(1, hundreds);
    if x >= 0 && x % 2 == 1 {
      assert Pow10(x) == 10 * Pow10(x - 1);
    }
  }

  // ---------- changing the scale ----------

  /** `rescale`: more digits by multiplication, fewer by division after adding half a unit away from zero. */
  function Rescale(nscale: int, oscale: int, value: int, round: bool): (r: Option<int>) {
    var fscale := nscale - oscale;
    if fscale == 0 then Some(value)
    else if fscale < 0 then
      var half :- if round then HalfUnit(-fscale) else Some(0);
      var sum :- Plus(value, if value < 0 then -half else half);
      var unit :- Power10(-fscale);
      Some(Quotient(sum, unit))
    else
      var p :- Power10(fscale);
      Times(value, p)
  }

  function HalfUnit(k: int): (r: Option<int>) {
    var p :- Power10(k - 1);
    Times(5, p)
  }

  lemma HalfUnitIs(k: int)
    requires k >= 1 && HalfUnit(k).Some?
    ensures 2 * HalfUnit(k).value == Pow10(k)
  {
    Power10Is(k - 1);
  }

  /** Half of `10^k` if digits are rounded, nothing if they are cut. */
  function Bias(k: nat, round: bool): (h: int)
    requires k >= 1
    ensures h >= 0 && (round ==> Pow10(k) == 2 * h)
  {
    if round then 5 * Pow10(k - 1) else 0
  }

  /** What dropping `k` digits computes. */
  lemma DropDigits(value: int, k: nat, round: bool)
    requires k >= 1 && Rescale(0, k, value, round).Some?
    ensures var half := Bias(k, round);
            Rescale(0, k, value, round) == Some(TruncDiv(if value < 0 then value - half else value + half, Pow10(k)))
  {
    Power10Is(k);
    if round {
      HalfUnitIs(k);
    }
    var half := Bias(k, round);
    assert Plus(value, if value < 0 then -half else half).Some?;
  }

  lemma ShiftScales(nscale: int, oscale: int, value: int, round: bool)
    ensures Rescale(nscale, oscale, value, round) == Rescale(nscale - oscale, 0, value, round)
         == Rescale(0, oscale - nscale, value, round)
  {
  }

  /** Half a unit more before truncating is rounding. */
  lemma RoundedDivision(v: int, half: int)
    requires half > 0
    ensures Nearest(TruncDiv(if v < 0 then v - half else v + half, 2 * half), v, 2 * half)
  {
    TruncDivIs(if v < 0 then v - half else v + half, 2 * half);
  }

  /** `rescale` gives the nearest number at the new scale, whatever finer scale `k` it is seen at. */
  lemma RescaleRounds(n: int, o: int, v: int, k: int)
    requires Rescale(n, o, v, true).Some? && k >= n && k >= o
    ensures Nearest(Rescale(n, o, v, true).value, At(v, o, k), Pow10(k - n))
  {
    var r := Rescale(n, o, v, true).value;
    Power10Is(n - o);
    if n < o {
      ShiftScales(n, o, v, true);
      DropDigits(v, o - n, true);
      RoundedDivision(v, Bias(o - n, true));
      Pow10Sum(o - n, k - o);
      NearestScaled(r, v, Pow10(o - n), Pow10(k - o));
    } else {
      AtFiner(v, o, n, k);
    }
  }

  /** Without rounding it gives the number cut toward zero. */
  lemma RescaleTruncates(n: int, o: int, v: int, k: int)
    requires k >= n && k >= o
    ensures Rescale(n, o, v, false).Some? ==> Truncated(Rescale(n, o, v, false).value, At(v, o, k), Pow10(k - n))
  {
    if Rescale(n, o, v, false).Some? {
      var r := Rescale(n, o, v, false).value;
      Power10Is(n - o);
      if n < o {
        ShiftScales(n, o, v, false);
        DropDigits(v, o - n, false);
        TruncDivIs(v, Pow10(o - n));
        Pow10Sum(o - n, k - o);
        TruncatedScaled(r, v, Pow10(o - n), Pow10(k - o));
      } else {
        AtFiner(v, o, n, k);
      }
    }
  }

  /** `rescale` depends on the number alone, not on the mantissa and the scale that stand for it. */
  lemma RescaleOfEqualNumbers(n: int, o: int, v: int, o': int, v': int, round: bool)
    requires Same(v, o, v', o')
    ensures Rescale(n, o, v, round).Some? && Rescale(n, o', v', round).Some? ==> Rescale(n, o, v, round) == Rescale(n, o', v', round)
  {
    if Rescale(n, o, v, round).Some? && Rescale(n, o', v', round).Some? {
      var r, r' := Rescale(n, o, v, round).value, Rescale(n, o', v', round).value;
      var k := Max(n, Max(o, o'));
      SameAt(v, o, v', o', k);
      if round {
        RescaleRounds(n, o, v, k);
        RescaleRounds(n, o', v', k);
        NearestUnique(r, r', At(v, o, k), Pow10(k - n));
      } else {
        RescaleTruncates(n, o, v, k);
        RescaleTruncates(n, o', v', k);
        TruncatedUnique(r, r', At(v, o, k), Pow10(k - n));
      }
    }
  }

  /** More digits and then as many as before: nothing is lost. */
  lemma RescaleUpAndDown(n: int, o: int, v: int, up: bool, down: bool)
    requires n >= o && Rescale(n, o, v, up).Some? && Rescale(o, n, Rescale(n, o, v, up).value, down).Some?
    ensures Rescale(o, n, Rescale(n, o, v, up).value, down) == Some(v)
  {
    var w := Rescale(n, o, v, up).value;
    Power10Is(n - o);
    assert Same(v, o, w, n) by { assert w == At(v, o, n); }
    RescaleOfEqualNumbers(o, o, v, n, w, down);
  }

  /** Cutting to `m` digits and then to fewer is cutting once, unless one of the three needs too great a power of ten. */
  lemma TruncationComposes(n: int, m: int, o: int, v: int)
    requires Fits(v) && n <= m <= n + 77 && TruncateReturns(n, o, v) && TruncateReturns(m, o, v)
    ensures Rescale(m, o, v, false).Some? && Rescale(n, o, v, false).Some?
    ensures Rescale(n, m, Rescale(m, o, v, false).value, false) == Rescale(n, o, v, false)
  {
    TruncateReturnsIff(n, o, v);
    TruncateReturnsIff(m, o, v);
    TruncateReturnsIff(n, m, Rescale(m, o, v, false).value);
    TruncatedOnce(n, m, o, v);
  }

  lemma TruncatedOnce(n: int, m: int, o: int, v: int)
    requires n <= m && Rescale(n, o, v, false).Some? && Rescale(m, o, v, false).Some?
    requires Rescale(n, m, Rescale(m, o, v, false).value, false).Some?
    ensures Rescale(n, m, Rescale(m, o, v, false).value, false) == Rescale(n, o, v, false)
  {
    var w := Rescale(m, o, v, false).value;
    var u := Rescale(n, m, w, false).value;
    var k := Max(m, o);
    RescaleTruncates(m, o, v, k);
    RescaleTruncates(n, m, w, m);
    RescaleTruncates(n, o, v, k);
    Pow10Sum(k - m, m - n);
    assert At(w, m, m) == w;
    TruncatedTwice(u, w, At(v, o, k), Pow10(k - m), Pow10(m - n));
    TruncatedUnique(u, Rescale(n, o, v, false).value, At(v, o, k), Pow10(k - n));
  }

  // ---------- operands at one scale ----------

  /** `transform`: the mantissa at another scale, which every caller chooses to be finer. */
  function Transform(f: Fixed, nscale: int): (r: Option<int>) {
    if nscale == f.scale then Some(f.val) else
    var p :- Power10(nscale - f.scale);
    Times(f.val, p)
  }

  /** Both mantissas at the finer of the two scales, and that scale. */
  function Align(a: Fixed, b: Fixed): (r: Option<(int, int, int)>) {
    if a.scale == b.scale then Some((a.val, b.val, a.scale))
    else if a.scale > b.scale then
      var y :- Transform(b, a.scale);
      Some((a.val, y, a.scale))
    else
      var x :- Transform(a, b.scale);
      Some((x, b.val, b.scale))
  }

  lemma TransformIs(f: Fixed, t: int)
    requires t >= f.scale && Transform(f, t).Some? && Fits(f.val)
    ensures Transform(f, t).value == At(f.val, f.scale, t) && Fits(Transform(f, t).value)
  {
    Power10Is(t - f.scale);
  }

  lemma AlignIs(a: Fixed, b: Fixed)
    requires Align(a, b).Some? && Fits(a.val) && Fits(b.val)
    ensures var (x, y, t) := Align(a, b).value;
            && t == Max(a.scale, b.scale) && x == At(a.val, a.scale, t) && y == At(b.val, b.scale, t)
            && Fits(x) && Fits(y)
  {
    if a.scale > b.scale {
      TransformIs(b, a.scale);
    } else if a.scale < b.scale {
      TransformIs(a, b.scale);
    }
  }

  lemma SignAt(v: int, s: int, k: int)
    requires k >= s
    ensures (At(v, s, k) > 0 <==> v > 0) && (At(v, s, k) < 0 <==> v < 0)
  {
    TimesOrder(v, 0, Pow10(k - s));
  }

  // ---------- the four operations into a result of a given scale ----------

  /** The result: mantissa rescaled, digits counted. */
  function Result(s: int, t: int, v: int): (r: Option<Fixed>) {
    var w :- Rescale(s, t, v, true);
    Some(Fixed(w, s, Digits(w)))
  }

  function Add(s: int, a: Fixed, b: Fixed): (r: Option<Fixed>) {
    var xyt :- Align(a, b);
    var v :- Plus(xyt.0, xyt.1);
    Result(s, xyt.2, v)
  }

  function Sub(s: int, a: Fixed, b: Fixed): (r: Option<Fixed>) {
    var xyt :- Align(a, b);
    var v :- Minus(xyt.0, xyt.1);
    Result(s, xyt.2, v)
  }

  function Mul(s: int, a: Fixed, b: Fixed): (r: Option<Fixed>) {
    var xyt :- Align(a, b);
    var v :- Times(xyt.0, xyt.1);
    Result(s, 2 * xyt.2, v)
  }

  /** The dividend gets one digit more than the result shall have, and the last digit is rounded away. */
  function Div(s: int, a: Fixed, b: Fixed): (r: Option<Fixed>) {
    var xyt :- Align(a, b);
    var p :- Power10(s + 1);
    var x :- Times(xyt.0, p);
    Result(s, s + 1, Quotient(x, xyt.1))
  }

  /** The mantissa of `f` at a finer scale. */
  function Seen(f: Fixed, k: int): (v: int)
    requires k >= f.scale
  {
    At(f.val, f.scale, k)
  }

  /** What `Add` rounds: the sum, but the left operand alone for a positive plus a negative. */
  function Summed(a: Fixed, b: Fixed, k: int): (v: int)
    requires k >= a.scale && k >= b.scale
  {
    Seen(a, k) + if a.val > 0 && b.val < 0 then 0 else Seen(b, k)
  }

  lemma AddRounds(s: int, a: Fixed, b: Fixed, k: int)
    requires Add(s, a, b).Some? && Fits(a.val) && Fits(b.val) && k >= s && k >= a.scale && k >= b.scale
    ensures Nearest(Add(s, a, b).value.val, Summed(a, b, k), Pow10(k - s))
  {
    AlignIs(a, b);
    var (x, y, t) := Align(a, b).value;
    var v := Plus(x, y).value;
    SignAt(a.val, a.scale, t);
    SignAt(b.val, b.scale, t);
    PlusIsExact(x, y);
    AtFiner(a.val, a.scale, t, k);
    AtFiner(b.val, b.scale, t, k);
    assert At(v, t, k) == Summed(a, b, k) by { Distribute(x, -y, Pow10(k - t)); Signs(y, Pow10(k - t)); }
    RescaleRounds(s, t, v, k);
  }

  function Difference(a: Fixed, b: Fixed): (d: int) {
    Seen(a, Max(a.scale, b.scale)) - Seen(b, Max(a.scale, b.scale))
  }

  /** The operands that `BigInt` subtracts wrongly: two different negatives. */
  predicate TwoNegatives(a: Fixed, b: Fixed) {
    a.val < 0 && b.val < 0 && Difference(a, b) != 0
  }

  /** What is left of a difference when the last borrow is lost. */
  function Complement(d: int): (c: int) {
    if d < 0 then -d - LIMIT else LIMIT - d
  }

  /** What `Sub` rounds, at the finer scale. */
  function Subtracted(a: Fixed, b: Fixed): (v: int) {
    if TwoNegatives(a, b) then Complement(Difference(a, b)) else Difference(a, b)
  }

  lemma SubRounds(s: int, a: Fixed, b: Fixed, k: int)
    requires Sub(s, a, b).Some? && Fits(a.val) && Fits(b.val) && k >= s && k >= a.scale && k >= b.scale
    ensures Nearest(Sub(s, a, b).value.val, At(Subtracted(a, b), Max(a.scale, b.scale), k), Pow10(k - s))
  {
    MinusIsSubtracted(a, b);
    RescaleRounds(s, Max(a.scale, b.scale), Subtracted(a, b), k);
  }

  lemma DifferenceFiner(a: Fixed, b: Fixed, k: int)
    requires k >= a.scale && k >= b.scale
    ensures At(Difference(a, b), Max(a.scale, b.scale), k) == Seen(a, k) - Seen(b, k)
  {
    var t := Max(a.scale, b.scale);
    AtFiner(a.val, a.scale, t, k);
    AtFiner(b.val, b.scale, t, k);
    Distribute(Seen(a, t), Seen(b, t), Pow10(k - t));
  }

  lemma SubRoundsAtFiner(s: int, a: Fixed, b: Fixed)
    requires Sub(s, a, b).Some? && Fits(a.val) && Fits(b.val) && s <= Max(a.scale, b.scale)
    ensures Nearest(Sub(s, a, b).value.val, Subtracted(a, b), Pow10(Max(a.scale, b.scale) - s))
  {
    SubRounds(s, a, b, Max(a.scale, b.scale));
    AtItsScale(Subtracted(a, b), Max(a.scale, b.scale));
  }

  lemma AtItsScale(v: int, s: int)
    ensures At(v, s, s) == v
  {
  }

  lemma MinusIsSubtracted(a: Fixed, b: Fixed)
    requires Align(a, b).Some? && Fits(a.val) && Fits(b.val)
    ensures var (x, y, t) := Align(a, b).value;
            && t == Max(a.scale, b.scale) && x == Seen(a, t) && y == Seen(b, t)
            && (Minus(x, y).Some? ==> Minus(x, y) == Some(Subtracted(a, b)))
  {
    AlignIs(a, b);
    var (x, y, t) := Align(a, b).value;
    SignAt(a.val, a.scale, t);
    SignAt(b.val, b.scale, t);
    if Minus(x, y).Some? {
      MinusIsExact(x, y);
    }
  }

  lemma MulRounds(s: int, a: Fixed, b: Fixed, k: int)
    requires Mul(s, a, b).Some? && Fits(a.val) && Fits(b.val) && k >= s && k >= a.scale + b.scale
    ensures Nearest(Mul(s, a, b).value.val, At(a.val * b.val, a.scale + b.scale, k), Pow10(k - s))
  {
    AlignIs(a, b);
    var (x, y, t) := Align(a, b).value;
    var j := Max(k, 2 * t);
    ProductAt(a, b, t);
    RescaleRounds(s, 2 * t, x * y, j);
    AtFiner(a.val * b.val, a.scale + b.scale, 2 * t, j);
    AtFiner(a.val * b.val, a.scale + b.scale, k, j);
    Pow10Sum(k - s, j - k);
    NearestScaled(Mul(s, a, b).value.val, At(a.val * b.val, a.scale + b.scale, k), Pow10(k - s), Pow10(j - k));
  }

  lemma ProductAt(a: Fixed, b: Fixed, t: int)
    requires t >= a.scale && t >= b.scale
    ensures Seen(a, t) * Seen(b, t) == At(a.val * b.val, a.scale + b.scale, 2 * t)
  {
    var p, q := Pow10(t - a.scale), Pow10(t - b.scale);
    Pow10Sum(t - a.scale, t - b.scale);
    Exchange(a.val, p, b.val, q);
  }

  lemma Exchange(x: int, p: int, y: int, q: int)
    ensures (x * p) * (y * q) == (x * y) * (p * q)
  {
    Regroup(x * p, y, q);
    Regroup(x, p, y);
    Regroup(x * y, p, q);
  }

  // ---------- division ----------

  /** Cutting a quotient after one digit too many and then rounding that digit is rounding the quotient. */
  lemma GuardDigit(r: int, q: int, x: int, y: int)
    requires y != 0 && Truncated(q, x, y) && Nearest(r, q, 10)
    ensures Nearest(r, x, 10 * y)
  {
    if y > 0 {
      GuardDigitUp(r, q, x, y);
    } else {
      Signs(q, y);
      Signs(r, 10 * y);
      GuardDigitUp(r, q, -x, -y);
    }
  }

  lemma GuardDigitUp(r: int, q: int, x: int, y: int)
    requires y > 0 && Truncated(q, x, y) && Nearest(r, q, 10)
    ensures Nearest(r, x, 10 * y)
  {
    Regroup(r, 10, y);
    if x >= 0 {
      GuardDigitPositive(r, q, x, y);
    } else {
      Signs(q, y);
      Signs(r * 10, y);
      GuardDigitPositive(-r, -q, -x, y);
    }
  }

  lemma GuardDigitPositive(r: int, q: int, x: int, y: int)
    requires y > 0 && x >= 0 && Below(q * y, x, y) && Abs(r * 10 - q) <= 5 && (r * 10 - q == -5 ==> q <= 0)
    ensures Close(r * 10 * y, x, 10 * y)
  {
    var f := r * 10 - q;
    Distribute(q, -1, y);
    TimesOrder(0, q + 1, y);
    assert q >= 0 && -4 <= f <= 5;
    Distribute(r * 10, q, y);
    TimesOrder(f, 5, y);
    TimesOrder(-4, f, y);
  }

  /** What `Div` rounds at the finer of the scales: the dividend times `10^(s + 1)`, or what `power10` makes of it. */
  lemma DivComputes(s: int, a: Fixed, b: Fixed)
    requires Fits(a.val) && Fits(b.val) && b.val != 0
    ensures Div(s, a, b).Some? ==>
            var t := Max(a.scale, b.scale);
            && Seen(b, t) != 0 && Power10(s + 1).Some?
            && Nearest(Div(s, a, b).value.val, Seen(a, t) * Power10(s + 1).value, 10 * Seen(b, t))
  {
    if Div(s, a, b).Some? {
      AlignIs(a, b);
      var (x, y, t) := Align(a, b).value;
      SignAt(b.val, b.scale, t);
      var n := x * Power10(s + 1).value;
      var q := Quotient(n, y);
      TruncDivIs(n, y);
      RescaleRounds(s, s + 1, q, s + 1);
      assert At(q, s + 1, s + 1) == q && Pow10(1) == 10;
      GuardDigit(Div(s, a, b).value.val, q, n, y);
    }
  }

  /** The same at any finer scale. */
  lemma DivComputesAt(s: int, a: Fixed, b: Fixed, k: int)
    requires Div(s, a, b).Some? && Fits(a.val) && Fits(b.val) && b.val != 0 && k >= a.scale && k >= b.scale
    ensures Seen(b, k) != 0 && Power10(s + 1).Some?
    ensures Nearest(Div(s, a, b).value.val, Seen(a, k) * Power10(s + 1).value, Seen(b, k) * 10)
  {
    var t := Max(a.scale, b.scale);
    DivComputes(s, a, b);
    SignAt(b.val, b.scale, k);
    var c, p := Pow10(k - t), Power10(s + 1).value;
    AtFiner(a.val, a.scale, t, k);
    AtFiner(b.val, b.scale, t, k);
    NearestScaled(Div(s, a, b).value.val, Seen(a, t) * p, 10 * Seen(b, t), c);
    Regroup(Seen(a, t), p, c);
    Regroup(10, Seen(b, t), c);
  }

  lemma DivRounded(s: int, a: Fixed, b: Fixed, k: int)
    requires Div(s, a, b).Some? && Fits(a.val) && Fits(b.val) && b.val != 0
    requires s >= -1 && k >= a.scale && k >= b.scale
    ensures Seen(b, k) != 0 && Nearest(Div(s, a, b).value.val, Seen(a, k) * Pow10(s + 1), Seen(b, k) * 10)
  {
    DivComputesAt(s, a, b, k);
    Power10Is(s + 1);
  }

  /** Dividing by zero gives zero. */
  lemma DivByZero(s: int, a: Fixed, b: Fixed)
    requires Div(s, a, b).Some? && Fits(a.val) && b.val == 0
    ensures Div(s, a, b).value.val == 0
  {
    AlignIs(a, b);
    RescaleRounds(s, s + 1, 0, s + 1);
    assert Pow10(1) == 10;
    NearestExact(Div(s, a, b).value.val, 0, 10);
  }

  /**
    At a scale of -2 or less `power10` is asked for a negative power, and the result is right only
    if it is zero: if the quotient is below 1/2 at an even scale, below 5 at an odd one.
   */
  lemma DivAtNegativeScale(s: int, a: Fixed, b: Fixed)
    requires Fits(a.val) && Fits(b.val) && b.val != 0 && s <= -2
    ensures Div(s, a, b).Some? ==>
            var t := Max(a.scale, b.scale);
            Nearest(Div(s, a, b).value.val, Seen(a, t), Seen(b, t) * Pow10(-s))
            <==> (if s % 2 == 0 then 2 * Abs(Seen(a, t)) < Abs(Seen(b, t)) else Abs(Seen(a, t)) < 5 * Abs(Seen(b, t)))
  {
    if Div(s, a, b).Some? {
      var t := Max(a.scale, b.scale);
      DivWithoutPower(s, a, b);
      AtLeastHundred(-s);
      WrongUnlessZero(Div(s, a, b).value.val, Seen(a, t), Seen(a, t) * (if s % 2 == 0 then 10 else 1), Seen(b, t), Pow10(-s));
    }
  }

  lemma DivWithoutPower(s: int, a: Fixed, b: Fixed)
    requires Fits(a.val) && Fits(b.val) && b.val != 0 && s <= -2
    ensures Div(s, a, b).Some? ==>
            var t := Max(a.scale, b.scale);
            && Seen(b, t) != 0
            && Nearest(Div(s, a, b).value.val, Seen(a, t) * (if s % 2 == 0 then 10 else 1), 10 * Seen(b, t))
  {
    if Div(s, a, b).Some? {
      assert Power10(s + 1) == Some(if s % 2 == 0 then 10 else 1) by { NegativePower(s); }
      DivComputes(s, a, b);
    }
  }

  lemma NegativePower(s: int)
    requires s <= -2
    ensures Power10(s + 1) == Some(if s % 2 == 0 then 10 else 1)
  {
    Power10Is(s + 1);
  }

  lemma WrongUnlessZero(r: int, x: int, n: int, y: int, p: int)
    requires y != 0 && Abs(x) <= Abs(n) && p >= 100 && Nearest(r, n, 10 * y)
    ensures Nearest(r, x, y * p) <==> 2 * Abs(n) < 10 * Abs(y)
  {
    assert Abs(y * p) >= 100 * Abs(y) by {
      AbsScaled(y, p);
      TimesOrder(p, 100, Abs(y));
    }
    Regroup(r, 10, y);
    ZeroOrWrong(r, x, n, y, y * p);
  }

  lemma AtLeastHundred(k: nat)
    requires k >= 2
    ensures Pow10(k) >= 100
  {
    assert Pow10(k) == 10 * Pow10(k - 1) == 100 * Pow10(k - 2);
  }

  lemma ZeroOrWrong(r: int, x: int, n: int, y: int, z: int)
    requires y != 0 && Abs(x) <= Abs(n) && Abs(z) >= 100 * Abs(y) && Close(10 * (r * y), n, 10 * y)
    ensures Nearest(r, x, z) <==> 2 * Abs(n) < 10 * Abs(y)
  {
    if r == 0 {
      assert r * y == 0 && r * z == 0;
    } else {
      AbsTimes(r, y);
      AtLeastOnce(Abs(r), Abs(y));
      TooFar(r, x, y, z);
    }
  }

  lemma TooFar(r: int, x: int, y: int, z: int)
    requires r != 0 && Abs(z) >= 100 * Abs(y) && y != 0
    requires 2 * Abs(x) <= 20 * Abs(r * y) + 10 * Abs(y)
    ensures 2 * Abs(r * z - x) > Abs(z)
  {
    AbsTimes(r, y);
    AbsTimes(r, z);
    TooFarPositive(Abs(r), Abs(x), Abs(y), Abs(z));
  }

  lemma TooFarPositive(r: int, x: int, y: int, z: int)
    requires r >= 1 && z >= 100 * y > 0 && 2 * x <= 20 * (r * y) + 10 * y
    ensures 2 * (r * z - x) > z
  {
    TimesOrder(100 * y, z, r);
    Regroup(100, y, r);
    AtLeastOnce(r, z);
  }

  // ---------- when the operations return ----------

  /** The mantissa has room for `k` more digits. */
  predicate Room(v: int, k: int)
    requires k >= 0
  {
    k <= 77 && Fits(v * Pow10(k))
  }

  /** Powers of ten fit up to the 77th. */
  lemma PowersThatFit(k: nat)
    ensures Fits(Pow10(k)) <==> k <= 77
  {
    Pow10Of77();
    if k <= 77 {
      Pow10Grows(k, 77);
    } else {
      Pow10Grows(78, k);
    }
  }

  /** There is room for more digits, or for half a unit of those that go. */
  predicate RescaleReturns(n: int, o: int, v: int) {
    if n >= o then Room(v, n - o) else o - n <= 77 && Abs(v) + 5 * Pow10(o - n - 1) < LIMIT
  }

  lemma RescaleReturnsIff(n: int, o: int, v: int)
    requires Fits(v)
    ensures Rescale(n, o, v, true).Some? <==> RescaleReturns(n, o, v)
  {
    if n > o {
      Power10Is(n - o);
      PowersThatFit(n - o);
    } else if n < o {
      DropReturnsIff(v, o - n);
      ShiftScales(n, o, v, true);
    }
  }

  /** Without rounding there need be room for more digits only. */
  predicate TruncateReturns(n: int, o: int, v: int) {
    if n >= o then Room(v, n - o) else o - n <= 77
  }

  lemma TruncateReturnsIff(n: int, o: int, v: int)
    requires Fits(v)
    ensures Rescale(n, o, v, false).Some? <==> TruncateReturns(n, o, v)
    ensures Rescale(n, o, v, false).Some? ==> Fits(Rescale(n, o, v, false).value)
  {
    if n > o {
      Power10Is(n - o);
      PowersThatFit(n - o);
    } else if n < o {
      Power10Is(o - n);
      PowersThatFit(o - n);
      if o - n <= 77 {
        QuotientFits(v, Pow10(o - n));
      }
    }
  }

  lemma DropReturnsIff(v: int, k: nat)
    requires Fits(v) && k >= 1
    ensures Rescale(0, k, v, true).Some? <==> k <= 77 && Abs(v) + 5 * Pow10(k - 1) < LIMIT
  {
    PowersThatFit(k);
    PowersThatFit(k - 1);
    Power10Is(k);
    Power10Is(k - 1);
    assert Pow10(k) == 10 * Pow10(k - 1);
    if k <= 77 {
      assert HalfUnit(k) == Some(5 * Pow10(k - 1));
      var half := 5 * Pow10(k - 1);
      PlusReturnsIff(v, if v < 0 then -half else half);
    }
  }

  /** The coarser of the operands has room for the digits of the finer one. */
  predicate AlignReturns(a: Fixed, b: Fixed) {
    var t := Max(a.scale, b.scale);
    Room(a.val, t - a.scale) && Room(b.val, t - b.scale)
  }

  lemma AlignReturnsIff(a: Fixed, b: Fixed)
    requires Fits(a.val) && Fits(b.val)
    ensures Align(a, b).Some? <==> AlignReturns(a, b)
  {
    if a.scale > b.scale {
      TransformReturnsIff(b, a.scale);
    } else if a.scale < b.scale {
      TransformReturnsIff(a, b.scale);
    }
  }

  lemma TransformReturnsIff(f: Fixed, t: int)
    requires t > f.scale
    ensures Transform(f, t).Some? <==> Room(f.val, t - f.scale)
  {
    Power10Is(t - f.scale);
    PowersThatFit(t - f.scale);
  }

  predicate AddReturns(s: int, a: Fixed, b: Fixed) {
    var t := Max(a.scale, b.scale);
    AlignReturns(a, b) && PlusReturns(Seen(a, t), Seen(b, t)) && RescaleReturns(s, t, Summed(a, b, t))
  }

  /** `add` returns exactly if the operands can be aligned, the sum fits, and half a unit more does. */
  lemma AddReturnsIff(s: int, a: Fixed, b: Fixed)
    requires Fits(a.val) && Fits(b.val)
    ensures Add(s, a, b).Some? <==> AddReturns(s, a, b)
  {
    AlignReturnsIff(a, b);
    if AlignReturns(a, b) {
      AlignIs(a, b);
      var (x, y, t) := Align(a, b).value;
      PlusReturnsIff(x, y);
      if PlusReturns(x, y) {
        PlusIsSummed(a, b);
        RescaleReturnsIff(s, t, Summed(a, b, t));
      }
    }
  }

  lemma PlusIsSummed(a: Fixed, b: Fixed)
    requires Align(a, b).Some? && Fits(a.val) && Fits(b.val) && Plus(Align(a, b).value.0, Align(a, b).value.1).Some?
    ensures var (x, y, t) := Align(a, b).value;
            t == Max(a.scale, b.scale) && Plus(x, y) == Some(Summed(a, b, t)) && Fits(Summed(a, b, t))
  {
    AlignIs(a, b);
    var (x, y, t) := Align(a, b).value;
    SignAt(a.val, a.scale, t);
    SignAt(b.val, b.scale, t);
    PlusIsExact(x, y);
  }

  predicate SubReturns(s: int, a: Fixed, b: Fixed) {
    var t := Max(a.scale, b.scale);
    AlignReturns(a, b) && MinusReturns(Seen(a, t), Seen(b, t)) && RescaleReturns(s, t, Subtracted(a, b))
  }

  /** `sub` likewise. */
  lemma SubReturnsIff(s: int, a: Fixed, b: Fixed)
    requires Fits(a.val) && Fits(b.val)
    ensures Sub(s, a, b).Some? <==> SubReturns(s, a, b)
  {
    AlignReturnsIff(a, b);
    if AlignReturns(a, b) {
      MinusIsSubtracted(a, b);
      AlignIs(a, b);
      var (x, y, t) := Align(a, b).value;
      MinusReturnsIff(x, y);
      if MinusReturns(x, y) {
        assert Fits(Minus(x, y).value);
        RescaleReturnsIff(s, t, Subtracted(a, b));
      }
    }
  }

  predicate MulReturns(s: int, a: Fixed, b: Fixed) {
    var t := Max(a.scale, b.scale);
    AlignReturns(a, b) && Fits(Seen(a, t) * Seen(b, t)) && RescaleReturns(s, 2 * t, Seen(a, t) * Seen(b, t))
  }

  /** `mul` returns exactly if the operands can be aligned, their product fits, and half a unit more does. */
  lemma MulReturnsIff(s: int, a: Fixed, b: Fixed)
    requires Fits(a.val) && Fits(b.val)
    ensures Mul(s, a, b).Some? <==> MulReturns(s, a, b)
  {
    AlignReturnsIff(a, b);
    if AlignReturns(a, b) {
      AlignIs(a, b);
      var (x, y, t) := Align(a, b).value;
      if Fits(x * y) {
        RescaleReturnsIff(s, 2 * t, x * y);
      }
    }
  }

  /** What `power10` gives, where it gives something. */
  function PowerOrNot(x: int): (p: int)
    ensures p >= 1
  {
    if x >= 0 then Pow10(x) else if x % 2 == 0 then 1 else 10
  }

  predicate DivReturns(s: int, a: Fixed, b: Fixed) {
    var t := Max(a.scale, b.scale);
    var n := Seen(a, t) * PowerOrNot(s + 1);
    AlignReturns(a, b) && s <= 76 && Fits(n) && Abs(Quotient(n, Seen(b, t))) + 5 < LIMIT
  }

  /** `div` returns exactly if the operands can be aligned and the dividend has room for the digits of the quotient. */
  lemma DivReturnsIff(s: int, a: Fixed, b: Fixed)
    requires Fits(a.val) && Fits(b.val)
    ensures Div(s, a, b).Some? <==> DivReturns(s, a, b)
  {
    AlignReturnsIff(a, b);
    if AlignReturns(a, b) {
      AlignIs(a, b);
      var (x, y, t) := Align(a, b).value;
      PowerReturnsIff(s + 1);
      if s <= 76 && Fits(x * PowerOrNot(s + 1)) {
        QuotientFits(x * PowerOrNot(s + 1), y);
        RescaleReturnsIff(s, s + 1, Quotient(x * PowerOrNot(s + 1), y));
        assert Pow10(0) == 1;
      }
    }
  }

  lemma PowerReturnsIff(x: int)
    ensures Power10(x) == if x <= 77 then Some(PowerOrNot(x)) else None
  {
    Power10Is(x);
    if x >= 0 {
      PowersThatFit(x);
    }
  }

  lemma QuotientFits(n: int, y: int)
    requires Fits(n)
    ensures Fits(Quotient(n, y)) && Abs(Quotient(n, y)) <= Abs(n)
  {
    if y != 0 {
      Smaller(Abs(n), Abs(y));
    }
  }

  lemma Smaller(x: nat, y: int)
    requires y >= 1
    ensures 0 <= x / y <= x
  {
    var q := x / y;
    assert x == q * y + x % y;
    AtLeastOnce(y, q);
  }

  /**
    Division is correctly rounded at every scale from -1 up: it returns exactly if there is room for
    the digits, and then the result is the exact quotient rounded half away from zero, for all signs.
   */
  lemma DivRounds(s: int, a: Fixed, b: Fixed, k: int)
    requires Fits(a.val) && Fits(b.val) && b.val != 0 && s >= -1 && k >= a.scale && k >= b.scale
    ensures Div(s, a, b).Some? <==> DivReturns(s, a, b)
    ensures Div(s, a, b).Some? ==>
              Seen(b, k) != 0 && Nearest(Div(s, a, b).value.val, Seen(a, k) * Pow10(s + 1), Seen(b, k) * 10)
  {
    DivReturnsIff(s, a, b);
    if Div(s, a, b).Some? {
      DivRounded(s, a, b, k);
    }
  }
}
