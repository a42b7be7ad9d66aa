/** Powers of ten, decimal digit counts and rounding, on the integers and the real numbers. */
module Decimal {

  function Pow10(n: nat): (p: int)
    ensures p >= 1
  {
    if n == 0 then 1 else 10 * Pow10(n - 1)
  }

  lemma {:induction false} Pow10Sum(m: nat, n: nat)
    ensures Pow10(m + n) == Pow10(m) * Pow10(n)
  {
    if m > 0 {
      Pow10Sum(m - 1, n);
      assert m + n - 1 == (m - 1) + n;
    }
  }

  lemma {:induction false} Pow10Grows(m: nat, n: nat)
    requires m <= n
    ensures Pow10(m) <= Pow10(n)
  {
    if m < n {
      Pow10Grows(m, n - 1);
    }
  }

  function Abs(x: int): (y: int)
    ensures y >= 0 && (y == x || y == -x)
  {
    if x < 0 then -x else x
  }

  /** How many decimal digits it takes to write `x`, without its sign; zero takes one. */
  function Digits(x: int): (n: nat)
    ensures n >= 1
    decreases Abs(x)
  {
    if Abs(x) < 10 then 1 else 1 + Digits(Abs(x) / 10)
  }

  lemma {:induction false} DigitsBound(x: int)
    ensures Abs(x) < Pow10(Digits(x))
    ensures x != 0 ==> Pow10(Digits(x) - 1) <= Abs(x)
    decreases Abs(x)
  {
    if Abs(x) >= 10 {
      DigitsBound(Abs(x) / 10);
    } else {
      assert Pow10(1) == 10 * Pow10(0);
    }
  }

  /** `n` digits are enough exactly for the numbers below `10^n`. */
  lemma DigitsAtMost(x: int, n: nat)
    requires n >= 1
    ensures Digits(x) <= n <==> Abs(x) < Pow10(n)
  {
    DigitsBound(x);
    if Digits(x) <= n {
      Pow10Grows(Digits(x), n);
    } else {
      Pow10Grows(n, Digits(x) - 1);
      assert x != 0;
    }
  }

  lemma Pow10Of31()
    ensures Pow10(31) == 10_000_000_000_000_000_000_000_000_000_000 == 10 * Pow10(30)
  {
    Pow10Sum(10, 10);
    Pow10Sum(20, 11);
    assert Pow10(5) == 10_0000;
    Pow10Sum(5, 5);
    assert Pow10(11) == 10 * Pow10(10);
  }

  lemma Pow10Of62()
    ensures Pow10(62) == 100000000000000000000000000000000000000000000000000000000000000
  {
    Pow10Of31();
    Pow10Sum(31, 31);
  }

  lemma Pow10Of77()
    ensures Pow10(77) == 100000000000000000000000000000000000000000000000000000000000000000000000000000
  {
    Pow10Of62();
    Pow10Sum(62, 15);
    assert Pow10(5) == 10_0000;
    Pow10Sum(5, 5);
    Pow10Sum(10, 5);
  }

  // ---------- mantissas ----------

  /** The mantissa at the finer scale `k` of what `v` stands for at scale `s`. */
  function At(v: int, s: int, k: int): (w: int)
    requires k >= s
  {
    v * Pow10(k - s)
  }

  lemma AtFiner(v: int, s: int, k: int, j: int)
    requires s <= k <= j
    ensures At(v, s, j) == At(v, s, k) * Pow10(j - k) == At(At(v, s, k), k, j)
  {
    Pow10Sum(k - s, j - k);
    Regroup(v, Pow10(k - s), Pow10(j - k));
  }

  lemma Regroup(x: int, y: int, z: int)
    ensures x * (y * z) == x * y * z == x * z * y
  {
  }

  // ---------- rounding ----------

  /** `q` is `n / d` rounded to the nearest integer, a half away from zero. */
  predicate Nearest(q: int, n: int, d: int) {
    Close(q * d, n, d)
  }

  /** `x` is within half of `d` from `n`, and at the half it is farther from zero. */
  predicate Close(x: int, n: int, d: int) {
    2 * Abs(x - n) <= Abs(d) && (2 * Abs(x - n) == Abs(d) ==> if n >= 0 then x > n else x < n)
  }

  lemma NearestUnique(q: int, r: int, n: int, d: int)
    requires d != 0 && Nearest(q, n, d) && Nearest(r, n, d)
    ensures q == r
  {
    CloseTogether(q * d, r * d, n, d);
    SameMultiple(q, r, d);
  }

  lemma CloseTogether(x: int, y: int, n: int, d: int)
    requires d != 0 && Close(x, n, d) && Close(y, n, d)
    ensures Abs(x - y) < Abs(d)
  {
  }

  /** Two multiples of `d` closer than `d` are the same. */
  lemma SameMultiple(q: int, r: int, d: int)
    requires Abs(q * d - r * d) < Abs(d)
    ensures q == r
  {
    assert q * d - r * d == (q - r) * d;
    AbsTimes(q - r, d);
    if q != r {
      AtLeastOnce(Abs(q - r), Abs(d));
      assert false;
    }
  }

  lemma AtLeastOnce(c: int, d: int)
    requires c >= 1 && d >= 0
    ensures c * d >= d
  {
  }

  lemma AbsTimes(c: int, d: int)
    ensures Abs(c * d) == Abs(c) * Abs(d)
  {
  }

  /** Rounding depends on the quotient alone. */
  lemma NearestScaled(q: int, n: int, d: int, c: int)
    requires c > 0
    ensures Nearest(q, n, d) <==> Nearest(q, n * c, d * c)
  {
    Regroup(q, d, c);
    CloseScaled(q * d, n, d, c);
  }

  lemma CloseScaled(x: int, n: int, d: int, c: int)
    requires c > 0
    ensures Close(x, n, d) <==> Close(x * c, n * c, d * c)
  {
    AbsScaled(x - n, c);
    AbsScaled(d, c);
    assert x * c - n * c == (x - n) * c;
    TimesOrder(2 * Abs(x - n), Abs(d), c);
    TimesOrder(x, n, c);
    TimesOrder(n, 0, c);
    Doubled(Abs(x - n), c);
  }

  lemma Doubled(x: int, c: int)
    ensures 2 * x * c == 2 * (x * c)
  {
  }

  lemma AbsScaled(x: int, c: int)
    requires c > 0
    ensures Abs(x * c) == Abs(x) * c
  {
    AbsTimes(x, c);
  }

  lemma TimesOrder(x: int, y: int, c: int)
    requires c > 0
    ensures x * c < y * c <==> x < y
    ensures x * c == y * c <==> x == y
  {
    if x < y {
      assert (y - x) * c > 0;
    } else if x > y {
      assert (x - y) * c > 0;
    }
  }

  lemma NearestExact(q: int, m: int, d: int)
    requires d != 0 && Nearest(q, m * d, d)
    ensures q == m
  {
    NearestUnique(q, m, m * d, d);
  }

  /** `q` is `n / d` without its fraction. */
  predicate Truncated(q: int, n: int, d: int) {
    Below(q * d, n, d)
  }

  /** `x` is less than `d` from `n` and not farther from zero. */
  predicate Below(x: int, n: int, d: int) {
    Abs(n - x) < Abs(d) && (n >= 0 ==> x <= n) && (n <= 0 ==> x >= n)
  }

  lemma TruncatedUnique(q: int, r: int, n: int, d: int)
    requires d != 0 && Truncated(q, n, d) && Truncated(r, n, d)
    ensures q == r
  {
    SameMultiple(q, r, d);
  }

  lemma TruncatedScaled(q: int, n: int, d: int, c: int)
    requires c > 0
    ensures Truncated(q, n, d) <==> Truncated(q, n * c, d * c)
  {
    Regroup(q, d, c);
    BelowScaled(q * d, n, d, c);
  }

  lemma BelowScaled(x: int, n: int, d: int, c: int)
    requires c > 0
    ensures Below(x, n, d) <==> Below(x * c, n * c, d * c)
  {
    AbsScaled(n - x, c);
    AbsScaled(d, c);
    assert n * c - x * c == (n - x) * c;
    TimesOrder(Abs(n - x), Abs(d), c);
    TimesOrder(n, x, c);
    TimesOrder(n, 0, c);
  }

  /** Cutting twice is cutting once. */
  lemma TruncatedTwice(u: int, w: int, n: int, d: int, c: int)
    requires d > 0 && c > 0 && Truncated(w, n, d) && Truncated(u, w, c)
    ensures Truncated(u, n, d * c)
  {
    Regroup(u, c, d);
    Regroup(u, d, c);
    Regroup(1, d, c);
    if n >= 0 {
      BelowTwice(u * c, w, n, d, c);
    } else {
      Signs(u * c, d);
      Signs(w, d);
      BelowTwice(-(u * c), -w, -n, d, c);
    }
  }

  lemma BelowTwice(x: int, w: int, n: int, d: int, c: int)
    requires n >= 0 && d > 0 && c > 0 && Below(w * d, n, d) && Below(x, w, c)
    ensures Below(x * d, n, c * d)
  {
    Distribute(w, -1, d);
    TimesOrder(0, w + 1, d);
    assert 0 <= w - x <= c - 1;
    Distribute(w, x, d);
    Distribute(c, 1, d);
    TimesOrder(w - x, c - 1, d);
    TimesOrder(0, w - x, d);
  }

  lemma Distribute(x: int, y: int, d: int)
    ensures (x - y) * d == x * d - y * d
  {
  }

  lemma Signs(q: int, b: int)
    ensures (-q) * b == -(q * b) && q * (-b) == -(q * b)
  {
  }
}
