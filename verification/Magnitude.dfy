/**
  The loops of `BigInt` over its 32 octets, the lowest first, proved against the numbers that the
  module `BigInt` says they compute.
 */
module Magnitude {
  import opened Prelude
  import opened Octet
  import opened Decimal
  import B = BigInt

  const SIZE := 32

  type Mag = m: seq<octet> | |m| == SIZE witness seq(SIZE, _ => 0)

  // ---------- positions ----------

  lemma {:induction false} BitsSum(s: seq<octet>, t: seq<octet>)
    ensures Bits(s + t) == Bits(s) + Pow256(|s|) * Bits(t)
  {
    if s == [] {
      assert s + t == t;
    } else {
      BitsSum(s[1..], t);
      assert (s + t)[1..] == s[1..] + t;
      Regroup(256, Pow256(|s| - 1), Bits(t));
    }
  }

  lemma BitsNext(s: seq<octet>, i: nat)
    requires i < |s|
    ensures Bits(s[..i + 1]) == Bits(s[..i]) + Pow256(i) * s[i]
  {
    assert s[..i + 1] == s[..i] + [s[i]];
    BitsSum(s[..i], [s[i]]);
    assert [s[i]][1..] == [];
  }

  lemma BitsWhole(m: seq<octet>)
    requires |m| == SIZE
    ensures m[..SIZE] == m && Bits(m) < B.LIMIT
  {
    BitsBound(m);
    B.Limit();
  }

  // ---------- sums and differences ----------

  /** One position: `x + y + carry == low + 256 * carry'`, at the weight `p`. */
  lemma CarryStep(p: int, x: int, y: int, carry: int, low: int, carry': int)
    requires x + y + carry == low + 256 * carry'
    ensures p * low + carry' * (256 * p) == p * x + p * y + carry * p
  {
    assert p * (low + 256 * carry') == p * low + carry' * (256 * p);
    assert p * (x + y + carry) == p * x + p * y + carry * p;
  }

  method AddMagnitudes(x: Mag, y: Mag) returns (z: seq<octet>, carry: int)
    ensures |z| == SIZE && 0 <= carry <= 1
    ensures Bits(z) + carry * B.LIMIT == Bits(x) + Bits(y)
  {
    z, carry := [], 0;
    for i := 0 to SIZE
      invariant |z| == i && 0 <= carry <= 1
      invariant Bits(z) + carry * Pow256(i) == Bits(x[..i]) + Bits(y[..i])
    {
      var r := x[i] + y[i] + carry;
      BitsNext(x, i);
      BitsNext(y, i);
      CarryStep(Pow256(i), x[i], y[i], carry, r % 256, r / 256);
      z, carry := z + [r % 256], r / 256;
      assert z[..i + 1] == z && z[..i] == z[..|z| - 1];
      BitsNext(z, i);
    }
    BitsWhole(x);
    BitsWhole(y);
    B.Limit();
  }

  /** The last borrow is lost: the result is complemented when `x` is the smaller. */
  method SubMagnitudes(x: Mag, y: Mag) returns (z: seq<octet>, borrow: int)
    ensures |z| == SIZE && 0 <= borrow <= 1
    ensures Bits(z) - borrow * B.LIMIT == Bits(x) - Bits(y)
  {
    z, borrow := [], 0;
    for i := 0 to SIZE
      invariant |z| == i && 0 <= borrow <= 1
      invariant Bits(z) - borrow * Pow256(i) == Bits(x[..i]) - Bits(y[..i])
    {
      var r := 256 + x[i] - y[i] - borrow;
      var next := if r >= 256 then 0 else 1;
      BitsNext(x, i);
      BitsNext(y, i);
      BorrowStep(Pow256(i), x[i], y[i], borrow, r % 256, next);
      z, borrow := z + [r % 256], next;
      assert z[..i + 1] == z && z[..i] == z[..|z| - 1];
      BitsNext(z, i);
    }
    BitsWhole(x);
    BitsWhole(y);
    B.Limit();
  }

  lemma BorrowStep(p: int, x: int, y: int, borrow: int, low: int, borrow': int)
    requires x - y - borrow == low - 256 * borrow'
    ensures p * low - borrow' * (256 * p) == p * x - p * y - borrow * p
  {
    CarryStep(p, x, -y, -borrow, low, -borrow');
    Signs(y, p);
    Signs(borrow, p);
    Signs(borrow', 256 * p);
  }

  // ---------- order ----------

  /** The highest octet that differs decides. */
  method Compare(x: Mag, y: Mag) returns (c: int)
    ensures c == if Bits(x) < Bits(y) then -1 else if Bits(x) > Bits(y) then 1 else 0
  {
    var i := SIZE;
    while i > 0
      invariant 0 <= i <= SIZE && x[i..] == y[i..]
    {
      if x[i - 1] < y[i - 1] {
        HighestDecides(x, y, i - 1);
        return -1;
      }
      if x[i - 1] > y[i - 1] {
        HighestDecides(y, x, i - 1);
        return 1;
      }
      assert x[i - 1..] == [x[i - 1]] + x[i..] && y[i - 1..] == [y[i - 1]] + y[i..];
      i := i - 1;
    }
    assert x[0..] == x && y[0..] == y;
    c := 0;
  }

  lemma HighestDecides(x: seq<octet>, y: seq<octet>, i: nat)
    requires i < |x| == |y| && x[i] < y[i] && x[i + 1..] == y[i + 1..]
    ensures Bits(x) < Bits(y)
  {
    assert x == x[..i + 1] + x[i + 1..] && y == y[..i + 1] + y[i + 1..];
    BitsSum(x[..i + 1], x[i + 1..]);
    BitsSum(y[..i + 1], y[i + 1..]);
    BitsNext(x, i);
    BitsNext(y, i);
    BitsBound(x[..i]);
    LessAtWeight(Pow256(i), x[i], y[i]);
  }

  lemma LessAtWeight(p: int, x: int, y: int)
    requires p >= 1 && x < y
    ensures p * x + p <= p * y
  {
    TimesOrder(x + 1, y, p);
  }

  // ---------- products ----------

  /** `operator*(int)` for a factor of one octet. */
  method TimesOctet(x: Mag, v: octet) returns (z: seq<octet>, carry: int)
    ensures |z| == SIZE && 0 <= carry
    ensures Bits(z) + carry * B.LIMIT == Bits(x) * v
  {
    z, carry := [], 0;
    ghost var p, low, high: int := 1, 0, 0;
    for i := 0 to SIZE
      invariant |z| == i && 0 <= carry < 256 && p == Pow256(i) && low == Bits(x[..i]) && high == Bits(z)
      invariant high + carry * p == low * v
    {
      var r := x[i] * v + carry;
      assert 0 <= r < 65536 by { ProductOfOctets(x[i], v); }
      BitsNext(x, i);
      ScaledStep(p, low, x[i], v);
      CarryStep(p, x[i] * v, 0, carry, r % 256, r / 256);
      z, carry := z + [r % 256], r / 256;
      assert z[..i + 1] == z && z[..i] == z[..|z| - 1];
      BitsNext(z, i);
      p, low, high := 256 * p, Bits(x[..i + 1]), Bits(z);
    }
    BitsWhole(x);
    B.Limit();
  }

  lemma ScaledStep(p: int, b: int, x: int, v: int)
    ensures (b + p * x) * v == b * v + p * (x * v)
  {
    Distribute(b, -(p * x), v);
    Signs(p * x, v);
    Regroup(p, x, v);
  }

  lemma ProductOfOctets(x: octet, v: octet)
    ensures 0 <= x * v <= 255 * 255
  {
    assert x * v <= x * 255 <= 255 * 255;
  }

  function NoOctets(n: nat): (s: seq<octet>)
    ensures |s| == n
  {
    if n == 0 then [] else [0] + NoOctets(n - 1)
  }

  lemma {:induction false} NoBits(n: nat)
    ensures Bits(NoOctets(n)) == 0
  {
    if n > 0 {
      NoBits(n - 1);
      assert NoOctets(n)[1..] == NoOctets(n - 1);
    }
  }

  /** `shiftBytesLeft`: `None` if an octet other than zero would be lost. */
  method ShiftOctets(x: Mag, n: nat) returns (r: Option<Mag>)
    requires n <= SIZE
    ensures r.None? <==> Bits(x) * Pow256(n) >= B.LIMIT
    ensures r.Some? ==> Bits(r.value) == Bits(x) * Pow256(n)
  {
    for i := SIZE - n to SIZE
      invariant forall j :: SIZE - n <= j < i ==> x[j] == 0
    {
      if x[i] != 0 {
        LostOctet(x, n, i);
        return None;
      }
    }
    NoneLost(x, n);
    var z := MoveUp(x, n);
    r := Some(z);
  }

  method MoveUp(x: Mag, n: nat) returns (z: Mag)
    requires n <= SIZE
    ensures Bits(z) == Bits(x[..SIZE - n]) * Pow256(n)
  {
    z := x;
    for k := 0 to n
      invariant z == NoOctets(k) + x[..SIZE - k]
    {
      z := [0] + z[..SIZE - 1];
    }
    NoBits(n);
    BitsSum(NoOctets(n), x[..SIZE - n]);
  }

  lemma BitsPrefix(x: seq<octet>, i: nat)
    requires i <= |x|
    ensures Bits(x[..i]) <= Bits(x)
  {
    assert x == x[..i] + x[i..];
    BitsSum(x[..i], x[i..]);
    AtLeastOnce(Pow256(i), Bits(x[i..]));
  }

  lemma LostOctet(x: Mag, n: nat, i: nat)
    requires n <= SIZE && SIZE - n <= i < SIZE && x[i] != 0
    ensures Bits(x) * Pow256(n) >= B.LIMIT
  {
    BitsPrefix(x, i + 1);
    BitsNext(x, i);
    LessAtWeight(Pow256(i), 0, x[i]);
    Overflows(i, n);
    TimesOrder(Pow256(i), Bits(x), Pow256(n));
  }

  lemma Overflows(i: nat, n: nat)
    requires i + n >= SIZE
    ensures Pow256(i) * Pow256(n) >= B.LIMIT
  {
    Pow256Sum(i, n);
    Pow256Grows(SIZE, i + n);
    B.Limit();
  }

  lemma NoneLost(x: Mag, n: nat)
    requires n <= SIZE && forall j :: SIZE - n <= j < SIZE ==> x[j] == 0
    ensures Bits(x) == Bits(x[..SIZE - n]) && Bits(x) * Pow256(n) < B.LIMIT
  {
    var low, high := x[..SIZE - n], x[SIZE - n..];
    assert x == low + high;
    BitsSum(low, high);
    AllZero(high);
    BitsBound(low);
    TimesOrder(Bits(low), Pow256(SIZE - n), Pow256(n));
    Pow256Sum(SIZE - n, n);
    B.Limit();
  }

  lemma {:induction false} AllZero(s: seq<octet>)
    requires forall j :: 0 <= j < |s| ==> s[j] == 0
    ensures Bits(s) == 0
  {
    if s != [] {
      AllZero(s[1..]);
    }
  }

  /** `operator*` on magnitudes: one octet of `y` after the other; `None` exactly on overflow. */
  method TimesMagnitude(x: Mag, y: Mag) returns (r: Option<Mag>)
    ensures r.None? <==> Bits(x) * Bits(y) >= B.LIMIT
    ensures r.Some? ==> Bits(r.value) == Bits(x) * Bits(y)
  {
    var result: Mag := NoOctets(SIZE);
    NoBits(SIZE);
    for i := 0 to SIZE
      invariant Bits(result) == Bits(x) * Bits(y[..i])
    {
      PartialProduct(x, y, i);
      if y[i] != 0 {
        var next := AddProduct(result, x, y[i], i);
        if next.None? {
          return None;
        }
        result := next.value;
      }
    }
    BitsWhole(y);
    BitsWhole(result);
    r := Some(result);
  }

  lemma PartialProduct(x: Mag, y: Mag, i: nat)
    requires i < SIZE
    ensures Bits(x) * Bits(y[..i + 1]) == Bits(x) * Bits(y[..i]) + Bits(x) * y[i] * Pow256(i)
    ensures Bits(x) * Bits(y[..i + 1]) <= Bits(x) * Bits(y)
  {
    BitsNext(y, i);
    BitsPrefix(y, i + 1);
    ProductStep(Bits(x), Bits(y[..i]), y[i], Pow256(i));
    TimesOrder2(Bits(x), Bits(y[..i + 1]), Bits(y));
  }

  lemma ProductStep(x: int, y: int, v: int, p: int)
    ensures x * (y + p * v) == x * y + x * v * p
  {
    Regroup(x, v, p);
    Regroup(x, p, v);
    Distribute(y, -(p * v), x);
    Signs(p * v, x);
  }

  lemma TimesOrder2(c: nat, x: int, y: int)
    requires x <= y
    ensures c * x <= c * y
  {
    if c > 0 {
      TimesOrder(x, y, c);
    }
  }

  method AddProduct(sum: Mag, x: Mag, v: octet, i: nat) returns (r: Option<Mag>)
    requires i <= SIZE
    ensures r.None? <==> Bits(sum) + Bits(x) * v * Pow256(i) >= B.LIMIT
    ensures r.Some? ==> Bits(r.value) == Bits(sum) + Bits(x) * v * Pow256(i)
  {
    var values, carry := TimesOctet(x, v);
    BitsWhole(values);
    assert Bits(x) * v >= 0;
    AtLeastOnce(Pow256(i), Bits(x) * v);
    if carry != 0 {
      AtLeastOnce(carry, B.LIMIT);
      return None;
    }
    var shifted := ShiftOctets(values, i);
    if shifted.None? {
      return None;
    }
    var total, c := AddMagnitudes(sum, shifted.value);
    BitsWhole(total);
    r := if c != 0 then None else Some(total);
  }

  // ---------- one hundred times ----------

  /** `shiftLeft` by 6, 5 or 2 bits, that is, times `v`. */
  method ShiftBits(x: Mag, v: int) returns (r: Option<Mag>)
    requires v == 64 || v == 32 || v == 4
    ensures r.None? <==> Bits(x) * v >= B.LIMIT
    ensures r.Some? ==> Bits(r.value) == Bits(x) * v
  {
    var z, previous := ShiftLoop(x, v);
    BitsWhole(z);
    if previous > 0 {
      AtLeastOnce(previous, B.LIMIT);
      return None;
    }
    r := Some(z);
  }

  method ShiftLoop(x: Mag, v: int) returns (z: seq<octet>, previous: int)
    requires v == 64 || v == 32 || v == 4
    ensures |z| == SIZE && 0 <= previous && Bits(z) + previous * B.LIMIT == Bits(x) * v
  {
    z, previous := [], 0;
    ghost var p, low, high: int := 1, 0, 0;
    for i := 0 to SIZE
      invariant |z| == i && 0 <= previous < v && p == Pow256(i) && low == Bits(x[..i]) && high == Bits(z)
      invariant high + previous * p == low * v
    {
      var current := x[i] * v;
      ShiftedOctet(x[i], v, previous);
      BitsNext(x, i);
      ScaledStep(p, low, x[i], v);
      CarryStep(p, x[i] * v, 0, previous, current % 256 + previous, current / 256);
      z, previous := z + [current % 256 + previous], current / 256;
      assert z[..i + 1] == z && z[..i] == z[..|z| - 1];
      BitsNext(z, i);
      p, low, high := 256 * p, Bits(x[..i + 1]), Bits(z);
    }
    BitsWhole(x);
    B.Limit();
  }

  /** The bits that come in fit where bits went out. */
  lemma ShiftedOctet(x: octet, v: int, previous: int)
    requires v == 64 || v == 32 || v == 4
    requires 0 <= previous < v
    ensures 0 <= x * v % 256 + previous < 256 && 0 <= x * v / 256 < v
  {
    if v == 64 {
      Split(x * v, x / 4, 64 * (x % 4));
    } else if v == 32 {
      Split(x * v, x / 8, 32 * (x % 8));
    } else {
      Split(x * v, x / 64, 4 * (x % 64));
    }
  }

  lemma Split(n: int, high: int, low: int)
    requires n == 256 * high + low && 0 <= low < 256
    ensures n / 256 == high && n % 256 == low
  {
  }

  /** One round of `x100`: 64, 32 and 4 times the number are added. */
  method Hundred(x: Mag) returns (r: Option<Mag>)
    ensures r.None? <==> 100 * Bits(x) >= B.LIMIT
    ensures r.Some? ==> Bits(r.value) == 100 * Bits(x)
  {
    var x64 := ShiftBits(x, 64);
    var x32 := ShiftBits(x, 32);
    var x4 := ShiftBits(x, 4);
    if x64.None? || x32.None? || x4.None? {
      return None;
    }
    var x96, c := AddMagnitudes(x64.value, x32.value);
    BitsWhole(x96);
    if c != 0 {
      return None;
    }
    var x100, c' := AddMagnitudes(x96, x4.value);
    BitsWhole(x100);
    r := if c' != 0 then None else Some(x100);
  }

  // ---------- division ----------

  /**
    `div` on magnitudes: long division, one octet of the dividend at a time, each octet of the
    quotient found by trial.  Nothing that it computes on the way overflows.
   */
  method Divide(x: Mag, y: int) returns (q: int, r: int)
    requires 0 < y < B.LIMIT
    ensures Bits(x) == q * y + r && 0 <= r < y && 0 <= q < B.LIMIT
  {
    BitsWhole(x);
    var index := SIZE - 2;
    var partial: int := x[SIZE - 1];
    q := 0;
    assert x[index + 1..] == [x[SIZE - 1]] && [x[SIZE - 1]][1..] == [];
    while true
      invariant -1 <= index < SIZE - 1 && 0 <= q && 0 <= partial < 256 * y
      invariant Bits(x[index + 1..]) == (q * 256) * y + partial
      decreases index
    {
      Prefix(x, index + 1);
      AtLeastOnce(y, q * 256);
      assert q * 256 <= Bits(x) && partial <= Bits(x);
      if partial < y {
        q := q * 256;
        r := partial;
      } else {
        var digit;
        digit, r := Trial(partial, y);
        Distribute(q * 256, -digit, y);
        Signs(digit, y);
        q := q * 256 + digit;
      }
      if index == -1 {
        break;
      }
      NextOctet(x, index, q, y, r);
      partial := r * 256 + x[index];
      index := index - 1;
    }
    assert x[0..] == x;
    AtLeastOnce(y, q);
  }

  /** The octet of the quotient is found by trying one factor after the other. */
  method Trial(partial: int, y: int) returns (digit: int, r: int)
    requires 0 < y <= partial
    ensures 1 <= digit && partial == digit * y + r && 0 <= r < y
  {
    digit := 1;
    r := partial - y;
    while r >= y
      invariant 1 <= digit && partial == digit * y + r && 0 <= r
      decreases r
    {
      digit := digit + 1;
      Distribute(digit, 1, y);
      r := partial - digit * y;
    }
  }

  lemma Prefix(x: seq<octet>, i: nat)
    requires i <= |x|
    ensures Bits(x[i..]) <= Bits(x)
  {
    assert x == x[..i] + x[i..];
    BitsSum(x[..i], x[i..]);
    AtLeastOnce(Pow256(i), Bits(x[i..]));
  }

  lemma NextOctet(x: Mag, i: nat, q: int, y: int, r: int)
    requires i < SIZE && Bits(x[i + 1..]) == q * y + r
    ensures Bits(x[i..]) == (q * 256) * y + (r * 256 + x[i])
  {
    assert x[i..][1..] == x[i + 1..];
    Regroup(q, 256, y);
    Regroup(q, y, 256);
  }
}
