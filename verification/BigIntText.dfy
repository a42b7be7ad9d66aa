/**
  `BigInt::toString`: the octets are multiplied by the decimal digits of the powers of 256, which stand
  in a table, and added up row by row with a carry.
 */
module BigIntText {
  import opened Prelude
  import opened Octet
  import opened Decimal
  import opened Text
  import opened Magnitude
  import B = BigInt

  // ---------- the table ----------

  /** Digit `j` of `x`, and the number that the digits before it are. */
  function DigitAt(x: nat, j: nat): (d: nat)
    ensures d < 10
  {
    if j == 0 then x % 10 else DigitAt(x / 10, j - 1)
  }

  function LowDigits(x: nat, j: nat): (y: nat) {
    if j == 0 then 0 else x % 10 + 10 * LowDigits(x / 10, j - 1)
  }

  /** Row `j` has at octet `i` the digit `j` of `256^i`. */
  function Entry(j: nat, i: nat): (d: nat)
    ensures d < 10
  {
    DigitAt(Pow256(i), j)
  }

  const ROWS := 80

  /** A row may start at octet `h`, counted from 1: the powers before it have no digit `j`. */
  predicate Starts(h: nat, j: nat) {
    h >= 1 && (h >= 2 ==> Pow256(h - 2) < Pow10(j))
  }

  /**
    The column of the table that says where each row starts: not too late, and the last one behind all
    octets.  (Row 22 starts one octet early, at a zero.)
   */
  ghost predicate Heads(heads: seq<nat>) {
    |heads| == ROWS && heads[ROWS - 1] > SIZE && forall j :: 0 <= j < ROWS ==> Starts(heads[j], j)
  }

  /** The first octet whose power has a digit `j`. */
  function First(j: nat): (h: nat)
    ensures Starts(h, j) && Pow256(h - 1) >= Pow10(j)
  {
    if j == 0 then 1
    else if Pow256(First(j - 1) - 1) >= Pow10(j) then First(j - 1) else First(j - 1) + 1
  }

  lemma FirstBeyond(j: nat, m: nat, k: nat)
    requires Pow256(m) < Pow10(k) && k <= j
    ensures First(j) > m + 1
  {
    Pow10Grows(k, j);
    if First(j) <= m + 1 {
      Pow256Grows(First(j) - 1, m);
    }
  }

  /** So many rows are enough: a table whose rows start as late as they can has such a column. */
  lemma RowsEnough() returns (heads: seq<nat>)
    ensures Heads(heads)
  {
    HighestPower();
    heads := LatestHeads(ROWS, SIZE, 78);
  }

  lemma LatestHeads(rows: nat, m: nat, k: nat) returns (heads: seq<nat>)
    requires Pow256(m) < Pow10(k) && k < rows
    ensures |heads| == rows && heads[rows - 1] > m && forall j :: 0 <= j < rows ==> Starts(heads[j], j)
  {
    FirstBeyond(rows - 1, m, k);
    heads := seq(rows, j requires j >= 0 => First(j));
  }

  lemma HighestPower()
    ensures Pow256(SIZE) < Pow10(78)
  {
    B.Limit();
    Pow10Of77();
    assert Pow10(78) == 10 * Pow10(77);
  }

  // ---------- digits of a power ----------

  /** `x` with `k` zeros behind it. */
  function Shifted(x: int, k: nat): (y: int)
    ensures x == 0 ==> y == 0
  {
    if k == 0 then x else 10 * Shifted(x, k - 1)
  }

  lemma {:induction false} ShiftedIs(x: int, k: nat)
    ensures Shifted(x, k) == x * Pow10(k)
  {
    if k > 0 {
      ShiftedIs(x, k - 1);
      Regroup(x, 10, Pow10(k - 1));
    }
  }

  lemma {:induction false} ShiftedSum(x: int, y: int, k: nat)
    ensures Shifted(x + y, k) == Shifted(x, k) + Shifted(y, k)
  {
    if k > 0 {
      ShiftedSum(x, y, k - 1);
    }
  }

  lemma {:induction false} ShiftedTen(x: int, k: nat)
    ensures Shifted(10 * x, k) == Shifted(x, k + 1)
  {
    if k > 0 {
      ShiftedTen(x, k - 1);
    }
  }

  lemma {:induction false} ShiftedTimes(m: int, x: int, k: nat)
    ensures Shifted(x * m, k) == Shifted(x, k) * m
  {
    if k > 0 {
      ShiftedTimes(m, x, k - 1);
      Regroup(10, Shifted(x, k - 1), m);
    }
  }

  /** A digit stays, and the rest is carried. */
  lemma Carried(x: nat, k: nat)
    ensures Shifted(x, k) == Shifted(x % 10, k) + Shifted(x / 10, k + 1)
  {
    ShiftedSum(x % 10, 10 * (x / 10), k);
    ShiftedTen(x / 10, k);
  }

  lemma {:induction false} NextDigit(x: nat, j: nat)
    ensures LowDigits(x, j + 1) == LowDigits(x, j) + Shifted(DigitAt(x, j), j)
  {
    if j > 0 {
      NextDigit(x / 10, j - 1);
    }
  }

  /** A number below `10^j` has no digit `j`, and is what its digits before it are. */
  lemma {:induction false} AllDigitsLow(x: nat, j: nat)
    requires x < Pow10(j)
    ensures LowDigits(x, j) == x && DigitAt(x, j) == 0
  {
    if j > 0 {
      AllDigitsLow(x / 10, j - 1);
    }
  }

  // ---------- sums over the octets ----------

  /** The first `n` octets times the digits of row `j`. */
  function Row(mag: Mag, n: nat, j: nat): (r: int)
    requires n <= SIZE
  {
    if n == 0 then 0 else Row(mag, n - 1, j) + Entry(j, n - 1) * mag[n - 1]
  }

  /** And times the numbers that the digits before row `j` are. */
  function Part(mag: Mag, n: nat, j: nat): (r: int)
    requires n <= SIZE
  {
    if n == 0 then 0 else Part(mag, n - 1, j) + LowDigits(Pow256(n - 1), j) * mag[n - 1]
  }

  lemma {:induction false} NothingBelow(mag: Mag, n: nat)
    requires n <= SIZE
    ensures Part(mag, n, 0) == 0
  {
    if n > 0 {
      NothingBelow(mag, n - 1);
    }
  }

  lemma {:induction false} RowIsNat(mag: Mag, n: nat, j: nat)
    requires n <= SIZE
    ensures Row(mag, n, j) >= 0
  {
    if n > 0 {
      RowIsNat(mag, n - 1, j);
    }
  }

  /** One more digit of each power. */
  lemma {:induction false} PartStep(mag: Mag, n: nat, j: nat)
    requires n <= SIZE
    ensures Part(mag, n, j + 1) == Part(mag, n, j) + Shifted(Row(mag, n, j), j)
  {
    if n > 0 {
      PartStep(mag, n - 1, j);
      NextDigit(Pow256(n - 1), j);
      OctetStep(mag[n - 1], LowDigits(Pow256(n - 1), j), Entry(j, n - 1), Row(mag, n - 1, j), j);
    }
  }

  lemma OctetStep(m: int, low: int, d: int, row: int, j: nat)
    ensures (low + Shifted(d, j)) * m + Shifted(row, j) == low * m + Shifted(row + d * m, j)
  {
    ShiftedTimes(m, d, j);
    ShiftedSum(row, d * m, j);
  }

  /** Where the powers have no digit yet, nothing is added. */
  lemma {:induction false} RowBefore(mag: Mag, n: nat, j: nat)
    requires n <= SIZE && (n > 0 ==> Pow256(n - 1) < Pow10(j))
    ensures Row(mag, n, j) == 0
  {
    if n > 0 {
      RowBefore(mag, n - 1, j);
      AllDigitsLow(Pow256(n - 1), j);
    }
  }

  /** Beyond the last digit of the highest power the digits are the powers themselves. */
  lemma {:induction false} PartIsAll(mag: Mag, n: nat, j: nat)
    requires n <= SIZE && (n > 0 ==> Pow256(n - 1) < Pow10(j))
    ensures Part(mag, n, j) == Bits(mag[..n])
  {
    if n > 0 {
      PartIsAll(mag, n - 1, j);
      AllDigitsLow(Pow256(n - 1), j);
      BitsNext(mag, n - 1);
    }
  }

  // ---------- digits ----------

  predicate AreDigits(r: seq<int>) {
    forall k :: 0 <= k < |r| ==> 0 <= r[k] < 10
  }

  /** Digits, the lowest first, as a text. */
  function Shown(r: seq<int>): (s: string)
    requires AreDigits(r)
    ensures |s| == |r| && AllDigits(s) && forall i :: 0 <= i < |s| ==> s[i] == DigitChar(r[|r| - 1 - i])
  {
    if r == [] then [] else [DigitChar(r[|r| - 1])] + Shown(r[..|r| - 1])
  }

  lemma Prepended(c: char, s: string)
    requires IsDigit(c) && AllDigits(s)
    ensures AllDigits([c] + s) && ValueOf([c] + s) == DigitOf(c) * Pow10(|s|) + ValueOf(s)
  {
    assert [c][..0] == [];
    assert ValueOf([c]) == DigitOf(c);
    ValueOfSum([c], s);
  }

  lemma ShownMore(r: seq<int>, d: int)
    requires AreDigits(r) && 0 <= d < 10
    ensures AreDigits(r + [d]) && ValueOf(Shown(r + [d])) == Shifted(d, |r|) + ValueOf(Shown(r))
  {
    ShownIs(r, d);
    Prepended(DigitChar(d), Shown(r));
    ShiftedIs(d, |r|);
  }

  lemma ShownIs(r: seq<int>, d: int)
    requires AreDigits(r) && 0 <= d < 10
    ensures AreDigits(r + [d]) && Shown(r + [d]) == [DigitChar(d)] + Shown(r)
  {
    assert (r + [d])[..|r|] == r;
  }

  /** Zeros at the end of the digits, that is, before the number, do not count. */
  lemma {:induction false} ShownZeros(r: seq<int>, m: nat)
    requires AreDigits(r) && m <= |r| && forall k :: m <= k < |r| ==> r[k] == 0
    ensures ValueOf(Shown(r)) == ValueOf(Shown(r[..m]))
  {
    if m < |r| {
      var rest := r[..|r| - 1];
      assert r == rest + [0];
      ShownMore(rest, 0);
      ShownZeros(rest, m);
      assert rest[..m] == r[..m];
    } else {
      assert r[..m] == r;
    }
  }

  /** There is one text without leading zeros for each number. */
  lemma {:induction false} NumeralUnique(s: string)
    requires AllDigits(s) && s != [] && s[0] != '0'
    ensures Numeral(ValueOf(s)) == s
  {
    var rest, n := s[..|s| - 1], ValueOf(s);
    DigitsOfNumeral(s);
    if rest == [] {
      assert s == [s[0]];
    } else {
      DigitsOfNumeral(rest);
      NumeralUnique(rest);
      assert n / 10 == ValueOf(rest) && n % 10 == DigitOf(s[|s| - 1]);
      assert s == rest + [s[|s| - 1]];
    }
  }

  // ---------- the loops ----------

  method Highest(mag: Mag) returns (k: int)
    ensures -1 <= k < SIZE && (k >= 0 ==> mag[k] != 0) && forall i :: k < i < SIZE ==> mag[i] == 0
  {
    k := SIZE - 1;
    while k >= 0
      invariant -1 <= k < SIZE && forall i :: k < i < SIZE ==> mag[i] == 0
    {
      if mag[k] != 0 {
        return;
      }
      k := k - 1;
    }
  }

  /** One row: the carry and the octets times the digits of the row. */
  method AddRow(mag: Mag, n: nat, j: nat, head: nat, carry: nat) returns (ireg: nat)
    requires 1 <= head <= n <= SIZE && Starts(head, j)
    ensures ireg == carry + Row(mag, n, j)
  {
    RowBefore(mag, head - 1, j);
    var sum: int := carry;
    for i := head to n + 1
      invariant sum == carry + Row(mag, i - 1, j)
    {
      sum := sum + Entry(j, i - 1) * mag[i - 1];
    }
    RowIsNat(mag, n, j);
    ireg := sum;
  }

  // ---------- the digits row by row ----------

  /**
    After `j` rows: the digits so far and the carry are the sum over the digits before row `j`; `zeros`
    is how many of the last rows gave nothing at all.
   */
  ghost predicate Rows(mag: Mag, n: nat, r: seq<int>, ireg: nat, zeros: nat)
    requires n <= SIZE
  {
    && AreDigits(r) && Part(mag, n, |r|) == ValueOf(Shown(r)) + Shifted(ireg, |r|)
    && Trailing(r, ireg, zeros)
  }

  ghost predicate Trailing(r: seq<int>, ireg: nat, zeros: nat) {
    && zeros <= |r|
    && (forall k :: |r| - zeros <= k < |r| ==> r[k] == 0)
    && (zeros > 0 ==> ireg == 0 && (zeros < |r| ==> r[|r| - zeros - 1] != 0))
    && (zeros == 0 && r != [] ==> ireg > 0 || r[|r| - 1] != 0)
  }

  lemma NoRow(mag: Mag, n: nat)
    requires n <= SIZE
    ensures Rows(mag, n, [], 0, 0)
  {
    NothingBelow(mag, n);
  }

  lemma NextRow(mag: Mag, n: nat, r: seq<int>, carry: nat, zeros: nat, ireg: nat)
    requires n <= SIZE && Rows(mag, n, r, carry, zeros) && ireg == carry + Row(mag, n, |r|)
    ensures Rows(mag, n, r + [ireg % 10], ireg / 10, if ireg == 0 then zeros + 1 else 0)
  {
    NextSum(mag, n, r, carry, ireg);
    assert ireg >= carry by { RowIsNat(mag, n, |r|); }
    NextTrailing(r, carry, zeros, ireg);
    assert |r + [ireg % 10]| == |r| + 1;
  }

  lemma NextSum(mag: Mag, n: nat, r: seq<int>, carry: nat, ireg: nat)
    requires n <= SIZE && AreDigits(r) && Part(mag, n, |r|) == ValueOf(Shown(r)) + Shifted(carry, |r|)
    requires ireg == carry + Row(mag, n, |r|)
    ensures AreDigits(r + [ireg % 10])
    ensures Part(mag, n, |r| + 1) == ValueOf(Shown(r + [ireg % 10])) + Shifted(ireg / 10, |r| + 1)
  {
    SumStep(mag, n, |r|, ValueOf(Shown(r)), carry, ireg);
    ShownMore(r, ireg % 10);
  }

  lemma SumStep(mag: Mag, n: nat, j: nat, v: int, carry: nat, ireg: nat)
    requires n <= SIZE && Part(mag, n, j) == v + Shifted(carry, j) && ireg == carry + Row(mag, n, j)
    ensures Part(mag, n, j + 1) == v + Shifted(ireg % 10, j) + Shifted(ireg / 10, j + 1)
  {
    PartStep(mag, n, j);
    ShiftedSum(carry, Row(mag, n, j), j);
    Carried(ireg, j);
  }

  lemma NextTrailing(r: seq<int>, carry: nat, zeros: nat, ireg: nat)
    requires Trailing(r, carry, zeros) && ireg >= carry
    ensures Trailing(r + [ireg % 10], ireg / 10, if ireg == 0 then zeros + 1 else 0)
  {
  }

  /** The carry that is left after the last row is written out as well. */
  ghost predicate Writing(total: nat, r: seq<int>, ireg: nat) {
    && AreDigits(r) && total == ValueOf(Shown(r)) + Shifted(ireg, |r|)
    && (ireg == 0 && r != [] ==> r[|r| - 1] != 0)
  }

  lemma NextWritten(total: nat, r: seq<int>, ireg: nat)
    requires Writing(total, r, ireg) && ireg > 0
    ensures Writing(total, r + [ireg % 10], ireg / 10)
  {
    ShownMore(r, ireg % 10);
    Carried(ireg, |r|);
  }

  /** There is room for it. */
  lemma WrittenFits(total: nat, r: seq<int>, ireg: nat)
    requires Writing(total, r, ireg) && ireg > 0 && total < B.LIMIT
    ensures |r| < 78
  {
    ShiftedIs(ireg, |r|);
    AtLeastOnce(ireg, Pow10(|r|));
    if |r| >= 78 {
      Pow10Of77();
      assert Pow10(78) == 10 * Pow10(77);
      Pow10Grows(78, |r|);
    }
  }

  /** Behind the last row the digits and the carry are the number. */
  lemma RowsDone(mag: Mag, n: nat, r: seq<int>, ireg: nat, zeros: nat, h: nat)
    requires 0 < n <= SIZE && (forall i :: n <= i < SIZE ==> mag[i] == 0) && Rows(mag, n, r, ireg, zeros)
    requires n < h && Starts(h, |r|)
    ensures Bits(mag) == ValueOf(Shown(r)) + Shifted(ireg, |r|)
  {
    Pow256Grows(n - 1, h - 2);
    PartIsAll(mag, n, |r|);
    assert mag == mag[..n] + mag[n..];
    AllZero(mag[n..]);
    BitsSum(mag[..n], mag[n..]);
  }

  /** Rows at the end that gave nothing are dropped. */
  lemma Dropped(total: nat, r: seq<int>, ireg: nat, zeros: nat)
    requires AreDigits(r) && Trailing(r, ireg, zeros) && total == ValueOf(Shown(r)) + Shifted(ireg, |r|)
    ensures var m := if ireg == 0 then |r| - zeros else |r|; Writing(total, r[..m], ireg)
  {
    var m := if ireg == 0 then |r| - zeros else |r|;
    ShownZeros(r, m);
    assert ireg > 0 ==> r[..m] == r;
  }

  // ---------- `toString` ----------

  const BUFFER := 101

  method PutRows(mag: Mag, n: nat, heads: seq<nat>, result: array<int>) returns (j: nat, ireg: nat, zeros: nat)
    requires 0 < n <= SIZE && Heads(heads) && result.Length == BUFFER
    modifies result
    ensures j < ROWS && n < heads[j] && Rows(mag, n, result[..j], ireg, zeros)
  {
    j, ireg, zeros := 0, 0, 0;
    NoRow(mag, n);
    while heads[j] <= n
      invariant j < ROWS && Rows(mag, n, result[..j], ireg, zeros)
      decreases ROWS - j
    {
      ireg, zeros := PutRow(mag, n, heads[j], result, j, ireg, zeros);
      j := j + 1;
    }
  }

  method PutRow(mag: Mag, n: nat, head: nat, result: array<int>, j: nat, carry: nat, zeros: nat) returns (ireg: nat, zeros': nat)
    requires 1 <= head <= n <= SIZE && Starts(head, j) && j < result.Length && Rows(mag, n, result[..j], carry, zeros)
    modifies result
    ensures Rows(mag, n, result[..j + 1], ireg, zeros')
  {
    ghost var r := result[..j];
    var sum := AddRow(mag, n, j, head, carry);
    NextRow(mag, n, r, carry, zeros, sum);
    zeros' := if sum == 0 then zeros + 1 else 0;
    result[j] := sum % 10;
    ireg := sum / 10;
    assert result[..j + 1] == r + [sum % 10];
  }

  method PutCarry(result: array<int>, j: nat, carry: nat, ghost total: nat) returns (last: nat)
    requires j <= ROWS && result.Length == BUFFER && Writing(total, result[..j], carry) && total < B.LIMIT
    modifies result
    ensures j <= last <= BUFFER && Writing(total, result[..last], 0)
  {
    last := j;
    var ireg := carry;
    while ireg != 0
      invariant j <= last <= ROWS && Writing(total, result[..last], ireg)
      decreases ireg
    {
      ghost var r := result[..last];
      WrittenFits(total, r, ireg);
      NextWritten(total, r, ireg);
      result[last] := ireg % 10;
      ireg := ireg / 10;
      last := last + 1;
      assert result[..last] == r + [result[last - 1]];
    }
  }

  method Reverse(result: array<int>, last: nat) returns (s: string)
    requires last <= result.Length && AreDigits(result[..last])
    ensures s == Shown(result[..last])
  {
    s := [];
    for i := 0 to last
      invariant |s| == i && forall k :: 0 <= k < i ==> s[k] == Shown(result[..last])[k]
    {
      s := s + [DigitChar(result[..last][last - i - 1])];
    }
  }

  /** The number is written in decimal, without leading zeros, and never beyond the buffer of digits. */
  method ToString(mag: Mag, negative: bool, heads: seq<nat>) returns (s: string)
    requires Heads(heads)
    ensures s == if Bits(mag) == 0 then "0" else (if negative then "-" else "") + Numeral(Bits(mag))
  {
    var k := Highest(mag);
    if k == -1 {
      AllZero(mag);
      return "0";
    }
    var result := new int[BUFFER];
    var j, ireg, zeros := PutRows(mag, k + 1, heads, result);
    RowsDone(mag, k + 1, result[..j], ireg, zeros, heads[j]);
    BitsWhole(mag);
    NotZero(mag, k);
    var digits := Finish(result, j, ireg, zeros, Bits(mag));
    s := (if negative then "-" else "") + digits;
  }

  /** What is left of the carry, and the text. */
  method Finish(result: array<int>, j: nat, ireg: nat, zeros: nat, ghost total: nat) returns (digits: string)
    requires j <= ROWS && result.Length == BUFFER && AreDigits(result[..j]) && Trailing(result[..j], ireg, zeros)
    requires total == ValueOf(Shown(result[..j])) + Shifted(ireg, j) && 0 < total < B.LIMIT
    modifies result
    ensures digits == Numeral(total)
  {
    Dropped(total, result[..j], ireg, zeros);
    var end := if ireg == 0 then j - zeros else j;
    assert result[..end] == result[..j][..end];
    var last := PutCarry(result, end, ireg, total);
    WrittenIs(total, result[..last]);
    digits := Reverse(result, last);
  }

  lemma NotZero(mag: Mag, k: nat)
    requires k < SIZE && mag[k] != 0
    ensures Bits(mag) > 0
  {
    BitsNext(mag, k);
    BitsPrefix(mag, k + 1);
    AtLeastOnce(Pow256(k), mag[k]);
  }

  lemma WrittenIs(total: nat, r: seq<int>)
    requires Writing(total, r, 0) && total > 0
    ensures Shown(r) == Numeral(total)
  {
    assert r != [];
    NumeralUnique(Shown(r));
  }
}
