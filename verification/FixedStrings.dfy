/** The loops and buffers behind `FixedText`: they compute what its functions say. */
module FixedStrings {
  import opened Prelude
  import opened Decimal
  import opened BigInt
  import opened Fixed
  import opened Text
  import opened FixedText

  // ---------- reading ----------

  method SkipSpaces(str: string) returns (s: string)
    ensures s == DropSpaces(str)
  {
    var i := 0;
    while i < |str| && IsSpace(str[i])
      invariant i <= |str| && DropSpaces(str[i..]) == DropSpaces(str)
    {
      i := i + 1;
    }
    s := str[i..];
  }

  method CutZeros(f: string) returns (s: string)
    ensures s == TrimZeros(f)
  {
    var k: nat := |f|;
    while k > 0 && f[k - 1] == '0'
      invariant k <= |f| && TrimmedLength(f, k) == TrimmedLength(f, |f|)
    {
      k := k - 1;
    }
    s := f[..k];
  }

  method CountZeros(f: string) returns (n: nat)
    ensures n == LeadingZeros(f)
  {
    n := 0;
    while n < |f| && f[n] == '0'
      invariant n <= |f| && LeadingZeros(f) == n + LeadingZeros(f[n..])
    {
      n := n + 1;
    }
  }

  lemma PairValue(s: string, k: nat)
    requires k + 2 <= |s| && AllDigits(s[k..])
    ensures AllDigits(s[k + 2..])
    ensures ValueOf(s[k..]) == (10 * DigitOf(s[k]) + DigitOf(s[k + 1])) * Pow10(|s| - k - 2) + ValueOf(s[k + 2..])
  {
    var pair := [s[k], s[k + 1]];
    assert s[k..] == pair + s[k + 2..];
    ValueOfSum(pair, s[k + 2..]);
    assert pair[..1] == [s[k]] && [s[k]][..0] == [];
    assert ValueOf([s[k]]) == DigitOf(s[k]);
    assert ValueOf(pair) == 10 * DigitOf(s[k]) + DigitOf(s[k + 1]);
  }

  lemma ValueOfSuffix(s: string, k: nat)
    requires k <= |s| && AllDigits(s)
    ensures ValueOf(s[k..]) <= ValueOf(s)
  {
    assert s == s[..k] + s[k..];
    ValueOfSum(s[..k], s[k..]);
    SignAt(ValueOf(s[..k]), 0, |s| - k);
  }

  lemma PaddedValue(s: string)
    ensures AllDigits("0" + s) <==> AllDigits(s)
    ensures AllDigits(s) ==> ValueOf("0" + s) == ValueOf(s)
  {
    if AllDigits("0" + s) {
      forall i | 0 <= i < |s|
        ensures IsDigit(s[i])
      {
        assert s[i] == ("0" + s)[i + 1];
      }
    }
    if AllDigits(s) {
      assert "0"[..0] == [];
      ValueOfSum("0", s);
    }
  }

  lemma AddHundreds(value: int, exponent: nat, total: nat, sum: int)
    requires 0 <= value < 100 && exponent % 2 == 0 && total < LIMIT && sum == value * Pow10(exponent) + total
    ensures var aux := Hundredfold(value, exponent / 2);
            if aux.None? then sum >= LIMIT else BigInt.Plus(total, aux.value) == Fit(sum)
  {
    HundredfoldIs(value, exponent / 2);
    assert 2 * (exponent / 2) == exponent;
    SignAt(value, 0, exponent);
  }

  lemma PairAdded(s: string, k: nat, total: nat)
    requires k + 2 <= |s| && |s| % 2 == 0 && k % 2 == 0 && IsDigit(s[k]) && IsDigit(s[k + 1])
    requires AllDigits(s[k + 2..]) && total == ValueOf(s[k + 2..]) < LIMIT
    ensures AllDigits(s[k..])
    ensures var aux := Hundredfold(DigitOf(s[k]) * 10 + DigitOf(s[k + 1]), (|s| - (k + 2)) / 2);
            if aux.None? then ValueOf(s[k..]) >= LIMIT else BigInt.Plus(total, aux.value) == Fit(ValueOf(s[k..]))
  {
    assert AllDigits(s[k..]);
    PairValue(s, k);
    AddHundreds(DigitOf(s[k]) * 10 + DigitOf(s[k + 1]), |s| - (k + 2), total, ValueOf(s[k..]));
  }

  /** One pair of digits, times its power of one hundred, is added to the total; `None` is an exception. */
  method AddPair(s: string, k: nat, total: nat) returns (r: Option<int>)
    requires k + 2 <= |s| && |s| % 2 == 0 && k % 2 == 0
    requires AllDigits(s[k + 2..]) && total == ValueOf(s[k + 2..]) < LIMIT
    ensures r.Some? ==> AllDigits(s[k..]) && r.value == ValueOf(s[k..]) < LIMIT
    ensures r.None? ==> !(AllDigits(s) && ValueOf(s) < LIMIT)
  {
    if !IsDigit(s[k + 1]) || !IsDigit(s[k]) {
      assert !AllDigits(s);
      return None;
    }
    PairAdded(s, k, total);
    if AllDigits(s) {
      ValueOfSuffix(s, k);
    }
    var value := DigitOf(s[k]) * 10 + DigitOf(s[k + 1]);
    var exponent := |s| - (k + 2);
    var aux := Hundredfold(value, exponent / 2);
    if aux.None? {
      return None;
    }
    r := BigInt.Plus(total, aux.value);
  }

  /** The constructor of `BigInt` from a text: two digits at a time, from the end. */
  method BigIntFromText(s: string) returns (r: Option<Integer>)
    ensures r == ReadInteger(s)
  {
    var negative := '-' in s;
    var total := ReadDigits(if negative then s[1..] else s);
    if total.None? {
      return None;
    }
    var n := total.value;
    if negative {
      r := Some(Integer(-n, if n == 0 then 0 else Digits(n)));
    } else {
      r := Some(Integer(n, Digits(n)));
    }
  }

  method ReadDigits(digits: string) returns (r: Option<int>)
    ensures r == if AllDigits(digits) && ValueOf(digits) < LIMIT then Some(ValueOf(digits)) else None
  {
    var number := digits;
    if |number| % 2 == 1 {
      number := "0" + number;
      PaddedValue(digits);
    }
    var rev, total := |number|, 0;
    while rev >= 2
      invariant 0 <= rev <= |number| && rev % 2 == 0
      invariant AllDigits(number[rev..]) && total == ValueOf(number[rev..]) < LIMIT
    {
      var sum := AddPair(number, rev - 2, total);
      if sum.None? {
        return None;
      }
      total := sum.value;
      rev := rev - 2;
    }
    assert number[0..] == number;
    r := Some(total);
  }

  method JoinParts(i: string, fraction: int, scale: nat) returns (r: Option<int>)
    requires i != []
    ensures r == Joined(i, fraction, scale)
  {
    var negative := i[0] == '-';
    var n := BigIntFromText(if negative then i[1..] else i);
    if n.None? {
      return None;
    }
    var w := TimesTenToThe(n.value.value, scale);
    if w.None? {
      return None;
    }
    if negative {
      var v := BigInt.Plus(w.value, fraction);
      return if v.None? then None else Some(-v.value);
    }
    r := if w.value < 0 then BigInt.Minus(w.value, fraction) else BigInt.Plus(w.value, fraction);
  }

  method ExtractSignificand(s: string) returns (r: Option<Fixed>)
    ensures r == Significand(s)
  {
    var p := Find(s, '.');
    if p >= |s| - 1 {
      var n := BigIntFromText(s[..p]);
      return if n.None? then None else Some(Fixed(n.value.value, 0, n.value.digits));
    }
    r := ExtractFraction(s[..p], s[p + 1..]);
  }

  method ExtractFraction(i: string, digits: string) returns (r: Option<Fixed>)
    requires digits != []
    ensures r == WithFraction(i, digits)
  {
    if digits[0] == '-' {
      return None;
    }
    var f := CutZeros(digits);
    var zeros := CountZeros(f);
    var fraction := BigIntFromText(f);
    if fraction.None? {
      return None;
    }
    r := ExtractParts(i, fraction.value, fraction.value.digits + zeros);
  }

  method ExtractParts(i: string, fraction: Integer, scale: nat) returns (r: Option<Fixed>)
    ensures r == WithParts(i, fraction, scale)
  {
    if |i| == 0 {
      r := Some(Fixed(fraction.value, scale, scale));
    } else if |i| == 1 && i[0] == '-' {
      assert i == "-";
      r := Some(Fixed(-fraction.value, scale, scale));
    } else {
      var v := JoinParts(i, fraction.value, scale);
      r := if v.None? then None else Some(Fixed(v.value, scale, Digits(v.value)));
    }
  }

  /** `extractFromString`. */
  method ExtractFromString(str: string) returns (r: Option<Fixed>)
    ensures r == Extracted(str)
  {
    var s := SkipSpaces(str);
    if s != [] && s[0] == '+' {
      s := s[1..];
      if s != [] && s[0] == '-' {
        return None;
      }
    }
    r := ExtractUnsigned(s);
  }

  method ExtractUnsigned(s: string) returns (r: Option<Fixed>)
    ensures r == ExtractedUnsigned(s)
  {
    var parts := Unwrap(s);
    if parts.None? {
      return None;
    }
    r := ApplyExponent(parts.value.0, parts.value.1);
  }

  method ApplyExponent(s: string, exponent: int) returns (r: Option<Fixed>)
    ensures r == WithExponent(s, exponent)
  {
    var n := ExtractSignificand(s);
    if n.None? || exponent > 31 || n.value.digits > 32 {
      return None;
    }
    var scale := n.value.scale - exponent;
    if scale < 0 {
      var v := TimesTenToThe(n.value.val, -scale);
      if v.None? {
        return None;
      }
      return Some(Fixed(v.value, 0, if n.value.val == 0 then n.value.digits else Digits(n.value.val)));
    }
    r := Some(Fixed(n.value.val, scale, n.value.digits));
  }

  // ---------- printing ----------

  /** How many characters `to_string` puts into its buffer before it cuts zeros away. */
  function WrittenLength(f: Fixed): (n: nat) {
    (if f.val < 0 then 1 else 0) + BodyLength(Digits(Abs(f.val)), f.scale, f.digits)
  }

  function BodyLength(n: nat, scale: int, digits: int): (l: nat) {
    if scale >= n then 2 + |Zeros(scale - digits)| + n else if scale > 0 then n + 1 else n - scale
  }

  const BUFFER := 100

  /** The buffer is long enough for every number of at most 31 digits and a scale between -31 and 31. */
  lemma BufferIsEnough(f: Fixed)
    requires Normalised(f) && -31 <= f.scale <= 31
    ensures WrittenLength(f) <= 63 < BUFFER
  {
    DigitsOfOpposite(f.val);
  }

  method PutZeros(buffer: array<char>, index: nat, n: int) returns (index': nat)
    requires index + |Zeros(n)| < buffer.Length
    modifies buffer
    ensures index' == index + |Zeros(n)| && buffer[..index'] == old(buffer[..index]) + Zeros(n)
  {
    index' := index;
    var i := 0;
    while i < n
      invariant 0 <= i <= |Zeros(n)| && index' == index + |Zeros(i)|
      invariant buffer[..index'] == old(buffer[..index]) + Zeros(i)
    {
      buffer[index'] := '0';
      index' := index' + 1;
      i := i + 1;
    }
    assert n <= 0 ==> Zeros(n) == Zeros(0);
  }

  method Put(buffer: array<char>, index: nat, c: char) returns (index': nat)
    requires index < buffer.Length
    modifies buffer
    ensures index' == index + 1 && buffer[..index'] == old(buffer[..index]) + [c]
  {
    buffer[index] := c;
    index' := index + 1;
  }

  /** The first `i` digits, with a point after the first `p` of them if more than those are there. */
  function Pointed(d: string, p: int, i: nat): (s: string)
    requires i <= |d|
  {
    if 0 < p < i then d[..p] + "." + d[p..i] else d[..i]
  }

  lemma PointedStep(d: string, p: int, i: nat)
    requires i < |d|
    ensures Pointed(d, p, i + 1) == Pointed(d, p, i) + Digit(d, p, i)
  {
  }

  lemma {:induction false} PointedGrows(d: string, p: int, i: nat)
    requires i <= |d|
    ensures |Pointed(d, p, i)| <= |Pointed(d, p, |d|)|
  {
  }

  /** The loop over the digits: a zero is printed too, since a digit other than zero came before it. */
  method PutDigits(buffer: array<char>, index: nat, d: string, scale: int, dot: bool) returns (index': nat, dot': bool)
    requires d != [] && d[0] != '0' && (!dot ==> scale < |d|)
    requires var p := if dot then 0 else |d| - scale; index + |Pointed(d, p, |d|)| < buffer.Length
    modifies buffer
    ensures var p := if dot then 0 else |d| - scale;
            && index' == index + |Pointed(d, p, |d|)|
            && buffer[..index'] == old(buffer[..index]) + Pointed(d, p, |d|)
    ensures dot' == (dot || 0 < scale)
  {
    index', dot' := index, dot;
    var important := false;
    ghost var p := if dot then 0 else |d| - scale;
    for i := 0 to |d|
      invariant dot' == (dot || 0 < p < i) && (i > 0 ==> important)
      invariant index' == index + |Pointed(d, p, i)| && index' <= buffer.Length
      invariant buffer[..index'] == old(buffer[..index]) + Pointed(d, p, i)
    {
      PointedGrows(d, p, i + 1);
      if d[i] != '0' {
        important := true;
      }
      index', dot' := PutDigit(buffer, index', d, p, i, dot', important, i == |d| - scale);
      assert old(buffer[..index]) + Pointed(d, p, i) + Digit(d, p, i) == old(buffer[..index]) + Pointed(d, p, i + 1) by {
        PointedStep(d, p, i);
      }
    }
  }

  /** What digit `i` adds to the text. */
  function Digit(d: string, p: int, i: nat): (s: string)
    requires i < |d|
  {
    (if 0 < p == i then "." else "") + [d[i]]
  }

  method PutDigit(buffer: array<char>, index: nat, d: string, ghost p: int, i: nat, dot: bool, important: bool, here: bool)
    returns (index': nat, dot': bool)
    requires i < |d| && index + |Digit(d, p, i)| <= buffer.Length && (important || i == 0 || dot) && (here && !dot <==> 0 < p == i)
    modifies buffer
    ensures index' == index + |Digit(d, p, i)| && buffer[..index'] == old(buffer[..index]) + Digit(d, p, i)
    ensures dot' == (dot || 0 < p == i)
  {
    index', dot' := index, dot;
    if here && !dot' {
      index' := Put(buffer, index', '.');
      dot' := true;
    }
    if important || i == 0 || dot' {
      index' := Put(buffer, index', d[i]);
    }
  }

  /** `strlen`-bounded contents: what stands before the first NUL. */
  function CString(b: seq<char>): (s: string) {
    b[..Find(b, '\0')]
  }

  method ZerosToNul(buffer: array<char>, index: nat, ghost all: string) returns (k: nat)
    requires index < buffer.Length && buffer[..index] == all
    modifies buffer
    ensures k <= index && buffer[..k] == TrimZeros(all)
    ensures forall j :: k <= j < index ==> buffer[j] == '\0'
  {
    k := index;
    while k > 0 && buffer[k - 1] == '0'
      invariant k <= index && TrimmedLength(all, k) == TrimmedLength(all, |all|) && buffer[..k] == all[..k]
      invariant forall j :: k <= j < index ==> buffer[j] == '\0'
    {
      assert buffer[..k][k - 1] == all[k - 1];
      buffer[k - 1] := '\0';
      k := k - 1;
      assert buffer[..k] == all[..k + 1][..k];
    }
    assert k > 0 ==> buffer[..k][k - 1] == all[k - 1];
  }

  /** The zeros at the end become NULs, but one stays behind a point. */
  method CutInPlace(buffer: array<char>, index: nat, ghost i: string, ghost f: string)
    requires index < buffer.Length && buffer[..index] == i + "." + f && AllDigits(f) && f != []
    requires '\0' !in i
    modifies buffer
    ensures CString(buffer[..]) == i + "." + Fraction(f) && buffer[index] == '\0'
  {
    TrimAfterPoint(i, f);
    ghost var t := TrimZeros(f);
    var k := ZerosToNul(buffer, index, i + "." + f);
    assert buffer[..k] == i + "." + t;
    assert t != [] ==> buffer[k - 1] == t[|t| - 1];
    if k > 0 && buffer[k - 1] == '.' {
      assert t == [] && k < index;
      buffer[k] := '0';
      assert buffer[..k + 1] == i + "." + "0";
    }
    buffer[index] := '\0';
    UpToNul(buffer[..], i + "." + Fraction(f));
  }

  lemma UpToNul(b: seq<char>, s: string)
    requires |s| < |b| && b[..|s|] == s && '\0' !in s && b[|s|] == '\0'
    ensures CString(b) == s
  {
    FindIs(b, '\0', |s|);
  }

  lemma TrimAfterPoint(i: string, f: string)
    ensures TrimZeros(i + "." + f) == i + "." + TrimZeros(f)
  {
    var all, m := i + "." + f, |i| + 1 + TrimmedLength(f, |f|);
    TrimZerosIs(all, m);
    assert all[..m] == i + "." + TrimZeros(f);
  }

  /** `to_string`, within its buffer. */
  method ToString(f: Fixed) returns (s: string)
    requires f.val != 0 ==> WrittenLength(f) < BUFFER
    ensures s == Printed(f)
  {
    if f.val == 0 {
      return "0";
    }
    var end;
    s, end := PrintIn(f, BUFFER);
  }

  /**
    The same in a buffer of any size that is long enough: its terminator is written at `WrittenLength`,
    so the buffer of 100 characters is overrun exactly by the numbers whose `WrittenLength` is 100 or more.
   */
  method PrintIn(f: Fixed, size: nat) returns (s: string, end: nat)
    requires f.val != 0 && WrittenLength(f) < size
    ensures s == Printed(f) && end == WrittenLength(f)
  {
    var buffer := new char[size];
    var index := 0;
    if f.val < 0 {
      index := Put(buffer, index, '-');
    }
    end := PutBody(buffer, index, Numeral(Abs(f.val)), f, if f.val < 0 then "-" else "");
    s := CString(buffer[..]);
  }

  /** 10^99 is printed past the end of the buffer; so is every number with a scale of -99 or less, or of 98 or more. */
  lemma BufferIsOverrun(f: Fixed)
    requires f.val != 0 && f.digits == Digits(Abs(f.val)) && (f.scale <= -99 || f.scale >= 98)
    ensures WrittenLength(f) >= BUFFER
    ensures WrittenLength(Fixed(1, -99, 1)) == BUFFER
  {
  }

  method PutBody(buffer: array<char>, index: nat, d: string, f: Fixed, ghost sign: string) returns (end: nat)
    requires d != [] && d[0] != '0' && AllDigits(d) && index + BodyLength(|d|, f.scale, f.digits) < buffer.Length
    requires buffer[..index] == sign && '\0' !in sign
    modifies buffer
    ensures CString(buffer[..]) == sign + Body(d, f.scale, f.digits)
    ensures end == index + BodyLength(|d|, f.scale, f.digits) && buffer[end] == '\0'
  {
    ghost var body := Body(d, f.scale, f.digits);
    if f.scale >= |d| {
      assert body == "0" + "." + Fraction(Zeros(f.scale - f.digits) + d);
      end := PutSmall(buffer, index, d, f, sign);
    } else if f.scale > 0 {
      assert body == d[..|d| - f.scale] + "." + Fraction(d[|d| - f.scale..]);
      end := PutWithPoint(buffer, index, d, f.scale, sign);
    } else {
      assert body == d + Zeros(-f.scale);
      end := PutInteger(buffer, index, d, f.scale, sign);
    }
  }

  /** A number below one: `0.`, zeros and the digits. */
  method PutSmall(buffer: array<char>, index: nat, d: string, f: Fixed, ghost sign: string) returns (end: nat)
    requires f.scale >= |d| && d != [] && d[0] != '0' && AllDigits(d)
    requires index + 2 + |Zeros(f.scale - f.digits)| + |d| < buffer.Length && buffer[..index] == sign && '\0' !in sign
    modifies buffer
    ensures CString(buffer[..]) == sign + ("0" + "." + Fraction(Zeros(f.scale - f.digits) + d))
    ensures end == index + 2 + |Zeros(f.scale - f.digits)| + |d| && buffer[end] == '\0'
  {
    var i := Put(buffer, index, '0');
    i := Put(buffer, i, '.');
    i := PutZeros(buffer, i, f.scale - f.digits);
    var dot;
    i, dot := PutDigits(buffer, i, d, f.scale, true);
    ghost var z := Zeros(f.scale - f.digits);
    PutTogether(sign, z, d);
    CutInPlace(buffer, i, sign + "0", z + d);
    Regrouped(sign, "0", Fraction(z + d));
    end := i;
  }

  lemma PutTogether(sign: string, z: string, d: string)
    ensures sign + ['0'] + ['.'] + z + Pointed(d, 0, |d|) == (sign + "0") + "." + (z + d)
  {
  }

  lemma Regrouped(sign: string, i: string, f: string)
    ensures (sign + i) + "." + f == sign + (i + "." + f)
  {
  }

  lemma PointBetween(sign: string, d: string, p: nat)
    requires 0 < p < |d|
    ensures sign + Pointed(d, p, |d|) == (sign + d[..p]) + "." + d[p..]
  {
    assert d[p..|d|] == d[p..];
  }

  method PutWithPoint(buffer: array<char>, index: nat, d: string, scale: int, ghost sign: string) returns (end: nat)
    requires 0 < scale < |d| && d[0] != '0' && AllDigits(d)
    requires index + |d| + 1 < buffer.Length && buffer[..index] == sign && '\0' !in sign
    modifies buffer
    ensures CString(buffer[..]) == sign + (d[..|d| - scale] + "." + Fraction(d[|d| - scale..]))
    ensures end == index + |d| + 1 && buffer[end] == '\0'
  {
    var p := |d| - scale;
    var i, dot := PutDigits(buffer, index, d, scale, false);
    PointBetween(sign, d, p);
    CutInPlace(buffer, i, sign + d[..p], d[p..]);
    Regrouped(sign, d[..p], Fraction(d[p..]));
    end := i;
  }

  method PutInteger(buffer: array<char>, index: nat, d: string, scale: int, ghost sign: string) returns (end: nat)
    requires scale <= 0 && d != [] && d[0] != '0' && AllDigits(d)
    requires index + |d| - scale < buffer.Length && buffer[..index] == sign && '\0' !in sign
    modifies buffer
    ensures CString(buffer[..]) == sign + (d + Zeros(-scale))
    ensures end == index + |d| - scale && buffer[end] == '\0'
  {
    var i, dot := PutDigits(buffer, index, d, scale, false);
    i := PutZeros(buffer, i, -scale);
    buffer[i] := '\0';
    UpToNul(buffer[..], sign + (d + Zeros(-scale)));
    end := i;
  }
}
