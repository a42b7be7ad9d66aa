/** The C string functions that the fixed-point code uses, and decimal numerals. */
module Text {
  import opened Decimal

  predicate IsSpace(c: char) {
    c == ' ' || '\t' <= c <= '\r'
  }

  predicate IsDigit(c: char) {
    '0' <= c <= '9'
  }

  predicate AllDigits(s: string) {
    forall i :: 0 <= i < |s| ==> IsDigit(s[i])
  }

  function DropSpaces(s: string): (r: string) {
    if s != [] && IsSpace(s[0]) then DropSpaces(s[1..]) else s
  }

  /** `strchr`: the place of the first `c`, or the length of `s` if there is none. */
  function Find(s: string, c: char): (i: nat)
    ensures i <= |s| && (i < |s| ==> s[i] == c) && forall j :: 0 <= j < i ==> s[j] != c
  {
    if s == [] || s[0] == c then 0 else 1 + Find(s[1..], c)
  }

  lemma FindIs(s: string, c: char, i: nat)
    requires i <= |s| && (i < |s| ==> s[i] == c) && forall j :: 0 <= j < i ==> s[j] != c
    ensures Find(s, c) == i
  {
  }

  /** How many of the first `n` characters are left without the zeros at their end. */
  function TrimmedLength(s: string, n: nat): (m: nat)
    requires n <= |s|
    ensures m <= n && (m > 0 ==> s[m - 1] != '0') && forall i :: m <= i < n ==> s[i] == '0'
  {
    if n > 0 && s[n - 1] == '0' then TrimmedLength(s, n - 1) else n
  }

  function TrimZeros(s: string): (r: string) {
    s[..TrimmedLength(s, |s|)]
  }

  lemma TrimZerosIs(s: string, m: nat)
    requires m <= |s| && (m > 0 ==> s[m - 1] != '0') && forall i :: m <= i < |s| ==> s[i] == '0'
    ensures TrimZeros(s) == s[..m]
  {
    assert TrimmedLength(s, |s|) == m;
  }

  function LeadingZeros(s: string): (n: nat)
    ensures n <= |s|
  {
    if s != [] && s[0] == '0' then 1 + LeadingZeros(s[1..]) else 0
  }

  function Zeros(n: int): (s: string)
    ensures |s| == if n < 0 then 0 else n
    ensures forall i :: 0 <= i < |s| ==> s[i] == '0'
  {
    if n <= 0 then [] else seq(n, _ => '0')
  }

  // ---------- numerals ----------

  function DigitOf(c: char): (d: int)
    requires IsDigit(c)
    ensures 0 <= d < 10
  {
    c as int - '0' as int
  }

  function DigitChar(d: int): (c: char)
    requires 0 <= d < 10
    ensures IsDigit(c) && DigitOf(c) == d
  {
    '0' + d as char
  }

  function ValueOf(s: string): (n: nat)
    requires AllDigits(s)
  {
    if s == [] then 0 else 10 * ValueOf(s[..|s| - 1]) + DigitOf(s[|s| - 1])
  }

  /** The decimal numeral of `n`. */
  function Numeral(n: nat): (s: string)
    ensures AllDigits(s) && |s| == Digits(n) && (n > 0 ==> s[0] != '0')
  {
    if n < 10 then [DigitChar(n)] else Numeral(n / 10) + [DigitChar(n % 10)]
  }

  lemma {:induction false} NumeralValue(n: nat)
    ensures ValueOf(Numeral(n)) == n
  {
    var s := Numeral(n);
    if n < 10 {
      assert s[..|s| - 1] == [];
    } else {
      NumeralValue(n / 10);
      assert s[..|s| - 1] == Numeral(n / 10);
    }
  }

  lemma {:induction false} ValueOfSum(s: string, t: string)
    requires AllDigits(s) && AllDigits(t)
    ensures AllDigits(s + t) && ValueOf(s + t) == At(ValueOf(s), 0, |t|) + ValueOf(t)
  {
    if t == [] {
      assert s + t == s;
    } else {
      var t' := t[..|t| - 1];
      ValueOfSum(s, t');
      assert (s + t)[..|s + t| - 1] == s + t';
      Regroup(ValueOf(s), 10, Pow10(|t'|));
    }
  }

  lemma {:induction false} ValueBound(s: string)
    requires AllDigits(s)
    ensures ValueOf(s) < Pow10(|s|)
  {
    if s != [] {
      ValueBound(s[..|s| - 1]);
    }
  }

  lemma ZerosValue(n: int)
    ensures AllDigits(Zeros(n)) && ValueOf(Zeros(n)) == 0
  {
    NoValue(Zeros(n));
  }

  /** A numeral without leading zeros has as many characters as its value has digits. */
  lemma DigitsOfNumeral(s: string)
    requires AllDigits(s) && s != [] && s[0] != '0'
    ensures Digits(ValueOf(s)) == |s| && ValueOf(s) > 0
  {
    var n := ValueOf(s);
    assert s == s[..1] + s[1..];
    ValueOfSum(s[..1], s[1..]);
    assert s[..1][..0] == [];
    assert ValueOf(s[..1]) == DigitOf(s[0]) >= 1;
    AtLeastOnce(DigitOf(s[0]), Pow10(|s| - 1));
    ValueBound(s);
    DigitsAtMost(n, |s|);
    if |s| > 1 {
      DigitsAtMost(n, |s| - 1);
    }
  }

  // ---------- zeros at the ends ----------

  /** Cutting zeros at the end divides the value by a power of ten. */
  lemma TrimValue(s: string)
    requires AllDigits(s)
    ensures AllDigits(TrimZeros(s)) && ValueOf(s) == At(ValueOf(TrimZeros(s)), |TrimZeros(s)|, |s|)
  {
    var m := TrimmedLength(s, |s|);
    assert s == s[..m] + s[m..];
    ValueOfSum(s[..m], s[m..]);
    NoValue(s[m..]);
  }

  lemma {:induction false} NoValue(s: string)
    requires forall i :: 0 <= i < |s| ==> s[i] == '0'
    ensures AllDigits(s) && ValueOf(s) == 0
  {
    if s != [] {
      NoValue(s[..|s| - 1]);
    }
  }

  lemma {:induction false} LeadingZerosValue(s: string)
    requires AllDigits(s)
    ensures AllDigits(s[LeadingZeros(s)..]) && ValueOf(s) == ValueOf(s[LeadingZeros(s)..])
    ensures LeadingZeros(s) < |s| ==> s[LeadingZeros(s)] != '0'
  {
    if s != [] && s[0] == '0' {
      LeadingZerosValue(s[1..]);
      assert s == ['0'] + s[1..];
      ValueOfSum(['0'], s[1..]);
      assert ['0'][..0] == [];
      assert ValueOf(['0']) == 0;
      assert s[1..][LeadingZeros(s[1..])..] == s[LeadingZeros(s)..];
    } else {
      assert s[0..] == s;
    }
  }
}
