/** Texts that the parser of fixed-point numbers refuses. */
module FixedRefused {
  import opened Prelude
  import opened Text
  import opened BigInt
  import opened FixedText
  import opened FixedForms

  /** A plus sign before a minus sign. */
  lemma TwoSigns(spaces: string, rest: string)
    requires forall i :: 0 <= i < |spaces| ==> IsSpace(spaces[i])
    ensures Extracted(spaces + ("+-" + rest)) == None
  {
    SpacesDropped(spaces, "+-" + rest);
    assert ("+-" + rest)[1..] == "-" + rest;
  }

  /** A `d` that is not the last character, whatever else the text is. */
  lemma StrayD(s: string, i: nat)
    requires i + 1 < |s| && s[i] == 'd'
    ensures ExtractedUnsigned(s) == None
  {
    assert Find(s, 'd') <= i;
  }

  /** A `D` that is not the last character, in a text without a `d`. */
  lemma StrayCapitalD(s: string, i: nat)
    requires i + 1 < |s| && s[i] == 'D' && 'd' !in s
    ensures ExtractedUnsigned(s) == None
  {
    assert Find(s, 'd') == |s| && Find(s, 'D') <= i;
  }

  /** An exponent without a number before it. */
  lemma ExponentAlone(rest: string)
    ensures ExtractedUnsigned("e" + rest) == None && ('e' !in rest ==> ExtractedUnsigned("E" + rest) == None)
  {
    assert Find("e" + rest, 'e') == 0;
    assert Find("E" + rest, 'E') == 0;
    if 'e' !in rest {
      FindIs("E" + rest, 'e', |"E" + rest|);
    }
  }

  /** A minus sign right behind the point. */
  lemma MinusBehindPoint(i: string, rest: string)
    requires '.' !in i
    ensures Significand(i + ".-" + rest) == None
  {
    assert i + ".-" + rest == i + "." + ("-" + rest);
    SignificandParts(i, "-" + rest);
  }

  /** A character that is no digit, in a number without a point; a minus sign may only be the first. */
  lemma NoDigit(s: string, i: nat)
    requires '.' !in s && i < |s| && !IsDigit(s[i]) && (i > 0 || s[0] != '-')
    ensures Significand(s) == None
  {
    FindIs(s, '.', |s|);
    assert s[..|s|] == s;
    NotANumber(s, i);
  }

  lemma NotANumber(s: string, i: nat)
    requires i < |s| && !IsDigit(s[i]) && (i > 0 || s[0] != '-')
    ensures ReadInteger(s) == None
  {
    if '-' in s {
      var j :| 0 <= j < |s| && s[j] == '-';
      var k := if i > 0 then i else j;
      assert s[1..][k - 1] == s[k];
    }
  }
}
