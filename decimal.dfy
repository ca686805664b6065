/**
 * Decimal text of integers, as Ruby's Integer#to_s produces it: an optional
 * leading '-', then the digits of the magnitude with no leading zero ("0" for
 * zero). `Array#join` applies it to the numbers that `process` pushes.
 *
 * The partner of `IntToString` is `ParseInt`, which reads back exactly the
 * canonical decimal strings; the two are proved to be inverse bijections.
 */
module Decimal {
  import opened Wrappers

  predicate IsDigit(c: char) {
    '0' <= c <= '9'
  }

  predicate IsDigits(s: string) {
    forall k :: 0 <= k < |s| ==> IsDigit(s[k])
  }

  /** A non-empty digit string with no leading zero (the only string starting with '0' is "0"). */
  predicate CanonicalNat(s: string) {
    |s| >= 1 && IsDigits(s) && (s[0] == '0' ==> |s| == 1)
  }

  /** The canonical text of an integer: a canonical magnitude, with '-' in front when it is not zero. */
  predicate CanonicalInt(s: string) {
    CanonicalNat(s) || (|s| >= 2 && s[0] == '-' && CanonicalNat(s[1..]) && s[1] != '0')
  }

  function DigitChar(d: nat): (c: char)
    requires d < 10
    ensures IsDigit(c) && c as int - '0' as int == d
  {
    ('0' as int + d) as char
  }

  function DigitValue(c: char): (d: nat)
    requires IsDigit(c)
    ensures d < 10 && DigitChar(d) == c
  {
    c as int - '0' as int
  }

  /** The number a digit string denotes, read most significant digit first. */
  function DigitsValue(s: string): nat
    requires IsDigits(s)
  {
    if s == [] then 0 else 10 * DigitsValue(s[..|s| - 1]) + DigitValue(s[|s| - 1])
  }

  /** The decimal digits of a natural number. */
  function NatToString(n: nat): (s: string)
    ensures CanonicalNat(s) && DigitsValue(s) == n
  {
    if n < 10 then [DigitChar(n)]
    else
      var p := NatToString(n / 10);
      var s := p + [DigitChar(n % 10)];
      assert s[..|s| - 1] == p;
      s
  }

  /** Ruby's Integer#to_s for any integer, negative ones included. */
  function IntToString(i: int): (s: string)
    ensures CanonicalInt(s)
    ensures |s| >= 1 && (s[0] == '-' <==> i < 0)
    ensures forall k :: 0 < k < |s| ==> IsDigit(s[k])
  {
    if i < 0 then
      var m := NatToString(-i);
      var s := "-" + m;
      assert s[1..] == m;
      s
    else NatToString(i)
  }

  /** Reads back a canonical decimal string; anything else is rejected. */
  function ParseInt(s: string): (r: Option<int>)
    ensures r.Some? <==> CanonicalInt(s)
  {
    if CanonicalNat(s) then Some(DigitsValue(s))
    else if |s| >= 2 && s[0] == '-' && CanonicalNat(s[1..]) && s[1] != '0' then Some(0 - DigitsValue(s[1..]) as int)
    else None
  }

  /** The decimal text of an integer reads back as that integer. */
  lemma ParseIntToString(i: int)
    ensures ParseInt(IntToString(i)) == Some(i)
  {
    var s := IntToString(i);
    if i < 0 {
      assert s[0] == '-';
      assert !CanonicalNat(s);
      assert s[1..] == NatToString(-i);
    }
  }

  /** Distinct integers have distinct decimal texts. */
  lemma IntToStringInjective(i: int, j: int)
    requires IntToString(i) == IntToString(j)
    ensures i == j
  {
    ParseIntToString(i);
    ParseIntToString(j);
  }

  lemma {:induction false} NonZeroLeadingDigit(s: string)
    requires |s| >= 1 && IsDigits(s) && s[0] != '0'
    ensures DigitsValue(s) >= 1
  {
    if |s| > 1 {
      NonZeroLeadingDigit(s[..|s| - 1]);
    }
  }

  /** Every canonical digit string is the text of the number it denotes. */
  lemma {:induction false} NatToStringOfValue(s: string)
    requires CanonicalNat(s)
    ensures NatToString(DigitsValue(s)) == s
  {
    if |s| > 1 {
      var p := s[..|s| - 1];
      var d := DigitValue(s[|s| - 1]);
      var n := DigitsValue(s);
      assert p[0] == s[0];
      NonZeroLeadingDigit(p);
      NatToStringOfValue(p);
      assert n == 10 * DigitsValue(p) + d;
      assert n / 10 == DigitsValue(p) && n % 10 == d;
      assert s == p + [s[|s| - 1]];
    } else {
      assert DigitsValue(s) == DigitValue(s[0]) by {
        assert s[..0] == [];
      }
    }
  }

  /** Every canonical decimal string is the text of the integer it denotes. */
  lemma IntToStringOfParse(s: string)
    requires CanonicalInt(s)
    ensures ParseInt(s).Some? && IntToString(ParseInt(s).value) == s
  {
    if CanonicalNat(s) {
      NatToStringOfValue(s);
    } else {
      var m := s[1..];
      NatToStringOfValue(m);
      NonZeroLeadingDigit(m);
      assert s == "-" + m;
    }
  }
}
