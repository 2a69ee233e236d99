/** Decimal text of an integer, as StringBuilder.Append(int) writes it: an
    optional '-' followed by the digits, most significant first. */
module Decimal {
  /** The character of decimal digit `d` */
  function Digit(d: nat): (c: char)
    requires d < 10
    ensures '0' <= c <= '9' && c as int - '0' as int == d
  {
    ('0' as int + d) as char
  }

  /** Every character is a decimal digit. */
  predicate AllDigits(s: string)
  {
    forall i :: 0 <= i < |s| ==> '0' <= s[i] <= '9'
  }

  /** One or more digits with no leading zero: "0" itself, or a nonzero
      digit first. */
  predicate CanonicalDigits(s: string)
  {
    |s| >= 1 && AllDigits(s) && (|s| > 1 ==> s[0] != '0')
  }

  /** The text of an integer in canonical form: an optional '-', then canonical
      digits, and never "-0". */
  predicate CanonicalDecimal(s: string)
  {
    if |s| > 0 && s[0] == '-' then CanonicalDigits(s[1..]) && s[1..] != "0"
    else CanonicalDigits(s)
  }

  function NatToDecimal(n: nat): (s: string)
    ensures CanonicalDigits(s)
    ensures n > 0 ==> s[0] != '0'
    decreases n
  {
    if n < 10 then [Digit(n)] else NatToDecimal(n / 10) + [Digit(n % 10)]
  }

  function IntToDecimal(n: int): (s: string)
    ensures |s| >= 1
    ensures CanonicalDecimal(s)
    ensures s[0] == '-' <==> n < 0
  {
    if n < 0 then
      var d := NatToDecimal(-n);
      assert ("-" + d)[1..] == d;
      "-" + d
    else NatToDecimal(n)
  }

  /** The value of a string of decimal digits, read most significant first */
  function DigitsValue(s: string): int
  {
    if s == [] then 0 else DigitsValue(s[..|s| - 1]) * 10 + (s[|s| - 1] as int - '0' as int)
  }

  /** The value of decimal text with an optional leading '-' */
  function ParseInt(s: string): int
  {
    if |s| > 0 && s[0] == '-' then -DigitsValue(s[1..]) else DigitsValue(s)
  }

  lemma {:induction false} NatToDecimalValue(n: nat)
    ensures DigitsValue(NatToDecimal(n)) == n
    decreases n
  {
    if n >= 10 {
      var s := NatToDecimal(n / 10) + [Digit(n % 10)];
      assert s[..|s| - 1] == NatToDecimal(n / 10);
      NatToDecimalValue(n / 10);
    }
  }

  /** Digits with a nonzero digit first have a positive value. */
  lemma {:induction false} LeadingDigitPositive(s: string)
    requires |s| >= 1 && AllDigits(s) && s[0] != '0'
    ensures DigitsValue(s) >= 1
    decreases |s|
  {
    if |s| > 1 {
      var p := s[..|s| - 1];
      assert p[0] == s[0] && AllDigits(p);
      LeadingDigitPositive(p);
    }
  }

  /** Canonical digits are exactly what NatToDecimal writes for their value. */
  lemma {:induction false} CanonicalDigitsUnique(s: string)
    requires CanonicalDigits(s)
    ensures DigitsValue(s) >= 0 && NatToDecimal(DigitsValue(s)) == s
    decreases |s|
  {
    if |s| == 1 {
      assert s[..0] == [];
      assert [Digit(DigitsValue(s))] == s;
    } else {
      var p := s[..|s| - 1];
      assert p[0] == s[0] && AllDigits(p);
      assert CanonicalDigits(p);
      CanonicalDigitsUnique(p);
      LeadingDigitPositive(p);
      var v, d := DigitsValue(p), s[|s| - 1] as int - '0' as int;
      assert DigitsValue(s) == v * 10 + d && 0 <= d < 10;
      assert (v * 10 + d) / 10 == v && (v * 10 + d) % 10 == d;
      assert s == p + [Digit(d)];
    }
  }

  /** Canonical decimal text is the only text IntToDecimal writes for its value:
      the contract "canonical, and reads back as n" pins the text down. */
  lemma CanonicalDecimalUnique(s: string)
    requires CanonicalDecimal(s)
    ensures IntToDecimal(ParseInt(s)) == s
  {
    if |s| > 0 && s[0] == '-' {
      var q := s[1..];
      CanonicalDigitsUnique(q);
      LeadingDigitPositive(q);
      assert s == "-" + q;
    } else {
      CanonicalDigitsUnique(s);
    }
  }

  /** The text written for an integer reads back as that integer. */
  lemma IntToDecimalRoundTrip(n: int)
    ensures ParseInt(IntToDecimal(n)) == n
  {
    if n < 0 {
      NatToDecimalValue(-n);
      assert ("-" + NatToDecimal(-n))[1..] == NatToDecimal(-n);
    } else {
      NatToDecimalValue(n);
    }
  }
}
