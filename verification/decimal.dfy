/**
 * Base-10 rendering of an integer, as `Number.prototype.toString(10)` writes
 * an integral number: an optional '-' and the digits without leading zeros.
 * `Parse` reads such a rendering back, so that the rendering can be shown to
 * lose nothing.
 */
module Decimal {
  import opened Options

  predicate IsDigit(c: char) { '0' <= c <= '9' }

  predicate AllDigits(s: string) {
    forall i :: 0 <= i < |s| ==> IsDigit(s[i])
  }

  function DigitChar(d: int): char
    requires 0 <= d < 10
  {
    ('0' as int + d) as char
  }

  function DigitValue(c: char): int
    requires IsDigit(c)
  {
    c as int - '0' as int
  }

  /** The digits of n, most significant first: never empty, no leading zero. */
  function NatToString(n: nat): (s: string)
    ensures |s| > 0 && AllDigits(s)
    ensures |s| > 1 ==> s[0] != '0'
  {
    if n < 10 then [DigitChar(n)] else NatToString(n / 10) + [DigitChar(n % 10)]
  }

  /** `n.toString(10)` for an integral n that a double holds exactly (|n| <= 2^53). */
  function IntToString(n: int): (s: string)
    ensures |s| > 0
    ensures n < 0 <==> s[0] == '-'
    ensures n < 0 ==> AllDigits(s[1..]) && |s| > 1
    ensures n >= 0 ==> AllDigits(s)
    ensures n >= 0 && |s| > 1 ==> s[0] != '0'
    ensures n < 0 ==> s[1] != '0'
    ensures Canonical(s)
  {
    if n < 0 then "-" + NatToString(-n) else NatToString(n)
  }

  /** The shape `toString(10)` gives an integer: an optional '-' and digits without a leading zero, and no "-0". */
  predicate Canonical(s: string) {
    if |s| > 0 && s[0] == '-' then |s| > 1 && AllDigits(s[1..]) && s[1] != '0'
    else |s| > 0 && AllDigits(s) && (|s| > 1 ==> s[0] != '0')
  }

  /** The value of a digit string. */
  function ParseNat(s: string): nat
    requires AllDigits(s)
  {
    if |s| == 0 then 0 else ParseNat(s[..|s| - 1]) * 10 + DigitValue(s[|s| - 1])
  }

  /** Reads an optional '-' followed by at least one digit; anything else is None. */
  function Parse(s: string): Option<int> {
    if |s| > 1 && s[0] == '-' && AllDigits(s[1..]) then Some(0 - ParseNat(s[1..]))
    else if |s| > 0 && AllDigits(s) then Some(ParseNat(s))
    else None
  }

  lemma {:induction false} ParseNatToString(n: nat)
    ensures ParseNat(NatToString(n)) == n
  {
    if n >= 10 {
      ParseNatToString(n / 10);
      var s := NatToString(n);
      assert s[..|s| - 1] == NatToString(n / 10);
    }
  }

  /** Rendering then reading back gives the number: the rendering is a faithful encoding. */
  lemma ParseIntToString(n: int)
    ensures Parse(IntToString(n)) == Some(n)
  {
    if n < 0 {
      ParseNatToString(-n);
      assert IntToString(n)[1..] == NatToString(-n);
    } else {
      ParseNatToString(n);
    }
  }

  lemma DigitRoundTrip(c: char)
    requires IsDigit(c)
    ensures DigitChar(DigitValue(c)) == c
  {
  }

  /** A digit string that does not start with '0' has a positive value. */
  lemma {:induction false} ParseNatPositive(s: string)
    requires |s| > 0 && AllDigits(s) && s[0] != '0'
    ensures ParseNat(s) >= 1
  {
    if |s| > 1 {
      ParseNatPositive(s[..|s| - 1]);
    }
  }

  /** A digit string without a leading zero is the rendering of its own value. */
  lemma {:induction false} NatToStringParseNat(s: string)
    requires |s| > 0 && AllDigits(s) && (|s| > 1 ==> s[0] != '0')
    ensures NatToString(ParseNat(s)) == s
  {
    var last := s[|s| - 1];
    DigitRoundTrip(last);
    if |s| > 1 {
      var init := s[..|s| - 1];
      NatToStringParseNat(init);
      ParseNatPositive(init);
      var n := ParseNat(s);
      assert n / 10 == ParseNat(init) && n % 10 == DigitValue(last);
      assert s == init + [last];
    }
  }

  /**
   * The rendering is the only canonical text that reads back to the number:
   * any text with an optional '-' and digits without a leading zero that
   * `Parse` reads as n is `IntToString(n)`.
   */
  lemma CanonicalUnique(s: string, n: int)
    requires Canonical(s) && Parse(s) == Some(n)
    ensures s == IntToString(n)
  {
    if s[0] == '-' {
      var digits := s[1..];
      NatToStringParseNat(digits);
      ParseNatPositive(digits);
      assert s == "-" + digits;
    } else {
      NatToStringParseNat(s);
    }
  }

  /** Different numbers render differently. */
  lemma IntToStringInjective(m: int, n: int)
    requires IntToString(m) == IntToString(n)
    ensures m == n
  {
    ParseIntToString(m);
    ParseIntToString(n);
  }
}
