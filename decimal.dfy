/**
 * Java's decimal rendering of a `Long`, which string concatenation uses when
 * the service embeds the requested id in its error message, together with the
 * parser that undoes it: the id can always be read back from the text.
 */
module Decimal {
  import opened Wrappers

  predicate IsDigit(c: char) {
    '0' <= c <= '9'
  }

  function DigitChar(d: int): (c: char)
    requires 0 <= d < 10
    ensures IsDigit(c)
  {
    (d + '0' as int) as char
  }

  function DigitValue(c: char): (d: int)
    requires IsDigit(c)
    ensures 0 <= d < 10 && DigitChar(d) == c
  {
    c as int - '0' as int
  }

  predicate AllDigits(s: string) {
    forall i :: 0 <= i < |s| ==> IsDigit(s[i])
  }

  /** The digits of `n`, most significant first, with no leading zero. */
  function NatToString(n: nat): (s: string)
    ensures |s| > 0 && AllDigits(s)
    ensures |s| > 1 ==> s[0] != '0'
    ensures s == "0" <==> n == 0
    decreases n
  {
    if n < 10 then [DigitChar(n)] else NatToString(n / 10) + [DigitChar(n % 10)]
  }

  /** A non-empty run of digits with no leading zero, unless it is "0" itself. */
  predicate IsCanonicalNat(t: string) {
    |t| > 0 && AllDigits(t) && (|t| > 1 ==> t[0] != '0')
  }

  /**
   * The form `Long.toString` produces: an optional minus sign, then a
   * canonical run of digits, which after a minus sign is not "0".
   */
  predicate IsCanonicalLong(t: string) {
    if |t| > 0 && t[0] == '-' then IsCanonicalNat(t[1..]) && t[1..] != "0"
    else IsCanonicalNat(t)
  }

  /** `Long.toString`: a leading minus sign for negative values, then the digits. */
  function LongToString(n: int): (s: string)
    ensures |s| > 0
    ensures s[0] == '-' || IsDigit(s[0])
    ensures (s[0] == '-') <==> n < 0
    ensures IsCanonicalLong(s)
  {
    if n < 0 then "-" + NatToString(-n) else NatToString(n)
  }

  /** The value of a non-empty run of decimal digits. */
  function ParseNat(s: string): (n: nat)
    requires |s| > 0 && AllDigits(s)
    decreases |s|
  {
    if |s| == 1 then DigitValue(s[0])
    else ParseNat(s[..|s| - 1]) * 10 + DigitValue(s[|s| - 1])
  }

  /**
   * The inverse of `LongToString`: an optional minus sign followed by at
   * least one digit (no plus sign, no range limit).
   */
  function ParseLong(s: string): Option<int> {
    if |s| > 1 && s[0] == '-' && AllDigits(s[1..]) then Some(0 - ParseNat(s[1..]))
    else if |s| > 0 && AllDigits(s) then Some(ParseNat(s))
    else None
  }

  lemma {:induction false} NatRoundTrip(n: nat)
    ensures ParseNat(NatToString(n)) == n
    decreases n
  {
    if n >= 10 {
      var s := NatToString(n);
      assert s[..|s| - 1] == NatToString(n / 10);
      NatRoundTrip(n / 10);
    }
  }

  /** Rendering then parsing gives the id back. */
  lemma LongRoundTrip(n: int)
    ensures ParseLong(LongToString(n)) == Some(n)
  {
    if n < 0 {
      var s := LongToString(n);
      assert s[1..] == NatToString(-n);
      NatRoundTrip(-n);
    } else {
      NatRoundTrip(n);
    }
  }

  /** A canonical run of digits is the rendering of its own value. */
  lemma {:induction false} CanonicalNatRoundTrip(t: string)
    requires IsCanonicalNat(t)
    ensures NatToString(ParseNat(t)) == t
    ensures |t| > 1 ==> ParseNat(t) >= 10
    ensures t != "0" ==> ParseNat(t) >= 1
    decreases |t|
  {
    if |t| > 1 {
      var p := t[..|t| - 1];
      assert p[0] == t[0];
      CanonicalNatRoundTrip(p);
      var a, d := ParseNat(p), DigitValue(t[|t| - 1]);
      assert p != "0";
      assert (a * 10 + d) / 10 == a && (a * 10 + d) % 10 == d;
      assert NatToString(ParseNat(t)) == p + [t[|t| - 1]];
    } else {
      assert t == [t[0]];
    }
  }

  /**
   * Every text in the canonical form is the rendering of the value it parses
   * to: `LongToString` is the only way to write an id in that form.
   */
  lemma CanonicalLongRoundTrip(t: string)
    requires IsCanonicalLong(t)
    ensures ParseLong(t).Some? && LongToString(ParseLong(t).value) == t
  {
    if |t| > 0 && t[0] == '-' {
      CanonicalNatRoundTrip(t[1..]);
      assert t == "-" + t[1..];
    } else {
      CanonicalNatRoundTrip(t);
    }
  }

  /** Distinct ids render to distinct texts. */
  lemma LongToStringInjective(a: int, b: int)
    ensures LongToString(a) == LongToString(b) ==> a == b
  {
    LongRoundTrip(a);
    LongRoundTrip(b);
  }
}
