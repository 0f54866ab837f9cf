/**
 * Decimal renderings of integers as Python produces them: `str(n)` for an
 * integer and `"%0*d"` for a zero-padded field of fixed width, together with
 * the digit-string parser that undoes them.
 */
module Decimal {
  import opened Wrappers

  predicate IsDigit(c: char) {
    '0' <= c <= '9'
  }

  predicate AllDigits(s: string) {
    forall i :: 0 <= i < |s| ==> IsDigit(s[i])
  }

  function DigitChar(d: nat): (c: char)
    requires d < 10
    ensures IsDigit(c) && c as int - '0' as int == d
  {
    ('0' as int + d) as char
  }

  /** `str(n)` for a natural number: its decimal digits, no leading zero. */
  function NatToString(n: nat): (s: string)
    ensures |s| >= 1 && AllDigits(s)
    ensures n < 10 <==> |s| == 1
    ensures n == 0 <==> s == "0"
    ensures n >= 1 ==> s[0] != '0'
    decreases n
  {
    if n < 10 then [DigitChar(n)] else NatToString(n / 10) + [DigitChar(n % 10)]
  }

  /**
   * `str(i)` for any integer: a minus sign before the digits of a negative,
   * `0` for zero, and otherwise no leading zero.
   */
  function IntToString(i: int): (s: string)
    ensures |s| >= 1 && (s[0] == '-' <==> i < 0)
    ensures i == 0 <==> s == "0"
    ensures i != 0 ==> |s| > (if i < 0 then 1 else 0) && s[if i < 0 then 1 else 0] != '0'
  {
    if i < 0 then "-" + NatToString(-i) else NatToString(i)
  }

  /** The last `w` decimal digits of `n`; for `n < 10^w` this is `"%0<w>d" % n`. */
  function FixedDigits(n: nat, w: nat): (s: string)
    ensures |s| == w && AllDigits(s)
  {
    if w == 0 then [] else FixedDigits(n / 10, w - 1) + [DigitChar(n % 10)]
  }

  /** The number a string of decimal digits denotes (`int(s)` on digits). */
  function DigitsValue(s: string): nat
    requires AllDigits(s)
  {
    if s == [] then 0 else 10 * DigitsValue(s[..|s| - 1]) + (s[|s| - 1] as int - '0' as int)
  }

  /** `int(s)`: an optional minus sign followed by at least one digit. */
  function ParseInt(s: string): Option<int> {
    if |s| > 1 && s[0] == '-' && AllDigits(s[1..]) then Some(0 - DigitsValue(s[1..]) as int)
    else if |s| > 0 && AllDigits(s) then Some(DigitsValue(s))
    else None
  }

  lemma DigitsValueSnoc(s: string, c: char)
    requires AllDigits(s) && IsDigit(c)
    ensures AllDigits(s + [c])
    ensures DigitsValue(s + [c]) == 10 * DigitsValue(s) + (c as int - '0' as int)
  {
    assert (s + [c])[..|s|] == s;
  }

  /** Parsing the digits of `str(n)` gives back `n`. */
  lemma {:induction false} NatToStringValue(n: nat)
    ensures AllDigits(NatToString(n)) && DigitsValue(NatToString(n)) == n
    decreases n
  {
    if n >= 10 {
      NatToStringValue(n / 10);
      DigitsValueSnoc(NatToString(n / 10), DigitChar(n % 10));
    }
  }

  lemma ParseDigits(digits: string)
    requires |digits| >= 1 && AllDigits(digits)
    ensures ParseInt(digits) == Some(DigitsValue(digits) as int)
    ensures ParseInt("-" + digits) == Some(0 - DigitsValue(digits) as int)
  {
    var s := "-" + digits;
    assert s[1..] == digits;
    assert !IsDigit(s[0]);
  }

  /** `str(i)` parses back to `i`. */
  lemma IntToStringRoundTrip(i: int)
    ensures ParseInt(IntToString(i)) == Some(i)
  {
    var n: nat := if i < 0 then -i else i;
    NatToStringValue(n);
    ParseDigits(NatToString(n));
  }

  /** For a number of at most two digits, `str(n)` padded to two places is `"%02d" % n`. */
  lemma TwoDigitField(n: nat)
    requires n < 100
    ensures n < 10 ==> "0" + NatToString(n) == FixedDigits(n, 2)
    ensures n >= 10 ==> NatToString(n) == FixedDigits(n, 2)
  {
    if n >= 10 {
      assert n / 10 % 10 == n / 10 && n / 10 / 10 == 0;
      assert NatToString(n) == [DigitChar(n / 10), DigitChar(n % 10)];
    }
  }

  /** Dropping the last three of six digits is the same as dividing by 1000. */
  lemma SixDigitsTruncated(n: nat)
    ensures FixedDigits(n, 6)[..3] == FixedDigits(n / 1000, 3)
  {
    assert n / 10 / 10 / 10 == n / 1000;
    var tail := [DigitChar(n / 10 / 10 % 10), DigitChar(n / 10 % 10), DigitChar(n % 10)];
    calc {
      FixedDigits(n, 6);
      FixedDigits(n / 10, 5) + [DigitChar(n % 10)];
      FixedDigits(n / 10 / 10, 4) + [DigitChar(n / 10 % 10)] + [DigitChar(n % 10)];
      FixedDigits(n / 1000, 3) + tail;
    }
  }
}
