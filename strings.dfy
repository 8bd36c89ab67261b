/**
  The few java.lang.String operations the plugin relies on, restricted to
  ASCII: lower- and upper-casing, substring search and the decimal form of an
  int (String.valueOf). A parser for decimal strings is the partner of the
  latter: it shows that the displayed text determines the number.
 */
module Strings {
  import opened Wrappers

  predicate IsUpperAscii(ch: char) { 'A' <= ch <= 'Z' }

  predicate IsLowerAscii(ch: char) { 'a' <= ch <= 'z' }

  /** Character.toLowerCase on the ASCII range; every other character is kept. */
  function LowerChar(ch: char): (r: char)
    ensures IsUpperAscii(ch) ==> IsLowerAscii(r) && r as int - ch as int == 32
    ensures !IsUpperAscii(ch) ==> r == ch
  {
    if IsUpperAscii(ch) then (ch as int + 32) as char else ch
  }

  /** Character.toUpperCase on the ASCII range; every other character is kept. */
  function UpperChar(ch: char): (r: char)
    ensures IsLowerAscii(ch) ==> IsUpperAscii(r) && ch as int - r as int == 32
    ensures !IsLowerAscii(ch) ==> r == ch
  {
    if IsLowerAscii(ch) then (ch as int - 32) as char else ch
  }

  /** String.toLowerCase, ASCII only. */
  function Lower(s: string): (r: string)
    ensures |r| == |s|
    ensures forall i :: 0 <= i < |s| ==> r[i] == LowerChar(s[i])
  {
    seq(|s|, i requires 0 <= i < |s| => LowerChar(s[i]))
  }

  /** String.toUpperCase, ASCII only. */
  function Upper(s: string): (r: string)
    ensures |r| == |s|
    ensures forall i :: 0 <= i < |s| ==> r[i] == UpperChar(s[i])
  {
    seq(|s|, i requires 0 <= i < |s| => UpperChar(s[i]))
  }

  /** Lower-casing twice is lower-casing once. */
  lemma LowerIdempotent(s: string)
    ensures Lower(Lower(s)) == Lower(s)
  {
  }

  /** `sub` occurs in `s` starting at index `i`. */
  predicate OccursAt(s: string, sub: string, i: int)
  {
    0 <= i && i + |sub| <= |s| && s[i..i + |sub|] == sub
  }

  /** String.contains: true exactly when `sub` occurs somewhere in `s`. */
  function Contains(s: string, sub: string): (b: bool)
    ensures b <==> exists i :: OccursAt(s, sub, i)
    decreases |s|
  {
    if sub <= s then
      assert OccursAt(s, sub, 0);
      true
    else if |s| <= |sub| then
      false
    else
      var r := Contains(s[1..], sub);
      assert forall i :: OccursAt(s, sub, i) && i > 0 ==> OccursAt(s[1..], sub, i - 1) by {
        forall i | OccursAt(s, sub, i) && i > 0 ensures OccursAt(s[1..], sub, i - 1) {
          assert s[1..][i - 1..i - 1 + |sub|] == s[i..i + |sub|];
        }
      }
      assert forall i :: OccursAt(s[1..], sub, i) ==> OccursAt(s, sub, i + 1) by {
        forall i | OccursAt(s[1..], sub, i) ensures OccursAt(s, sub, i + 1) {
          assert s[1..][i..i + |sub|] == s[i + 1..i + 1 + |sub|];
        }
      }
      assert !OccursAt(s, sub, 0);
      r
  }

  // ---------------------------------------------------------------------
  // Decimal strings (String.valueOf(int) / Integer.toString)
  // ---------------------------------------------------------------------

  predicate IsDigit(ch: char) { '0' <= ch <= '9' }

  predicate AllDigits(s: string) { forall i :: 0 <= i < |s| ==> IsDigit(s[i]) }

  function DigitChar(d: nat): (ch: char)
    requires d < 10
    ensures IsDigit(ch)
  {
    ('0' as int + d) as char
  }

  function DigitValue(ch: char): (d: nat)
    requires IsDigit(ch)
    ensures d < 10 && DigitChar(d) == ch
  {
    ch as int - '0' as int
  }

  /** The decimal digits of `n`, most significant first, with no leading zero. */
  function NatToDecimal(n: nat): (s: string)
    ensures |s| >= 1 && AllDigits(s)
    ensures |s| > 1 ==> s[0] != '0'
  {
    if n < 10 then [DigitChar(n)]
    else NatToDecimal(n / 10) + [DigitChar(n % 10)]
  }

  /** Integer.toString: a minus sign before the digits of the magnitude when negative. */
  function IntToDecimal(x: int): (s: string)
    ensures |s| >= 1
    ensures s[0] == '-' <==> x < 0
    ensures x >= 0 ==> AllDigits(s)
    ensures x < 0 ==> |s| >= 2 && AllDigits(s[1..])
  {
    if x < 0 then "-" + NatToDecimal(-x) else NatToDecimal(x)
  }

  /** The value of a string of decimal digits. */
  function DigitsValue(s: string): nat
    requires AllDigits(s)
  {
    if |s| == 0 then 0 else DigitsValue(s[..|s| - 1]) * 10 + DigitValue(s[|s| - 1])
  }

  /**
    The value of a decimal numeral: an optional minus sign and at least one
    digit; anything else has no value. It serves to read back what
    IntToDecimal writes.
   */
  function ParseDecimal(s: string): Option<int>
  {
    if |s| >= 2 && s[0] == '-' && AllDigits(s[1..]) then Some(0 - DigitsValue(s[1..]) as int)
    else if |s| >= 1 && AllDigits(s) then Some(DigitsValue(s))
    else None
  }

  lemma {:induction false} DigitsValueOfNatToDecimal(n: nat)
    ensures DigitsValue(NatToDecimal(n)) == n
  {
    if n >= 10 {
      var s := NatToDecimal(n);
      DigitsValueOfNatToDecimal(n / 10);
      assert s[..|s| - 1] == NatToDecimal(n / 10);
    }
  }

  /** Parsing the decimal form of an int gives the int back. */
  lemma DecimalRoundTrip(x: int)
    ensures ParseDecimal(IntToDecimal(x)) == Some(x)
  {
    var s := IntToDecimal(x);
    if x < 0 {
      var digits := NatToDecimal(-x);
      assert s == "-" + digits;
      assert s[1..] == digits;
      DigitsValueOfNatToDecimal(-x);
    } else {
      DigitsValueOfNatToDecimal(x);
    }
  }

  /** Distinct ints have distinct decimal forms. */
  lemma DecimalInjective(x: int, y: int)
    ensures IntToDecimal(x) == IntToDecimal(y) <==> x == y
  {
    DecimalRoundTrip(x);
    DecimalRoundTrip(y);
  }
}
