/** Decimal digit strings: the value `Integer.parseInt` reads from one and the
    string `Integer.toString` writes for a non-negative value. */
module Decimal {

  predicate IsDigit(ch: char) {
    '0' <= ch <= '9'
  }

  predicate IsNonZeroDigit(ch: char) {
    '1' <= ch <= '9'
  }

  predicate AllDigits(s: string) {
    forall i :: 0 <= i < |s| ==> IsDigit(s[i])
  }

  predicate AllNonZeroDigits(s: string) {
    forall i :: 0 <= i < |s| ==> IsNonZeroDigit(s[i])
  }

  function DigitValue(ch: char): nat
    requires IsDigit(ch)
  {
    ch as int - '0' as int
  }

  function DigitChar(d: nat): (ch: char)
    requires d < 10
    ensures IsDigit(ch) && DigitValue(ch) == d
  {
    ('0' as int + d) as char
  }

  /** The positional value of a digit string, most significant digit first:
      the value `Integer.parseInt` accumulates left to right (without its
      32-bit overflow check). */
  function DecimalValue(s: string): nat
    requires AllDigits(s)
  {
    if |s| == 0 then 0 else 10 * DecimalValue(s[..|s| - 1]) + DigitValue(s[|s| - 1])
  }

  /** The shortest decimal rendering of `n`, as `Integer.toString` writes it. */
  function DecimalString(n: nat): (s: string)
    ensures 1 <= |s|
    ensures AllDigits(s)
    ensures 0 < n ==> s[0] != '0'
  {
    if n < 10 then [DigitChar(n)] else DecimalString(n / 10) + [DigitChar(n % 10)]
  }

  /** `n` is written without the digit zero, so it can be the column part of a
      selection key. */
  predicate ZeroFree(n: nat) {
    AllNonZeroDigits(DecimalString(n))
  }

  /** Reading back what was written gives the value. */
  lemma {:induction false} ValueOfString(n: nat)
    ensures DecimalValue(DecimalString(n)) == n
  {
    if n >= 10 {
      var s := DecimalString(n);
      ValueOfString(n / 10);
      assert s[..|s| - 1] == DecimalString(n / 10);
    }
  }

  /** A non-empty digit string without a leading zero has a positive value. */
  lemma {:induction false} LeadingDigitPositive(s: string)
    requires 1 <= |s| && AllDigits(s) && s[0] != '0'
    ensures 0 < DecimalValue(s)
  {
    if |s| > 1 {
      LeadingDigitPositive(s[..|s| - 1]);
    }
  }

  /** Writing back what was read gives the string, when the string has no
      leading zero: the rendering is canonical. */
  lemma {:induction false} StringOfValue(s: string)
    requires 1 <= |s| && AllDigits(s) && s[0] != '0'
    ensures DecimalString(DecimalValue(s)) == s
  {
    var p := s[..|s| - 1];
    if |p| == 0 {
      assert s == [s[0]];
    } else {
      LeadingDigitPositive(p);
      StringOfValue(p);
      var v := DecimalValue(s);
      assert v / 10 == DecimalValue(p) && v % 10 == DigitValue(s[|s| - 1]);
      assert s == p + [s[|s| - 1]];
    }
  }
}
