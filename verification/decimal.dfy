/**
 * Decimal rendering of a natural number, as Go's `fmt.Sprintf("%d", n)`
 * writes an unsigned integer: the shortest string of ASCII digits, with no
 * sign and no leading zero (zero itself is "0").
 */
module Decimal {

  predicate IsDigit(c: char) {
    '0' <= c <= '9'
  }

  predicate AllDigits(s: string) {
    forall i :: 0 <= i < |s| ==> IsDigit(s[i])
  }

  /** A string that `Format` can produce: non-empty digits, no leading zero. */
  predicate Canonical(s: string) {
    |s| >= 1 && AllDigits(s) && (s[0] == '0' ==> |s| == 1)
  }

  function DigitChar(d: nat): (c: char)
    requires d < 10
    ensures IsDigit(c) && (c == '0' <==> d == 0)
  {
    ('0' as int + d) as char
  }

  function DigitValue(c: char): (d: nat)
    requires IsDigit(c)
    ensures d < 10 && DigitChar(d) == c
  {
    c as int - '0' as int
  }

  /** The decimal digits of `n`, most significant first. */
  function Format(n: nat): (s: string)
    ensures Canonical(s)
    ensures s[0] == '0' <==> n == 0
  {
    if n < 10 then [DigitChar(n)] else Format(n / 10) + [DigitChar(n % 10)]
  }

  /** The number a string of decimal digits denotes (the inverse of `Format`). */
  function Parse(s: string): nat
    requires AllDigits(s)
  {
    if s == [] then 0 else 10 * Parse(s[..|s| - 1]) + DigitValue(s[|s| - 1])
  }

  /** Reading back what `Format` wrote gives the number again. */
  lemma {:induction false} ParseFormat(n: nat)
    ensures Parse(Format(n)) == n
  {
    var s := Format(n);
    if n < 10 {
      assert s[..0] == [];
    } else {
      assert s[..|s| - 1] == Format(n / 10);
      ParseFormat(n / 10);
    }
  }

  /** A canonical digit string with a non-zero first digit denotes a positive number. */
  lemma {:induction false} ParsePositive(s: string)
    requires Canonical(s) && s[0] != '0'
    ensures Parse(s) >= 1
  {
    if |s| == 1 {
      assert s[..0] == [];
    } else {
      ParsePositive(s[..|s| - 1]);
    }
  }

  /** Writing back what `Parse` read gives the same canonical string. */
  lemma {:induction false} FormatParse(s: string)
    requires Canonical(s)
    ensures Format(Parse(s)) == s
  {
    if |s| == 1 {
      assert s[..0] == [];
    } else {
      var prefix := s[..|s| - 1];
      ParsePositive(prefix);
      FormatParse(prefix);
      assert s == prefix + [s[|s| - 1]];
    }
  }

  /** Distinct numbers have distinct decimal renderings. */
  lemma FormatInjective(a: nat, b: nat)
    ensures Format(a) == Format(b) <==> a == b
  {
    if Format(a) == Format(b) {
      ParseFormat(a);
      ParseFormat(b);
    }
  }
}
