/** Base-16 rendering as done by Go's `strconv.FormatInt(n, 16)` for a
    non-negative `n`: lower-case digits, most significant first, no leading
    zeros (so zero is "0"), and its inverse. */
module Strconv {

  /** The digit character for a value below 16, as in Go's digit table. */
  function Digit(d: nat): (c: char)
    requires d < 16
    ensures IsLowerHexDigit(c)
  {
    if d < 10 then ('0' as int + d) as char else ('a' as int + d - 10) as char
  }

  predicate IsLowerHexDigit(c: char)
  {
    ('0' <= c <= '9') || ('a' <= c <= 'f')
  }

  /** The value of a lower-case hexadecimal digit. */
  function DigitValue(c: char): (d: nat)
    requires IsLowerHexDigit(c)
    ensures d < 16 && Digit(d) == c
  {
    if c <= '9' then c as int - '0' as int else c as int - 'a' as int + 10
  }

  /** `strconv.FormatInt(n, 16)` for `n >= 0`. */
  function FormatHex(n: nat): (s: string)
    ensures |s| >= 1
    ensures forall i :: 0 <= i < |s| ==> IsLowerHexDigit(s[i])
    ensures s[0] == '0' <==> n == 0
    ensures |s| == 1 <==> n < 16
    ensures n < 256 ==> |s| <= 2
  {
    if n < 16 then [Digit(n)] else FormatHex(n / 16) + [Digit(n % 16)]
  }

  /** Reads a string of lower-case hexadecimal digits, most significant
      first: the inverse of FormatHex. */
  function ParseHex(s: string): (n: nat)
    requires forall i :: 0 <= i < |s| ==> IsLowerHexDigit(s[i])
    ensures |s| <= 1 ==> n < 16
    ensures |s| <= 2 ==> n < 256
  {
    if s == [] then 0 else ParseHex(s[..|s| - 1]) * 16 + DigitValue(s[|s| - 1])
  }

  /** Reading back a rendering gives the number. */
  lemma {:induction false} ParseFormatHex(n: nat)
    ensures ParseHex(FormatHex(n)) == n
  {
    var s := FormatHex(n);
    if n < 16 {
      assert s[..|s| - 1] == [];
    } else {
      assert s[..|s| - 1] == FormatHex(n / 16);
      ParseFormatHex(n / 16);
    }
  }

  /** Distinct numbers render differently. */
  lemma FormatHexInjective(m: nat, n: nat)
    requires FormatHex(m) == FormatHex(n)
    ensures m == n
  {
    ParseFormatHex(m);
    ParseFormatHex(n);
  }
}
