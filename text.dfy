/** Strings as the Kotlin standard library and the JVM treat them: decimal
    rendering of integers, prefix/suffix tests, and the case-insensitive
    matching of `contains(..., ignoreCase = true)` and
    `endsWith(..., ignoreCase = true)`. */
module Text {

  predicate IsDigit(c: char) { '0' <= c <= '9' }

  function DigitChar(d: nat): (c: char)
    requires d < 10
    ensures IsDigit(c)
  {
    (48 + d) as char
  }

  function DigitValue(c: char): (d: nat)
    requires IsDigit(c)
    ensures d < 10
  {
    c as int - 48
  }

  /** The decimal numeral of n without leading zeros, as `Long.toString` writes it. */
  function NatToDecimal(n: nat): (s: string)
    ensures |s| > 0 && forall i :: 0 <= i < |s| ==> IsDigit(s[i])
  {
    if n < 10 then [DigitChar(n)] else NatToDecimal(n / 10) + [DigitChar(n % 10)]
  }

  /** String interpolation of an integer: a minus sign for negative values. */
  function IntToDecimal(n: int): string
  {
    if n < 0 then "-" + NatToDecimal(-n) else NatToDecimal(n)
  }

  predicate AllDigits(s: string)
  {
    forall i :: 0 <= i < |s| ==> IsDigit(s[i])
  }

  /** The value of a string of decimal digits. */
  function DecimalValue(s: string): nat
    requires AllDigits(s)
  {
    if s == [] then 0 else DecimalValue(s[..|s| - 1]) * 10 + DigitValue(s[|s| - 1])
  }

  /** Reading back a rendered numeral gives the number. */
  lemma {:induction false} DecimalRoundTrip(n: nat)
    ensures DecimalValue(NatToDecimal(n)) == n
  {
    if n >= 10 {
      var s := NatToDecimal(n);
      assert s[..|s| - 1] == NatToDecimal(n / 10);
      DecimalRoundTrip(n / 10);
    }
  }

  /** Only the numeral of 0 starts with the digit 0. */
  lemma {:induction false} DecimalNoLeadingZero(n: nat)
    ensures NatToDecimal(n)[0] == '0' <==> n == 0
  {
    if n >= 10 {
      DecimalNoLeadingZero(n / 10);
      assert NatToDecimal(n)[0] == NatToDecimal(n / 10)[0];
    }
  }

  /** `startsWith(prefix)`. */
  predicate StartsWith(s: string, prefix: string)
  {
    |prefix| <= |s| && s[..|prefix|] == prefix
  }

  /** `endsWith(suffix)`. */
  predicate EndsWith(s: string, suffix: string)
  {
    |suffix| <= |s| && s[|s| - |suffix|..] == suffix
  }

  function AsciiLower(c: char): char
  {
    if 'A' <= c <= 'Z' then (c as int + 32) as char else c
  }

  function AsciiUpper(c: char): char
  {
    if 'a' <= c <= 'z' then (c as int - 32) as char else c
  }

  function UpperString(s: string): (r: string)
    ensures |r| == |s| && forall i :: 0 <= i < |s| ==> r[i] == AsciiUpper(s[i])
  {
    if s == [] then [] else [AsciiUpper(s[0])] + UpperString(s[1..])
  }

  /** `lowercase()` on a string of ASCII characters. */
  function LowerString(s: string): (r: string)
    ensures |r| == |s| && forall i :: 0 <= i < |s| ==> r[i] == AsciiLower(s[i])
  {
    seq(|s|, i requires 0 <= i < |s| => AsciiLower(s[i]))
  }

  /** Kotlin's `Char.equals(other, ignoreCase = true)` when `n` is an ASCII
      character: equal after upper-casing, or after upper- then lower-casing.
      Besides the ASCII letters of the other case, four characters outside
      ASCII qualify: dotless i (U+0131) and long s (U+017F) upper-case to I
      and S, dotted capital I (U+0130) and the Kelvin sign (U+212A)
      lower-case to i and k. */
  predicate CharMatchesIgnoreCase(c: char, n: char)
  {
    || AsciiLower(c) == AsciiLower(n)
    || (AsciiLower(n) == 'i' && (c == '\U{131}' || c == '\U{130}'))
    || (AsciiLower(n) == 's' && c == '\U{17F}')
    || (AsciiLower(n) == 'k' && c == '\U{212A}')
  }

  predicate MatchesAtIgnoreCase(s: string, at: nat, needle: string)
  {
    at + |needle| <= |s| && forall j :: 0 <= j < |needle| ==> CharMatchesIgnoreCase(s[at + j], needle[j])
  }

  /** `s.contains(needle, ignoreCase = true)` for an ASCII needle. */
  predicate ContainsIgnoreCase(s: string, needle: string)
  {
    exists at: nat | at <= |s| :: MatchesAtIgnoreCase(s, at, needle)
  }

  /** `s.endsWith(suffix, ignoreCase = true)` for an ASCII suffix. */
  predicate EndsWithIgnoreCase(s: string, suffix: string)
  {
    |suffix| <= |s| && MatchesAtIgnoreCase(s, |s| - |suffix|, suffix)
  }

  /** A string containing a needle contains every prefix of that needle. */
  lemma ContainsPrefixOfNeedle(s: string, needle: string, k: nat)
    requires k <= |needle|
    requires ContainsIgnoreCase(s, needle)
    ensures ContainsIgnoreCase(s, needle[..k])
  {
    var at: nat :| at <= |s| && MatchesAtIgnoreCase(s, at, needle);
    assert MatchesAtIgnoreCase(s, at, needle[..k]);
  }

  /** Upper-casing the haystack does not change whether it matches. */
  lemma {:induction false} UpperCaseMatchesAlike(s: string, needle: string)
    ensures ContainsIgnoreCase(UpperString(s), needle) == ContainsIgnoreCase(s, needle)
  {
    var u := UpperString(s);
    forall c: char, n: char ensures CharMatchesIgnoreCase(AsciiUpper(c), n) == CharMatchesIgnoreCase(c, n) {
      assert AsciiLower(AsciiUpper(c)) == AsciiLower(c);
    }
    if ContainsIgnoreCase(s, needle) {
      var at: nat :| at <= |s| && MatchesAtIgnoreCase(s, at, needle);
      assert MatchesAtIgnoreCase(u, at, needle) by {
        forall j | 0 <= j < |needle| ensures CharMatchesIgnoreCase(u[at + j], needle[j]) {
          assert u[at + j] == AsciiUpper(s[at + j]);
        }
      }
    }
    if ContainsIgnoreCase(u, needle) {
      var at: nat :| at <= |u| && MatchesAtIgnoreCase(u, at, needle);
      assert MatchesAtIgnoreCase(s, at, needle) by {
        forall j | 0 <= j < |needle| ensures CharMatchesIgnoreCase(s[at + j], needle[j]) {
          assert u[at + j] == AsciiUpper(s[at + j]);
        }
      }
    }
  }
}
