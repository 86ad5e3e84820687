/** String helpers shared by the model: substring tests, maximal character runs,
    and the decimal rendering Python's `str()` gives an integer. */
module Text {

  /** `t` occurs in `s` starting at position `i`. */
  predicate IsPrefixAt(s: string, i: nat, t: string)
  {
    i + |t| <= |s| && s[i..i + |t|] == t
  }

  /** Python's `t in s` for strings. */
  predicate Contains(s: string, t: string)
  {
    exists i: nat | i <= |s| :: IsPrefixAt(s, i, t)
  }

  /** Python's `s.startswith(t)`. */
  predicate StartsWith(s: string, t: string)
  {
    IsPrefixAt(s, 0, t)
  }

  /** The class `[a-fA-F0-9]`. */
  predicate IsHexDigit(c: char)
  {
    ('0' <= c <= '9') || ('a' <= c <= 'f') || ('A' <= c <= 'F')
  }

  /** The class `[^/]`. */
  predicate IsNotSlash(c: char)
  {
    c != '/'
  }

  /** Every character of `s[lo..hi]` is in `inClass`. */
  ghost predicate AllIn(s: string, lo: nat, hi: nat, inClass: char -> bool)
    requires lo <= hi <= |s|
  {
    forall j :: lo <= j < hi ==> inClass(s[j])
  }

  /** Length of the longest run of `inClass` characters starting at `i`: what a
      greedy `[...]+`/`[...]*` consumes before backtracking. */
  function RunLen(s: string, i: nat, inClass: char -> bool): (k: nat)
    requires i <= |s|
    decreases |s| - i
    ensures i + k <= |s|
    ensures AllIn(s, i, i + k, inClass)
    ensures i + k < |s| ==> !inClass(s[i + k])
  {
    if i == |s| || !inClass(s[i]) then 0 else 1 + RunLen(s, i + 1, inClass)
  }

  /** A run of class characters stopped by a non-class character (or the end)
      has exactly the maximal length: the greedy run is the only one. */
  lemma RunLenUnique(s: string, i: nat, k: nat, inClass: char -> bool)
    requires i + k <= |s|
    requires AllIn(s, i, i + k, inClass)
    requires i + k < |s| ==> !inClass(s[i + k])
    ensures RunLen(s, i, inClass) == k
  {
  }

  /** The decimal digit character for `d`. */
  function DigitChar(d: nat): (c: char)
    requires d < 10
    ensures '0' <= c <= '9'
    ensures c as int - '0' as int == d
  {
    ('0' as int + d) as char
  }

  predicate AllDigits(s: string)
  {
    forall j :: 0 <= j < |s| ==> '0' <= s[j] <= '9'
  }

  /** The number a string of decimal digits denotes (most significant first). */
  function DigitsValue(s: string): nat
    requires AllDigits(s)
  {
    if s == [] then 0
    else DigitsValue(s[..|s| - 1]) * 10 + (s[|s| - 1] as int - '0' as int)
  }

  /** Python's `str(n)` for a non-negative integer. */
  function NatToString(n: nat): (s: string)
    ensures |s| >= 1 && AllDigits(s)
    ensures DigitsValue(s) == n
    ensures |s| > 1 ==> s[0] != '0'
  {
    if n < 10 then [DigitChar(n)]
    else
      var front := NatToString(n / 10);
      var s := front + [DigitChar(n % 10)];
      assert s[..|s| - 1] == front;
      s
  }

  /** Python's `str(i)` for any integer: a minus sign, then the magnitude. */
  function IntToString(i: int): (s: string)
  {
    if i < 0 then "-" + NatToString(-i) else NatToString(i)
  }

  /** Distinct naturals render as distinct strings. */
  lemma NatToStringInjective(m: nat, n: nat)
    requires NatToString(m) == NatToString(n)
    ensures m == n
  {
  }
}
