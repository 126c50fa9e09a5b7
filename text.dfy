/** Character and number helpers shared by the model: ASCII lower-casing
    (Python's str.lower restricted to ASCII), decimal digit strings, Python's
    str(int) and int(str) on non-negative numbers, and the maximal run of
    trailing digits of a name. */
module Text {

  datatype Option<T> = None | Some(value: T)

  predicate IsDigit(c: char) { '0' <= c <= '9' }

  predicate AllDigits(s: string) { forall i :: 0 <= i < |s| ==> IsDigit(s[i]) }

  predicate EndsWithDigit(s: string) { |s| > 0 && IsDigit(s[|s| - 1]) }

  function LowerChar(c: char): char
  {
    if 'A' <= c <= 'Z' then (c as int + 32) as char else c
  }

  /** str.lower() on ASCII text. */
  function Lower(s: string): string
  {
    seq(|s|, i requires 0 <= i < |s| => LowerChar(s[i]))
  }

  /** Lower-casing leaves digits and every non-letter alone, and no letter
      lower-cases to a digit or to an underscore. */
  lemma LowerCharFixes(c: char, d: char)
    requires LowerChar(c) == d && (IsDigit(d) || d == '_')
    ensures c == d
  {
  }

  lemma LowerConcat(a: string, b: string)
    ensures Lower(a + b) == Lower(a) + Lower(b)
  {
    assert forall i :: 0 <= i < |a + b| ==> Lower(a + b)[i] == (Lower(a) + Lower(b))[i];
  }

  lemma LowerSlice(s: string, i: nat, j: nat)
    requires i <= j <= |s|
    ensures Lower(s)[i..j] == Lower(s[i..j])
  {
  }

  /** A string that lower-cases to digits (or underscores) is that string. */
  lemma LowerFixesDigits(s: string, d: string)
    requires Lower(s) == d && AllDigits(d)
    ensures s == d
  {
    assert |s| == |d|;
    forall i | 0 <= i < |s| ensures s[i] == d[i] {
      assert LowerChar(s[i]) == d[i];
      LowerCharFixes(s[i], d[i]);
    }
  }

  function DigitChar(d: nat): char
    requires d < 10
  {
    ('0' as int + d) as char
  }

  function DigitValue(c: char): nat
    requires IsDigit(c)
  {
    c as int - '0' as int
  }

  /** Python's int(s) for a string of ASCII digits (leading zeros allowed). */
  function DigitsValue(s: string): nat
    requires AllDigits(s)
  {
    if s == [] then 0 else DigitsValue(s[..|s| - 1]) * 10 + DigitValue(s[|s| - 1])
  }

  /** Python's str(n) for a non-negative integer: a non-empty string of ASCII
      digits without a leading zero. */
  function NatToString(n: nat): (r: string)
    ensures |r| >= 1 && AllDigits(r)
    ensures |r| > 1 ==> r[0] != '0'
  {
    if n < 10 then [DigitChar(n)] else NatToString(n / 10) + [DigitChar(n % 10)]
  }

  /** int(str(n)) == n. */
  lemma {:induction false} DigitsValueOfNatToString(n: nat)
    ensures DigitsValue(NatToString(n)) == n
  {
    if n >= 10 {
      var s := NatToString(n);
      assert s[..|s| - 1] == NatToString(n / 10);
      DigitsValueOfNatToString(n / 10);
    }
  }

  lemma NatToStringInjective(a: nat, b: nat)
    requires NatToString(a) == NatToString(b)
    ensures a == b
  {
    DigitsValueOfNatToString(a);
    DigitsValueOfNatToString(b);
  }

  /** The maximal run of ASCII digits at the end of s (possibly empty). */
  function TrailingDigits(s: string): (r: string)
    ensures AllDigits(r) && |r| <= |s|
  {
    if s == [] || !IsDigit(s[|s| - 1]) then []
    else TrailingDigits(s[..|s| - 1]) + [s[|s| - 1]]
  }

  /** The run is a suffix of s, and the character before it (if any) is not
      a digit: the run is maximal. */
  lemma {:induction false} TrailingDigitsIs(s: string)
    ensures TrailingDigits(s) == s[|s| - |TrailingDigits(s)|..]
    ensures |TrailingDigits(s)| < |s| ==> !IsDigit(s[|s| - |TrailingDigits(s)| - 1])
  {
    if s != [] && IsDigit(s[|s| - 1]) {
      var q := s[..|s| - 1];
      TrailingDigitsIs(q);
      var r := TrailingDigits(q);
      assert q[|q| - |r|..] + [s[|s| - 1]] == s[|s| - |r| - 1..];
    }
  }

  /** A separator that is not a digit stops the trailing run: the run of
      a + [c] + d is d when d is all digits. */
  lemma {:induction false} TrailingDigitsAfter(a: string, c: char, d: string)
    requires !IsDigit(c) && AllDigits(d)
    ensures TrailingDigits(a + [c] + d) == d
  {
    if d != [] {
      var s := a + [c] + d;
      assert s[..|s| - 1] == a + [c] + d[..|d| - 1];
      TrailingDigitsAfter(a, c, d[..|d| - 1]);
    }
  }
}
