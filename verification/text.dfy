/**
 * The JavaScript string operations the frontend forms rely on: `String.prototype.trim`, the
 * `\s` class of regular expressions, the email pattern `/^[^\s@]+@[^\s@]+\.[^\s@]+$/`, and the
 * decimal rendering of a number in a template literal. Characters are code points.
 */
module Text {

  /** JavaScript white space and line terminators: the set `trim` strips and `\s` matches. */
  predicate IsSpace(c: char) {
    || c == '\t' || c == '\n' || c == '\U{000B}' || c == '\U{000C}' || c == '\r' || c == ' '
    || c == '\U{00A0}' || c == '\U{1680}' || ('\U{2000}' <= c <= '\U{200A}')
    || c == '\U{2028}' || c == '\U{2029}' || c == '\U{202F}' || c == '\U{205F}' || c == '\U{3000}'
    || c == '\U{FEFF}'
  }

  /** Every character of `s` is white space. */
  predicate AllSpace(s: string) {
    forall k :: 0 <= k < |s| ==> IsSpace(s[k])
  }

  /** `s` without its leading white space. */
  function TrimStart(s: string): (r: string)
    ensures |r| <= |s| && r == s[|s| - |r|..]
    ensures AllSpace(s[..|s| - |r|])
    ensures r == [] || !IsSpace(r[0])
  {
    if s == [] || !IsSpace(s[0]) then s
    else
      var r := TrimStart(s[1..]);
      assert s[..|s| - |r|] == [s[0]] + s[1..][..|s[1..]| - |r|];
      r
  }

  /** `s` without its trailing white space. */
  function TrimEnd(s: string): (r: string)
    ensures |r| <= |s| && r == s[..|r|]
    ensures AllSpace(s[|r|..])
    ensures r == [] || !IsSpace(r[|r| - 1])
  {
    if s == [] || !IsSpace(s[|s| - 1]) then s
    else
      var r := TrimEnd(s[..|s| - 1]);
      assert s[|r|..] == s[..|s| - 1][|r|..] + [s[|s| - 1]];
      r
  }

  /** How many white-space characters `s` starts with. */
  function LeadingSpace(s: string): (n: nat)
    ensures n <= |s| && AllSpace(s[..n])
    ensures n < |s| ==> !IsSpace(s[n])
  {
    |s| - |TrimStart(s)|
  }

  /**
   * `s.trim()`: the slice of `s` that is left after cutting white space from both ends; what was
   * cut is white space and what is kept neither starts nor ends with it.
   */
  function Trim(s: string): (r: string)
    ensures LeadingSpace(s) + |r| <= |s|
    ensures r == s[LeadingSpace(s)..LeadingSpace(s) + |r|]
    ensures AllSpace(s[LeadingSpace(s) + |r|..])
    ensures r == [] || (!IsSpace(r[0]) && !IsSpace(r[|r| - 1]))
  {
    TrimSlices(s, TrimStart(s), TrimEnd(TrimStart(s)), LeadingSpace(s));
    TrimEnd(TrimStart(s))
  }

  /** Cutting the tail of the suffix `t == s[i..]` is cutting the same tail of `s`. */
  lemma TrimSlices(s: string, t: string, r: string, i: nat)
    requires i <= |s| && t == s[i..]
    requires |r| <= |t| && r == t[..|r|] && AllSpace(t[|r|..])
    ensures i + |r| <= |s| && r == s[i..i + |r|] && AllSpace(s[i + |r|..])
  {
    assert s[i + |r|..] == t[|r|..];
  }

  /** `!s.trim()`: the trimmed string is empty exactly when `s` is nothing but white space. */
  lemma BlankIffAllSpace(s: string)
    ensures Trim(s) == [] <==> AllSpace(s)
  {
    var r := Trim(s);
    var i := LeadingSpace(s);
    if r == [] {
      forall k | 0 <= k < |s| ensures IsSpace(s[k]) {
        assert s[k] == s[..i][k];
      }
    } else {
      assert s[i] == r[0];
    }
  }

  /** A character `[^\s@]` matches. */
  predicate EmailChar(c: char) {
    !IsSpace(c) && c != '@'
  }

  /** `s` is a run of `[^\s@]` characters. */
  predicate AllEmailChars(s: string) {
    forall k :: 0 <= k < |s| ==> EmailChar(s[k])
  }

  /**
   * What `/^[^\s@]+@[^\s@]+\.[^\s@]+$/` accepts, read off the pattern: a non-empty run, an `@` at
   * position `i`, a non-empty run, a `.` at position `j`, and a non-empty run to the end.
   */
  ghost predicate MatchesEmailPattern(s: string) {
    exists i, j :: 0 < i && i + 1 < j && j + 1 < |s| && s[i] == '@' && s[j] == '.'
      && AllEmailChars(s[..i]) && AllEmailChars(s[i + 1..j]) && AllEmailChars(s[j + 1..])
  }

  /** Position of the first `@` in `s`, or `|s|` when there is none. */
  function AtIndex(s: string): (i: nat)
    ensures i <= |s| && (i < |s| ==> s[i] == '@')
    ensures forall k :: 0 <= k < i ==> s[k] != '@'
  {
    if s == [] || s[0] == '@' then 0 else 1 + AtIndex(s[1..])
  }

  /** Some `.` stands strictly inside `d`, neither first nor last. */
  predicate HasInnerDot(d: string) {
    exists k :: 0 < k < |d| - 1 && d[k] == '.'
  }

  /**
   * The email check as a computation: the text before the first `@` is a non-empty run, and the
   * text after it is a run with a dot strictly inside.
   */
  predicate EmailShape(s: string) {
    var i := AtIndex(s);
    && 0 < i < |s|
    && AllEmailChars(s[..i])
    && AllEmailChars(s[i + 1..])
    && HasInnerDot(s[i + 1..])
  }

  /** The computed check accepts exactly the strings the pattern matches. */
  lemma EmailShapeMatchesPattern(s: string)
    ensures EmailShape(s) <==> MatchesEmailPattern(s)
  {
    if EmailShape(s) {
      EmailShapeSound(s);
    }
    if MatchesEmailPattern(s) {
      var i, j :| 0 < i && i + 1 < j && j + 1 < |s| && s[i] == '@' && s[j] == '.'
        && AllEmailChars(s[..i]) && AllEmailChars(s[i + 1..j]) && AllEmailChars(s[j + 1..]);
      EmailShapeComplete(s, i, j);
    }
  }

  /** Whatever the computed check accepts, the pattern matches. */
  lemma EmailShapeSound(s: string)
    requires EmailShape(s)
    ensures MatchesEmailPattern(s)
  {
    var i := AtIndex(s);
    var d := s[i + 1..];
    var k :| 0 < k < |d| - 1 && d[k] == '.';
    var j := i + 1 + k;
    assert s[i + 1..j] == d[..k];
    assert s[j + 1..] == d[k + 1..];
    var a, b := d[..k], d[k + 1..];
    forall m | 0 <= m < |a| ensures EmailChar(a[m]) {
      assert a[m] == d[m];
    }
    forall m | 0 <= m < |b| ensures EmailChar(b[m]) {
      assert b[m] == d[k + 1 + m];
    }
    assert s[j] == '.';
  }

  /** Whatever the pattern matches at `@` position `i` and `.` position `j`, the computed check accepts. */
  lemma EmailShapeComplete(s: string, i: nat, j: nat)
    requires 0 < i && i + 1 < j && j + 1 < |s| && s[i] == '@' && s[j] == '.'
    requires AllEmailChars(s[..i]) && AllEmailChars(s[i + 1..j]) && AllEmailChars(s[j + 1..])
    ensures EmailShape(s)
  {
    forall k | 0 <= k < i ensures s[k] != '@' {
      assert s[k] == s[..i][k];
    }
    assert AtIndex(s) == i;
    var d := s[i + 1..];
    var a, b := s[i + 1..j], s[j + 1..];
    assert d == a + [s[j]] + b;
    forall m | 0 <= m < |d| ensures EmailChar(d[m]) {
      if m < |a| {
        assert d[m] == a[m];
      } else if m > |a| {
        assert d[m] == b[m - |a| - 1];
      }
    }
    assert d[|a|] == '.';
  }

  /** The character of one decimal digit. */
  function DigitChar(d: nat): (c: char)
    requires d < 10
    ensures '0' <= c <= '9'
  {
    ['0', '1', '2', '3', '4', '5', '6', '7', '8', '9'][d]
  }

  /** The value of a decimal digit character. */
  function DigitValue(c: char): (d: nat)
    requires '0' <= c <= '9'
    ensures d < 10
  {
    (c as int - '0' as int) as nat
  }

  /** Every character is a decimal digit. */
  predicate AllDigits(s: string) {
    forall k :: 0 <= k < |s| ==> '0' <= s[k] <= '9'
  }

  /** The decimal rendering of `n`, as `${n}` prints a non-negative integer. */
  function NatToString(n: nat): (s: string)
    ensures |s| >= 1 && AllDigits(s)
  {
    if n < 10 then [DigitChar(n)] else NatToString(n / 10) + [DigitChar(n % 10)]
  }

  /** The number a string of decimal digits denotes. */
  function DigitsValue(s: string): nat
    requires AllDigits(s)
  {
    if s == [] then 0 else 10 * DigitsValue(s[..|s| - 1]) + DigitValue(s[|s| - 1])
  }

  /** Reading the rendering back gives the number. */
  lemma {:induction false} NatToStringRoundTrip(n: nat)
    ensures DigitsValue(NatToString(n)) == n
  {
    var s := NatToString(n);
    if n < 10 {
      assert DigitsValue(s) == 10 * DigitsValue([]) + DigitValue(s[0]);
    } else {
      NatToStringRoundTrip(n / 10);
      assert s[..|s| - 1] == NatToString(n / 10);
    }
  }

  /** Different numbers render differently. */
  lemma NatToStringInjective(m: nat, n: nat)
    requires NatToString(m) == NatToString(n)
    ensures m == n
  {
    NatToStringRoundTrip(m);
    NatToStringRoundTrip(n);
  }

  /** The decimal rendering of an integer, with a leading `-` when it is negative. */
  function IntToString(i: int): (s: string)
    ensures i >= 0 ==> s == NatToString(i)
    ensures i < 0 ==> s == "-" + NatToString(-i)
  {
    if i < 0 then "-" + NatToString(-i) else NatToString(i)
  }
}
