/**
 * Character classes and string helpers shared by the model: the ASCII digit
 * and `\s` classes of Go's regexp syntax, Unicode white space as used by
 * strings.TrimSpace and strings.Fields, prefix/suffix tests, splitting on
 * newlines and decimal rendering of integers.
 */
module Text {
  import opened Wrappers

  /** `\d` in Go's regexp syntax: ASCII digits only. */
  predicate IsDigit(c: char) { '0' <= c <= '9' }

  /** `\s` in Go's regexp syntax: [\t\n\f\r ]. */
  predicate IsRegexSpace(c: char) {
    c == ' ' || c == '\t' || c == '\n' || c == '\U{C}' || c == '\r'
  }

  /** unicode.IsSpace: the white space that strings.TrimSpace and strings.Fields remove. */
  predicate IsSpace(c: char) {
    || c == ' ' || ('\t' <= c <= '\r') || c == '\U{85}' || c == '\U{A0}'
    || c == '\U{1680}' || ('\U{2000}' <= c <= '\U{200A}') || c == '\U{2028}' || c == '\U{2029}'
    || c == '\U{202F}' || c == '\U{205F}' || c == '\U{3000}'
  }

  predicate AllDigits(s: string) {
    forall i :: 0 <= i < |s| ==> IsDigit(s[i])
  }

  predicate HasPrefix(s: string, p: string) {
    |p| <= |s| && s[..|p|] == p
  }

  predicate HasSuffix(s: string, p: string) {
    |p| <= |s| && s[|s| - |p|..] == p
  }

  /** `p` occurs in `s` starting at index `i`. */
  predicate HasPrefixAt(s: string, i: nat, p: string) {
    i + |p| <= |s| && s[i..i + |p|] == p
  }

  /** strings.TrimPrefix */
  function TrimPrefix(s: string, p: string): (r: string)
    ensures HasPrefix(s, p) ==> p + r == s
    ensures !HasPrefix(s, p) ==> r == s
  {
    if HasPrefix(s, p) then
      assert s == s[..|p|] + s[|p|..];
      s[|p|..]
    else s
  }

  /** Index of the first character of `s` at or after `i` that is not white space. */
  function SkipSpace(s: string, i: nat): (j: nat)
    requires i <= |s|
    ensures i <= j <= |s|
    ensures forall k :: i <= k < j ==> IsSpace(s[k])
    ensures j == |s| || !IsSpace(s[j])
    decreases |s| - i
  {
    if i < |s| && IsSpace(s[i]) then SkipSpace(s, i + 1) else i
  }

  /** Index just past the last character of `s[..j]` that is not white space (at least `i`). */
  function SkipSpaceBack(s: string, i: nat, j: nat): (k: nat)
    requires i <= j <= |s|
    ensures i <= k <= j
    ensures forall m :: k <= m < j ==> IsSpace(s[m])
    ensures k == i || !IsSpace(s[k - 1])
    decreases j
  {
    if i < j && IsSpace(s[j - 1]) then SkipSpaceBack(s, i, j - 1) else j
  }

  /**
   * strings.TrimSpace: the longest slice of `s` that neither starts nor ends
   * with white space, once the white space around it is dropped.
   */
  function TrimSpace(s: string): (r: string)
    ensures exists i, j :: 0 <= i <= j <= |s| && r == s[i..j]
                           && (forall k :: 0 <= k < i ==> IsSpace(s[k]))
                           && (forall k :: j <= k < |s| ==> IsSpace(s[k]))
    ensures |r| > 0 ==> !IsSpace(r[0]) && !IsSpace(r[|r| - 1])
  {
    var i := SkipSpace(s, 0);
    var j := SkipSpaceBack(s, i, |s|);
    s[i..j]
  }

  /** A string without white space is its own trimming. */
  lemma TrimSpaceNoSpace(s: string)
    requires forall k :: 0 <= k < |s| ==> !IsSpace(s[k])
    ensures TrimSpace(s) == s
  {
  }

  /** Index of the first newline in `s` at or after `i`, or |s|. */
  function NextNewline(s: string, i: nat): (j: nat)
    requires i <= |s|
    ensures i <= j <= |s|
    ensures forall k :: i <= k < j ==> s[k] != '\n'
    ensures j < |s| ==> s[j] == '\n'
    decreases |s| - i
  {
    if i == |s| || s[i] == '\n' then i else NextNewline(s, i + 1)
  }

  /** strings.Join(lines, "\n") */
  function JoinLines(lines: seq<string>): string
  {
    if |lines| == 0 then ""
    else if |lines| == 1 then lines[0]
    else lines[0] + "\n" + JoinLines(lines[1..])
  }

  /**
   * strings.Split(s, "\n"): the pieces between newlines. There is always at
   * least one piece, none contains a newline, and joining them back with
   * newlines gives `s` again.
   */
  function SplitLines(s: string): (lines: seq<string>)
    ensures |lines| >= 1
    ensures forall i :: 0 <= i < |lines| ==> '\n' !in lines[i]
    ensures JoinLines(lines) == s
    decreases |s|
  {
    var j := NextNewline(s, 0);
    if j == |s| then
      assert s[..j] == s;
      [s]
    else
      var rest := SplitLines(s[j + 1..]);
      assert s == s[..j] + "\n" + s[j + 1..];
      [s[..j]] + rest
  }

  /** The number of newlines in `s`. */
  function CountNewlines(s: string): nat
  {
    if |s| == 0 then 0 else (if s[0] == '\n' then 1 else 0) + CountNewlines(s[1..])
  }

  lemma CountNewlinesAppend(a: string, b: string)
    ensures CountNewlines(a + b) == CountNewlines(a) + CountNewlines(b)
  {
    if |a| == 0 {
      assert a + b == b;
    } else {
      assert (a + b)[1..] == a[1..] + b;
      CountNewlinesAppend(a[1..], b);
    }
  }

  lemma CountNewlinesNone(s: string)
    requires '\n' !in s
    ensures CountNewlines(s) == 0
  {
    if |s| > 0 {
      assert s[0] != '\n';
      assert '\n' !in s[1..] by {
        forall k | 0 <= k < |s[1..]| ensures s[1..][k] != '\n' {
          assert s[1..][k] == s[k + 1];
        }
      }
      CountNewlinesNone(s[1..]);
    }
  }

  /** Splitting on newlines yields one more piece than there are newlines. */
  lemma {:induction false} SplitLinesCount(s: string)
    ensures |SplitLines(s)| == CountNewlines(s) + 1
    decreases |s|
  {
    var j := NextNewline(s, 0);
    assert '\n' !in s[..j] by {
      forall k | 0 <= k < j ensures s[..j][k] != '\n' { assert s[..j][k] == s[k]; }
    }
    CountNewlinesNone(s[..j]);
    if j == |s| {
      assert s[..j] == s;
    } else {
      assert s == s[..j] + ("\n" + s[j + 1..]);
      CountNewlinesAppend(s[..j], "\n" + s[j + 1..]);
      CountNewlinesAppend("\n", s[j + 1..]);
      assert CountNewlines("\n") == 1 by {
        assert "\n"[1..] == "";
      }
      SplitLinesCount(s[j + 1..]);
    }
  }

  /** The value of a string of decimal digits. */
  function DecimalValue(d: string): nat
    requires AllDigits(d)
  {
    if |d| == 0 then 0
    else 10 * DecimalValue(d[..|d| - 1]) + ((d[|d| - 1] as int) - ('0' as int))
  }

  function DigitChar(n: nat): (c: char)
    requires n < 10
    ensures IsDigit(c) && (c as int) - ('0' as int) == n
  {
    ('0' as int + n) as char
  }

  /** The shortest decimal rendering of `n`, as fmt's %d prints it. */
  function NatToDecimal(n: nat): (d: string)
    ensures |d| >= 1 && AllDigits(d)
    ensures d[0] == '0' ==> |d| == 1
    ensures DecimalValue(d) == n
  {
    if n < 10 then [DigitChar(n)]
    else
      var d := NatToDecimal(n / 10) + [DigitChar(n % 10)];
      assert d[..|d| - 1] == NatToDecimal(n / 10);
      d
  }

  /** fmt's %d for a Go int: a minus sign before the digits of a negative number. */
  function IntToDecimal(i: int): (d: string)
    ensures i >= 0 ==> AllDigits(d) && DecimalValue(d) == i
    ensures i < 0 ==> |d| >= 2 && d[0] == '-' && AllDigits(d[1..]) && DecimalValue(d[1..]) == -i
  {
    if i >= 0 then NatToDecimal(i) else "-" + NatToDecimal(-i)
  }
}
