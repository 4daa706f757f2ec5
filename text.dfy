/** Character-level helpers the lexer relies on: ASCII lower-casing (`to_lowercase`),
    `char::is_ascii_whitespace`, and counting line feeds for the error report. */
module Text {

  /** Every character is ASCII (below 128). */
  predicate IsAscii(s: string)
  {
    forall k :: 0 <= k < |s| ==> s[k] < 128 as char
  }

  /** Lower-casing of one character, as `to_lowercase` does it on ASCII. */
  function ToLower(c: char): (d: char)
    ensures 'A' <= c <= 'Z' ==> 'a' <= d <= 'z' && d as int == c as int + 32
    ensures !('A' <= c <= 'Z') ==> d == c
  {
    if 'A' <= c <= 'Z' then (c as int - 'A' as int + 'a' as int) as char else c
  }

  /** The lower-cased copy of a string, character by character. */
  function Lower(s: string): string
  {
    seq(|s|, i requires 0 <= i < |s| => ToLower(s[i]))
  }

  /** Lower-casing keeps the length and acts on each character on its own. */
  lemma LowerAt(s: string)
    ensures |Lower(s)| == |s|
    ensures forall i :: 0 <= i < |s| ==> Lower(s)[i] == ToLower(s[i])
  {
  }

  /** Lower-casing commutes with taking a slice. */
  lemma LowerSlice(s: string, i: nat, j: nat)
    requires i <= j <= |s|
    ensures Lower(s[i..j]) == Lower(s)[i..j]
  {
  }

  /** Lower-casing leaves a string without capitals as it is. */
  lemma LowerNoCapitals(s: string)
    requires forall i :: 0 <= i < |s| ==> !('A' <= s[i] <= 'Z')
    ensures Lower(s) == s
  {
  }

  /** `char::is_ascii_whitespace`: space, tab, line feed, form feed and carriage
      return (unlike the regex class `\s`, no vertical tab). */
  predicate IsAsciiWhitespace(c: char)
  {
    c == ' ' || c == '\t' || c == '\n' || c == '\U{C}' || c == '\r'
  }

  /** The number of line feeds in s, counted front to back. */
  function NewlineCount(s: string): (n: nat)
    ensures n == multiset(s)['\n']
    ensures n <= |s|
  {
    if s == [] then 0
    else
      assert s == [s[0]] + s[1..];
      (if s[0] == '\n' then 1 else 0) + NewlineCount(s[1..])
  }

  /** Counting line feeds distributes over concatenation. */
  lemma NewlineCountAppend(a: string, b: string)
    ensures NewlineCount(a + b) == NewlineCount(a) + NewlineCount(b)
  {
    calc {
      NewlineCount(a + b);
      multiset(a + b)['\n'];
      { assert multiset(a + b) == multiset(a) + multiset(b); }
      multiset(a)['\n'] + multiset(b)['\n'];
      NewlineCount(a) + NewlineCount(b);
    }
  }
}
