/** The pattern table of the lexer (`SPECIFICATION` and `GET_CLASS`): 32 patterns,
    each anchored at both ends and paired with the category at the same index. When a
    span satisfies several patterns, the one with the lowest index decides. */
module Patterns {
  import opened Tokens

  /** Number of entries in the pattern table. */
  const PatternCount: nat := 32

  /** The ASCII members of the regex class `\s`: tab, line feed, vertical tab,
      form feed, carriage return and space. */
  predicate IsPatternSpace(c: char)
  {
    c == ' ' || '\t' <= c <= '\r'
  }

  predicate IsLowerLetter(c: char) { 'a' <= c <= 'z' }

  predicate IsDigit(c: char) { '0' <= c <= '9' }

  /** `([a-z]|_)([a-z]|_|[0-9])*` over the whole span. */
  predicate IsIdentifier(s: string)
  {
    && |s| >= 1
    && (IsLowerLetter(s[0]) || s[0] == '_')
    && forall k :: 1 <= k < |s| ==> IsLowerLetter(s[k]) || s[k] == '_' || IsDigit(s[k])
  }

  /** `[0-9][0-9]*` over the whole span. */
  predicate IsNumber(s: string)
  {
    |s| >= 1 && forall k :: 0 <= k < |s| ==> IsDigit(s[k])
  }

  /** The characters the operator and punctuation patterns are spelled with. */
  predicate IsOperatorChar(c: char)
  {
    c in "+-*/=<>:(),;."
  }

  /** The exact keyword patterns, table entries 1 to 13. */
  const Keywords: seq<string> :=
    ["begin", "end", "call", "do", "while", "if", "then", "odd",
     "procedure", "const", "var", "read", "write"]

  /** The exact operator and punctuation patterns, table entries 15 to 30. */
  const Operators: seq<string> :=
    ["+", "-", "*", "/", "=", "<>", "<=", "<", ">=", ">", ":=", "(", ")", ",", ";", "."]

  /** Entry k of the pattern table accepts the whole of s (every pattern is anchored
      by `^` and `$`, and `$` matches only at the very end of the text). */
  predicate Pattern(k: nat, s: string)
    requires k < PatternCount
  {
    if k == 0 then |s| == 1 && IsPatternSpace(s[0])
    else if k <= 13 then s == Keywords[k - 1]
    else if k == 14 then IsIdentifier(s)
    else if k <= 30 then s == Operators[k - 15]
    else IsNumber(s)
  }

  /** The category table, index for index with the pattern table. */
  const GetClass: seq<Class> :=
    [Whitespace,
     Begin, End, Call, Do, While, If, Then, Odd, Procedure, Const, Var, Read, Write,
     Identifies,
     Plus, Minus, Times, Slash, Equal, Neq, Leq, Lss, Geq, Gtr, Becomes,
     Lparen, Rparen, Comma, Semicolon, Period,
     Number]

  /** The tables line up: the whitespace pattern, 13 keywords, the identifier
      pattern, 16 operators and the number pattern make 32 patterns, one per
      category. */
  lemma TableShape()
    ensures |Keywords| == 13 && |Operators| == 16
    ensures PatternCount == 1 + |Keywords| + 1 + |Operators| + 1 == |GetClass|
  {
  }

  /** The entries of the category table that are not keywords or operators. */
  lemma ClassEntries()
    ensures GetClass[0] == Whitespace && GetClass[14] == Identifies && GetClass[31] == Number
  {
  }

  /** The lowest index from k on whose pattern accepts s, or `PatternCount` when
      none does: the patterns are tried in table order, as the ascending indices
      of `matches(..)` list them. */
  function FirstMatch(s: string, k: nat): (r: nat)
    requires k <= PatternCount
    ensures k <= r <= PatternCount
    ensures r < PatternCount ==> Pattern(r, s)
    ensures forall j :: k <= j < r ==> !Pattern(j, s)
    decreases PatternCount - k
  {
    if k == PatternCount then PatternCount
    else if Pattern(k, s) then k
    else FirstMatch(s, k + 1)
  }

  /** Some pattern of the table accepts s (`is_match`). */
  predicate IsMatch(s: string)
  {
    exists k :: 0 <= k < PatternCount && Pattern(k, s)
  }

  /** The lowest index whose pattern accepts s: `indexs[0]`. */
  function Priority(s: string): (k: nat)
    requires IsMatch(s)
    ensures k < PatternCount && Pattern(k, s)
    ensures forall j :: 0 <= j < k ==> !Pattern(j, s)
  {
    IsMatchAny(s);
    FirstMatch(s, 0)
  }

  /** The search from i finds k when pattern k accepts s and none from i up to k
      does. */
  lemma {:induction false} FirstMatchFinds(s: string, i: nat, k: nat)
    requires i <= k < PatternCount && Pattern(k, s)
    requires forall j :: i <= j < k ==> !Pattern(j, s)
    ensures FirstMatch(s, i) == k
    decreases k - i
  {
    if i < k {
      FirstMatchFinds(s, i + 1, k);
    }
  }

  /** The table accepts s exactly when the search through it finds a pattern. */
  lemma IsMatchAny(s: string)
    ensures IsMatch(s) <==> FirstMatch(s, 0) < PatternCount
  {
    if k :| 0 <= k < PatternCount && Pattern(k, s) {
      LeastMatch(s, PatternCount);
      var m :| 0 <= m < PatternCount && Pattern(m, s) && forall j :: 0 <= j < m ==> !Pattern(j, s);
      FirstMatchFinds(s, 0, m);
    }
  }

  /** Among the patterns below n that accept s, if any, there is a lowest one. */
  lemma {:induction false} LeastMatch(s: string, n: nat)
    requires n <= PatternCount
    requires exists k :: 0 <= k < n && Pattern(k, s)
    ensures exists k :: 0 <= k < n && Pattern(k, s) && forall j :: 0 <= j < k ==> !Pattern(j, s)
  {
    if exists k :: 0 <= k < n - 1 && Pattern(k, s) {
      LeastMatch(s, n - 1);
    } else {
      assert Pattern(n - 1, s);
    }
  }

  /** The category of an accepted (already lower-cased) span:
      `GET_CLASS[indexs[0]]`. */
  function Category(s: string): Class
    requires IsMatch(s)
  {
    GetClass[Priority(s)]
  }

  /** When pattern k accepts s and no earlier pattern does, s has the category at
      index k. */
  lemma CategoryAt(s: string, k: nat)
    requires k < PatternCount && Pattern(k, s)
    requires forall j :: 0 <= j < k ==> !Pattern(j, s)
    ensures IsMatch(s) && Category(s) == GetClass[k]
  {
    FirstMatchFinds(s, 0, k);
  }

  /** The table accepts exactly single `\s` characters, keywords, identifiers,
      operators and numbers. */
  lemma IsMatchCases(s: string)
    ensures IsMatch(s) <==>
              || (|s| == 1 && IsPatternSpace(s[0]))
              || s in Keywords
              || IsIdentifier(s)
              || s in Operators
              || IsNumber(s)
  {
    if IsMatch(s) {
      var k :| 0 <= k < PatternCount && Pattern(k, s);
      if 1 <= k <= 13 {
        assert s == Keywords[k - 1];
      } else if 15 <= k <= 30 {
        assert s == Operators[k - 15];
      }
    }
    if s in Keywords {
      var i :| 0 <= i < |Keywords| && Keywords[i] == s;
      assert Pattern(i + 1, s);
    }
    if s in Operators {
      var i :| 0 <= i < |Operators| && Operators[i] == s;
      assert Pattern(i + 15, s);
    }
    if |s| == 1 && IsPatternSpace(s[0]) {
      assert Pattern(0, s);
    }
    if IsIdentifier(s) {
      assert Pattern(14, s);
    }
    if IsNumber(s) {
      assert Pattern(31, s);
    }
  }

  /** A single `\s` character is whitespace. */
  lemma SpaceCategory(c: char)
    requires IsPatternSpace(c)
    ensures IsMatch([c]) && Category([c]) == Whitespace
  {
    CategoryAt([c], 0);
    ClassEntries();
  }

  /** Every keyword is also accepted by the identifier pattern, yet it gets its
      keyword category, which comes first in the table. */
  lemma KeywordCategory(i: nat)
    requires i < |Keywords|
    ensures IsIdentifier(Keywords[i])
    ensures IsMatch(Keywords[i]) && Category(Keywords[i]) == GetClass[i + 1]
  {
    var s := Keywords[i];
    KeywordsLetters(i);
    forall j | 0 <= j < i + 1
      ensures !Pattern(j, s)
    {
      if j >= 1 {
        KeywordsDistinct(j - 1, i);
      }
    }
    CategoryAt(s, i + 1);
  }

  /** Keywords are spelled in lower-case letters only. */
  lemma KeywordsLetters(i: nat)
    requires i < |Keywords|
    ensures |Keywords[i]| >= 2
    ensures forall j :: 0 <= j < |Keywords[i]| ==> IsLowerLetter(Keywords[i][j])
  {
  }

  /** No keyword occurs twice in the table. */
  lemma KeywordsDistinct(a: nat, b: nat)
    requires a < b < |Keywords|
    ensures Keywords[a] != Keywords[b]
  {
  }

  /** An identifier that is not a keyword is an identifier (`Identifies`). */
  lemma IdentifierCategory(s: string)
    requires IsIdentifier(s) && s !in Keywords
    ensures IsMatch(s) && Category(s) == Identifies
  {
    forall j | 0 <= j < 14
      ensures !Pattern(j, s)
    {
      if j == 0 {
        assert !IsPatternSpace(s[0]);
      } else {
        NotKeyword(s, j - 1);
      }
    }
    CategoryAt(s, 14);
    ClassEntries();
  }

  lemma NotKeyword(s: string, i: nat)
    requires s !in Keywords && i < |Keywords|
    ensures s != Keywords[i]
  {
  }

  /** Each operator gets the category at its own index. */
  lemma OperatorCategory(i: nat)
    requires i < |Operators|
    ensures IsMatch(Operators[i]) && Category(Operators[i]) == GetClass[i + 15]
  {
    forall j | 0 <= j < i + 15
      ensures !Pattern(j, Operators[i])
    {
      OperatorNotEarlier(i, j);
    }
    CategoryAt(Operators[i], i + 15);
  }

  /** No pattern before operator i's own accepts it. */
  lemma OperatorNotEarlier(i: nat, j: nat)
    requires i < |Operators| && j < i + 15
    ensures !Pattern(j, Operators[i])
  {
    var s := Operators[i];
    assert |s| <= 2 && !IsLowerLetter(s[0]) && s[0] != '_' && !IsPatternSpace(s[0]);
    if 1 <= j <= 13 {
      assert IsLowerLetter(Keywords[j - 1][0]);
    } else if j >= 15 {
      OperatorsDistinct(j - 15, i);
    }
  }

  /** No operator occurs twice in the table. */
  lemma OperatorsDistinct(a: nat, b: nat)
    requires a < b < |Operators|
    ensures Operators[a] != Operators[b]
  {
  }

  /** A run of digits is a number. */
  lemma NumberCategory(s: string)
    requires IsNumber(s)
    ensures IsMatch(s) && Category(s) == Number
  {
    forall j | 0 <= j < 31
      ensures !Pattern(j, s)
    {
      if 1 <= j <= 13 {
        assert Keywords[j - 1][0] != s[0];
      } else if j >= 15 {
        assert Operators[j - 15][0] != s[0];
      }
    }
    CategoryAt(s, 31);
    ClassEntries();
  }

  /** Operators are spelled with operator characters only. */
  lemma OperatorsChars(i: nat)
    requires i < |Operators|
    ensures forall j :: 0 <= j < |Operators[i]| ==> IsOperatorChar(Operators[i][j])
  {
  }

  /** An accepted span is spelled with letters, digits, underscores and operator
      characters, unless it is a single `\s` character. */
  lemma AcceptedChars(s: string)
    ensures IsMatch(s) ==>
              forall i :: 0 <= i < |s| ==>
                || IsLowerLetter(s[i]) || IsDigit(s[i]) || s[i] == '_' || IsOperatorChar(s[i])
                || (|s| == 1 && IsPatternSpace(s[i]))
  {
    IsMatchCases(s);
    if s in Keywords {
      var j :| 0 <= j < |Keywords| && Keywords[j] == s;
      KeywordsLetters(j);
    } else if s in Operators {
      var j :| 0 <= j < |Operators| && Operators[j] == s;
      OperatorsChars(j);
    }
  }

  /** A colon alone is accepted by no pattern. */
  lemma ColonAlone(s: string)
    requires s == ":"
    ensures !IsMatch(s)
  {
    IsMatchCases(s);
  }

  /** A digit followed by a letter is accepted by no pattern: it is neither a
      number nor an identifier. */
  lemma DigitThenLetter(s: string)
    requires |s| == 2 && IsDigit(s[0]) && IsLowerLetter(s[1])
    ensures !IsMatch(s)
  {
    forall k | 0 <= k < PatternCount
      ensures !Pattern(k, s)
    {
      if 1 <= k <= 13 {
        KeywordsLetters(k - 1);
      } else if 15 <= k <= 30 {
        OperatorsChars(k - 15);
      }
    }
  }
}
