/** `lexical_analysis` over the PL/0 pattern table, and what it guarantees for PL/0
    source text. */
module Lexer {
  import opened Tokens
  import opened Text
  import opened Patterns
  import opened Scanner
  import opened ScannerFacts
  import opened ScannerConcat

  /** The PL/0 table as the scanner's two queries: `SPECIFICATION.is_match` and
      `GET_CLASS[SPECIFICATION.matches(..)[0]]`. */
  const Table: PatternSet := PatternSet(s => IsMatch(s), s requires IsMatch(s) => Category(s))

  /** The category query is defined on every span the table accepts: the first
      fact of `TableClassifies` on its own, for proofs that its two quantified
      facts would slow down. */
  lemma TableCategorizes()
    ensures Classifies(Table)
  {
    TableClassifies();
  }

  lemma TableClassifies()
    ensures Classifies(Table)
    ensures forall s :: Table.isMatch(s) == IsMatch(s)
    ensures forall s :: IsMatch(s) ==> Table.category(s) == Category(s)
  {
  }

  /** `lexical_analysis` itself. Every byte index of the source is visited as a
      candidate end, and slicing a Rust `&str` in the middle of a multi-byte
      character panics, so the source only ever completes on ASCII text. */
  method LexicalAnalysis(code: string) returns (r: Analysis)
    requires IsAscii(code)
    ensures r == LexWith(Table, code)
  {
    TableClassifies();
    r := Scan(Table, code);
  }

  // ---------------------------------------------------------------------------
  // Whitespace spans

  /** Only the first entry of the category table is `Whitespace`. */
  lemma WhitespaceEntry(k: nat)
    requires k < PatternCount
    ensures GetClass[k] == Whitespace <==> k == 0
  {
  }

  /** Lower-casing keeps a character's membership in `\s`. */
  lemma ToLowerSpace(c: char)
    ensures IsPatternSpace(ToLower(c)) <==> IsPatternSpace(c)
  {
  }

  /** No pattern but the first accepts a string holding a `\s` character. */
  lemma {:induction false} NoSpaceInPattern(k: nat, s: string)
    requires 1 <= k < PatternCount && Pattern(k, s)
    ensures forall i :: 0 <= i < |s| ==> !IsPatternSpace(s[i])
  {
    if 1 <= k <= 13 {
      KeywordsLetters(k - 1);
    } else if 15 <= k <= 30 {
      OperatorsNoSpace(k - 15);
    }
  }

  lemma OperatorsNoSpace(i: nat)
    requires i < |Operators|
    ensures forall j :: 0 <= j < |Operators[i]| ==> !IsPatternSpace(Operators[i][j])
  {
  }

  /** A span classified as `Whitespace` is one `\s` character; any other accepted
      span holds no `\s` character at all. */
  lemma WhitespaceSpan(s: string)
    requires IsMatch(Lower(s))
    ensures Category(Lower(s)) == Whitespace <==> |s| == 1 && IsPatternSpace(s[0])
    ensures Category(Lower(s)) != Whitespace ==> forall i :: 0 <= i < |s| ==> !IsPatternSpace(s[i])
  {
    LowerAt(s);
    var k := Priority(Lower(s));
    WhitespaceEntry(k);
    if k == 0 {
      ToLowerSpace(s[0]);
    } else {
      NoSpaceInPattern(k, Lower(s));
      forall i | 0 <= i < |s|
        ensures !IsPatternSpace(s[i])
      {
        ToLowerSpace(s[i]);
      }
    }
  }

  /** The input without its `\s` characters. */
  function WithoutSpace(s: string): string
  {
    if s == [] then []
    else (if IsPatternSpace(s[0]) then [] else [s[0]]) + WithoutSpace(s[1..])
  }

  lemma {:induction false} WithoutSpaceAppend(a: string, b: string)
    ensures WithoutSpace(a + b) == WithoutSpace(a) + WithoutSpace(b)
    decreases |a|
  {
    if a == [] {
      assert a + b == b;
    } else {
      assert (a + b)[0] == a[0] && (a + b)[1..] == a[1..] + b;
      WithoutSpaceAppend(a[1..], b);
    }
  }

  lemma {:induction false} WithoutSpaceNone(s: string)
    requires forall i :: 0 <= i < |s| ==> !IsPatternSpace(s[i])
    ensures WithoutSpace(s) == s
    decreases |s|
  {
    if s != [] {
      WithoutSpaceNone(s[1..]);
    }
  }

  /** The kept tokens spell out the finalized spans without their `\s` characters. */
  lemma {:induction false} KeptLexemes(ts: seq<Token>)
    requires forall t :: t in ts ==> IsMatch(Lower(t.lexeme)) && t.kind == Category(Lower(t.lexeme))
    ensures Lexemes(NonWhitespace(ts)) == WithoutSpace(Lexemes(ts))
    decreases |ts|
  {
    if ts != [] {
      var t, rest := ts[0], ts[1..];
      assert ts == [t] + rest;
      NonWhitespaceAppend([t], rest);
      LexemesAppend(NonWhitespace([t]), NonWhitespace(rest));
      WithoutSpaceAppend(t.lexeme, Lexemes(rest));
      KeptLexemes(rest);
      WhitespaceSpan(t.lexeme);
      assert NonWhitespace([t]) == NonWhitespace([]) + (if t.kind == Whitespace then [] else [t]);
      if t.kind == Whitespace {
        assert WithoutSpace(t.lexeme) == [];
      } else {
        WithoutSpaceNone(t.lexeme);
        assert Lexemes([t]) == t.lexeme + Lexemes([]);
      }
    }
  }

  // ---------------------------------------------------------------------------
  // The result of lexing

  /** On success no token is whitespace; each token's lexeme is accepted by the
      table once lower-cased, and its category is that of the lowest-indexed
      pattern accepting it; and the lexemes, one after the other, are the input
      without its `\s` characters, so the tokens are the input's words in order. */
  lemma LexTokens(code: string)
    ensures LexWith(Table, code).Ok? ==>
              && (forall t :: t in LexWith(Table, code).tokens ==>
                    && t.kind != Whitespace
                    && IsMatch(Lower(t.lexeme))
                    && t.kind == GetClass[Priority(Lower(t.lexeme))])
              && Lexemes(LexWith(Table, code).tokens) == WithoutSpace(code)
  {
    TableClassifies();
    LexWithOutcome(Table, code);
    if LexWith(Table, code).Ok? {
      var finals := Finals(Table, code, 0);
      FinalsClassified(Table, code, 0);
      FinalsCover(Table, code, 0);
      NonWhitespaceMembers(finals);
      KeptLexemes(finals);
      assert code[0..|code|] == code;
    }
  }

  /** Lexing fails exactly when the scan stops at some position p before the end
      of the input. No span starting at p, not even its single character, is
      accepted; the reported text starts at p and runs, non-empty, up to the next
      ASCII whitespace character or the end; the reported line is one more than
      the number of line feeds before p. */
  lemma LexError(code: string)
    ensures LexWith(Table, code).IllegalCharacters? <==> Stop(Table, code, 0) < |code|
    ensures LexWith(Table, code).IllegalCharacters? ==>
              var p, text := Stop(Table, code, 0), LexWith(Table, code).text;
              && (forall k :: p <= k < |code| ==> !Matches(Table, code, p, k))
              && 1 <= |text| && text == code[p..p + |text|]
              && (forall k :: 0 <= k < |text| ==> !IsAsciiWhitespace(text[k]))
              && (p + |text| == |code| || IsAsciiWhitespace(code[p + |text|]))
  {
    TableClassifies();
    SpacesMatch(code);
    LexWithError(Table, code);
  }

  /** Every ASCII whitespace character is accepted on its own, as `\s`. */
  lemma SpacesMatch(code: string)
    ensures forall b :: 0 <= b < |code| && IsAsciiWhitespace(code[b]) ==> Matches(Table, code, b, b)
  {
    forall b | 0 <= b < |code| && IsAsciiWhitespace(code[b])
      ensures Matches(Table, code, b, b)
    {
      var c := code[b];
      assert code[b..b + 1] == [c];
      ToLowerSpace(c);
      TableClassifies();
      assert Pattern(0, Lower([c]));
    }
  }

  /** The reported line is one more than the number of line feeds before the
      position where the scan stopped. */
  lemma LexErrorLine(code: string)
    ensures LexWith(Table, code).IllegalCharacters? ==>
              LexWith(Table, code).line == multiset(code[..Stop(Table, code, 0)])['\n'] + 1
  {
    TableClassifies();
    LexWithOutcome(Table, code);
  }

  /** Case does not change the outcome: inputs equal once lower-cased both succeed
      with the same categories and lexemes equal up to case, or both fail on the
      same line. */
  lemma LexCaseInsensitive(c1: string, c2: string)
    requires Lower(c1) == Lower(c2)
    ensures LexWith(Table, c1).Ok? <==> LexWith(Table, c2).Ok?
    ensures LexWith(Table, c1).Ok? ==> SameUpToCase(LexWith(Table, c1).tokens, LexWith(Table, c2).tokens)
    ensures LexWith(Table, c1).IllegalCharacters? ==> LexWith(Table, c1).line == LexWith(Table, c2).line
  {
    TableClassifies();
    LexWithCaseInsensitive(Table, c1, c2);
  }

  /** A space alone is whitespace, and no longer span holding a space is accepted. */
  lemma TableSeparates()
    ensures Separates(Table)
  {
    TableClassifies();
    SpaceCategory(' ');
    assert [' '] == " ";
    forall s, i | Table.isMatch(s) && 2 <= |s| && 0 <= i < |s|
      ensures s[i] != ' '
    {
      AcceptedChars(s);
    }
  }

  /** Lexing two texts joined by a space: the error of the first if it has one;
      otherwise the error of the second, on its line moved down by the line feeds of
      the first; otherwise the tokens of the first followed by those of the second. */
  lemma LexConcat(a: string, b: string)
    ensures LexWith(Table, a).IllegalCharacters? ==> LexWith(Table, a + " " + b) == LexWith(Table, a)
    ensures LexWith(Table, a).Ok? && LexWith(Table, b).IllegalCharacters? ==>
              LexWith(Table, a + " " + b) ==
                IllegalCharacters(LexWith(Table, b).text, LexWith(Table, b).line + NewlineCount(a))
    ensures LexWith(Table, a).Ok? && LexWith(Table, b).Ok? ==>
              LexWith(Table, a + " " + b) == Ok(LexWith(Table, a).tokens + LexWith(Table, b).tokens)
  {
    TableCategorizes();
    TableSeparates();
    LexWithConcat(Table, a, b, a + " " + b);
  }
}
