/** Worked inputs for `lexical_analysis`: maximal munch on two-character operators,
    keywords over identifiers in any case, tokens ending at the end of the input,
    and the illegal-character report. */
module LexerExamples {
  import opened Tokens
  import opened Text
  import opened Patterns
  import opened Scanner
  import opened ScannerFacts
  import opened Lexer

  // ---------------------------------------------------------------------------
  // Single spans against the PL/0 table

  /** A span of a text without capitals that no pattern accepts. */
  lemma Reject(code: string, b: nat, e: nat)
    requires Lower(code) == code && b <= e < |code| && !IsMatch(code[b..e + 1])
    ensures !Matches(Table, code, b, e)
  {
    TableClassifies();
    LowerSlice(code, b, e + 1);
  }

  /** A span of two or more characters holding a `\s` character is accepted by no
      pattern. */
  lemma RejectSpace(code: string, b: nat, e: nat, i: nat)
    requires Lower(code) == code && b <= i <= e < |code| && b < e && IsPatternSpace(code[i])
    ensures !Matches(Table, code, b, e)
  {
    var s := code[b..e + 1];
    assert s[i - b] == code[i];
    AcceptedChars(s);
    Reject(code, b, e);
  }

  /** A span holding a character that no pattern is spelled with is accepted by no
      pattern. */
  lemma RejectForeign(code: string, b: nat, e: nat, i: nat)
    requires Lower(code) == code && b <= i <= e < |code|
    requires var c := code[i];
      !IsLowerLetter(c) && !IsDigit(c) && c != '_' && !IsOperatorChar(c) && !IsPatternSpace(c)
    ensures !Matches(Table, code, b, e)
  {
    var s := code[b..e + 1];
    assert s[i - b] == code[i];
    AcceptedChars(s);
    Reject(code, b, e);
  }

  /** The token finalized from b through e, whose lower-cased span is s. */
  lemma Kind(code: string, b: nat, e: nat, s: string)
    requires b <= e < |code| && Lower(code[b..e + 1]) == s && IsMatch(s)
    ensures Matches(Table, code, b, e)
    ensures Final(Table, code, b, e) == Token(Category(s), code[b..e + 1])
  {
    TableClassifies();
  }

  /** An operator spelled from b through e is finalized as its own category. */
  lemma OperatorToken(code: string, b: nat, e: nat, i: nat)
    requires Lower(code) == code && b <= e < |code| && i < |Operators|
    requires code[b..e + 1] == Operators[i]
    ensures Matches(Table, code, b, e)
    ensures Final(Table, code, b, e) == Token(GetClass[i + 15], code[b..e + 1])
  {
    LowerSlice(code, b, e + 1);
    OperatorCategory(i);
    Kind(code, b, e, Operators[i]);
  }

  /** A run of digits from b through e is finalized as a `Number`. */
  lemma NumberToken(code: string, b: nat, e: nat)
    requires b <= e < |code| && IsNumber(code[b..e + 1])
    ensures Matches(Table, code, b, e)
    ensures Final(Table, code, b, e) == Token(Number, code[b..e + 1])
  {
    LowerNoCapitals(code[b..e + 1]);
    NumberCategory(code[b..e + 1]);
    Kind(code, b, e, code[b..e + 1]);
  }

  /** An identifier that is no reserved word, from b through e, is finalized as
      `Identifies`. */
  lemma IdentifierToken(code: string, b: nat, e: nat)
    requires b <= e < |code|
    requires IsIdentifier(Lower(code[b..e + 1])) && Lower(code[b..e + 1]) !in Keywords
    ensures Matches(Table, code, b, e)
    ensures Final(Table, code, b, e) == Token(Identifies, code[b..e + 1])
  {
    IdentifierCategory(Lower(code[b..e + 1]));
    Kind(code, b, e, Lower(code[b..e + 1]));
  }

  /** A `\s` character at b is finalized as a `Whitespace` token. */
  lemma SpaceToken(code: string, b: nat)
    requires b < |code| && IsPatternSpace(code[b])
    ensures Matches(Table, code, b, b)
    ensures Final(Table, code, b, b).kind == Whitespace
  {
    assert code[b..b + 1] == [code[b]];
    LowerNoCapitals([code[b]]);
    SpaceCategory(code[b]);
    Kind(code, b, b, [code[b]]);
  }

  /** Every prefix of an identifier, in any case, is accepted. */
  lemma IdentifierPrefixes(code: string)
    requires IsIdentifier(Lower(code))
    ensures forall k :: 0 <= k < |code| ==> Matches(Table, code, 0, k)
  {
    TableClassifies();
    LowerAt(code);
    forall k | 0 <= k < |code|
      ensures Matches(Table, code, 0, k)
    {
      LowerSlice(code, 0, k + 1);
      assert Pattern(14, Lower(code[0..k + 1]));
      IsMatchCases(Lower(code[0..k + 1]));
    }
  }

  /** A list without whitespace tokens is kept whole. */
  lemma {:induction false} KeepAll(ts: seq<Token>)
    requires forall i :: 0 <= i < |ts| ==> ts[i].kind != Whitespace
    ensures NonWhitespace(ts) == ts
    decreases |ts|
  {
    if ts != [] {
      KeepAll(ts[..|ts| - 1]);
    }
  }

  /** An input all of whose prefixes are accepted, and which is not whitespace, is
      one token. */
  lemma Single(code: string, kind: Class)
    requires |code| >= 1 && kind != Whitespace
    requires forall k :: 0 <= k < |code| ==> Matches(Table, code, 0, k)
    requires IsMatch(Lower(code)) && Category(Lower(code)) == kind
    ensures LexWith(Table, code) == Ok([Token(kind, code)])
  {
    TableClassifies();
    assert Run(Table, code, 0, 0, |code| - 1);
    OneSpan(Table, code, 0);
    assert code[0..|code|] == code;
    Kind(code, 0, |code| - 1, Lower(code));
    KeepAll([Token(kind, code)]);
  }

  // ---------------------------------------------------------------------------
  // Whole inputs of one token

  /** A reserved word alone, in any mix of cases, is one token of its keyword
      category whose lexeme keeps the input's case. */
  lemma KeywordAlone(code: string, i: nat, kind: Class)
    requires i < |Keywords| && Lower(code) == Keywords[i] && GetClass[i + 1] == kind
    ensures LexWith(Table, code) == Ok([Token(kind, code)])
  {
    KeywordCategory(i);
    WhitespaceEntry(i + 1);
    IdentifierPrefixes(code);
    LowerAt(code);
    Single(code, kind);
  }

  /** An identifier alone that is no reserved word is one `Identifies` token. */
  lemma IdentifierAlone(code: string)
    requires IsIdentifier(Lower(code)) && Lower(code) !in Keywords
    ensures LexWith(Table, code) == Ok([Token(Identifies, code)])
  {
    IdentifierCategory(Lower(code));
    IdentifierPrefixes(code);
    LowerAt(code);
    Single(code, Identifies);
  }

  /** A run of digits alone, however long, is one `Number` token. */
  lemma NumberAlone(code: string)
    requires IsNumber(code)
    ensures LexWith(Table, code) == Ok([Token(Number, code)])
  {
    TableClassifies();
    LowerNoCapitals(code);
    NumberCategory(code);
    forall k | 0 <= k < |code|
      ensures Matches(Table, code, 0, k)
    {
      LowerSlice(code, 0, k + 1);
      NumberToken(code, 0, k);
    }
    ClassEntries();
    Single(code, Number);
  }

  // ---------------------------------------------------------------------------
  // Concrete inputs
  //
  // Each example names its input as a parameter fixed by its requires
  // (`requires code == "<="`) rather than writing the literal into the ensures:
  // the proofs then work on the terms `code[b..e + 1]` and `|code| - 1` that the
  // generic span lemmas state their facts with, which keeps each proof small.

  /** The categories of the operators and keyword the examples use. */
  lemma ExampleClasses()
    ensures GetClass[1] == Begin && GetClass[21] == Leq && GetClass[25] == Becomes
  {
  }

  /** The empty input gives no tokens and no error. */
  lemma EmptyExample(code: string)
    requires code == ""
    ensures LexWith(Table, code) == Ok([])
  {
    TableClassifies();
    TiledWhole(Table, code, []);
  }

  /** `"<="` is one `Leq`, not `Lss` followed by `Equal`. */
  lemma LeqExample(code: string)
    requires code == "<="
    ensures LexWith(Table, code) == Ok([Token(Leq, code)])
  {
    LowerNoCapitals(code);
    assert code[0..1] == Operators[7] && code[0..2] == Operators[6] && code[0..2] == code;
    OperatorToken(code, 0, 0, 7);
    OperatorToken(code, 0, |code| - 1, 6);
    ExampleClasses();
    TableClassifies();
    RunTwo(Table, code, 0, 0);
    OneToken(Table, code, 0, Token(Leq, code));
  }

  /** `":="` is one `Becomes`: the window grows past `":"`, which matches nothing. */
  lemma BecomesExample(code: string)
    requires code == ":="
    ensures LexWith(Table, code) == Ok([Token(Becomes, code)])
  {
    LowerNoCapitals(code);
    assert code[0..1] == ":" && code[0..2] == Operators[10] && code[0..2] == code;
    ColonAlone(code[0..1]);
    Reject(code, 0, 0);
    OperatorToken(code, 0, |code| - 1, 10);
    ExampleClasses();
    TableClassifies();
    RunTwo(Table, code, 0, 1);
    OneToken(Table, code, 1, Token(Becomes, code));
  }

  /** `"abc"`, ending at the end of the input, is still emitted. */
  lemma AbcExample(code: string)
    requires code == "abc"
    ensures LexWith(Table, code) == Ok([Token(Identifies, code)])
  {
    LowerNoCapitals(code);
    IdentifierAlone(code);
  }

  /** `"BEGIN"` and `"begin"` are both the keyword `Begin`, not an identifier, and
      each keeps its own case. */
  lemma BeginExample(code: string)
    requires code == "BEGIN" || code == "begin"
    ensures LexWith(Table, code) == Ok([Token(Begin, code)])
  {
    if code == "BEGIN" {
      BeginUpper(code);
    } else {
      LowerNoCapitals(code);
    }
    KeywordBegin(code);
  }

  /** A spelling of `begin` in any case is the keyword `Begin`. */
  lemma KeywordBegin(code: string)
    requires Lower(code) == Keywords[0]
    ensures LexWith(Table, code) == Ok([Token(Begin, code)])
  {
    ExampleClasses();
    KeywordAlone(code, 0, Begin);
  }

  lemma BeginUpper(upper: string)
    requires upper == "BEGIN"
    ensures Lower(upper) == Keywords[0]
  {
    LowerAt(upper);
    var low := Lower(upper);
    assert low[0] == 'b' && low[1] == 'e' && low[2] == 'g' && low[3] == 'i' && low[4] == 'n';
  }

  /** `"1a"` is a `Number` and then an `Identifies`: the number is cut where the
      extension `"1a"` fails, and `'a'` starts the next candidate. */
  lemma NumberThenIdentifierExample(code: string)
    requires code == "1a"
    ensures LexWith(Table, code) == Ok([Token(Number, code[..1]), Token(Identifies, code[1..])])
  {
    NumberThenIdentifierFirst(code);
    NumberThenIdentifierSecond(code);
    TableCategorizes();
    NumberThenIdentifierScan(Table, code, Token(Number, code[..1]), Token(Identifies, code[1..]));
  }

  /** The scan of a two-character input whose first character is accepted, and
      which as a whole is not, for any table. */
  lemma NumberThenIdentifierScan(ps: PatternSet, code: string, t0: Token, t1: Token)
    requires Classifies(ps) && |code| == 2
    requires Matches(ps, code, 0, 0) && !Matches(ps, code, 0, 1) && Matches(ps, code, 1, 1)
    requires Final(ps, code, 0, 0) == t0 && t0.kind != Whitespace
    requires Final(ps, code, 1, 1) == t1 && t1.kind != Whitespace
    ensures LexWith(ps, code) == Ok([t0, t1])
  {
    RunOne(ps, code, 0);
    RunOne(ps, code, 1);
    TwoTokens(ps, code, 0, 0, 1, t0, t1);
  }

  /** The number `1`, which `"1a"` does not extend. */
  lemma NumberThenIdentifierFirst(code: string)
    requires code == "1a"
    ensures Matches(Table, code, 0, 0) && !Matches(Table, code, 0, 1)
    ensures Final(Table, code, 0, 0) == Token(Number, code[..1])
  {
    LowerNoCapitals(code);
    assert code[0..1] == code[..1] == "1" && code[0..2] == code;
    NumberToken(code, 0, 0);
    DigitThenLetter(code[0..2]);
    Reject(code, 0, 1);
  }

  /** The identifier `a`. */
  lemma NumberThenIdentifierSecond(code: string)
    requires code == "1a"
    ensures Matches(Table, code, 1, 1)
    ensures Final(Table, code, 1, 1) == Token(Identifies, code[1..])
  {
    assert code[1..2] == code[1..] == "a";
    LowerNoCapitals(code[1..2]);
    IdentifierToken(code, 1, 1);
  }

  /** `"x\n:=\n#"` fails at `'#'`, which starts a run of its own, on line 3. */
  lemma IllegalExample(code: string)
    requires code == "x\n:=\n#"
    ensures LexWith(Table, code) == IllegalCharacters(code[5..], 3)
  {
    IllegalExampleSpans(code);
    IllegalExampleStuck(code);
    TableCategorizes();
    IllegalExampleScan(Table, code);
    IllegalExampleReport(code);
  }

  /** The scan of `"x\n:=\n#"` stops at `'#'`, for any table that accepts and
      rejects its spans as the PL/0 table does. */
  lemma IllegalExampleScan(ps: PatternSet, code: string)
    requires Classifies(ps) && |code| == 6
    requires Matches(ps, code, 0, 0) && !Matches(ps, code, 0, 1)
    requires Matches(ps, code, 1, 1) && !Matches(ps, code, 1, 2)
    requires !Matches(ps, code, 2, 2) && Matches(ps, code, 2, 3) && !Matches(ps, code, 2, 4)
    requires Matches(ps, code, 4, 4) && !Matches(ps, code, 4, 5)
    requires forall k :: 5 <= k < |code| ==> !Matches(ps, code, 5, k)
    ensures LexWith(ps, code) == IllegalCharacters(code[5..RunEnd(code, 5)], LineOf(code, 5))
  {
    var finals := IllegalExampleTiling(ps, code);
    TiledStuck(ps, code, finals, 5);
  }

  /** The reported run and line of `"x\n:=\n#"`. */
  lemma IllegalExampleReport(code: string)
    requires code == "x\n:=\n#"
    ensures RunEnd(code, 5) == |code| && LineOf(code, 5) == 3
  {
    assert !IsAsciiWhitespace(code[5]);
    assert code[..5] == ['x', '\n', ':', '=', '\n'];
    LineFeeds(code[..5]);
  }

  lemma LineFeeds(s: string)
    requires s == ['x', '\n', ':', '=', '\n']
    ensures NewlineCount(s) == 2
  {
    assert s[1..][1..][1..][1..][1..] == [];
  }

  /** The four spans finalized before `'#'`, for any table that accepts and
      rejects the spans of `"x\n:=\n#"` as the PL/0 table does. */
  lemma IllegalExampleTiling(ps: PatternSet, code: string) returns (finals: seq<Token>)
    requires Classifies(ps) && |code| == 6
    requires Matches(ps, code, 0, 0) && !Matches(ps, code, 0, 1)
    requires Matches(ps, code, 1, 1) && !Matches(ps, code, 1, 2)
    requires !Matches(ps, code, 2, 2) && Matches(ps, code, 2, 3) && !Matches(ps, code, 2, 4)
    requires Matches(ps, code, 4, 4) && !Matches(ps, code, 4, 5)
    ensures Tiling(ps, code, 0, finals, 5)
  {
    var front := IllegalExampleFront(ps, code);
    RunTwo(ps, code, 2, 3);
    TilingExtend(ps, code, front, 2, 3, 3);
    var t := Final(ps, code, 2, 3);
    RunOne(ps, code, 4);
    TilingExtend(ps, code, front + [t], 4, 4, 4);
    finals := front + [t] + [Final(ps, code, 4, 4)];
  }

  /** The first two spans, `x` and the first line feed. */
  lemma IllegalExampleFront(ps: PatternSet, code: string) returns (front: seq<Token>)
    requires Classifies(ps) && |code| == 6
    requires Matches(ps, code, 0, 0) && !Matches(ps, code, 0, 1)
    requires Matches(ps, code, 1, 1) && !Matches(ps, code, 1, 2)
    ensures Tiling(ps, code, 0, front, 2)
  {
    RunOne(ps, code, 0);
    FirstSpan(ps, code, 0, 0);
    var t := Final(ps, code, 0, 0);
    RunOne(ps, code, 1);
    TilingExtend(ps, code, [t], 1, 1, 1);
    front := [t] + [Final(ps, code, 1, 1)];
  }

  /** Which spans of `"x\n:=\n#"` the table accepts. */
  lemma IllegalExampleSpans(code: string)
    requires code == "x\n:=\n#"
    ensures Matches(Table, code, 0, 0) && !Matches(Table, code, 0, 1)
    ensures Matches(Table, code, 1, 1) && !Matches(Table, code, 1, 2)
    ensures !Matches(Table, code, 2, 2) && Matches(Table, code, 2, 3) && !Matches(Table, code, 2, 4)
    ensures Matches(Table, code, 4, 4) && !Matches(Table, code, 4, 5)
  {
    LowerNoCapitals(code);
    IllegalExampleIdentifier(code);
    RejectSpace(code, 0, 1, 1);
    SpaceToken(code, 1);
    RejectSpace(code, 1, 2, 1);
    IllegalExampleBecomes(code);
    RejectSpace(code, 2, 4, 4);
    SpaceToken(code, 4);
    RejectSpace(code, 4, 5, 4);
  }

  lemma IllegalExampleIdentifier(code: string)
    requires code == "x\n:=\n#"
    ensures Matches(Table, code, 0, 0)
  {
    assert code[0..1] == "x";
    LowerNoCapitals(code[0..1]);
    IdentifierToken(code, 0, 0);
  }

  lemma IllegalExampleBecomes(code: string)
    requires code == "x\n:=\n#"
    ensures !Matches(Table, code, 2, 2) && Matches(Table, code, 2, 3)
  {
    LowerNoCapitals(code);
    assert code[2..3] == ":" && code[2..4] == Operators[10];
    ColonAlone(code[2..3]);
    Reject(code, 2, 2);
    OperatorToken(code, 2, 3, 10);
  }

  /** No span starting at `'#'` is accepted. */
  lemma IllegalExampleStuck(code: string)
    requires code == "x\n:=\n#"
    ensures forall k :: 5 <= k < |code| ==> !Matches(Table, code, 5, k)
  {
    LowerNoCapitals(code);
    RejectForeign(code, 5, 5, 5);
  }
}
