/** What the scan of `lexical_analysis` guarantees for any pattern set: the cutting
    rule for one candidate, the finalized spans tiling the consumed input, every
    token carrying the category of its own lower-cased span, whitespace never being
    kept, the illegal text being where scanning stopped, and case not changing the
    outcome. */
module ScannerFacts {
  import opened Tokens
  import opened Text
  import opened Scanner

  /** The lexemes of ts, one after the other. */
  function Lexemes(ts: seq<Token>): string
  {
    if ts == [] then [] else ts[0].lexeme + Lexemes(ts[1..])
  }

  lemma {:induction false} LexemesAppend(a: seq<Token>, b: seq<Token>)
    ensures Lexemes(a + b) == Lexemes(a) + Lexemes(b)
    decreases |a|
  {
    if a == [] {
      assert a + b == b;
    } else {
      assert (a + b)[1..] == a[1..] + b;
      LexemesAppend(a[1..], b);
    }
  }

  // ---------------------------------------------------------------------------
  // Cutting one candidate

  /** How the search continues from end j, given what is known about the ends
      before it: with no match yet, none of b..j-1 matched; after a match, the ends
      from m through `last` all matched, the ones before m did not, and j follows
      `last` directly. */
  ghost predicate SearchState(ps: PatternSet, code: string, b: nat, j: nat, last: Option<nat>, m: nat)
  {
    && b <= j
    && (last.None? ==> forall k :: b <= k < j ==> !Matches(ps, code, b, k))
    && (last.Some? ==>
          && b <= m <= last.value && j == last.value + 1
          && (forall k :: b <= k < m ==> !Matches(ps, code, b, k))
          && (forall k :: m <= k <= last.value ==> Matches(ps, code, b, k)))
  }

  lemma {:induction false} EndFromIsRun(ps: PatternSet, code: string, b: nat, j: nat, last: Option<nat>, m: nat, e: nat)
    requires last.Some? ==> Matches(ps, code, b, last.value)
    requires SearchState(ps, code, b, j, last, m)
    requires EndFrom(ps, code, b, j, last) == Some(e)
    ensures exists m' :: Run(ps, code, b, m', e)
    decreases |code| - j
  {
    if j < |code| && Matches(ps, code, b, j) {
      var m' := if last.Some? then m else j;
      EndFromIsRun(ps, code, b, j + 1, Some(j), m', e);
    } else if last.Some? {
      assert Run(ps, code, b, m, e);
    } else if j < |code| {
      EndFromIsRun(ps, code, b, j + 1, None, m, e);
    }
  }

  lemma {:induction false} EndFromNone(ps: PatternSet, code: string, b: nat, j: nat)
    requires b <= j
    requires forall k :: b <= k < j ==> !Matches(ps, code, b, k)
    requires EndFrom(ps, code, b, j, None).None?
    ensures forall k :: b <= k < |code| ==> !Matches(ps, code, b, k)
    decreases |code| - j
  {
    if j < |code| {
      EndFromNone(ps, code, b, j + 1);
    }
  }

  /** The span finalized for the candidate at b ends at e exactly when the candidate
      fails at every end before some m, matches at every end from m through e, and
      fails at e + 1 or meets the end of the input there. The window therefore grows
      through non-matching prefixes, and is cut at the first failure after a match,
      not at the longest match overall. */
  lemma NextEndIsRun(ps: PatternSet, code: string, b: nat, e: nat)
    ensures NextEnd(ps, code, b) == Some(e) <==> exists m :: Run(ps, code, b, m, e)
  {
    if NextEnd(ps, code, b) == Some(e) {
      EndFromIsRun(ps, code, b, b, None, b, e);
    }
    if m :| Run(ps, code, b, m, e) {
      NextEndOfRun(ps, code, b, m, e);
    }
  }

  /** No span is finalized for the candidate at b exactly when no span starting at b
      matches at all. */
  lemma NextEndNone(ps: PatternSet, code: string, b: nat)
    ensures NextEnd(ps, code, b).None? <==> forall k :: b <= k < |code| ==> !Matches(ps, code, b, k)
  {
    if NextEnd(ps, code, b).None? {
      EndFromNone(ps, code, b, b);
    }
    if b <= |code| && forall k :: b <= k < |code| ==> !Matches(ps, code, b, k) {
      SkipUnmatched(ps, code, b, b, |code|);
    }
  }

  // ---------------------------------------------------------------------------
  // The finalized spans

  /** The finalized spans, whitespace included, are non-empty and spell out the
      input from b up to where scanning stops, left to right. */
  lemma {:induction false} FinalsCover(ps: PatternSet, code: string, b: nat)
    requires Classifies(ps) && b <= |code|
    ensures Lexemes(Finals(ps, code, b)) == code[b..Stop(ps, code, b)]
    ensures forall t :: t in Finals(ps, code, b) ==> t.lexeme != []
    decreases |code| - b
  {
    match NextEnd(ps, code, b)
    case None =>
    case Some(e) =>
      var t, rest := Final(ps, code, b, e), Finals(ps, code, e + 1);
      FinalsCover(ps, code, e + 1);
      assert ([t] + rest)[1..] == rest;
      assert code[b..e + 1] + code[e + 1..Stop(ps, code, b)] == code[b..Stop(ps, code, b)];
  }

  /** Every finalized span was accepted by the set, and its token has the category
      the set gives its lower-cased text. */
  lemma {:induction false} FinalsClassified(ps: PatternSet, code: string, b: nat)
    requires Classifies(ps)
    ensures forall t :: t in Finals(ps, code, b) ==>
              ps.isMatch(Lower(t.lexeme)) && t.kind == ps.category(Lower(t.lexeme))
    decreases |code| - b
  {
    match NextEnd(ps, code, b)
    case None =>
    case Some(e) =>
      FinalsClassified(ps, code, e + 1);
  }

  /** Scanning stops at a start position where no span is finalized. */
  lemma {:induction false} StopStuck(ps: PatternSet, code: string, b: nat)
    requires b <= |code|
    ensures NextEnd(ps, code, Stop(ps, code, b)).None?
    decreases |code| - b
  {
    match NextEnd(ps, code, b)
    case None =>
    case Some(e) =>
      StopStuck(ps, code, e + 1);
  }

  // ---------------------------------------------------------------------------
  // Dropping whitespace

  /** Dropping whitespace tokens keeps exactly the others. */
  lemma {:induction false} NonWhitespaceMembers(ts: seq<Token>)
    ensures forall t :: t in NonWhitespace(ts) <==> t in ts && t.kind != Whitespace
    decreases |ts|
  {
    if ts != [] {
      NonWhitespaceMembers(ts[..|ts| - 1]);
      assert ts == ts[..|ts| - 1] + [ts[|ts| - 1]];
    }
  }

  /** Dropping whitespace tokens keeps the order: it acts on each part of a list on
      its own. */
  lemma {:induction false} NonWhitespaceAppend(a: seq<Token>, b: seq<Token>)
    ensures NonWhitespace(a + b) == NonWhitespace(a) + NonWhitespace(b)
    decreases |b|
  {
    if b == [] {
      assert a + b == a;
    } else {
      var b' := b[..|b| - 1];
      assert (a + b)[..|a + b| - 1] == a + b';
      assert (a + b)[|a + b| - 1] == b[|b| - 1];
      NonWhitespaceAppend(a, b');
    }
  }

  // ---------------------------------------------------------------------------
  // The outcome

  /** Lexing fails exactly when scanning stops before the end of the input. It then
      stops at a position from which no span matches at all, reports the run of
      characters there that are not ASCII whitespace (up to the next such
      character or the end), and the line, one more than the line feeds before it.
      Otherwise the tokens are the finalized spans without the whitespace ones. */
  lemma LexWithOutcome(ps: PatternSet, code: string)
    requires Classifies(ps)
    ensures var stop := Stop(ps, code, 0);
      && (LexWith(ps, code).Ok? <==> stop == |code|)
      && (LexWith(ps, code).Ok? ==> LexWith(ps, code).tokens == NonWhitespace(Finals(ps, code, 0)))
      && (LexWith(ps, code).IllegalCharacters? ==>
            && (forall k :: stop <= k < |code| ==> !Matches(ps, code, stop, k))
            && var text := LexWith(ps, code).text;
            && text == code[stop..stop + |text|]
            && (forall k :: 0 <= k < |text| ==> !IsAsciiWhitespace(text[k]))
            && (stop + |text| == |code| || IsAsciiWhitespace(code[stop + |text|]))
            && LexWith(ps, code).line == NewlineCount(code[..stop]) + 1)
  {
    var stop := Stop(ps, code, 0);
    StopStuck(ps, code, 0);
    NextEndNone(ps, code, stop);
    if stop < |code| {
      var e := RunEnd(code, stop);
      assert LexWith(ps, code).text == code[stop..e];
      forall k | 0 <= k < e - stop
        ensures !IsAsciiWhitespace(code[stop..e][k])
      {
        assert code[stop..e][k] == code[stop + k];
      }
    }
  }

  /** When every ASCII whitespace character is accepted on its own, a failed scan
      stops at a character that is not, and the reported text holds at least that
      character. */
  lemma LexWithError(ps: PatternSet, code: string)
    requires Classifies(ps)
    requires forall b :: 0 <= b < |code| && IsAsciiWhitespace(code[b]) ==> Matches(ps, code, b, b)
    ensures LexWith(ps, code).IllegalCharacters? <==> Stop(ps, code, 0) < |code|
    ensures LexWith(ps, code).IllegalCharacters? ==>
              var p, text := Stop(ps, code, 0), LexWith(ps, code).text;
              && (forall k :: p <= k < |code| ==> !Matches(ps, code, p, k))
              && 1 <= |text| && text == code[p..p + |text|]
              && (forall k :: 0 <= k < |text| ==> !IsAsciiWhitespace(text[k]))
              && (p + |text| == |code| || IsAsciiWhitespace(code[p + |text|]))
  {
    LexWithOutcome(ps, code);
    var p := Stop(ps, code, 0);
    if p < |code| {
      assert !Matches(ps, code, p, p);
    }
  }

  // ---------------------------------------------------------------------------
  // Case does not matter

  /** Two token lists that differ only in the case of their lexemes. */
  ghost predicate SameUpToCase(ts: seq<Token>, us: seq<Token>)
  {
    && |ts| == |us|
    && forall i :: 0 <= i < |ts| ==> ts[i].kind == us[i].kind && Lower(ts[i].lexeme) == Lower(us[i].lexeme)
  }

  /** Matching looks only at the lower-cased input. */
  lemma SameMatches(ps: PatternSet, c1: string, c2: string)
    requires Lower(c1) == Lower(c2)
    ensures |c1| == |c2|
    ensures forall b, e :: Matches(ps, c1, b, e) == Matches(ps, c2, b, e)
  {
    LowerAt(c1);
    LowerAt(c2);
    forall b: nat, e: nat
      ensures Matches(ps, c1, b, e) == Matches(ps, c2, b, e)
    {
      if b <= e < |c1| {
      LowerSlice(c1, b, e + 1);
      LowerSlice(c2, b, e + 1);
      }
    }
  }

  lemma {:induction false} EndFromCase(ps: PatternSet, c1: string, c2: string, b: nat, j: nat, last: Option<nat>)
    requires Lower(c1) == Lower(c2)
    requires last.Some? ==> Matches(ps, c1, b, last.value)
    ensures last.Some? ==> Matches(ps, c2, b, last.value)
    ensures EndFrom(ps, c1, b, j, last) == EndFrom(ps, c2, b, j, last)
    decreases |c1| - j
  {
    SameMatches(ps, c1, c2);
    if j < |c1| && Matches(ps, c1, b, j) {
      EndFromCase(ps, c1, c2, b, j + 1, Some(j));
    } else if last.None? && j < |c1| {
      EndFromCase(ps, c1, c2, b, j + 1, None);
    }
  }

  lemma {:induction false} FinalsCase(ps: PatternSet, c1: string, c2: string, b: nat)
    requires Classifies(ps) && Lower(c1) == Lower(c2)
    ensures SameUpToCase(Finals(ps, c1, b), Finals(ps, c2, b))
    ensures b <= |c1| ==> Stop(ps, c1, b) == Stop(ps, c2, b)
    decreases |c1| - b
  {
    EndFromCase(ps, c1, c2, b, b, None);
    SameMatches(ps, c1, c2);
    match NextEnd(ps, c1, b)
    case None =>
    case Some(e) =>
      FinalsCase(ps, c1, c2, e + 1);
      FinalCase(ps, c1, c2, b, e);
      SameUpToCaseCons(Final(ps, c1, b, e), Final(ps, c2, b, e), Finals(ps, c1, e + 1), Finals(ps, c2, e + 1));
  }

  lemma FinalCase(ps: PatternSet, c1: string, c2: string, b: nat, e: nat)
    requires Classifies(ps) && Lower(c1) == Lower(c2)
    requires Matches(ps, c1, b, e) && Matches(ps, c2, b, e)
    ensures Final(ps, c1, b, e).kind == Final(ps, c2, b, e).kind
    ensures Lower(Final(ps, c1, b, e).lexeme) == Lower(Final(ps, c2, b, e).lexeme)
  {
    LowerSlice(c1, b, e + 1);
    LowerSlice(c2, b, e + 1);
  }

  lemma SameUpToCaseCons(t: Token, u: Token, ts: seq<Token>, us: seq<Token>)
    requires t.kind == u.kind && Lower(t.lexeme) == Lower(u.lexeme)
    requires SameUpToCase(ts, us)
    ensures SameUpToCase([t] + ts, [u] + us)
  {
    forall i | 0 <= i < |ts| + 1
      ensures ([t] + ts)[i].kind == ([u] + us)[i].kind
      ensures Lower(([t] + ts)[i].lexeme) == Lower(([u] + us)[i].lexeme)
    {
      if i > 0 {
        assert ([t] + ts)[i] == ts[i - 1] && ([u] + us)[i] == us[i - 1];
      }
    }
  }

  lemma {:induction false} NonWhitespaceCase(ts: seq<Token>, us: seq<Token>)
    requires SameUpToCase(ts, us)
    ensures SameUpToCase(NonWhitespace(ts), NonWhitespace(us))
    decreases |ts|
  {
    if ts != [] {
      NonWhitespaceCase(ts[..|ts| - 1], us[..|us| - 1]);
    }
  }

  lemma {:induction false} RunEndCase(c1: string, c2: string, b: nat)
    requires Lower(c1) == Lower(c2) && b <= |c1|
    ensures |c1| == |c2| && RunEnd(c1, b) == RunEnd(c2, b)
    decreases |c1| - b
  {
    LowerAt(c1);
    LowerAt(c2);
    if b < |c1| {
      assert ToLower(c1[b]) == ToLower(c2[b]);
      if !IsAsciiWhitespace(c1[b]) {
        RunEndCase(c1, c2, b + 1);
      }
    }
  }

  lemma {:induction false} NewlineCountCase(c1: string, c2: string)
    requires Lower(c1) == Lower(c2)
    ensures NewlineCount(c1) == NewlineCount(c2)
    decreases |c1|
  {
    LowerAt(c1);
    LowerAt(c2);
    if c1 != [] {
      assert ToLower(c1[0]) == ToLower(c2[0]);
      LowerSlice(c1, 1, |c1|);
      LowerSlice(c2, 1, |c2|);
      NewlineCountCase(c1[1..], c2[1..]);
    }
  }

  /** Inputs that differ only in case lex alike: both succeed with the same
      categories and lexemes equal up to case, or both fail on the same line with
      illegal texts equal up to case. */
  lemma LexWithCaseInsensitive(ps: PatternSet, c1: string, c2: string)
    requires Classifies(ps) && Lower(c1) == Lower(c2)
    ensures LexWith(ps, c1).Ok? <==> LexWith(ps, c2).Ok?
    ensures LexWith(ps, c1).Ok? ==> SameUpToCase(LexWith(ps, c1).tokens, LexWith(ps, c2).tokens)
    ensures LexWith(ps, c1).IllegalCharacters? ==>
              && LexWith(ps, c1).line == LexWith(ps, c2).line
              && Lower(LexWith(ps, c1).text) == Lower(LexWith(ps, c2).text)
  {
    SameMatches(ps, c1, c2);
    FinalsCase(ps, c1, c2, 0);
    NonWhitespaceCase(Finals(ps, c1, 0), Finals(ps, c2, 0));
    var stop := Stop(ps, c1, 0);
    if stop < |c1| {
      RunEndCase(c1, c2, stop);
      var e := RunEnd(c1, stop);
      LowerSlice(c1, stop, e);
      LowerSlice(c2, stop, e);
      LowerSlice(c1, 0, stop);
      LowerSlice(c2, 0, stop);
      NewlineCountCase(c1[..stop], c2[..stop]);
    }
  }

  // ---------------------------------------------------------------------------
  // Reading off the result of a scan whose spans are known

  /** When the finalized spans tile the whole input, the scan succeeds with the
      tokens among them that are not whitespace. */
  lemma TiledWhole(ps: PatternSet, code: string, finals: seq<Token>)
    requires Classifies(ps) && Tiling(ps, code, 0, finals, |code|)
    ensures LexWith(ps, code) == Ok(NonWhitespace(finals))
  {
    TilingFinals(ps, code, 0, finals, |code|);
    TilingStop(ps, code, 0, finals, |code|);
    Finish(ps, code, finals, |code|);
  }

  /** When the finalized spans tile the input up to p and no span starting at p is
      accepted, the scan fails at p. */
  lemma TiledStuck(ps: PatternSet, code: string, finals: seq<Token>, p: nat)
    requires Classifies(ps) && Tiling(ps, code, 0, finals, p) && p < |code|
    requires forall k :: p <= k < |code| ==> !Matches(ps, code, p, k)
    ensures LexWith(ps, code) == IllegalCharacters(code[p..RunEnd(code, p)], LineOf(code, p))
  {
    TilingStop(ps, code, 0, finals, p);
    NextEndNone(ps, code, p);
    Stuck(ps, code, p);
  }

  /** An input that is one finalized span gives that span's token, unless it is
      whitespace. */
  lemma OneSpan(ps: PatternSet, code: string, m: nat)
    requires Classifies(ps) && |code| >= 1 && Run(ps, code, 0, m, |code| - 1)
    ensures LexWith(ps, code) == Ok(NonWhitespace([Final(ps, code, 0, |code| - 1)]))
  {
    FirstSpan(ps, code, m, |code| - 1);
    TiledWhole(ps, code, [Final(ps, code, 0, |code| - 1)]);
  }

  /** A one-character span whose extension is not accepted. */
  lemma RunOne(ps: PatternSet, code: string, b: nat)
    requires Matches(ps, code, b, b)
    requires b + 1 == |code| || !Matches(ps, code, b, b + 1)
    ensures Run(ps, code, b, b, b)
  {
  }

  /** A two-character span whose extension is not accepted; m is where the
      accepted prefixes begin. */
  lemma RunTwo(ps: PatternSet, code: string, b: nat, m: nat)
    requires b <= m <= b + 1 && (m == b <==> Matches(ps, code, b, b))
    requires Matches(ps, code, b, b + 1)
    requires b + 2 == |code| || !Matches(ps, code, b, b + 2)
    ensures Run(ps, code, b, m, b + 1)
  {
  }

  /** An input that is one finalized span, not whitespace, is that one token. */
  lemma OneToken(ps: PatternSet, code: string, m: nat, t: Token)
    requires Classifies(ps) && |code| >= 1 && Run(ps, code, 0, m, |code| - 1)
    requires Final(ps, code, 0, |code| - 1) == t && t.kind != Whitespace
    ensures LexWith(ps, code) == Ok([t])
  {
    OneSpan(ps, code, m);
    KeepStep([], t);
    assert [] + [t] == [t];
  }

  /** An input that is two finalized spans, neither whitespace, is those two
      tokens. */
  lemma TwoTokens(ps: PatternSet, code: string, m0: nat, e: nat, m1: nat, t0: Token, t1: Token)
    requires Classifies(ps) && Run(ps, code, 0, m0, e) && Run(ps, code, e + 1, m1, |code| - 1)
    requires Final(ps, code, 0, e) == t0 && t0.kind != Whitespace
    requires Final(ps, code, e + 1, |code| - 1) == t1 && t1.kind != Whitespace
    ensures LexWith(ps, code) == Ok([t0, t1])
  {
    FirstSpan(ps, code, m0, e);
    TilingExtend(ps, code, [t0], e + 1, m1, |code| - 1);
    assert [t0] + [t1] == [t0, t1];
    TiledWhole(ps, code, [t0, t1]);
    KeepStep([t0], t1);
    KeepStep([], t0);
    assert [] + [t0] == [t0];
  }

  /** The first finalized span tiles the input up to its end. */
  lemma FirstSpan(ps: PatternSet, code: string, m: nat, e: nat)
    requires Classifies(ps) && Run(ps, code, 0, m, e)
    ensures Tiling(ps, code, 0, [Final(ps, code, 0, e)], e + 1)
  {
    TilingExtend(ps, code, [], 0, m, e);
    assert [] + [Final(ps, code, 0, e)] == [Final(ps, code, 0, e)];
  }
}
