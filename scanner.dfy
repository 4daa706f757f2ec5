/** The scanning loop of `lexical_analysis` and its error diagnostics, together with
    the recursive reference definition the loop is proved against.

    The loop consults its regex set in exactly two ways: whether some pattern
    accepts a lower-cased candidate (`is_match`), and the category of the
    lowest-indexed pattern accepting it (`GET_CLASS[matches(..)[0]]`). The engine
    here takes those two queries as a `PatternSet`; the lexer instantiates it with
    the PL/0 table. */
module Scanner {
  import opened Tokens
  import opened Text

  /** An optional value: a span end, or none. */
  datatype Option<T> = None | Some(value: T)

  /** The two queries of the regex set: acceptance, and the category of the first
      accepting pattern (defined on accepted strings). */
  datatype PatternSet = PatternSet(isMatch: string -> bool, category: string --> Class)

  /** The category query is defined on every string the set accepts. */
  ghost predicate Classifies(ps: PatternSet)
  {
    forall s :: ps.isMatch(s) ==> ps.category.requires(s)
  }

  /** The lower-cased span from b through e (an inclusive end, like `end_pos`) is
      accepted by the set. */
  predicate Matches(ps: PatternSet, code: string, b: nat, e: nat)
  {
    b <= e < |code| && ps.isMatch(Lower(code[b..e + 1]))
  }

  /** Scanning the candidate ends from j on for the candidate starting at b, where
      `last` is the most recent matching end: the end of the span to finalize. A
      match moves `last` forward; the first failure after a match (or the end of the
      input) settles on `last`; without any match so far the search goes on. */
  function EndFrom(ps: PatternSet, code: string, b: nat, j: nat, last: Option<nat>): (r: Option<nat>)
    requires last.Some? ==> Matches(ps, code, b, last.value)
    ensures r.Some? ==> Matches(ps, code, b, r.value)
    ensures last.Some? ==> r.Some?
    decreases |code| - j
  {
    if j < |code| && Matches(ps, code, b, j) then EndFrom(ps, code, b, j + 1, Some(j))
    else if last.Some? || j >= |code| then last
    else EndFrom(ps, code, b, j + 1, None)
  }

  /** The end of the span finalized for the candidate starting at b, if there is one. */
  function NextEnd(ps: PatternSet, code: string, b: nat): Option<nat>
  {
    EndFrom(ps, code, b, b, None)
  }

  /** The span from b through e as a token: its category from the lower-cased span,
      its lexeme the slice in its original case. */
  function Final(ps: PatternSet, code: string, b: nat, e: nat): (t: Token)
    requires Classifies(ps) && Matches(ps, code, b, e)
    ensures t.lexeme == code[b..e + 1] && |t.lexeme| == e + 1 - b
  {
    Token(ps.category(Lower(code[b..e + 1])), code[b..e + 1])
  }

  /** Reference definition of the scan from b: every finalized span, in order and
      whitespace included, until a start position where no candidate is finalized. */
  function Finals(ps: PatternSet, code: string, b: nat): seq<Token>
    requires Classifies(ps)
    decreases |code| - b
  {
    match NextEnd(ps, code, b)
    case None => []
    case Some(e) => [Final(ps, code, b, e)] + Finals(ps, code, e + 1)
  }

  /** The start position at which the reference scan from b stops. */
  function Stop(ps: PatternSet, code: string, b: nat): (r: nat)
    requires b <= |code|
    ensures b <= r <= |code|
    decreases |code| - b
  {
    match NextEnd(ps, code, b)
    case None => b
    case Some(e) => Stop(ps, code, e + 1)
  }

  /** The tokens kept, in order: all but the whitespace ones. */
  function NonWhitespace(ts: seq<Token>): seq<Token>
  {
    if ts == [] then []
    else
      var last := ts[|ts| - 1];
      NonWhitespace(ts[..|ts| - 1]) + (if last.kind == Whitespace then [] else [last])
  }

  /** The end of the run of characters from b that are not ASCII whitespace. */
  function RunEnd(code: string, b: nat): (e: nat)
    requires b <= |code|
    ensures b <= e <= |code|
    ensures forall k :: b <= k < e ==> !IsAsciiWhitespace(code[k])
    ensures e == |code| || IsAsciiWhitespace(code[e])
    decreases |code| - b
  {
    if b == |code| || IsAsciiWhitespace(code[b]) then b else RunEnd(code, b + 1)
  }

  /** The 1-based line on which position b lies. */
  function LineOf(code: string, b: nat): (n: nat)
    requires b <= |code|
    ensures n == multiset(code[..b])['\n'] + 1
  {
    NewlineCount(code[..b]) + 1
  }

  /** What lexing produces: the token list, or the illegal text and its line. */
  datatype Analysis =
    | Ok(tokens: seq<Token>)
    | IllegalCharacters(text: string, line: nat)

  /** The result lexing must have on `code`: the kept tokens when the reference scan
      consumes the whole input; otherwise the run of non-whitespace characters at the
      position where it stopped, with that position's line. */
  function LexWith(ps: PatternSet, code: string): Analysis
    requires Classifies(ps)
  {
    var stop := Stop(ps, code, 0);
    if stop == |code| then Ok(NonWhitespace(Finals(ps, code, 0)))
    else IllegalCharacters(code[stop..RunEnd(code, stop)], LineOf(code, stop))
  }

  /** The candidate at b does not match at any end before m, matches at every end from
      m through e, and fails at e + 1 (or the input ends after e): the span the loop
      finalizes for it. */
  ghost predicate Run(ps: PatternSet, code: string, b: nat, m: nat, e: nat)
  {
    && b <= m <= e < |code|
    && (forall k :: b <= k < m ==> !Matches(ps, code, b, k))
    && (forall k :: m <= k <= e ==> Matches(ps, code, b, k))
    && (e + 1 == |code| || !Matches(ps, code, b, e + 1))
  }

  /** finals cuts code[b..p] left to right into the spans the reference scan
      finalizes, each as its token. */
  ghost predicate Tiling(ps: PatternSet, code: string, b: nat, finals: seq<Token>, p: nat)
    requires Classifies(ps)
    decreases |finals|
  {
    && b <= p <= |code|
    && if finals == [] then b == p
       else
         var s := p - |finals[|finals| - 1].lexeme|;
         && b <= s < p
         && NextEnd(ps, code, s) == Some(p - 1)
         && finals[|finals| - 1] == Final(ps, code, s, p - 1)
         && Tiling(ps, code, b, finals[..|finals| - 1], s)
  }

  /** `lexical_analysis`: grows the candidate window one character at a time,
      remembers the last end at which it matched, finalizes that span at the first
      failing extension (keeping it unless it is whitespace), and retries the breaking
      character as the next start. If scanning ends before the input does, the result
      names the illegal characters and their line. */
  method Scan(ps: PatternSet, code: string) returns (r: Analysis)
    requires Classifies(ps)
    ensures r == LexWith(ps, code)
  {
    var res: seq<Token> := [];
    var begPos: nat, endPos: nat, i: nat := 0, 0, 0;
    var lastTimeMatched := false;
    ghost var finals: seq<Token> := [];
    ghost var firstEnd: nat := 0;
    while i != |code| + 1
      invariant begPos <= i <= |code| + 1 && begPos <= |code|
      invariant lastTimeMatched ==> begPos <= endPos && i == endPos + 1 && i <= |code|
      invariant Tiling(ps, code, 0, finals, begPos)
      invariant res == NonWhitespace(finals)
      invariant !lastTimeMatched ==> forall k :: begPos <= k < i && k < |code| ==> !Matches(ps, code, begPos, k)
      invariant lastTimeMatched ==> begPos <= firstEnd <= endPos
      invariant lastTimeMatched ==> forall k :: begPos <= k < firstEnd ==> !Matches(ps, code, begPos, k)
      invariant lastTimeMatched ==> forall k :: firstEnd <= k <= endPos ==> Matches(ps, code, begPos, k)
      decreases |code| + 1 - i, if lastTimeMatched then 1 else 0
    {
      if i != |code| && Matches(ps, code, begPos, i) {
        if !lastTimeMatched {
          firstEnd := i;
        }
        endPos := i;
        lastTimeMatched := true;
      } else if lastTimeMatched {
        assert Matches(ps, code, begPos, endPos);
        assert i < |code| ==> !Matches(ps, code, begPos, i);
        var token := Final(ps, code, begPos, endPos);
        if token.kind != Whitespace {
          res := res + [token];
        }
        assert Run(ps, code, begPos, firstEnd, endPos);
        FinalizeRun(ps, code, finals, begPos, firstEnd, endPos);
        finals := finals + [token];
        begPos := i;
        i := i - 1;
        lastTimeMatched := false;
      } else {
        assert i < |code| ==> !Matches(ps, code, begPos, i);
      }
      i := i + 1;
    }
    Conclude(ps, code, finals, begPos);
    if i == |code| + 1 && begPos + 1 != i {
      var pos := IllegalRunEnd(code, begPos);
      r := IllegalCharacters(code[begPos..pos], NewlineCount(code[..begPos]) + 1);
    } else {
      r := Ok(res);
    }
  }

  /** The loop of the error path: steps over the characters from b that are not
      ASCII whitespace. */
  method IllegalRunEnd(code: string, b: nat) returns (pos: nat)
    requires b <= |code|
    ensures pos == RunEnd(code, b)
  {
    pos := b;
    while pos < |code| && !IsAsciiWhitespace(code[pos])
      invariant b <= pos <= |code|
      invariant RunEnd(code, pos) == RunEnd(code, b)
    {
      pos := pos + 1;
    }
  }

  /** The search for a first match skips ends known not to match. */
  lemma {:induction false} SkipUnmatched(ps: PatternSet, code: string, b: nat, j: nat, m: nat)
    requires j <= m <= |code|
    requires forall k :: j <= k < m ==> !Matches(ps, code, b, k)
    ensures EndFrom(ps, code, b, j, None) == EndFrom(ps, code, b, m, None)
    decreases m - j
  {
    if j < m {
      SkipUnmatched(ps, code, b, j + 1, m);
    }
  }

  /** Once matching, the search follows the run of matching ends up to the first
      failing one. */
  lemma {:induction false} RunTo(ps: PatternSet, code: string, b: nat, k: nat, e: nat, last: Option<nat>)
    requires k <= e + 1 && e < |code|
    requires last.Some? ==> Matches(ps, code, b, last.value)
    requires forall k' :: k <= k' <= e ==> Matches(ps, code, b, k')
    requires k == e + 1 ==> last == Some(e)
    requires e + 1 == |code| || !Matches(ps, code, b, e + 1)
    ensures EndFrom(ps, code, b, k, last) == Some(e)
    decreases e + 1 - k
  {
    if k <= e {
      RunTo(ps, code, b, k + 1, e, Some(k));
    }
  }

  /** A run is what the reference scan finalizes. */
  lemma NextEndOfRun(ps: PatternSet, code: string, b: nat, m: nat, e: nat)
    requires Run(ps, code, b, m, e)
    ensures NextEnd(ps, code, b) == Some(e)
  {
    SkipUnmatched(ps, code, b, b, m);
    RunTo(ps, code, b, m, e, None);
  }

  /** Finalizing a run extends the tiling by its token. */
  lemma TilingExtend(ps: PatternSet, code: string, finals: seq<Token>, b: nat, m: nat, e: nat)
    requires Classifies(ps) && Tiling(ps, code, 0, finals, b)
    requires Run(ps, code, b, m, e)
    ensures Tiling(ps, code, 0, finals + [Final(ps, code, b, e)], e + 1)
  {
    NextEndOfRun(ps, code, b, m, e);
    assert (finals + [Final(ps, code, b, e)])[..|finals|] == finals;
  }

  /** One finalize step of the loop: the run's token extends the tiling, and the
      kept tokens grow by it unless it is whitespace. */
  lemma FinalizeRun(ps: PatternSet, code: string, finals: seq<Token>, b: nat, m: nat, e: nat)
    requires Classifies(ps) && Tiling(ps, code, 0, finals, b)
    requires Run(ps, code, b, m, e)
    ensures Tiling(ps, code, 0, finals + [Final(ps, code, b, e)], e + 1)
    ensures var t := Final(ps, code, b, e);
            NonWhitespace(finals + [t]) == NonWhitespace(finals) + (if t.kind == Whitespace then [] else [t])
  {
    TilingExtend(ps, code, finals, b, m, e);
    KeepStep(finals, Final(ps, code, b, e));
  }

  /** Finalizing one more token keeps it unless it is whitespace. */
  lemma KeepStep(ts: seq<Token>, t: Token)
    ensures NonWhitespace(ts + [t]) == NonWhitespace(ts) + (if t.kind == Whitespace then [] else [t])
  {
    assert (ts + [t])[..|ts|] == ts;
  }

  /** One step of the reference scan. */
  lemma FinalizeStep(ps: PatternSet, code: string, b: nat, e: nat)
    requires Classifies(ps) && NextEnd(ps, code, b) == Some(e)
    ensures Finals(ps, code, b) == [Final(ps, code, b, e)] + Finals(ps, code, e + 1)
    ensures Stop(ps, code, b) == Stop(ps, code, e + 1)
  {
  }

  /** The reference scan stops where no span is finalized. */
  lemma Stuck(ps: PatternSet, code: string, b: nat)
    requires Classifies(ps) && b <= |code|
    requires NextEnd(ps, code, b).None?
    ensures Finals(ps, code, b) == [] && Stop(ps, code, b) == b
  {
  }

  /** When the candidate at b matches nowhere, the tiling up to b settles the result. */
  lemma Finish(ps: PatternSet, code: string, finals: seq<Token>, b: nat)
    requires Classifies(ps) && b <= |code|
    requires forall k :: b <= k < |code| ==> !Matches(ps, code, b, k)
    requires Finals(ps, code, 0) == finals + Finals(ps, code, b)
    requires Stop(ps, code, 0) == Stop(ps, code, b)
    ensures b == |code| ==> LexWith(ps, code) == Ok(NonWhitespace(finals))
    ensures b < |code| ==> LexWith(ps, code) == IllegalCharacters(code[b..RunEnd(code, b)], LineOf(code, b))
  {
    SkipUnmatched(ps, code, b, b, |code|);
    Stuck(ps, code, b);
    assert finals + [] == finals;
  }

  /** A tiling up to b, with no span from b accepted, settles the result. */
  lemma Conclude(ps: PatternSet, code: string, finals: seq<Token>, b: nat)
    requires Classifies(ps) && Tiling(ps, code, 0, finals, b)
    requires forall k :: b <= k < |code| ==> !Matches(ps, code, b, k)
    ensures b == |code| ==> LexWith(ps, code) == Ok(NonWhitespace(finals))
    ensures b < |code| ==> LexWith(ps, code) == IllegalCharacters(code[b..RunEnd(code, b)], LineOf(code, b))
  {
    TilingFinals(ps, code, 0, finals, b);
    TilingStop(ps, code, 0, finals, b);
    Finish(ps, code, finals, b);
  }

  /** A tiling up to p is the prefix of the reference scan that ends at p. */
  lemma {:induction false} TilingFinals(ps: PatternSet, code: string, b: nat, finals: seq<Token>, p: nat)
    requires Classifies(ps) && Tiling(ps, code, b, finals, p)
    ensures Finals(ps, code, b) == finals + Finals(ps, code, p)
    decreases |finals|
  {
    if finals == [] {
      assert finals + Finals(ps, code, p) == Finals(ps, code, p);
    } else {
      var s := p - |finals[|finals| - 1].lexeme|;
      TilingFinals(ps, code, b, finals[..|finals| - 1], s);
      FinalizeStep(ps, code, s, p - 1);
      JoinLast(Finals(ps, code, b), finals, Finals(ps, code, s), Finals(ps, code, p));
    }
  }

  /** The reference scan from b stops where the scan from the end of a tiling does. */
  lemma {:induction false} TilingStop(ps: PatternSet, code: string, b: nat, finals: seq<Token>, p: nat)
    requires Classifies(ps) && Tiling(ps, code, b, finals, p)
    ensures Stop(ps, code, b) == Stop(ps, code, p)
    decreases |finals|
  {
    if finals != [] {
      var s := p - |finals[|finals| - 1].lexeme|;
      TilingStop(ps, code, b, finals[..|finals| - 1], s);
      FinalizeStep(ps, code, s, p - 1);
    }
  }

  lemma JoinLast<T>(whole: seq<T>, xs: seq<T>, rest: seq<T>, tail: seq<T>)
    requires |xs| > 0
    requires whole == xs[..|xs| - 1] + rest
    requires rest == [xs[|xs| - 1]] + tail
    ensures whole == xs + tail
  {
    assert xs == xs[..|xs| - 1] + [xs[|xs| - 1]];
  }
}
