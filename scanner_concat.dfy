/** Lexing two texts joined by a space: for a pattern set that accepts a space alone
    as whitespace and accepts no longer span holding a space, the scan of `a + " " + b`
    is the scan of `a`, then the space, then the scan of `b` shifted past them. */
module ScannerConcat {
  import opened Tokens
  import opened Text
  import opened Scanner
  import opened ScannerFacts

  /** The set accepts a space alone, as whitespace, and no span of two or more
      characters that holds a space. */
  ghost predicate Separates(ps: PatternSet)
  {
    && ps.isMatch(" ") && ps.category.requires(" ") && ps.category(" ") == Whitespace
    && (forall s, i :: ps.isMatch(s) && 2 <= |s| && 0 <= i < |s| ==> s[i] != ' ')
  }

  /** An optional position moved d places on. */
  function Shift(d: nat, o: Option<nat>): Option<nat>
  {
    if o.Some? then Some(d + o.value) else None
  }

  // ---------------------------------------------------------------------------
  // Spans of the joined text

  /** A span inside the first text is judged as in that text alone. */
  lemma MatchesInFirst(ps: PatternSet, a: string, b: string, c: string, p: nat, k: nat)
    requires c == a + " " + b && p <= k < |a|
    ensures Matches(ps, c, p, k) == Matches(ps, a, p, k)
  {
    assert c[p..k + 1] == a[p..k + 1];
  }

  /** A span of two or more characters over the joining space is never accepted. */
  lemma MatchesAcross(ps: PatternSet, a: string, b: string, c: string, p: nat, k: nat)
    requires Separates(ps) && c == a + " " + b && p <= |a| <= k && p < k
    ensures !Matches(ps, c, p, k)
  {
    if k < |c| {
      var s := Lower(c[p..k + 1]);
      LowerAt(c[p..k + 1]);
      assert s[|a| - p] == ' ';
    }
  }

  /** A span inside the second text is judged as in that text alone. */
  lemma MatchesInSecond(ps: PatternSet, a: string, b: string, c: string, x: nat, y: nat)
    requires c == a + " " + b
    ensures Matches(ps, c, |a| + 1 + x, |a| + 1 + y) == Matches(ps, b, x, y)
  {
    if x <= y < |b| {
      assert c[|a| + 1 + x..|a| + 1 + y + 1] == b[x..y + 1];
    }
  }

  // ---------------------------------------------------------------------------
  // The second text, shifted

  lemma {:induction false} EndFromInSecond(ps: PatternSet, a: string, b: string, c: string, x: nat, j: nat, last: Option<nat>)
    requires c == a + " " + b
    requires last.Some? ==> Matches(ps, b, x, last.value)
    ensures last.Some? ==> Matches(ps, c, |a| + 1 + x, |a| + 1 + last.value)
    ensures EndFrom(ps, c, |a| + 1 + x, |a| + 1 + j, Shift(|a| + 1, last)) == Shift(|a| + 1, EndFrom(ps, b, x, j, last))
    decreases |b| - j
  {
    MatchesInSecond(ps, a, b, c, x, j);
    if last.Some? {
      MatchesInSecond(ps, a, b, c, x, last.value);
    }
    if j < |b| && Matches(ps, b, x, j) {
      EndFromInSecond(ps, a, b, c, x, j + 1, Some(j));
    } else if last.Some? || j >= |b| {
    } else {
      EndFromInSecond(ps, a, b, c, x, j + 1, None);
    }
  }

  /** From inside the second text on, the joined text is scanned as the second text
      alone: the stop position is shifted past the first text and the space, ... */
  lemma {:induction false} StopInSecond(ps: PatternSet, a: string, b: string, c: string, x: nat)
    requires c == a + " " + b && x <= |b|
    ensures Stop(ps, c, |a| + 1 + x) == |a| + 1 + Stop(ps, b, x)
    decreases |b| - x
  {
    EndFromInSecond(ps, a, b, c, x, x, None);
    match NextEnd(ps, b, x)
    case None =>
    case Some(e) =>
      StopInSecond(ps, a, b, c, e + 1);
  }

  /** ... and the tokens are the same. */
  lemma {:induction false} FinalsInSecond(ps: PatternSet, a: string, b: string, c: string, x: nat)
    requires Classifies(ps) && c == a + " " + b && x <= |b|
    ensures Finals(ps, c, |a| + 1 + x) == Finals(ps, b, x)
    decreases |b| - x
  {
    EndFromInSecond(ps, a, b, c, x, x, None);
    match NextEnd(ps, b, x)
    case None =>
    case Some(e) =>
      MatchesInSecond(ps, a, b, c, x, e);
      assert c[|a| + 1 + x..|a| + 1 + e + 1] == b[x..e + 1];
      FinalsInSecond(ps, a, b, c, e + 1);
  }

  lemma {:induction false} RunEndInSecond(a: string, b: string, c: string, x: nat)
    requires c == a + " " + b && x <= |b|
    ensures RunEnd(c, |a| + 1 + x) == |a| + 1 + RunEnd(b, x)
    decreases |b| - x
  {
    if x < |b| {
      assert c[|a| + 1 + x] == b[x];
      RunEndInSecond(a, b, c, x + 1);
    }
  }

  // ---------------------------------------------------------------------------
  // The first text

  lemma {:induction false} EndFromInFirst(ps: PatternSet, a: string, b: string, c: string, p: nat, j: nat, last: Option<nat>)
    requires Separates(ps) && c == a + " " + b && p < |a| && p <= j <= |a|
    requires last.Some? ==> Matches(ps, a, p, last.value)
    ensures last.Some? ==> Matches(ps, c, p, last.value)
    ensures EndFrom(ps, c, p, j, last) == EndFrom(ps, a, p, j, last)
    decreases |a| - j
  {
    if last.Some? {
      MatchesInFirst(ps, a, b, c, p, last.value);
    }
    if j < |a| {
      MatchesInFirst(ps, a, b, c, p, j);
      if Matches(ps, a, p, j) {
        EndFromInFirst(ps, a, b, c, p, j + 1, Some(j));
      } else if last.None? {
        EndFromInFirst(ps, a, b, c, p, j + 1, None);
      }
    } else {
      MatchesAcross(ps, a, b, c, p, j);
      if last.None? {
        forall k | |a| + 1 <= k < |c|
          ensures !Matches(ps, c, p, k)
        {
          MatchesAcross(ps, a, b, c, p, k);
        }
        SkipUnmatched(ps, c, p, |a| + 1, |c|);
      }
    }
  }

  /** At position p the joined text c cuts the same span as the first text a, with
      the same token. */
  ghost predicate AgreesAt(ps: PatternSet, a: string, c: string, p: nat)
    requires Classifies(ps)
  {
    && NextEnd(ps, c, p) == NextEnd(ps, a, p)
    && (NextEnd(ps, a, p).Some? ==>
          Final(ps, c, p, NextEnd(ps, a, p).value) == Final(ps, a, p, NextEnd(ps, a, p).value))
  }

  /** Inside the first text, the joined text cuts as the first text alone does. */
  lemma FirstAgrees(ps: PatternSet, a: string, b: string, c: string)
    requires Classifies(ps) && Separates(ps) && c == a + " " + b
    ensures forall p :: 0 <= p < |a| ==> AgreesAt(ps, a, c, p)
  {
    forall p | 0 <= p < |a|
      ensures AgreesAt(ps, a, c, p)
    {
      EndFromInFirst(ps, a, b, c, p, p, None);
      if NextEnd(ps, a, p).Some? {
        var e := NextEnd(ps, a, p).value;
        MatchesInFirst(ps, a, b, c, p, e);
        assert c[p..e + 1] == a[p..e + 1];
      }
    }
  }

  /** Up to the end of the first text, the joined text is scanned as the first text
      alone. Where that scan stops early, so does the joined one; where it reaches
      the end of the first text, the joined scan goes on from the space ... */
  lemma {:induction false} StopInFirst(ps: PatternSet, a: string, c: string, p: nat)
    requires Classifies(ps) && p <= |a| < |c|
    requires forall q :: 0 <= q < |a| ==> AgreesAt(ps, a, c, q)
    ensures Stop(ps, c, p) == if Stop(ps, a, p) == |a| then Stop(ps, c, |a|) else Stop(ps, a, p)
    decreases |a| - p
  {
    if p < |a| {
      assert AgreesAt(ps, a, c, p);
      match NextEnd(ps, a, p)
      case None =>
      case Some(e) =>
        StopInFirst(ps, a, c, e + 1);
    }
  }

  /** ... with the tokens of the first text before those from the space on. */
  lemma {:induction false} FinalsInFirst(ps: PatternSet, a: string, c: string, p: nat)
    requires Classifies(ps) && p <= |a| < |c|
    requires forall q :: 0 <= q < |a| ==> AgreesAt(ps, a, c, q)
    ensures Stop(ps, a, p) == |a| ==> Finals(ps, c, p) == Finals(ps, a, p) + Finals(ps, c, |a|)
    decreases |a| - p
  {
    if p == |a| {
      assert Finals(ps, a, p) == [];
      assert [] + Finals(ps, c, |a|) == Finals(ps, c, |a|);
    } else {
      assert AgreesAt(ps, a, c, p);
      match NextEnd(ps, a, p)
      case None =>
      case Some(e) =>
        FinalsInFirst(ps, a, c, e + 1);
        var t := Final(ps, a, p, e);
        if Stop(ps, a, p) == |a| {
          assert [t] + (Finals(ps, a, e + 1) + Finals(ps, c, |a|)) == ([t] + Finals(ps, a, e + 1)) + Finals(ps, c, |a|);
        }
    }
  }

  lemma {:induction false} RunEndInFirst(a: string, b: string, c: string, p: nat)
    requires c == a + " " + b && p <= |a|
    ensures RunEnd(c, p) == RunEnd(a, p)
    decreases |a| - p
  {
    assert c[|a|] == ' ';
    if p < |a| {
      assert c[p] == a[p];
      RunEndInFirst(a, b, c, p + 1);
    }
  }

  // ---------------------------------------------------------------------------
  // The space between

  /** The joining space is a run of its own: accepted alone, and not together with
      the character after it. */
  lemma SeparatorRun(ps: PatternSet, a: string, b: string, c: string)
    requires Separates(ps) && c == a + " " + b
    ensures Run(ps, c, |a|, |a|, |a|)
    ensures NextEnd(ps, c, |a|) == Some(|a|)
  {
    assert c[|a|..|a| + 1] == " ";
    LowerNoCapitals(" ");
    if |a| + 1 < |c| {
      MatchesAcross(ps, a, b, c, |a|, |a| + 1);
    }
    NextEndOfRun(ps, c, |a|, |a|, |a|);
  }

  /** After the joining space the scan carries on with the second text ... */
  lemma SeparatorStop(ps: PatternSet, a: string, b: string, c: string)
    requires Separates(ps) && c == a + " " + b
    ensures Stop(ps, c, |a|) == |a| + 1 + Stop(ps, b, 0)
  {
    SeparatorRun(ps, a, b, c);
    StopInSecond(ps, a, b, c, 0);
  }

  /** ... having cut the space as a whitespace token. */
  lemma SeparatorFinals(ps: PatternSet, a: string, b: string, c: string)
    requires Classifies(ps) && Separates(ps) && c == a + " " + b
    ensures Matches(ps, c, |a|, |a|)
    ensures Final(ps, c, |a|, |a|).kind == Whitespace
    ensures Finals(ps, c, |a|) == [Final(ps, c, |a|, |a|)] + Finals(ps, b, 0)
  {
    SeparatorRun(ps, a, b, c);
    assert c[|a|..|a| + 1] == " ";
    LowerNoCapitals(" ");
    FinalsInSecond(ps, a, b, c, 0);
  }

  // ---------------------------------------------------------------------------
  // The whole

  /** Lexing `a + " " + b`: the error of `a` if it has one; otherwise the error of `b`
      with its line moved down by the line feeds of `a`; otherwise the tokens of `a`
      followed by those of `b`. */
  lemma LexWithConcat(ps: PatternSet, a: string, b: string, c: string)
    requires Classifies(ps) && Separates(ps) && c == a + " " + b
    ensures LexWith(ps, a).IllegalCharacters? ==> LexWith(ps, c) == LexWith(ps, a)
    ensures LexWith(ps, a).Ok? && LexWith(ps, b).IllegalCharacters? ==>
              LexWith(ps, c) == IllegalCharacters(LexWith(ps, b).text, LexWith(ps, b).line + NewlineCount(a))
    ensures LexWith(ps, a).Ok? && LexWith(ps, b).Ok? ==>
              LexWith(ps, c) == Ok(LexWith(ps, a).tokens + LexWith(ps, b).tokens)
  {
    if Stop(ps, a, 0) < |a| {
      FirstFails(ps, a, b, c);
    } else if Stop(ps, b, 0) < |b| {
      SecondFails(ps, a, b, c);
    } else {
      BothSucceed(ps, a, b, c);
    }
  }

  lemma FirstFails(ps: PatternSet, a: string, b: string, c: string)
    requires Classifies(ps) && Separates(ps) && c == a + " " + b
    requires Stop(ps, a, 0) < |a|
    ensures LexWith(ps, c) == LexWith(ps, a)
  {
    FirstAgrees(ps, a, b, c);
    StopInFirst(ps, a, c, 0);
    var sa := Stop(ps, a, 0);
    RunEndInFirst(a, b, c, sa);
    assert c[sa..RunEnd(a, sa)] == a[sa..RunEnd(a, sa)];
    assert c[..sa] == a[..sa];
  }

  lemma SecondFails(ps: PatternSet, a: string, b: string, c: string)
    requires Classifies(ps) && Separates(ps) && c == a + " " + b
    requires Stop(ps, a, 0) == |a| && Stop(ps, b, 0) < |b|
    ensures LexWith(ps, c) == IllegalCharacters(LexWith(ps, b).text, LexWith(ps, b).line + NewlineCount(a))
  {
    FirstAgrees(ps, a, b, c);
    StopInFirst(ps, a, c, 0);
    SeparatorStop(ps, a, b, c);
    var sb := Stop(ps, b, 0);
    assert Stop(ps, c, 0) == |a| + 1 + sb;
    ReportInSecond(a, b, c, sb);
    var p, extra := |a| + 1 + sb, NewlineCount(a);
    assert Stop(ps, c, 0) == p < |c|;
    assert Stop(ps, b, 0) == sb < |b|;
    assert c[p..RunEnd(c, p)] == b[sb..RunEnd(b, sb)];
    assert LineOf(c, p) == LineOf(b, sb) + extra;
    ShiftedReport(ps, b, c, p, sb, extra);
  }

  /** Two scans that stop at positions with the same run and lines `extra` apart
      report the same text, on lines `extra` apart. */
  lemma ShiftedReport(ps: PatternSet, b: string, c: string, p: nat, x: nat, extra: nat)
    requires Classifies(ps) && Stop(ps, c, 0) == p < |c| && Stop(ps, b, 0) == x < |b|
    requires c[p..RunEnd(c, p)] == b[x..RunEnd(b, x)]
    requires LineOf(c, p) == LineOf(b, x) + extra
    ensures LexWith(ps, c) == IllegalCharacters(LexWith(ps, b).text, LexWith(ps, b).line + extra)
  {
    StoppedAt(ps, c, p);
    StoppedAt(ps, b, x);
  }

  /** A scan that stops at p before the end reports the run and the line at p. */
  lemma StoppedAt(ps: PatternSet, code: string, p: nat)
    requires Classifies(ps) && Stop(ps, code, 0) == p < |code|
    ensures LexWith(ps, code) == IllegalCharacters(code[p..RunEnd(code, p)], LineOf(code, p))
  {
  }

  /** The illegal text and line reported at a position of the second text. */
  lemma ReportInSecond(a: string, b: string, c: string, x: nat)
    requires c == a + " " + b && x <= |b|
    ensures |a| + 1 + x <= |c|
    ensures c[|a| + 1 + x..RunEnd(c, |a| + 1 + x)] == b[x..RunEnd(b, x)]
    ensures LineOf(c, |a| + 1 + x) == LineOf(b, x) + NewlineCount(a)
  {
    RunEndInSecond(a, b, c, x);
    assert c[|a| + 1 + x..|a| + 1 + RunEnd(b, x)] == b[x..RunEnd(b, x)];
    assert c[..|a| + 1 + x] == (a + " ") + b[..x];
    NewlineCountAppend(a + " ", b[..x]);
    NewlineCountAppend(a, " ");
  }

  lemma BothSucceed(ps: PatternSet, a: string, b: string, c: string)
    requires Classifies(ps) && Separates(ps) && c == a + " " + b
    requires Stop(ps, a, 0) == |a| && Stop(ps, b, 0) == |b|
    ensures LexWith(ps, c) == Ok(NonWhitespace(Finals(ps, a, 0)) + NonWhitespace(Finals(ps, b, 0)))
  {
    FirstAgrees(ps, a, b, c);
    StopInFirst(ps, a, c, 0);
    SeparatorStop(ps, a, b, c);
    assert Stop(ps, c, 0) == |c|;
    FinalsInFirst(ps, a, c, 0);
    SeparatorFinals(ps, a, b, c);
    DropSeparator(Finals(ps, a, 0), Final(ps, c, |a|, |a|), Finals(ps, b, 0));
  }

  /** A whitespace token between two lists is dropped with the whitespace. */
  lemma DropSeparator(front: seq<Token>, t: Token, back: seq<Token>)
    requires t.kind == Whitespace
    ensures NonWhitespace(front + ([t] + back)) == NonWhitespace(front) + NonWhitespace(back)
  {
    NonWhitespaceAppend(front, [t] + back);
    NonWhitespaceAppend([t], back);
    assert [t][..0] == [];
    assert NonWhitespace([t]) == [];
    assert [] + NonWhitespace(back) == NonWhitespace(back);
  }
}
