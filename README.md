# PL/0 lexer, modelled in Dafny

This project models the lexer of a PL/0 front end (`lex/src/lib.rs`). The lexer
turns source text into a list of tokens. Each token is a lexical category (`Class`)
and the lexeme it was read from. Reserved words, identifiers, operators and
punctuation, and unsigned numbers are recognised by a table of 32 anchored
patterns (`SPECIFICATION`), paired index for index with a category table
(`GET_CLASS`).

`lexical_analysis` moves a candidate window over the input, one byte at a time.
Each extension is lower-cased and tested against the table. The window grows as
long as it is accepted, and also through prefixes that nothing accepts yet. At the
first failing extension after a match, it cuts at the last accepted end. The cut
span takes the category of the lowest-indexed accepting pattern, and is kept
unless it is whitespace. The failing character then starts the next candidate. If
the scan gets stuck before the end of the input, the lexer reports the illegal
characters and the line they are on.

Files:

- `tokens.dfy`: the datatype `Class` with the 32 categories in the order of
  lib.rs:6-42, and the datatype `Token(kind, lexeme)` for the struct of
  lib.rs:126-129. The field `class` is called `kind`, because `class` is a Dafny
  keyword.
- `text.dfy`:
  - ASCII lower-casing, as `to_lowercase` does it on ASCII;
  - `char::is_ascii_whitespace`;
  - counting line feeds.
- `patterns.dfy`:
  - the pattern table as predicates, and the category table. The constants
    `Keywords` (lib.rs:90-102) and `Operators` (lib.rs:104-119) hold the exact
    patterns, and `GetClass` is the category table of lib.rs:49-85;
  - the lowest-index choice, `matches(..)[0]`;
  - which category each kind of word gets.
- `scanner.dfy`:
  - `Scan`, the loop of `lexical_analysis`, written for any pattern set with the
    same two queries (`is_match`, and the category of the first match);
  - `LexWith`, a recursive reference definition of its result, which `Scan` is
    proved to compute;
  - the error-path loop `IllegalRunEnd`.
- `scanner_facts.dfy`: properties of the reference definition for any pattern
  set:
  - how a span is cut;
  - that the spans tile the input;
  - the error report;
  - insensitivity to case.
- `scanner_concat.dfy`: lexing two texts joined by a space, for any pattern set
  that accepts a space alone as whitespace and no longer span holding a space.
- `lexer.dfy`:
  - `LexicalAnalysis` over the PL/0 table;
  - what the result means for PL/0 text. The tokens spell the input without its
    whitespace, and each token has the category of its first accepting pattern.
    The error report is characterised, case does not matter, and lexing two
    texts joined by a space gives the tokens of one and then the other.
- `lexer_examples.dfy`: worked inputs:
  - `<=` and `:=` as single operators;
  - `abc` at the end of the input;
  - `BEGIN`/`begin`;
  - `1a` as a number then an identifier;
  - the error on line 3;
  - the empty input.

The process exit on illegal characters is modelled as a result value,
`IllegalCharacters(text, line)`. The successful result is `Ok(tokens)`.

## Model

| member | source | states |
|---|---|---|
| Lexer.LexicalAnalysis | lex/src/lib.rs:166-209 | On ASCII input, the result is exactly the reference result `LexWith` for the PL/0 table. |
| Scanner.Scan | lex/src/lib.rs:166-209 | For any pattern set whose category query is defined on every accepted span, the windowed loop returns `LexWith(ps, code)`. That is the whitespace-free tokens of the spans the reference scan cuts, or the illegal run and its line where that scan stops. |
| Scanner.LexWith | lex/src/lib.rs:166-209 | The reference result. It is `Ok` of the non-whitespace cut tokens when the reference scan consumes the whole input. Otherwise it is the run of characters that are not ASCII whitespace at the stop position, with that position's line. |
| Scanner.NonWhitespace | lex/src/lib.rs:182-187 | The cut tokens in order, without the `Whitespace` ones: the tokens the loop pushes. |
| Scanner.IllegalRunEnd | lex/src/lib.rs:197-204 | The error-path loop stops at the first ASCII whitespace character at or after the start, or at the end of the input. |
| Scanner.RunEnd | lex/src/lib.rs:197-204 | The returned end is at or after the start. Every character before it is not ASCII whitespace, and it is the end of the input or an ASCII whitespace character. |
| Scanner.LineOf | lex/src/lib.rs:205 | The line reported for a position is one more than the number of line feeds before it. |
| Scanner.Matches | lex/src/lib.rs:176 | The lower-cased span from b through the inclusive end e, with e inside the input, is accepted by the set: the test of the loop with `e = i`. |
| Scanner.NextEnd | lex/src/lib.rs:175-191 | The end at which the loop cuts the candidate starting at b, or none when no extension of it is ever accepted. |
| Scanner.Finals | lex/src/lib.rs:180-186 | Every span the loop finalizes from b on, whitespace included, as tokens in order, up to the start position where no span is cut. |
| Scanner.EndFrom | lex/src/lib.rs:175-193 | The end chosen for a candidate is one at which the candidate is accepted, and once one end has been accepted, some end is always chosen. |
| Scanner.Final | lex/src/lib.rs:180-186 | A cut span's token has the span from the start through the inclusive end as its lexeme, with the span's length. |
| Scanner.Stop | lex/src/lib.rs:175-195 | The position where scanning stops lies between the start and the end of the input. |
| Scanner.NextEndOfRun | lex/src/lib.rs:176-191 | A candidate that fails up to m, is accepted from m through e, and fails at e + 1 (or reaches the end) is cut at e. |
| Scanner.FinalizeRun | lex/src/lib.rs:179-191 | Cutting a run extends the tiling of the input by that run's token. The kept list grows by the token unless it is whitespace. |
| Scanner.Conclude | lex/src/lib.rs:195-208 | When the spans tile the input up to b and no span from b is accepted, the result is `Ok` of the kept tokens if b is the end of the input. Otherwise it is the illegal run at b and its line. |
| ScannerFacts.NextEndIsRun | lex/src/lib.rs:175-193 | The loop cuts a candidate at e if and only if the candidate fails before some m, is accepted at every end from m through e, and fails at e + 1 or meets the end of the input. |
| ScannerFacts.NextEndNone | lex/src/lib.rs:175-195 | No span is cut for a candidate if and only if no extension of it is ever accepted. |
| ScannerFacts.FinalsCover | lex/src/lib.rs:175-193 | The cut spans, whitespace included, are non-empty and spell out the input from the start up to where scanning stops, in order. |
| ScannerFacts.FinalsClassified | lex/src/lib.rs:180-185 | Every cut span is accepted once lower-cased, and its token carries the category of its lower-cased text. |
| ScannerFacts.StopStuck | lex/src/lib.rs:195 | At the stop position no span is cut. |
| ScannerFacts.NonWhitespaceMembers | lex/src/lib.rs:182-187 | The kept tokens are exactly the cut tokens that are not whitespace. |
| ScannerFacts.NonWhitespaceAppend | lex/src/lib.rs:182-187 | Dropping whitespace tokens keeps order: it acts on each part of a list on its own. |
| ScannerFacts.LexWithOutcome | lex/src/lib.rs:195-208 | The result is `Ok` if and only if scanning reaches the end of the input, and then it holds the kept tokens. On failure, nothing from the stop position is accepted. The text starts there and ends at the next ASCII whitespace or at the end, and the line counts the line feeds before it. |
| ScannerFacts.LexWithError | lex/src/lib.rs:195-205 | When each ASCII whitespace character is accepted alone, failure happens if and only if scanning stops early. The reported text is then non-empty, contains no ASCII whitespace, and is maximal. |
| ScannerFacts.LexWithCaseInsensitive | lex/src/lib.rs:176-185 | Inputs equal once lower-cased both succeed or both fail. On success their tokens agree in category and in lexeme up to case. On failure they agree on the line, and on the text up to case. |
| ScannerConcat.LexWithConcat | lex/src/lib.rs:175-208 | For any pattern set that accepts a space alone as whitespace and no longer span holding one, the result for `a + " " + b` follows from the results for `a` and `b`. It is `a`'s error if there is one; otherwise `b`'s error on a line moved down by `a`'s line feeds; otherwise `a`'s tokens then `b`'s. |
| ScannerConcat.SeparatorFinals | lex/src/lib.rs:176-191 | In `a + " " + b`, the joining space is cut on its own as a `Whitespace` token, and the cut spans after it are those of `b`. |
| ScannerConcat.SeparatorStop | lex/src/lib.rs:175-193 | In `a + " " + b`, scanning from the joining space stops where scanning `b` stops, moved past `a` and the space. |
| ScannerConcat.FirstAgrees | lex/src/lib.rs:176-191 | Inside `a`, the joined text cuts the same spans with the same tokens as `a` alone. A span running onto the space is never accepted. |
| Lexer.LexTokens | lex/src/lib.rs:175-193 | On success no token is whitespace. Every lexeme is accepted once lower-cased, and its category is the entry of its lowest accepting pattern. The lexemes, concatenated, are the input without its `\s` characters. |
| Lexer.LexError | lex/src/lib.rs:195-205 | For PL/0, lexing fails exactly when scanning stops before the end. No span from there is accepted. The reported text starts there, is non-empty, holds no ASCII whitespace, and ends at ASCII whitespace or at the end. |
| Lexer.LexErrorLine | lex/src/lib.rs:205 | The reported line is one more than the line feeds before the stop position. |
| Lexer.LexCaseInsensitive | lex/src/lib.rs:176-185 | For PL/0, inputs equal once lower-cased lex alike: the same outcome, the same categories, lexemes equal up to case, and the same error line. |
| Lexer.LexConcat | lex/src/lib.rs:175-208 | Lexing `a + " " + b` gives the error of `a` if it has one. Otherwise it gives the error of `b`, with the same text and its line moved down by the line feeds in `a`. Otherwise it gives the tokens of `a` followed by the tokens of `b`. |
| Lexer.TableSeparates | lex/src/lib.rs:88-121 | The PL/0 table accepts a space alone as `Whitespace`, and accepts no span of two or more characters that holds a space. |
| Lexer.WhitespaceSpan | lex/src/lib.rs:88-121 | An accepted span is classified `Whitespace` if and only if it is one `\s` character. Any other accepted span contains no `\s` character. |
| Lexer.SpacesMatch | lex/src/lib.rs:89 | Each ASCII whitespace character is accepted on its own. |
| Patterns.FirstMatch | lex/src/lib.rs:180 | The search returns the lowest index from k on whose pattern accepts the text, or 32 when none does. |
| Patterns.Pattern | lex/src/lib.rs:88-121 | Entry k accepts a text exactly when the anchored pattern k matches all of it. The patterns are: one `\s` character; the 13 keywords; `([a-z]\|_)([a-z]\|_\|[0-9])*`; the 16 operators; and `[0-9][0-9]*`. |
| Patterns.IsMatch | lex/src/lib.rs:176 | `is_match`: some entry of the table accepts the text. |
| Patterns.Category | lex/src/lib.rs:180-184 | `GET_CLASS[indexs[0]]`: the category at the index of the lowest accepting entry. |
| Patterns.TableShape | lex/src/lib.rs:49-121 | The table has 13 keywords and 16 operators. Together with the whitespace, identifier and number patterns, that makes 32 patterns, one per category. |
| Patterns.Priority | lex/src/lib.rs:180-184 | For an accepted text, `indexs[0]` is an accepting pattern and no lower-indexed pattern accepts it. |
| Patterns.IsMatchAny | lex/src/lib.rs:176-180 | `is_match` holds if and only if the search through the table finds a pattern. |
| Patterns.IsMatchCases | lex/src/lib.rs:88-121 | A text is accepted if and only if it is one of these: a single `\s` character, a keyword, an identifier, an operator, or a run of digits. |
| Patterns.CategoryAt | lex/src/lib.rs:180-184 | If pattern k accepts a text and no lower one does, its category is `GET_CLASS[k]`. |
| Patterns.SpaceCategory | lex/src/lib.rs:88-89 | A single `\s` character is accepted and classified `Whitespace`. |
| Patterns.KeywordCategory | lex/src/lib.rs:88-103 | Each keyword also fits the identifier pattern, yet it gets its own keyword category, because the keyword patterns come first. |
| Patterns.IdentifierCategory | lex/src/lib.rs:88-103 | An identifier that is not a keyword is classified `Identifies`. |
| Patterns.OperatorCategory | lex/src/lib.rs:104-119 | Each operator or punctuation text gets the category at its own table index. |
| Patterns.NumberCategory | lex/src/lib.rs:120 | A run of digits is classified `Number`. |
| Patterns.KeywordsDistinct | lex/src/lib.rs:90-102 | No keyword pattern occurs twice. |
| Patterns.OperatorsDistinct | lex/src/lib.rs:104-119 | No operator pattern occurs twice. |
| Patterns.AcceptedChars | lex/src/lib.rs:88-121 | An accepted text is spelled with lower-case letters, digits, underscores and operator characters, unless it is a single `\s` character. |
| Patterns.ColonAlone | lex/src/lib.rs:88-121 | A colon alone is accepted by no pattern. |
| Patterns.DigitThenLetter | lex/src/lib.rs:103-120 | A digit followed by a letter is accepted by no pattern. |
| Patterns.ClassEntries | lex/src/lib.rs:49-85 | Category entries 0, 14 and 31 are `Whitespace`, `Identifies` and `Number`. |
| Text.ToLower | lex/src/lib.rs:176 | A capital letter becomes its lower-case letter (32 code points on), and every other character is unchanged. |
| Text.Lower | lex/src/lib.rs:176-180 | `to_lowercase` on ASCII text: the string with each character lower-cased on its own. |
| Text.IsAsciiWhitespace | lex/src/lib.rs:199 | `char::is_ascii_whitespace`: space, tab, line feed, form feed and carriage return. It does not include the vertical tab that `\s` also accepts. |
| Text.LowerAt | lex/src/lib.rs:176 | Lower-casing keeps the length and acts on each character on its own. |
| Text.NewlineCount | lex/src/lib.rs:205 | The count is the number of line feeds in the text, at most its length. |
| LexerExamples.EmptyExample | lex/src/lib.rs:175-195 | The empty input gives an empty token list and no error. |
| LexerExamples.LeqExample | lex/src/lib.rs:176-191 | `<=` is one `Leq` token, not `Lss` then `Equal`. |
| LexerExamples.BecomesExample | lex/src/lib.rs:176-191 | `:=` is one `Becomes` token. The window grows past `:`, which nothing accepts. |
| LexerExamples.AbcExample | lex/src/lib.rs:175-191 | `abc` is one `Identifies` token even though it ends at the end of the input. |
| LexerExamples.BeginExample | lex/src/lib.rs:176-185 | Both `BEGIN` and `begin` are one `Begin` token, not an identifier, and each keeps its own case. |
| LexerExamples.NumberThenIdentifierExample | lex/src/lib.rs:176-192 | `1a` is `Number` "1" followed by `Identifies` "a". |
| LexerExamples.IllegalExample | lex/src/lib.rs:195-205 | For `x`, line feed, `:=`, line feed, `#`, lexing fails with illegal text `#` on line 3. |
| LexerExamples.KeywordAlone | lex/src/lib.rs:88-103 | A keyword alone, in any case, is one token of its keyword category, and the lexeme keeps the input's case. |
| LexerExamples.IdentifierAlone | lex/src/lib.rs:103 | An identifier alone that is not a keyword is one `Identifies` token. |
| LexerExamples.NumberAlone | lex/src/lib.rs:120 | A run of digits alone, however long, is one `Number` token. |

## Left out

- `Config::new`, `get_tokens` and the binary's `main` read arguments and files, which is I/O. `lexical_analysis` takes the text as a parameter.
- The two `eprintln!` calls and `process::exit(1)` are not modelled. The model returns `IllegalCharacters(text, line)`, holding what the second message prints.
- The `regex` crate and `lazy_static` are not part of this model. Each pattern is written out as a predicate on the whole lower-cased span. `^…$` is read as whole-text matching, since `$` without multi-line mode matches only at the very end.
- Lexer.LexicalAnalysis: requires ASCII input. The loop tries every byte index as a window end, and slicing a `&str` inside a multi-byte character panics, so the source never completes on such text. For the same reason, `\s` covers only its ASCII members: tab, line feed, vertical tab, form feed, carriage return and space. Unicode lower-casing beyond ASCII is not modelled.
- Indices are unbounded integers. `usize` overflow cannot happen at the lengths involved.
