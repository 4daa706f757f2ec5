/** Lexical categories and tokens of the PL/0 lexer (the `Class` enum and the `Token` struct). */
module Tokens {

  /** The lexical categories, in the order the lexer declares them. `Whitespace` is
      used while scanning only; it never reaches the token list. */
  datatype Class =
    | Whitespace
      // reserved words
    | Begin | End | Call | Do | While | If | Then | Odd
    | Procedure | Const | Var | Read | Write
      // identifiers
    | Identifies
      // operators and punctuation
    | Plus       // +
    | Minus      // -
    | Times      // *
    | Slash      // /
    | Equal      // =
    | Neq        // <>
    | Leq        // <=
    | Lss        // <
    | Geq        // >=
    | Gtr        // >
    | Becomes    // :=
    | Lparen     // (
    | Rparen     // )
    | Comma      // ,
    | Semicolon  // ;
    | Period     // .
      // integer literals
    | Number

  /** A token: its category and the exact text it was cut from, in its original case. */
  datatype Token = Token(kind: Class, lexeme: string)
}
