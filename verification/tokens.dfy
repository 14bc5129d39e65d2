/**
  Tokens of the language: the `TokenType` enumeration and the `Token`
  record with its constructors, `getKey` and `typeToString`. The other
  accessors and the setters are the record's fields and record update.
 */
module Tokens {

  /** The token kinds, in the order of the source enumeration. */
  datatype TokenKind =
    | Unknown     // lexeme not recognised / end of input
    | Keyword     // PROGRAM, INTEGER, REAL, END, CALL
    | Identifier
    | Integer     // integer constant
    | Real        // real constant
    | Assign      // "="
    | Plus        // "+"
    | Minus       // "-"
    | Comma       // ","
    | LParen      // "("
    | RParen      // ")"
    | Error       // malformed lexeme

  /** A token: its text, its kind and the source line it starts on. */
  datatype Token = Token(lexeme: string, kind: TokenKind, line: int)

  /** The default constructor `Token()`. */
  function DefaultToken(): (t: Token)
    ensures t.lexeme == [] && t.kind == Unknown && t.line == 1
  {
    Token("", Unknown, 1)
  }

  /** The two-argument constructor `Token(lex, t)`: the line defaults to 1. */
  function MakeToken(lexeme: string, kind: TokenKind): (t: Token)
    ensures t.lexeme == lexeme && t.kind == kind && t.line == 1
  {
    Token(lexeme, kind, 1)
  }

  /** `getKey()`: the lexeme table keys tokens by their lexeme. */
  function Key(t: Token): string
  {
    t.lexeme
  }

  /** `typeToString`: the upper-case name of a kind. */
  function KindName(k: TokenKind): (name: string)
    ensures |name| > 0
  {
    match k
    case Keyword => "KEYWORD"
    case Identifier => "IDENTIFIER"
    case Integer => "INTEGER"
    case Real => "REAL"
    case Assign => "ASSIGN"
    case Plus => "PLUS"
    case Minus => "MINUS"
    case Comma => "COMMA"
    case LParen => "LPAREN"
    case RParen => "RPAREN"
    case Error => "ERROR"
    case Unknown => "UNKNOWN"
  }

  /** Distinct kinds print as distinct names, so the lexical listing identifies each kind. */
  lemma KindNameInjective(a: TokenKind, b: TokenKind)
    ensures KindName(a) == KindName(b) ==> a == b
  {
  }
}
