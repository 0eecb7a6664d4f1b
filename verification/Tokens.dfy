/** Token kinds (lexer.h) and the parse rule table indexed by them (compiler.c). */
module Tokens {
  import opened Values

  datatype TokenKind =
    | Eof | Eol | Error
    | LeftParen | RightParen | LeftBrace | RightBrace | LeftBracket | RightBracket
    | Dot | Comma | Colon
    | Plus | PlusAssign | Minus | MinusAssign | RightArrow
    | Star | StarAssign | Slash | SlashAssign
    | At
    | Not | NotEqual | Assign | Equal | Greater | GreaterEqual | Less | LessEqual
    | Div | Pipe | Or | And
    | KeyPackage | KeyImport | KeyStruct | KeySelf | KeyLet | KeyNil | KeyFn | KeyReturn | KeyIf
    | KeyElse | KeyWhile | KeyFor | KeyTrue | KeyFalse | KeyMatch | KeyWith | KeyDump
    | Identifier | LitString | LitReal | LitInt

  /** What the parser sees of a token: its kind and, for a number, the value it denotes. */
  datatype Lexeme = Plain(plain: TokenKind) | Literal(value: Value) {
    function Kind(): TokenKind {
      match this
      case Plain(k) => k
      case Literal(v) => if v.RealValue? then LitReal else LitInt
    }
  }

  /** End of file is not stored in a stream: it is what is read once the stream is exhausted. */
  type Symbol = s: Lexeme | s.Plain? ==> s.plain != Eof && s.plain != LitReal && s.plain != LitInt
    witness Plain(Error)

  // The precedence levels, in ascending order.
  const PREC_NONE: nat := 0
  const PREC_ASSIGNMENT: nat := 1
  const PREC_OR: nat := 2
  const PREC_AND: nat := 3
  const PREC_EQUALITY: nat := 4
  const PREC_COMPARISON: nat := 5
  const PREC_TERM: nat := 6
  const PREC_FACTOR: nat := 7
  const PREC_UNARY: nat := 8

  datatype PrefixRule = NoPrefix | GroupingRule | UnaryRule | LiteralRule
  datatype InfixRule = NoInfix | BinaryRule
  datatype ParseRule = ParseRule(prefix: PrefixRule, infix: InfixRule, precedence: nat)

  function GetParseRule(kind: TokenKind): ParseRule {
    match kind
    case LeftParen => ParseRule(GroupingRule, NoInfix, PREC_NONE)
    case Plus => ParseRule(UnaryRule, BinaryRule, PREC_TERM)
    case Minus => ParseRule(UnaryRule, BinaryRule, PREC_TERM)
    case PlusAssign => ParseRule(NoPrefix, NoInfix, PREC_TERM)
    case MinusAssign => ParseRule(NoPrefix, NoInfix, PREC_TERM)
    case RightArrow => ParseRule(NoPrefix, NoInfix, PREC_TERM)
    case Star => ParseRule(NoPrefix, BinaryRule, PREC_FACTOR)
    case Slash => ParseRule(NoPrefix, BinaryRule, PREC_FACTOR)
    case Div => ParseRule(NoPrefix, BinaryRule, PREC_FACTOR)
    case LitReal => ParseRule(LiteralRule, NoInfix, PREC_NONE)
    case LitInt => ParseRule(LiteralRule, NoInfix, PREC_NONE)
    case _ => ParseRule(NoPrefix, NoInfix, PREC_NONE)
  }
}
