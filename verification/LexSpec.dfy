/**
 The scanner of lexer.c as functions on positions of the source text. A source is the text before
 its terminating NUL, so reading at the end of the text yields that NUL.
 */
module LexSpec {
  import opened Values
  import opened Tokens

  function CharAt(s: string, p: nat): char {
    if p < |s| then s[p] else '\0'
  }

  predicate IsDigit(c: char) { '0' <= c <= '9' }

  predicate IsAlpha(c: char) { 'a' <= c <= 'z' || 'A' <= c <= 'Z' || c == '_' }

  predicate IsWhitespace(c: char) { c == ' ' || c == '\r' || c == '\t' }

  predicate IsNameChar(c: char) { IsAlpha(c) || IsDigit(c) }

  /** Where the single-line comment that covers p ends. */
  function LineEnd(s: string, p: nat): (q: nat)
    requires p <= |s|
    ensures p <= q <= |s| && (q == |s| || s[q] == '\n') && forall i | p <= i < q :: s[i] != '\n'
    decreases |s| - p
  {
    if p == |s| || s[p] == '\n' then p else LineEnd(s, p + 1)
  }

  /** A comment is closed before q when its last two characters are the closing mark. */
  predicate ClosesAt(s: string, q: nat) {
    2 <= q <= |s| && s[q - 2] == '*' && s[q - 1] == '/'
  }

  /** Where the block comment scanned from p on ends: after the first closing mark, or with the text. */
  function BlockEnd(s: string, p: nat): (q: nat)
    requires p <= |s|
    ensures p <= q <= |s| && (q == |s| || ClosesAt(s, q)) && forall i | p + 2 <= i < q :: !ClosesAt(s, i)
    ensures p < |s| ==> p < q
    decreases |s| - p
  {
    if p == |s| then p
    else if s[p] == '*' && CharAt(s, p + 1) == '/' then p + 2
    else BlockEnd(s, p + 1)
  }

  /** Skips blanks and comments. */
  function Skip(s: string, p: nat): (q: nat)
    requires p <= |s|
    ensures p <= q <= |s|
    decreases |s| - p
  {
    if IsWhitespace(CharAt(s, p)) then Skip(s, p + 1)
    else if CharAt(s, p) == '/' && CharAt(s, p + 1) == '/' then Skip(s, LineEnd(s, p))
    else if CharAt(s, p) == '/' && CharAt(s, p + 1) == '*' then Skip(s, BlockEnd(s, p))
    else p
  }

  function DigitsEnd(s: string, p: nat): (q: nat)
    requires p <= |s|
    ensures p <= q <= |s| && !IsDigit(CharAt(s, q)) && forall i | p <= i < q :: IsDigit(s[i])
    decreases |s| - p
  {
    if IsDigit(CharAt(s, p)) then DigitsEnd(s, p + 1) else p
  }

  function NameEnd(s: string, p: nat): (q: nat)
    requires p <= |s|
    ensures p <= q <= |s| && !IsNameChar(CharAt(s, q)) && forall i | p <= i < q :: IsNameChar(s[i])
    decreases |s| - p
  {
    if IsNameChar(CharAt(s, p)) then NameEnd(s, p + 1) else p
  }

  function CheckKeyword(text: string, start: nat, rest: string, kind: TokenKind): TokenKind {
    if |text| == start + |rest| && text[start..] == rest then kind else Identifier
  }

  /** The keyword trie: it branches on the first character, and for some on the second. */
  function IdentifierKind(text: string): (kind: TokenKind)
    requires text != ""
    ensures !kind.Error? && !kind.Eof? && !kind.Eol? && !kind.LitInt? && !kind.LitReal?
  {
    match text[0]
    case 'd' => CheckKeyword(text, 1, "ump", KeyDump)
    case 'e' => CheckKeyword(text, 1, "lse", KeyElse)
    case 'f' =>
      if |text| <= 1 then Identifier
      else if text[1] == 'a' then CheckKeyword(text, 2, "lse", KeyFalse)
      else if text[1] == 'n' then CheckKeyword(text, 2, "", KeyFn)
      else if text[1] == 'o' then CheckKeyword(text, 2, "r", KeyFor)
      else Identifier
    case 'i' =>
      if |text| <= 1 then Identifier
      else if text[1] == 'f' then CheckKeyword(text, 2, "", KeyIf)
      else if text[1] == 'm' then CheckKeyword(text, 2, "port", KeyImport)
      else Identifier
    case 'l' => CheckKeyword(text, 1, "et", KeyLet)
    case 'm' => CheckKeyword(text, 1, "atch", KeyMatch)
    case 'n' => CheckKeyword(text, 1, "il", KeyNil)
    case 'p' => CheckKeyword(text, 1, "ackage", KeyPackage)
    case 'r' => CheckKeyword(text, 1, "eturn", KeyReturn)
    case 's' =>
      if |text| <= 1 then Identifier
      else if text[1] == 'e' then CheckKeyword(text, 2, "lf", KeySelf)
      else if text[1] == 't' then CheckKeyword(text, 2, "ruct", KeyStruct)
      else Identifier
    case 't' => CheckKeyword(text, 1, "rue", KeyTrue)
    case 'w' =>
      if |text| <= 1 then Identifier
      else if text[1] == 'h' then CheckKeyword(text, 2, "ile", KeyWhile)
      else if text[1] == 'i' then CheckKeyword(text, 2, "th", KeyWith)
      else Identifier
    case _ => Identifier
  }

  /** The slice [start, end) of the source that a scan takes, and what it is. */
  datatype Piece = Piece(kind: TokenKind, start: nat, end: nat)

  /** A quote as last character: the string loop would step over the terminating NUL. */
  predicate DanglingQuote(s: string, p: nat) {
    |s| > 0 && p == |s| - 1 && s[p] == '"'
  }

  function ScanName(s: string, p: nat): (r: Piece)
    requires p < |s|
    ensures p < r.end <= |s|
  {
    var q := NameEnd(s, p + 1);
    Piece(IdentifierKind(s[p..q]), p, q)
  }

  function ScanNumber(s: string, p: nat): (r: Piece)
    requires p < |s|
    ensures p < r.end <= |s|
  {
    var q := DigitsEnd(s, p + 1);
    if CharAt(s, q) == '.' then Piece(LitReal, p, DigitsEnd(s, q + 1)) else Piece(LitInt, p, q)
  }

  /**
   The kind and the length of the operator that begins with c, before the character `next`.
   `-=` is given the kind of `*=`, as the code has it.
   */
  function Operator(c: char, next: char): (r: (TokenKind, nat))
    ensures 1 <= r.1 <= 2 && (r.0.Error? ==> r.1 == 1) && (r.1 == 2 ==> next in "=>|&")
    ensures !r.0.Eof? && !r.0.Eol? && !r.0.LitInt? && !r.0.LitReal?
  {
    match c
    case '(' => (LeftParen, 1)
    case ')' => (RightParen, 1)
    case '{' => (LeftBrace, 1)
    case '}' => (RightBrace, 1)
    case '[' => (LeftBracket, 1)
    case ']' => (RightBracket, 1)
    case '.' => (Dot, 1)
    case ',' => (Comma, 1)
    case ':' => (Colon, 1)
    case '+' => if next == '=' then (PlusAssign, 2) else (Plus, 1)
    case '-' => if next == '=' then (StarAssign, 2) else if next == '>' then (RightArrow, 2) else (Minus, 1)
    case '*' => if next == '=' then (StarAssign, 2) else (Star, 1)
    case '/' => if next == '=' then (SlashAssign, 2) else (Slash, 1)
    case '@' => (At, 1)
    case '!' => if next == '=' then (NotEqual, 2) else (Not, 1)
    case '=' => if next == '=' then (Equal, 2) else (Assign, 1)
    case '>' => if next == '=' then (GreaterEqual, 2) else (Greater, 1)
    case '<' => if next == '=' then (LessEqual, 2) else (Less, 1)
    case '|' => if next == '>' then (Pipe, 2) else if next == '|' then (Or, 2) else (Div, 1)
    case '&' => if next == '&' then (And, 2) else (Error, 1)
    case _ => (Error, 1)
  }

  function ScanOperator(s: string, p: nat): (r: Piece)
    requires p < |s|
    ensures r.start == p < r.end <= |s|
  {
    var (kind, length) := Operator(s[p], CharAt(s, p + 1));
    Piece(kind, p, p + length)
  }

  /** Where the loop for string literals comes to rest, unless it steps over the terminating NUL. */
  datatype LoopEnd = Stops(at: nat) | StepsOver

  /** The loop of the string scanner: its last condition asks for the end of the file. */
  function QuoteLoop(s: string, p: nat): (r: LoopEnd)
    requires p <= |s| + 1
    ensures r.Stops? ==> p <= r.at <= |s|
    decreases |s| + 1 - p
  {
    if p > |s| then StepsOver
    else if CharAt(s, p) != '"' && CharAt(s, p) != '\n' && p == |s| then QuoteLoop(s, p + 1)
    else Stops(p)
  }

  /** A scan takes a slice of the source or reads what lies behind its NUL. */
  datatype Attempt = Took(piece: Piece) | Overrun

  /** The token that begins with a quote at p. */
  function ScanString(s: string, p: nat): Attempt
    requires p < |s|
  {
    match QuoteLoop(s, p + 1)
    case StepsOver => Overrun
    case Stops(q) =>
      if q == |s| || s[q] == '\n' then Took(Piece(Error, p, q)) else Took(Piece(LitString, p, q + 1))
  }

  /** The token that starts at p, where nothing is left to skip; it overruns on a dangling quote only. */
  function TryAt(s: string, p: nat): (r: Attempt)
    requires p <= |s|
    ensures r.Overrun? <==> DanglingQuote(s, p)
    ensures r.Took? ==> r.piece.start == p <= r.piece.end <= |s| && (p < |s| ==> p < r.piece.end)
    ensures r.Took? ==> (r.piece.kind.Eof? <==> p == |s|)
  {
    if p == |s| then Took(Piece(Eof, p, p))
    else if s[p] == '\n' then Took(Piece(Eol, p, p + 1))
    else if IsAlpha(s[p]) then Took(ScanName(s, p))
    else if IsDigit(s[p]) then Took(ScanNumber(s, p))
    else if s[p] == '"' then ScanString(s, p)
    else Took(ScanOperator(s, p))
  }

  function ScanAt(s: string, p: nat): (r: Piece)
    requires p <= |s| && !DanglingQuote(s, p)
    ensures r.start == p <= r.end <= |s| && (p < |s| ==> p < r.end)
    ensures r.kind.Eof? <==> p == |s|
  {
    TryAt(s, p).piece
  }

  function NextPiece(s: string, p: nat): (r: Piece)
    requires p <= |s| && !DanglingQuote(s, Skip(s, p))
    ensures p <= r.start <= r.end <= |s| && (r.kind.Eof? <==> r.start == |s|)
    ensures !r.kind.Eof? ==> r.start < r.end
    ensures r.kind.LitInt? ==> AllDigits(s[r.start..r.end])
  {
    ScanAt(s, Skip(s, p))
  }

  /** Scanning from p on reads what lies behind the NUL before it comes to the end of the file. */
  predicate Overruns(s: string, p: nat)
    requires p <= |s|
    decreases |s| - p
  {
    match TryAt(s, Skip(s, p))
    case Overrun => true
    case Took(piece) => !piece.kind.Eof? && Overruns(s, piece.end)
  }

  predicate ScansWithin(s: string, p: nat)
    requires p <= |s|
  {
    !Overruns(s, p)
  }

  /** What scanning from p on yields, the end of file included. */
  function Pieces(s: string, p: nat): (r: seq<Piece>)
    requires p <= |s| && ScansWithin(s, p)
    ensures |r| > 0
    decreases |s| - p
  {
    var piece := NextPiece(s, p);
    if piece.kind.Eof? then [piece] else [piece] + Pieces(s, piece.end)
  }

  predicate AllDigits(text: string) {
    forall i | 0 <= i < |text| :: IsDigit(text[i])
  }

  /** The value of a decimal numeral. */
  function Decimal(text: string): nat
    requires AllDigits(text)
  {
    if text == "" then 0 else 10 * Decimal(text[..|text| - 1]) + (text[|text| - 1] as int - '0' as int)
  }

  /** Conversion of a numeral to a 64-bit integer, which stops at the largest one. */
  function Strtoll(text: string): SkInt
    requires AllDigits(text)
  {
    if Decimal(text) > INT64_MAX then INT64_MAX else Decimal(text)
  }

  /** What the parser sees of a token of the given kind and spelling. */
  function LexemeOf(kind: TokenKind, text: string): Symbol
    requires !kind.Eof? && (kind.LitInt? ==> AllDigits(text))
  {
    if kind.LitInt? then Literal(IntValue(Strtoll(text)))
    else if kind.LitReal? then Literal(RealValue(text))
    else Plain(kind)
  }

  /** The tokens that the parser reads from p on, up to the end of file. */
  function Symbols(s: string, p: nat): (r: seq<Symbol>)
    requires p <= |s| && ScansWithin(s, p)
    ensures |r| <= |s| - p
    decreases |s| - p
  {
    var piece := NextPiece(s, p);
    if piece.kind.Eof? then []
    else [LexemeOf(piece.kind, s[piece.start..piece.end])] + Symbols(s, piece.end)
  }

  /** A token with its position. The text of an error token is its message. */
  datatype Token = Token(kind: TokenKind, text: string, line: nat, column: nat)

  /** What a call to the scanner comes to. */
  datatype Scan = Read(token: Token) | Overran

  function TokenText(s: string, piece: Piece): string
    requires piece.start <= piece.end <= |s| && (piece.kind.Error? ==> piece.start < |s|)
  {
    if !piece.kind.Error? then s[piece.start..piece.end]
    else if s[piece.start] == '"' then "Unterminated string literal"
    else "Unexpected character"
  }

  function LineAfter(line: nat, piece: Piece): nat {
    if piece.kind.Eol? then line + 1 else line
  }

  function ColumnAfter(column: nat, p: nat, piece: Piece): nat
    requires p <= piece.end
  {
    column + (piece.end - p) + if piece.kind.Eof? then 1 else 0
  }

  /** The token scanned at p when the counters of the scanner are at the given line and column. */
  function TokenAt(s: string, p: nat, line: nat, column: nat): Token
    requires p <= |s| && !DanglingQuote(s, Skip(s, p))
  {
    var piece := NextPiece(s, p);
    var after := ColumnAfter(column, p, piece);
    Token(piece.kind, TokenText(s, piece), LineAfter(line, piece),
          if piece.kind.Error? then after else after - (piece.end - piece.start) + 1)
  }

  /** All tokens from p on, the end of file included. */
  function TokensFrom(s: string, p: nat, line: nat, column: nat): (r: seq<Token>)
    requires p <= |s| && ScansWithin(s, p)
    decreases |s| - p
  {
    var piece := NextPiece(s, p);
    var token := TokenAt(s, p, line, column);
    if piece.kind.Eof? then [token]
    else [token] + TokensFrom(s, piece.end, LineAfter(line, piece), ColumnAfter(column, p, piece))
  }
}
