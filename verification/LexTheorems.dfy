/** What the scanner guarantees: the keyword table, maximal munch, and tokens that tile the source. */
module LexTheorems {
  import opened Tokens
  import opened LexSpec

  predicate IsKeyword(kind: TokenKind) {
    Keyword(kind) != ""
  }

  /** The spelling of a keyword, as the table in lexer.h lists them; empty for every other kind. */
  function Keyword(kind: TokenKind): string {
    match kind
    case KeyPackage => "package"
    case KeyImport => "import"
    case KeyStruct => "struct"
    case KeySelf => "self"
    case KeyLet => "let"
    case KeyNil => "nil"
    case KeyFn => "fn"
    case KeyReturn => "return"
    case KeyIf => "if"
    case KeyElse => "else"
    case KeyWhile => "while"
    case KeyFor => "for"
    case KeyTrue => "true"
    case KeyFalse => "false"
    case KeyMatch => "match"
    case KeyWith => "with"
    case KeyDump => "dump"
    case _ => ""
  }

  // One lemma for each group of branches.

  lemma TrieDToM(text: string, kind: TokenKind)
    requires text != "" && kind in {KeyDump, KeyElse, KeyLet, KeyMatch}
    ensures IdentifierKind(text) == kind <==> text == Keyword(kind)
  {
  }

  lemma TrieNToT(text: string, kind: TokenKind)
    requires text != "" && kind in {KeyNil, KeyPackage, KeyReturn, KeyTrue}
    ensures IdentifierKind(text) == kind <==> text == Keyword(kind)
  {
  }

  lemma TrieF(text: string, kind: TokenKind)
    requires text != "" && kind in {KeyFalse, KeyFn, KeyFor}
    ensures IdentifierKind(text) == kind <==> text == Keyword(kind)
  {
  }

  lemma TrieI(text: string, kind: TokenKind)
    requires text != "" && kind in {KeyIf, KeyImport}
    ensures IdentifierKind(text) == kind <==> text == Keyword(kind)
  {
  }

  lemma TrieS(text: string, kind: TokenKind)
    requires text != "" && kind in {KeySelf, KeyStruct}
    ensures IdentifierKind(text) == kind <==> text == Keyword(kind)
  {
  }

  lemma TrieW(text: string, kind: TokenKind)
    requires text != "" && kind in {KeyWhile, KeyWith}
    ensures IdentifierKind(text) == kind <==> text == Keyword(kind)
  {
  }

  /** The nested switches are the keyword table: they name a keyword exactly when it is the whole text. */
  lemma TrieIsTable(text: string)
    requires text != ""
    ensures IdentifierKind(text) == Identifier || IsKeyword(IdentifierKind(text))
    ensures forall kind | IsKeyword(kind) :: IdentifierKind(text) == kind <==> text == Keyword(kind)
  {
    forall kind | IsKeyword(kind)
      ensures IdentifierKind(text) == kind <==> text == Keyword(kind)
    {
      hide IdentifierKind;
      if kind in {KeyDump, KeyElse, KeyLet, KeyMatch} { TrieDToM(text, kind); }
      else if kind in {KeyNil, KeyPackage, KeyReturn, KeyTrue} { TrieNToT(text, kind); }
      else if kind in {KeyFalse, KeyFn, KeyFor} { TrieF(text, kind); }
      else if kind in {KeyIf, KeyImport} { TrieI(text, kind); }
      else if kind in {KeySelf, KeyStruct} { TrieS(text, kind); }
      else { TrieW(text, kind); }
    }
  }

  // The lexical grammar: which texts are tokens at all, and of which kind.

  predicate IsLetter(c: char) { 'a' <= c <= 'z' || 'A' <= c <= 'Z' || c == '_' }

  predicate IsName(text: string) {
    && text != "" && IsLetter(text[0])
    && forall i | 0 <= i < |text| :: IsLetter(text[i]) || '0' <= text[i] <= '9'
  }

  predicate IsInteger(text: string) {
    text != "" && forall i | 0 <= i < |text| :: '0' <= text[i] <= '9'
  }

  /** Digits, a point at k, and possibly more digits. */
  predicate IsPointAt(text: string, k: nat) {
    0 < k < |text| && text[k] == '.' && forall i | 0 <= i < |text| && i != k :: '0' <= text[i] <= '9'
  }

  predicate IsReal(text: string) {
    exists k | 0 < k < |text| :: IsPointAt(text, k)
  }

  function SingleKind(c: char): TokenKind {
    match c
    case '\n' => Eol
    case '(' => LeftParen
    case ')' => RightParen
    case '{' => LeftBrace
    case '}' => RightBrace
    case '[' => LeftBracket
    case ']' => RightBracket
    case '.' => Dot
    case ',' => Comma
    case ':' => Colon
    case '+' => Plus
    case '-' => Minus
    case '*' => Star
    case '/' => Slash
    case '@' => At
    case '!' => Not
    case '=' => Assign
    case '>' => Greater
    case '<' => Less
    case '|' => Div
    case _ => Error
  }

  function DoubleKind(a: char, b: char): TokenKind {
    match (a, b)
    case ('+', '=') => PlusAssign
    case ('-', '=') => StarAssign
    case ('-', '>') => RightArrow
    case ('*', '=') => StarAssign
    case ('/', '=') => SlashAssign
    case ('!', '=') => NotEqual
    case ('=', '=') => Equal
    case ('>', '=') => GreaterEqual
    case ('<', '=') => LessEqual
    case ('|', '>') => Pipe
    case ('|', '|') => Or
    case ('&', '&') => And
    case _ => Error
  }

  /** The kind of token that a text is, or Error when it is none; string literals are not considered. */
  function Classify(text: string): TokenKind {
    if IsName(text) then IdentifierKind(text)
    else if IsInteger(text) then LitInt
    else if IsReal(text) then LitReal
    else if |text| == 1 then SingleKind(text[0])
    else if |text| == 2 then DoubleKind(text[0], text[1])
    else Error
  }

  /** The scan at p takes a token, and no longer text from p on would have been one. */
  ghost predicate Munches(s: string, p: nat, r: Piece) {
    && p < r.end <= |s| && r.kind == Classify(s[p..r.end])
    && forall q | r.end < q <= |s| :: Classify(s[p..q]).Error?
  }

  lemma NameMunches(s: string, p: nat)
    requires p < |s| && IsAlpha(s[p])
    ensures Munches(s, p, ScanAt(s, p))
  {
    var end := NameEnd(s, p + 1);
    assert IsName(s[p..end]);
    forall q | end < q <= |s|
      ensures Classify(s[p..q]).Error?
    {
      assert s[p..q][0] == s[p] && s[p..q][end - p] == s[end];
    }
  }

  lemma NumberMunches(s: string, p: nat)
    requires p < |s| && IsDigit(s[p])
    ensures Munches(s, p, ScanAt(s, p))
  {
    var r, point := ScanNumber(s, p), DigitsEnd(s, p + 1);
    assert AllDigits(s[p..point]);
    if r.kind.LitReal? {
      assert IsPointAt(s[p..r.end], point - p);
    }
    forall q | r.end < q <= |s|
      ensures Classify(s[p..q]).Error?
    {
      NoLongerNumber(s, p, q);
    }
  }

  lemma NoLongerNumber(s: string, p: nat, q: nat)
    requires p < |s| && IsDigit(s[p]) && ScanNumber(s, p).end < q <= |s|
    ensures Classify(s[p..q]).Error?
  {
  }

  lemma OperatorMunches(s: string, p: nat)
    requires p < |s| && s[p] != '"' && !IsAlpha(s[p]) && !IsDigit(s[p])
    ensures Munches(s, p, ScanAt(s, p))
  {
    forall q | p < q <= |s|
      ensures Classify(s[p..q]) ==
        if q == p + 1 then SingleKind(s[p]) else if q == p + 2 then DoubleKind(s[p], s[p + 1]) else Error
    {
      var text := s[p..q];
      assert text[0] == s[p];
    }
    if s[p] != '\n' {
      OperatorIsTable(s[p], CharAt(s, p + 1));
    }
  }

  /** The operator switch takes two characters exactly when they are an operator. */
  lemma OperatorIsTable(c: char, next: char)
    requires c != '"' && c != '\n'
    ensures DoubleKind(c, next) != Error ==> Operator(c, next) == (DoubleKind(c, next), 2)
    ensures DoubleKind(c, next) == Error && !IsAlpha(c) && !IsDigit(c) ==> Operator(c, next) == (SingleKind(c), 1)
  {
  }

  /** Maximal munch, with an error token only where no text is a token, and then one character long. */
  lemma MaximalMunch(s: string, p: nat)
    requires p < |s| && s[p] != '"'
    ensures Munches(s, p, ScanAt(s, p))
    ensures ScanAt(s, p).kind.Error? ==>
      ScanAt(s, p).end == p + 1 && forall q | p < q <= |s| :: Classify(s[p..q]).Error?
  {
    if IsAlpha(s[p]) {
      NameMunches(s, p);
      TrieIsTable(s[p..ScanAt(s, p).end]);
    } else if IsDigit(s[p]) {
      NumberMunches(s, p);
    } else {
      OperatorMunches(s, p);
    }
  }

  /** A quote takes the one character behind it, whatever it is, and makes an error token before a newline. */
  lemma QuoteTakesOne(s: string, p: nat)
    requires p + 1 < |s| && s[p] == '"'
    ensures TryAt(s, p) == Took(if s[p + 1] == '\n' then Piece(Error, p, p + 1) else Piece(LitString, p, p + 2))
  {
  }

  // Between two tokens there are only blanks and comments.

  predicate IsLineComment(s: string, p: nat, q: nat) {
    && p + 2 <= q <= |s| && s[p] == s[p + 1] == '/'
    && (q == |s| || s[q] == '\n') && forall i | p <= i < q :: s[i] != '\n'
  }

  /** The closing mark may share its star with the opening one, as the code has it. */
  predicate IsBlockComment(s: string, p: nat, q: nat) {
    && p + 2 <= q <= |s| && s[p] == '/' && s[p + 1] == '*'
    && (q == |s| || ClosesAt(s, q)) && forall i | p + 2 <= i < q :: !ClosesAt(s, i)
  }

  predicate IsComment(s: string, p: nat, q: nat) {
    IsLineComment(s, p, q) || IsBlockComment(s, p, q)
  }

  predicate IsGap(s: string, p: nat, q: nat)
    requires p <= q <= |s|
    decreases q - p
  {
    || p == q
    || (s[p] in " \t\r" && IsGap(s, p + 1, q))
    || (exists m | p < m <= q :: IsComment(s, p, m) && IsGap(s, m, q))
  }

  /** A blank, or the two characters that open a comment. */
  predicate OpensGap(s: string, p: nat) {
    CharAt(s, p) in " \t\r" || (CharAt(s, p) == '/' && (CharAt(s, p + 1) == '/' || CharAt(s, p + 1) == '*'))
  }

  /** Skipping passes over a gap, and over all of it. */
  lemma {:induction false} SkipIsGap(s: string, p: nat)
    requires p <= |s|
    ensures IsGap(s, p, Skip(s, p)) && !OpensGap(s, Skip(s, p))
    decreases |s| - p
  {
    if IsWhitespace(CharAt(s, p)) {
      SkipIsGap(s, p + 1);
    } else if CharAt(s, p) == '/' && CharAt(s, p + 1) == '/' {
      assert IsComment(s, p, LineEnd(s, p));
      SkipIsGap(s, LineEnd(s, p));
    } else if CharAt(s, p) == '/' && CharAt(s, p + 1) == '*' {
      assert s[p] != '*';
      assert IsComment(s, p, BlockEnd(s, p));
      SkipIsGap(s, BlockEnd(s, p));
    }
  }

  /** Piece i is not empty, and a gap leads from it to the next. */
  predicate TileAt(s: string, ps: seq<Piece>, i: nat)
    requires i < |ps| - 1
  {
    && !ps[i].kind.Eof? && ps[i].start < ps[i].end <= ps[i + 1].start <= |s|
    && IsGap(s, ps[i].end, ps[i + 1].start) && !OpensGap(s, ps[i + 1].start)
  }

  /** Disjoint non-empty slices in order, and last the end of file at the end of the text. */
  ghost predicate Tiles(s: string, p: nat, ps: seq<Piece>) {
    && |ps| > 0 && ps[|ps| - 1] == Piece(Eof, |s|, |s|)
    && p <= ps[0].start <= |s| && IsGap(s, p, ps[0].start) && !OpensGap(s, ps[0].start)
    && forall i | 0 <= i < |ps| - 1 :: TileAt(s, ps, i)
  }

  lemma TilesExtend(s: string, p: nat, piece: Piece, tail: seq<Piece>)
    requires p <= piece.start < piece.end <= |s| && !piece.kind.Eof?
    requires IsGap(s, p, piece.start) && !OpensGap(s, piece.start)
    requires Tiles(s, piece.end, tail)
    ensures Tiles(s, p, [piece] + tail)
  {
    hide IsGap, OpensGap;
    var ps := [piece] + tail;
    forall i | 0 <= i < |ps| - 1
      ensures TileAt(s, ps, i)
    {
      if i > 0 {
        assert TileAt(s, tail, i - 1);
      }
    }
  }

  /** The tokens of a source tile it from any position on. */
  lemma {:induction false} PiecesTile(s: string, p: nat)
    requires p <= |s| && ScansWithin(s, p)
    ensures Tiles(s, p, Pieces(s, p))
    decreases |s| - p
  {
    hide Skip, TryAt, IsGap, OpensGap;
    var piece := NextPiece(s, p);
    SkipIsGap(s, p);
    if !piece.kind.Eof? {
      PiecesTile(s, piece.end);
      TilesExtend(s, p, piece, Pieces(s, piece.end));
    }
  }

  /** The parser is given one token for each piece but the last, of the same kind. */
  lemma {:induction false} SymbolsArePieces(s: string, p: nat)
    requires p <= |s| && ScansWithin(s, p)
    ensures var ps, ts := Pieces(s, p), Symbols(s, p);
      |ts| == |ps| - 1 && forall i | 0 <= i < |ts| :: ts[i].Kind() == ps[i].kind
    decreases |s| - p
  {
    hide Skip, TryAt;
    var piece := NextPiece(s, p);
    if !piece.kind.Eof? {
      SymbolsArePieces(s, piece.end);
    }
  }

  /** How many newlines are tokens of their own; those inside a block comment are not. */
  function Newlines(ps: seq<Piece>): nat {
    if ps == [] then 0 else (if ps[0].kind.Eol? then 1 else 0) + Newlines(ps[1..])
  }

  /** The text of a token is that of its piece; an error token has a message, which tells a quote from the rest. */
  predicate HasText(s: string, text: string, piece: Piece) {
    if piece.kind.Error? then
      && piece.start < |s|
      && text == if s[piece.start] == '"' then "Unterminated string literal" else "Unexpected character"
    else piece.start <= piece.end <= |s| && text == s[piece.start..piece.end]
  }

  /** The token has the kind and the text of the piece and its offset, and the given line. */
  predicate IsPlaced(s: string, t: Token, piece: Piece, line: nat) {
    && t.kind == piece.kind && HasText(s, t.text, piece)
    && t.line == line && t.column == piece.start + if piece.kind.Eof? then 2 else 1
  }

  /** Tokens that have the kinds and texts of the pieces, and their lines and offsets. */
  predicate Positioned(s: string, line: nat, ts: seq<Token>, ps: seq<Piece>) {
    |ts| == |ps| && forall i | 0 <= i < |ts| :: IsPlaced(s, ts[i], ps[i], line + Newlines(ps[..i + 1]))
  }

  /**
   Positions of a scan from a reset state. The line counts newline tokens; the column is never reset
   at one, so it is the offset of the token in the whole source, and not in its line.
   */
  lemma {:induction false} PositionsAreOffsets(s: string, p: nat, line: nat)
    requires p <= |s| && ScansWithin(s, p)
    ensures Positioned(s, line, TokensFrom(s, p, line, p), Pieces(s, p))
    decreases |s| - p
  {
    ScanGoesOn(s, p);
    hide Skip, TryAt, Positioned, TokenAt, Newlines, ScansWithin, Overruns;
    var piece, token := NextPiece(s, p), TokenAt(s, p, line, p);
    TokensUnfold(s, p, line);
    TokenIsAtOffset(s, p, line);
    if piece.kind.Eof? {
      NothingPositioned(s, LineAfter(line, piece));
      PositionsExtend(s, line, token, [], piece, []);
    } else {
      PositionsAreOffsets(s, piece.end, LineAfter(line, piece));
      var ts := TokensFrom(s, piece.end, LineAfter(line, piece), piece.end);
      PositionsExtend(s, line, token, ts, piece, Pieces(s, piece.end));
    }
  }

  lemma ScanGoesOn(s: string, p: nat)
    requires p <= |s| && ScansWithin(s, p)
    ensures !DanglingQuote(s, Skip(s, p)) && ScansWithin(s, NextPiece(s, p).end)
  {
  }

  lemma TokensUnfold(s: string, p: nat, line: nat)
    requires p <= |s| && ScansWithin(s, p) && !DanglingQuote(s, Skip(s, p)) && ScansWithin(s, NextPiece(s, p).end)
    ensures var piece, token := NextPiece(s, p), TokenAt(s, p, line, p);
      TokensFrom(s, p, line, p) == [token] +
      if piece.kind.Eof? then [] else TokensFrom(s, piece.end, LineAfter(line, piece), piece.end)
    ensures var piece := NextPiece(s, p);
      Pieces(s, p) == [piece] + if piece.kind.Eof? then [] else Pieces(s, piece.end)
  {
    hide TokenAt, Skip, TryAt, Overruns;
  }

  lemma TokenIsAtOffset(s: string, p: nat, line: nat)
    requires p <= |s| && !DanglingQuote(s, Skip(s, p))
    ensures IsPlaced(s, TokenAt(s, p, line, p), NextPiece(s, p), LineAfter(line, NextPiece(s, p)))
  {
    ErrorIsOneCharacter(s, p);
    hide Skip, TryAt;
  }

  lemma NothingPositioned(s: string, line: nat)
    ensures Positioned(s, line, [], [])
  {
  }

  lemma PositionsExtend(s: string, line: nat, t: Token, ts: seq<Token>, piece: Piece, ps: seq<Piece>)
    requires Positioned(s, LineAfter(line, piece), ts, ps) && IsPlaced(s, t, piece, LineAfter(line, piece))
    ensures Positioned(s, line, [t] + ts, [piece] + ps)
  {
    hide IsPlaced;
    var all := [piece] + ps;
    assert ps[..0] == [] && Newlines(ps[..0]) == 0;
    hide Newlines;
    forall i | 0 <= i < |all|
      ensures Newlines(all[..i + 1]) == LineAfter(0, piece) + Newlines(ps[..i])
    {
      NewlinesExtend(piece, ps, i);
    }
  }

  lemma NewlinesExtend(piece: Piece, ps: seq<Piece>, i: nat)
    requires i <= |ps|
    ensures Newlines(([piece] + ps)[..i + 1]) == LineAfter(0, piece) + Newlines(ps[..i])
  {
    assert ([piece] + ps)[..i + 1][1..] == ps[..i];
  }

  lemma ErrorIsOneCharacter(s: string, p: nat)
    requires p <= |s| && !DanglingQuote(s, Skip(s, p))
    ensures var piece := NextPiece(s, p); piece.kind.Error? ==> piece.end == piece.start + 1
  {
  }
}
