/** The scanner as lexer.c runs it: an object whose cursor and counters the methods move. */
module Scanner {
  import opened Tokens
  import opened LexSpec

  class Lexer {
    const source: string
    var start: nat
    var current: nat
    var line: nat
    var column: nat

    /** The column counts every character read since the last reset, and every end of file. */
    ghost predicate Valid()
      reads this
    {
      && (forall i | 0 <= i < |source| :: source[i] != '\0')
      && start <= current <= |source| && current <= column
    }

    constructor (source: string)
      requires forall i | 0 <= i < |source| :: source[i] != '\0'
      ensures Valid() && this.source == source && start == current == column == 0 && line == 1
    {
      this.source, start, current, line, column := source, 0, 0, 1, 0;
    }

    method Reset()
      requires Valid()
      modifies this
      ensures Valid() && start == current == column == 0 && line == 1
    {
      start, current, line, column := 0, 0, 1, 0;
    }

    function Peek(): char
      reads this
    {
      CharAt(source, current)
    }

    predicate IsAtEndOfFile()
      reads this
    {
      Peek() == '\0'
    }

    predicate IsAtEndOfLine()
      reads this
    {
      Peek() == '\n'
    }

    function PeekNext(): char
      reads this
    {
      if IsAtEndOfFile() then '\0' else CharAt(source, current + 1)
    }

    method Advance() returns (c: char)
      requires Valid() && current < |source|
      modifies `current, `column
      ensures Valid() && current == old(current) + 1 && column == old(column) + 1 && c == source[old(current)]
    {
      current, column := current + 1, column + 1;
      c := source[current - 1];
    }

    method MatchNext(expected: char) returns (b: bool)
      requires Valid() && expected != '\0'
      modifies `current, `column
      ensures Valid() && b == (old(Peek()) == expected)
      ensures var n := if b then 1 else 0; current == old(current) + n && column == old(column) + n
    {
      if IsAtEndOfFile() || Peek() != expected {
        return false;
      }
      var _ := Advance();
      return true;
    }

    method SkipSingleLineComment()
      requires Valid()
      modifies `current, `column
      ensures Valid() && current == LineEnd(source, old(current))
      ensures column - current == old(column) - old(current)
    {
      while Peek() != '\n' && !IsAtEndOfFile()
        invariant Valid() && LineEnd(source, current) == LineEnd(source, old(current))
        invariant column - current == old(column) - old(current)
        decreases |source| - current
      {
        var _ := Advance();
      }
    }

    method SkipMultiLineComment()
      requires Valid()
      modifies `current, `column
      ensures Valid() && current == BlockEnd(source, old(current))
      ensures column - current == old(column) - old(current)
    {
      while !IsAtEndOfFile()
        invariant Valid() && BlockEnd(source, current) == BlockEnd(source, old(current))
        invariant column - current == old(column) - old(current)
        decreases |source| - current
      {
        var c := Advance();
        if c == '*' && Peek() == '/' {
          var _ := Advance();
          break;
        }
      }
    }

    method SkipInsignificant()
      requires Valid()
      modifies `current, `column
      ensures Valid() && current == Skip(source, old(current))
      ensures column - current == old(column) - old(current)
    {
      while true
        invariant Valid() && Skip(source, current) == Skip(source, old(current))
        invariant column - current == old(column) - old(current)
        decreases |source| - current
      {
        var c := Peek();
        if !IsWhitespace(c) {
          if c == '/' && PeekNext() == '/' {
            SkipSingleLineComment();
            continue;
          }
          if c == '/' && PeekNext() == '*' {
            SkipMultiLineComment();
            continue;
          }
          return;
        }
        var _ := Advance();
      }
    }

    // The tokens that end at the cursor.

    method MakeToken(kind: TokenKind) returns (token: Token)
      requires Valid()
      ensures token == Token(kind, source[start..current], line, column - (current - start) + 1)
    {
      token := Token(kind, source[start..current], line, column - (current - start) + 1);
    }

    method MakeEofToken() returns (token: Token)
      requires Valid()
      modifies `column
      ensures Valid() && column == old(column) + 1
      ensures token == Token(Eof, source[start..current], line, column - (current - start) + 1)
    {
      column := column + 1;
      token := MakeToken(Eof);
    }

    method MakeEolToken() returns (token: Token)
      requires Valid()
      modifies `line
      ensures Valid() && line == old(line) + 1
      ensures token == Token(Eol, source[start..current], line, column - (current - start) + 1)
    {
      line := line + 1;
      token := MakeToken(Eol);
    }

    method MakeErrorToken(message: string) returns (token: Token)
      ensures token == Token(Error, message, line, column)
    {
      token := Token(Error, message, line, column);
    }

    method ScanDigits()
      requires Valid()
      modifies `current, `column
      ensures Valid() && current == DigitsEnd(source, old(current))
      ensures column - current == old(column) - old(current)
    {
      while IsDigit(Peek())
        invariant Valid() && DigitsEnd(source, current) == DigitsEnd(source, old(current))
        invariant column - current == old(column) - old(current)
        decreases |source| - current
      {
        var _ := Advance();
      }
    }

    /** The state and the token after a piece that began at p, before which the counters were as given. */
    ghost predicate Scanned(token: Token, p: nat, line0: nat, column0: nat)
      reads this
      requires p <= |source| && !DanglingQuote(source, Skip(source, p))
    {
      var piece := NextPiece(source, p);
      && Valid() && start == piece.start && current == piece.end
      && line == LineAfter(line0, piece) && column == ColumnAfter(column0, p, piece)
      && token == TokenAt(source, p, line0, column0)
    }

    /** The cursor is after the piece and the token is the one it makes, at the counters as they are. */
    ghost predicate Ends(token: Token, piece: Piece)
      reads this
    {
      && Valid() && start == piece.start && current == piece.end <= |source|
      && (piece.kind.Error? ==> piece.start < |source|)
      && token == Token(piece.kind, TokenText(source, piece), line,
                        if piece.kind.Error? then column else column - (current - start) + 1)
    }

    method ScanNumber() returns (token: Token)
      requires Valid() && start + 1 == current
      modifies `current, `column
      ensures Ends(token, LexSpec.ScanNumber(source, start)) && column - current == old(column) - old(current)
    {
      ScanDigits();
      if Peek() == '.' {
        var _ := Advance();
        ScanDigits();
        token := MakeToken(LitReal);
      } else {
        token := MakeToken(LitInt);
      }
    }

    method ScanIdentifier() returns (token: Token)
      requires Valid() && start + 1 == current
      modifies `current, `column
      ensures Ends(token, ScanName(source, start)) && column - current == old(column) - old(current)
    {
      hide IdentifierKind;
      while IsAlpha(Peek()) || IsDigit(Peek())
        invariant Valid() && start < current && NameEnd(source, current) == NameEnd(source, start + 1)
        invariant column - current == old(column) - old(current)
        decreases |source| - current
      {
        var _ := Advance();
      }
      token := MakeToken(IdentifierKind(source[start..current]));
    }

    /**
     The loop asks for the end of the file where it should ask for its absence: it is left at once,
     or steps over the terminating NUL.
     */
    method ScanString() returns (scan: Scan)
      requires Valid() && start + 1 == current && source[start] == '"'
      modifies `current, `column
      ensures Valid() && start == old(start) && column - current == old(column) - old(current)
      ensures match LexSpec.ScanString(source, start)
        case Overrun => scan == Overran
        case Took(piece) => scan.Read? && Ends(scan.token, piece)
    {
      var p := current;
      while p <= |source| && CharAt(source, p) != '"' && CharAt(source, p) != '\n' && p == |source|
        invariant current <= p <= |source| + 1 && QuoteLoop(source, p) == QuoteLoop(source, current)
        decreases |source| + 1 - p
      {
        p := p + 1;
      }
      if p > |source| {
        return Overran;
      }
      if IsAtEndOfFile() || IsAtEndOfLine() {
        var error := MakeErrorToken("Unterminated string literal");
        return Read(error);
      }
      var _ := Advance();
      var token := MakeToken(LitString);
      return Read(token);
    }

    /** One kind if the next character is the expected one, which is then read, and another if not. */
    method MatchKind(expected: char, matched: TokenKind, otherwise: TokenKind) returns (kind: TokenKind)
      requires Valid() && expected != '\0'
      modifies `current, `column
      ensures Valid() && kind == if old(Peek()) == expected then matched else otherwise
      ensures var n := if old(Peek()) == expected then 1 else 0;
        current == old(current) + n && column == old(column) + n
    {
      var b := MatchNext(expected);
      kind := if b then matched else otherwise;
    }

    method MatchEither(e1: char, k1: TokenKind, e2: char, k2: TokenKind, otherwise: TokenKind)
      returns (kind: TokenKind)
      requires Valid() && e1 != '\0' && e2 != '\0'
      modifies `current, `column
      ensures Valid() && kind == if old(Peek()) == e1 then k1 else if old(Peek()) == e2 then k2 else otherwise
      ensures var n := if old(Peek()) == e1 || old(Peek()) == e2 then 1 else 0;
        current == old(current) + n && column == old(column) + n
    {
      var b := MatchNext(e1);
      if b { kind := k1; } else { kind := MatchKind(e2, k2, otherwise); }
    }

    /** The switch over the characters of operators and brackets, after c has been read. */
    method ScanKind(c: char) returns (kind: TokenKind)
      requires Valid() && start + 1 == current && c == source[start] != '"'
      modifies `current, `column
      ensures Valid() && column - current == old(column) - old(current)
      ensures (kind, current - start) == Operator(c, old(Peek()))
    {
      match c {
        case '(' => kind := LeftParen;
        case ')' => kind := RightParen;
        case '{' => kind := LeftBrace;
        case '}' => kind := RightBrace;
        case '[' => kind := LeftBracket;
        case ']' => kind := RightBracket;
        case '.' => kind := Dot;
        case ',' => kind := Comma;
        case ':' => kind := Colon;
        case '@' => kind := At;
        case '+' => kind := MatchKind('=', PlusAssign, Plus);
        case '*' => kind := MatchKind('=', StarAssign, Star);
        case '/' => kind := MatchKind('=', SlashAssign, Slash);
        case '!' => kind := MatchKind('=', NotEqual, Not);
        case '=' => kind := MatchKind('=', Equal, Assign);
        case '>' => kind := MatchKind('=', GreaterEqual, Greater);
        case '<' => kind := MatchKind('=', LessEqual, Less);
        case '-' => kind := MatchEither('=', StarAssign, '>', RightArrow, Minus);
        case '|' => kind := MatchEither('>', Pipe, '|', Or, Div);
        case '&' => kind := MatchKind('&', And, Error);
        case _ => kind := Error;
      }
    }

    method ScanOther(c: char) returns (scan: Scan)
      requires Valid() && start + 1 == current && c == source[start]
      modifies `current, `column
      ensures Valid() && column - current == old(column) - old(current)
      ensures
        match if c == '"' then LexSpec.ScanString(source, start) else Took(ScanOperator(source, start))
        case Overrun => scan == Overran
        case Took(piece) => scan.Read? && Ends(scan.token, piece)
    {
      hide Operator;
      if c == '"' {
        scan := ScanString();
        return;
      }
      var token;
      var kind := ScanKind(c);
      if kind.Error? {
        token := MakeErrorToken("Unexpected character");
      } else {
        token := MakeToken(kind);
      }
      return Read(token);
    }

    /** Scans one token; it overruns exactly when a quote is the last character and nothing else is left. */
    method ScanToken() returns (scan: Scan)
      requires Valid()
      modifies this
      ensures Valid() && (scan == Overran <==> DanglingQuote(source, Skip(source, old(current))))
      ensures scan != Overran ==> Scanned(scan.token, old(current), old(line), old(column))
    {
      SkipInsignificant();
      start := current;
      var token;
      if IsAtEndOfFile() {
        token := MakeEofToken();
        return Read(token);
      }
      if IsAtEndOfLine() {
        var _ := Advance();
        token := MakeEolToken();
        return Read(token);
      }
      var c := Advance();
      if IsAlpha(c) {
        token := ScanIdentifier();
        return Read(token);
      }
      if IsDigit(c) {
        token := ScanNumber();
        return Read(token);
      }
      scan := ScanOther(c);
    }

    /** Scans to the end of the file, as the listing of the tokens does, or until the scan overruns. */
    method ScanAll() returns (tokens: seq<Token>, overran: bool)
      requires Valid()
      modifies this
      ensures Valid() && (overran <==> Overruns(source, old(current)))
      ensures !overran ==> tokens == TokensFrom(source, old(current), old(line), old(column))
    {
      hide Skip, TryAt;
      tokens := [];
      while true
        invariant Valid() && (Overruns(source, current) <==> Overruns(source, old(current)))
        invariant ScansWithin(source, current) ==>
          tokens + TokensFrom(source, current, line, column)
          == TokensFrom(source, old(current), old(line), old(column))
        decreases |source| - current
      {
        var scan := ScanToken();
        if scan == Overran {
          return tokens, true;
        }
        tokens := tokens + [scan.token];
        if scan.token.kind.Eof? {
          return tokens, false;
        }
      }
    }
  }
}
