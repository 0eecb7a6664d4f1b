/**
 What compiling a source comes to, as functions on its text: which sources can be compiled, which
 trees are printed, and where and how the one syntax error is reported.
 */
module CompileSpec {
  import opened Values
  import opened Tokens
  import opened Ast
  import opened ParseSpec
  import opened LexSpec
  import Typing
  import TypeTokens
  import Grammar
  import OperandScan
  import ErrorReports
  import ParseTheorems
  import LexTheorems
  import RoundTrip

  /** The streams that the compiler can take, told by one pass over their tokens. */
  ghost predicate SafeToCompile(ts: seq<Symbol>, report: Report) {
    var v := OperandScan.ScanAll(ts, report);
    v.Finished? && !v.nullChild
  }

  /** An invalid root is reported once more, after the operands. */
  function CheckErrors(ty: TypeKind): seq<Typing.TypeError> {
    if Typing.IsNumber(ty) then []
    else [if ty == Invalid then Typing.InvalidExpression else Typing.UnknownExpression]
  }

  /** The condition is exact: outside it the parser calls a NULL rule or builds a tree with a NULL child. */
  lemma SafeIffNoNull(ts: seq<Symbol>, report: Report)
    ensures var o := Parse(ts, report);
      SafeToCompile(ts, report) <==> o.Done? && (o.tree.Missing? || Complete(o.tree))
  {
    OperandScan.ScanDecidesParse(ts, report);
  }

  /** How the parse of a safe stream ends. */
  lemma CompileOutcome(ts: seq<Symbol>, report: Report)
    requires SafeToCompile(ts, report)
    ensures var o := Parse(ts, report);
      && o.Done? && (o.tree.Missing? || Complete(o.tree))
      && (o.cursor.report.Silent? <==> report.Silent? && Grammar.IsExpression(ts))
      && (report.Reported? ==> o.cursor.report == report)
  {
    OperandScan.ScanDecidesParse(ts, report);
    hide OperandScan.Scan;
    if report.Silent? {
      Grammar.AcceptsIffExpression(ts);
    } else {
      hide ParsePrecedence;
      assert Settle(ts, report).report == report;
    }
  }

  /** The tree spells the tokens, has a type at every node, and the type of the root is that of the tokens. */
  ghost predicate IsTyped(t: Tree, ts: seq<Symbol>) {
    && !t.Missing? && Flatten(t) == ts && Typing.FullyKnown(t)
    && t.ty == TypeTokens.TokenType(ts)
  }

  /** What is printed of a parsed tree: itself, and as inference labels it; nothing if it is NULL. */
  ghost function PrintedTrees(t: Tree): seq<Tree> {
    if Complete(t) then [t, Typing.Infer(t).tree] else []
  }

  /** The type errors that are printed. */
  ghost function PrintedTypeErrors(t: Tree): seq<Typing.TypeError> {
    if !Complete(t) || Typing.Infer(t).tree.Missing? then []
    else Typing.Infer(t).errors + CheckErrors(Typing.Infer(t).tree.ty)
  }

  /**
   What is printed of a sentence: its tree, then the same with a type at every node. Type errors are
   printed exactly if the root has no type: one for each `|` between numbers of which one is a Real, in
   order, and one for the whole.
   */
  ghost predicate IsCompiled(ts: seq<Symbol>, trees: seq<Tree>, typeErrors: seq<Typing.TypeError>) {
    && Parse(ts).Done? && Parse(ts).cursor == Cursor([], Silent) && Complete(Parse(ts).tree)
    && var typed, faults := Typing.Annotate(Parse(ts).tree), Typing.Faults(Parse(ts).tree);
       && trees == [Parse(ts).tree, typed] && IsTyped(typed, ts)
       && (faults == [] <==> typed.ty != Invalid) && (forall n <- faults :: Typing.IsRealDivision(n))
       && typeErrors == Typing.ErrorsOf(faults) + if faults == [] then [] else [Typing.InvalidExpression]
  }

  /** What the compiler makes of a sentence of the grammar. */
  lemma CompiledTree(ts: seq<Symbol>)
    requires Grammar.IsExpression(ts)
    ensures Parse(ts).Done?
    ensures IsCompiled(ts, PrintedTrees(Parse(ts).tree), PrintedTypeErrors(Parse(ts).tree))
  {
    Grammar.AcceptsIffExpression(ts);
    hide Grammar.IsExpression;
    var t := Parse(ts).tree;
    ParseTheorems.ParseIffFlatten(ts, t);
    TypeTokens.TypeFromTokens(ts);
    hide Parse, NormalForm;
    Typing.FreshIsConsistent(t);
    Typing.FaultsAreDivisions(t);
    Typing.InferAgrees(t);
    Typing.AnnotateConsistent(t);
    Typing.InvalidIffFault(t);
  }

  /** What is printed: a message, and the token whose position and text go with it. */
  datatype Message = Message(token: Token, text: string)

  /** The text of a message; that of an error token is its own. */
  function Wording(complaint: Complaint, token: Token): string {
    match complaint
    case BadToken => token.text
    case NoExpression => "Expected expression."
    case NoParenthesis => "Expected ')' after expression."
    case NoEnd => "Expected end of expression."
  }

  /** The token with `left` tokens from it on, not counting the end of file, which is the last one. */
  predicate Located(tokens: seq<Token>, left: nat, token: Token) {
    left < |tokens| && tokens[|tokens| - 1 - left] == token
  }

  /** What a report prints. */
  function MessagesOf(tokens: seq<Token>, report: Report): seq<Message> {
    if report.Silent? || report.left >= |tokens| then []
    else
      var token := tokens[|tokens| - 1 - report.left];
      [Message(token, Wording(report.complaint, token))]
  }

  /** The text names what would have gone on, or ended, a sentence after these tokens. */
  ghost predicate SaysExpected(before: seq<Symbol>, text: string) {
    && (text == "Expected expression." <==> forall v: Value :: ErrorReports.Viable(before + [Literal(v)]))
    && (text == "Expected ')' after expression." <==> ErrorReports.Viable(before + [Plain(RightParen)]))
    && (text == "Expected end of expression." <==> Grammar.IsExpression(before))
    && text in {"Expected expression.", "Expected ')' after expression.", "Expected end of expression."}
  }

  /** The text of an error token, whose column is its offset in the source, tells a quote from the rest. */
  predicate SaysUnreadable(source: string, column: nat, text: string) {
    && 0 < column <= |source|
    && text == if source[column - 1] == '"' then "Unterminated string literal" else "Unexpected character"
  }

  /** The message is for token k, or for an error token right behind it, and says what is wrong there. */
  ghost predicate IsMessageAt(source: string, ts: seq<Symbol>, tokens: seq<Token>, k: nat, message: Message) {
    var at := if ErrorReports.IsLate(ts, k) then k + 1 else k;
    && at <= |ts| && at < |tokens| && message.token == tokens[at]
    && if ErrorReports.IsErrorAt(ts, at) then SaysUnreadable(source, message.token.column, message.text)
       else SaysExpected(ts[..at], message.text)
  }

  /** The wording of a complaint that is deserved says what was expected. */
  lemma WordingIsRight(complaint: Complaint, token: Token, before: seq<Symbol>)
    requires ErrorReports.Viable(before) && !complaint.BadToken? && ErrorReports.IsDeserved(complaint, before)
    ensures SaysExpected(before, Wording(complaint, token))
  {
    hide ErrorReports.Viable, Grammar.IsExpression;
    ErrorReports.OnlyOneIsDeserved(before);
    if forall v: Value :: ErrorReports.Viable(before + [Literal(v)]) {
      assert ErrorReports.Viable(before + [Literal(IntValue(0))]);
    }
    TextsDiffer();
  }

  lemma TextsDiffer()
    ensures "Expected expression." != "Expected ')' after expression."
    ensures "Expected expression." != "Expected end of expression."
    ensures "Expected ')' after expression." != "Expected end of expression."
  {
    assert |"Expected expression."| == 20 && |"Expected end of expression."| == 27;
    assert |"Expected ')' after expression."| == 30;
  }

  /** The text of the token that is scanned for an error symbol. */
  lemma ErrorTokenText(source: string, at: nat)
    requires ScansWithin(source, 0) && ErrorReports.IsErrorAt(Symbols(source, 0), at)
    ensures at < |TokensFrom(source, 0, 1, 0)|
    ensures var token := TokensFrom(source, 0, 1, 0)[at]; SaysUnreadable(source, token.column, token.text)
  {
    hide Symbols, TokensFrom, Pieces, ScansWithin, LexTheorems.Newlines;
    LexTheorems.SymbolsArePieces(source, 0);
    LexTheorems.PositionsAreOffsets(source, 0, 1);
    var piece := Pieces(source, 0)[at];
    assert piece.kind.Error?;
  }

  /** A source prints nothing if it is a sentence, and otherwise one message, at the first offence. */
  ghost predicate IsPrintedAtOffence(source: string, printed: seq<Message>)
    requires ScansWithin(source, 0)
  {
    var ts, tokens := Symbols(source, 0), TokensFrom(source, 0, 1, 0);
    if Grammar.IsExpression(ts) then printed == []
    else
      && |printed| == 1
      && exists k: nat :: ErrorReports.IsFirstOffence(ts, k) && IsMessageAt(source, ts, tokens, k, printed[0])
  }

  lemma ErrorIsAtOffence(source: string)
    requires ScansWithin(source, 0) && SafeToCompile(Symbols(source, 0), Silent)
    ensures Parse(Symbols(source, 0)).Done?
    ensures var report := Parse(Symbols(source, 0)).cursor.report;
      IsPrintedAtOffence(source, MessagesOf(TokensFrom(source, 0, 1, 0), report))
  {
    hide Parse, Symbols, TokensFrom, Grammar.IsExpression, SafeToCompile;
    var ts, tokens := Symbols(source, 0), TokensFrom(source, 0, 1, 0);
    CompileOutcome(ts, Silent);
    TokensCount(source, 0, 1, 0);
    if !Grammar.IsExpression(ts) {
      ErrorReports.FirstOffenceExists(ts);
      var k: nat :| k <= |ts| && ErrorReports.IsFirstOffence(ts, k);
      ErrorReports.FirstErrorIsPrinted(ts, k);
      var report, at := Parse(ts).cursor.report, if ErrorReports.IsLate(ts, k) then k + 1 else k;
      hide ErrorReports.IsLate, ErrorReports.IsDeserved, ErrorReports.Viable, SaysExpected, SaysUnreadable;
      var message := MessagesOf(tokens, report)[0];
      if ErrorReports.IsErrorAt(ts, at) {
        ErrorTokenText(source, at);
      } else {
        WordingIsRight(report.complaint, message.token, ts[..at]);
      }
      hide ErrorReports.IsFirstOffence;
      assert IsMessageAt(source, ts, tokens, k, message);
    }
  }

  /** One token for each symbol, and the end of file. */
  lemma {:induction false} TokensCount(s: string, p: nat, line: nat, column: nat)
    requires p <= |s| && ScansWithin(s, p)
    ensures |TokensFrom(s, p, line, column)| == |Symbols(s, p)| + 1
    decreases |s| - p
  {
    hide Skip, TryAt, LexemeOf, TokenAt;
    var piece := NextPiece(s, p);
    if !piece.kind.Eof? {
      TokensCount(s, piece.end, LineAfter(line, piece), ColumnAfter(column, p, piece));
    }
  }

  /**
   The text of a normal-form tree, however it is spaced out, is a source that the compiler takes, and
   what it parses is that tree.
   */
  lemma TextCompiles(t: Tree, gaps: seq<string>)
    requires NormalForm(t) && (forall x <- Flatten(t) :: RoundTrip.Spellable(x))
    requires RoundTrip.IsLayout(Flatten(t), gaps)
    ensures var text := RoundTrip.Text(Flatten(t), gaps);
      && (forall i | 0 <= i < |text| :: text[i] != '\0') && ScansWithin(text, 0)
      && SafeToCompile(Symbols(text, 0), Silent) && Grammar.IsExpression(Symbols(text, 0))
      && Parse(Symbols(text, 0)).Done? && Parse(Symbols(text, 0)).tree == t
  {
    hide Symbols, Parse, Grammar.IsExpression, RoundTrip.Text, SafeToCompile;
    RoundTrip.TextHasNoNul(Flatten(t), gaps);
    RoundTrip.TextRoundTrip(t, gaps);
    var ts := Symbols(RoundTrip.Text(Flatten(t), gaps), 0);
    OperandScan.NormalFormIsComplete(t);
    SafeIffNoNull(ts, Silent);
    Grammar.AcceptsIffExpression(ts);
  }

  // Scanning one token.

  /** Scanning one token reads one symbol of the stream, unless it is an error token or the end. */
  lemma ScanStep(s: string, p: nat, report: Report)
    requires p <= |s| && ScansWithin(s, p)
    ensures !DanglingQuote(s, Skip(s, p)) && ScansWithin(s, NextPiece(s, p).end)
    ensures var piece := NextPiece(s, p);
      var ts, after := Symbols(s, p), Symbols(s, piece.end);
      && |ts| == |after| + (if piece.kind.Eof? then 0 else 1)
      && if piece.kind.Eof? then Settle(ts, report) == Cursor([], report) && after == []
         else if piece.kind.Error? then Settle(ts, report) == Settle(after, Fail(report, |ts|, BadToken))
         else
           && (piece.kind.LitInt? ==> AllDigits(TokenText(s, piece)))
           && Settle(ts, report) == Cursor([LexemeOf(piece.kind, TokenText(s, piece))] + after, report)
  {
  }

  /** The tokens end with the given ones, of which `left` come before the end of file. */
  predicate EndsWith(tokens: seq<Token>, left: nat, last: seq<Token>) {
    left < |tokens| && tokens[|tokens| - 1 - left..] == last
  }

  lemma TokensStep(s: string, p: nat, line: nat, column: nat, tokens: seq<Token>, left: nat)
    requires p <= |s| && ScansWithin(s, p) && !DanglingQuote(s, Skip(s, p)) && ScansWithin(s, NextPiece(s, p).end)
    requires EndsWith(tokens, left, TokensFrom(s, p, line, column))
    ensures Located(tokens, left, TokenAt(s, p, line, column))
    ensures var piece := NextPiece(s, p);
      !piece.kind.Eof? && left > 0 ==>
      EndsWith(tokens, left - 1, TokensFrom(s, piece.end, LineAfter(line, piece), ColumnAfter(column, p, piece)))
  {
    hide Skip, TryAt, TokenAt, ScansWithin;
    var last := TokensFrom(s, p, line, column);
    assert tokens[|tokens| - 1 - left] == last[0];
    if left > 0 {
      assert tokens[|tokens| - left..] == last[1..];
    }
  }

  lemma EofHasNoRule()
    ensures GetParseRule(Eof).prefix.NoPrefix? && GetParseRule(Eof).precedence == PREC_NONE
  {
  }
}
