/**
 What the Pratt parser of compiler.c computes on any stream of tokens, as functions on values.
 The methods of class Compiler are proved equal to these functions.
 */
module ParseSpec {
  import opened Tokens
  import opened Ast

  /** What an error message says. */
  datatype Complaint = BadToken | NoExpression | NoParenthesis | NoEnd

  /** The one error that is printed, and where: `left` tokens remain, with the one it is reported at. */
  datatype Report = Silent | Reported(left: nat, complaint: Complaint)

  /** The first error puts the parser into panic mode, in which it keeps quiet. */
  function Fail(report: Report, left: nat, complaint: Complaint): Report {
    if report.Silent? then Reported(left, complaint) else report
  }

  /** The tokens from `current` on, and the error so far (`is_error` and `is_panic` agree on there being one). */
  datatype Cursor = Cursor(unread: seq<Symbol>, report: Report) {
    predicate Failed() { report.Reported? }

    function FailAt(left: nat, complaint: Complaint): Cursor {
      this.(report := Fail(report, left, complaint))
    }
  }

  /** A finished parse, or a call through the NULL infix rule of `+=`, `-=` or `->`. */
  datatype Outcome = Done(tree: Tree, cursor: Cursor) | Fault

  function Current(ts: seq<Symbol>): TokenKind {
    if ts == [] then Eof else ts[0].Kind()
  }

  function Power(ts: seq<Symbol>): nat {
    GetParseRule(Current(ts)).precedence
  }

  function Rest(ts: seq<Symbol>): seq<Symbol> {
    if ts == [] then [] else ts[1..]
  }

  /** Reads on until the current token is not an error token; each one read is a failure. */
  function Settle(ts: seq<Symbol>, report: Report): (c: Cursor)
    ensures Settled(c) && |c.unread| <= |ts| && (report.Reported? ==> c.report == report)
    ensures !c.Failed() ==> c.unread == ts
    ensures !Current(ts).Error? ==> c == Cursor(ts, report)
  {
    if Current(ts).Error? then Settle(ts[1..], Fail(report, |ts|, BadToken)) else Cursor(ts, report)
  }

  predicate Settled(c: Cursor) {
    !Current(c.unread).Error?
  }

  function Advance(c: Cursor): Cursor {
    Settle(Rest(c.unread), c.report)
  }

  function Consume(c: Cursor, kind: TokenKind, complaint: Complaint): Cursor {
    if Current(c.unread) == kind then Advance(c) else c.FailAt(|c.unread|, complaint)
  }

  /** Where parsing from c can have got to: it reads forwards, and the first error stays. */
  predicate GoesOn(c: Cursor, after: Cursor) {
    Settled(after) && |after.unread| <= |c.unread| && (c.Failed() ==> after.report == c.report)
  }

  function ParsePrecedence(p: nat, c: Cursor): (o: Outcome)
    requires Settled(c) && p > 0
    ensures o.Done? ==> GoesOn(c, o.cursor)
    decreases |c.unread|, 1
  {
    if GetParseRule(Current(c.unread)).prefix.NoPrefix? then
      Done(Missing, Advance(c).FailAt(|c.unread|, NoExpression))
    else
      var o := ParsePrefix(c.unread[0], Advance(c));
      if o.Fault? then Fault else ParseLoop(p, o.tree, o.cursor)
  }

  /** Runs the prefix rule of the token just read. */
  function ParsePrefix(previous: Symbol, c: Cursor): (o: Outcome)
    requires Settled(c) && !GetParseRule(previous.Kind()).prefix.NoPrefix?
    ensures o.Done? ==> GoesOn(c, o.cursor)
    decreases |c.unread|, 2
  {
    match GetParseRule(previous.Kind()).prefix
    case GroupingRule =>
      var o := ParsePrecedence(PREC_ASSIGNMENT, c);
      if o.Fault? then Fault else Done(MakeGrouping(o.tree), Consume(o.cursor, RightParen, NoParenthesis))
    case UnaryRule =>
      var o := ParsePrecedence(PREC_UNARY, c);
      if o.Fault? then Fault else Done(MakeUnary(o.tree, OperatorOf(previous.Kind())), o.cursor)
    case LiteralRule => Done(MakeValue(previous.value), c)
  }

  /** The loop that extends `first` while the current token binds at least as tightly as `p`. */
  function ParseLoop(p: nat, first: Tree, c: Cursor): (o: Outcome)
    requires Settled(c) && p > 0
    ensures o.Done? ==> GoesOn(c, o.cursor)
    decreases |c.unread|, 0
  {
    if p > Power(c.unread) then Done(first, c)
    else if GetParseRule(Current(c.unread)).infix.NoInfix? then Fault
    else
      var o := ParseBinary(Current(c.unread), first, Advance(c));
      if o.Fault? then Fault else ParseLoop(p, o.tree, o.cursor)
  }

  function ParseBinary(previous: TokenKind, first: Tree, c: Cursor): (o: Outcome)
    requires Settled(c) && GetParseRule(previous).infix.BinaryRule?
    ensures o.Done? ==> GoesOn(c, o.cursor)
    decreases |c.unread|, 2
  {
    var o := ParsePrecedence(GetParseRule(previous).precedence + 1, c);
    if o.Fault? then Fault else Done(MakeBinary(first, o.tree, OperatorOf(previous)), o.cursor)
  }

  /** A whole source: one expression, then end of file. The error of an earlier source stays. */
  function Parse(ts: seq<Symbol>, report: Report := Silent): Outcome {
    var o := ParsePrecedence(PREC_ASSIGNMENT, Settle(ts, report));
    if o.Fault? then Fault else Done(o.tree, Consume(o.cursor, Eof, NoEnd))
  }

  predicate Accepts(ts: seq<Symbol>) {
    var o := Parse(ts);
    o.Done? && !o.cursor.Failed()
  }
}
