/**
 A one-pass scan with a depth counter that decides, for every stream of tokens, how the recursive
 parser ends: whether it calls a NULL rule, whether it reports an error, and whether it leaves a
 NULL child in the tree. It also follows the parser through everything that it does after an error.
 */
module OperandScan {
  import opened Values
  import opened Tokens
  import opened Ast
  import opened ParseSpec
  import opened ParseTheorems

  /**
   Fresh: an operand is expected at the start of an expression. Operand: one is expected after an
   operator. After: an operand has been read. Closing: the expression at this depth is over.
   */
  datatype Mode = Fresh | Operand | After | Closing {
    function Rank(): nat {
      match this case Closing => 0 case After => 1 case _ => 2
    }
  }

  datatype Verdict = Finished(report: Report, nullChild: bool) | NullRule

  function Scan(m: Mode, depth: nat, ts: seq<Symbol>, report: Report, nullChild: bool): Verdict
    decreases |ts|, depth, m.Rank()
  {
    if Current(ts).Error? then Scan(m, depth, ts[1..], Fail(report, |ts|, BadToken), nullChild)
    else match m
      case After =>
        if Power(ts) == PREC_NONE then Scan(Closing, depth, ts, report, nullChild)
        else if GetParseRule(Current(ts)).infix.NoInfix? then NullRule
        else Scan(Operand, depth, ts[1..], report, nullChild)
      case Closing =>
        if depth == 0 then Finished(if Current(ts).Eof? then report else Fail(report, |ts|, NoEnd), nullChild)
        else if Current(ts).RightParen? then Scan(After, depth - 1, ts[1..], report, nullChild)
        else Scan(After, depth - 1, ts, Fail(report, |ts|, NoParenthesis), nullChild)
      case _ =>
        match GetParseRule(Current(ts)).prefix
        case GroupingRule => Scan(Fresh, depth + 1, ts[1..], report, nullChild)
        case UnaryRule => Scan(Operand, depth, ts[1..], report, nullChild)
        case LiteralRule => Scan(After, depth, ts[1..], report, nullChild)
        case NoPrefix =>
          Scan(if m.Fresh? then Closing else After, depth, Rest(ts), Unexpected(ts, report),
               nullChild || m.Operand? || depth > 0)
  }

  /** The report after a token that no operand begins with: the token behind it has been scanned first. */
  function Unexpected(ts: seq<Symbol>, report: Report): Report {
    Fail(Settle(Rest(ts), report).report, |ts|, NoExpression)
  }

  function ScanFrom(m: Mode, depth: nat, c: Cursor, nullChild: bool): Verdict {
    Scan(m, depth, c.unread, c.report, nullChild)
  }

  function StartMode(p: nat): Mode { if p == PREC_ASSIGNMENT then Fresh else Operand }

  function EndMode(p: nat): Mode { if p == PREC_ASSIGNMENT then Closing else After }

  /** A NULL result becomes a NULL child unless it is the root of the whole parse. */
  predicate LeavesNull(p: nat, depth: nat, t: Tree) {
    !Complete(t) && !(t.Missing? && p == PREC_ASSIGNMENT && depth == 0)
  }

  lemma {:induction false} ScanSettles(m: Mode, depth: nat, ts: seq<Symbol>, report: Report, nullChild: bool)
    ensures Scan(m, depth, ts, report, nullChild) == ScanFrom(m, depth, Settle(ts, report), nullChild)
    decreases |ts|
  {
    if Current(ts).Error? {
      ScanSettles(m, depth, ts[1..], Fail(report, |ts|, BadToken), nullChild);
    }
  }

  /** Where reading on ends does not depend on what has been reported. */
  lemma {:induction false} SettleStops(ts: seq<Symbol>, report: Report, other: Report)
    ensures Settle(ts, report).unread == Settle(ts, other).unread
    decreases |ts|
  {
    if Current(ts).Error? {
      SettleStops(ts[1..], Fail(report, |ts|, BadToken), Fail(other, |ts|, BadToken));
    }
  }

  lemma {:induction false} ScanPrecedence(p: nat, c: Cursor, depth: nat, nullChild: bool)
    requires Settled(c) && p > 0
    ensures ScanFrom(StartMode(p), depth, c, nullChild) ==
      var o := ParsePrecedence(p, c);
      if o.Fault? then NullRule
      else ScanFrom(EndMode(p), depth, o.cursor, nullChild || LeavesNull(p, depth, o.tree))
    decreases |c.unread|, 1
  {
    hide ParsePrecedence, ParsePrefix, ParseLoop;
    var rule, c1 := GetParseRule(Current(c.unread)).prefix, Advance(c);
    PrecedenceUnfolds(p, c);
    if rule.NoPrefix? {
      var report := Unexpected(c.unread, c.report);
      ScanSettles(EndMode(p), depth, Rest(c.unread), report, nullChild || p != PREC_ASSIGNMENT || depth > 0);
      SettleStops(Rest(c.unread), c.report, report);
    } else {
      ScanSettles(PrefixMode(rule), PrefixDepth(rule, depth), Rest(c.unread), c.report, nullChild);
      ScanPrefix(c.unread[0], c1, depth, nullChild);
      var o := ParsePrefix(c.unread[0], c1);
      if o.Done? {
        ScanLoop(p, o.tree, o.cursor, depth, nullChild);
      }
    }
  }

  // Where the scan is once it has read a token with a prefix rule.

  function PrefixMode(rule: PrefixRule): Mode {
    match rule case GroupingRule => Fresh case UnaryRule => Operand case _ => After
  }

  function PrefixDepth(rule: PrefixRule, depth: nat): nat {
    if rule.GroupingRule? then depth + 1 else depth
  }

  lemma {:induction false} ScanPrefix(previous: Symbol, c: Cursor, depth: nat, nullChild: bool)
    requires Settled(c) && !GetParseRule(previous.Kind()).prefix.NoPrefix?
    ensures
      var rule, o := GetParseRule(previous.Kind()).prefix, ParsePrefix(previous, c);
      && ScanFrom(PrefixMode(rule), PrefixDepth(rule, depth), c, nullChild) ==
         (if o.Fault? then NullRule else ScanFrom(After, depth, o.cursor, nullChild || !Complete(o.tree)))
      && (o.Done? ==> !o.tree.Missing?)
    decreases |c.unread|, 2
  {
    match GetParseRule(previous.Kind()).prefix
    case GroupingRule =>
      ScanPrecedence(PREC_ASSIGNMENT, c, depth + 1, nullChild);
      hide ParsePrefix, ParsePrecedence, Scan, Consume;
      ParenthesisStep(previous, c);
      var o := ParsePrecedence(PREC_ASSIGNMENT, c);
      if o.Done? {
        ScanConsumes(depth, o.cursor, nullChild || !Complete(o.tree));
      }
    case UnaryRule =>
      hide ParsePrefix, ParsePrecedence, Scan;
      SignStep(previous, c);
      ScanPrecedence(PREC_UNARY, c, depth, nullChild);
    case LiteralRule =>
  }

  /** The closing parenthesis, whether it is there or not. */
  lemma ScanConsumes(depth: nat, c: Cursor, nullChild: bool)
    requires Settled(c)
    ensures ScanFrom(Closing, depth + 1, c, nullChild) ==
      ScanFrom(After, depth, Consume(c, RightParen, NoParenthesis), nullChild)
  {
    ScanSettles(After, depth, Rest(c.unread), c.report, nullChild);
  }

  lemma {:induction false} ScanLoop(p: nat, first: Tree, c: Cursor, depth: nat, nullChild: bool)
    requires Settled(c) && p > 0 && !first.Missing?
    ensures
      var o := ParseLoop(p, first, c);
      && ScanFrom(After, depth, c, nullChild || !Complete(first)) ==
         (if o.Fault? then NullRule else ScanFrom(EndMode(p), depth, o.cursor, nullChild || !Complete(o.tree)))
      && (o.Done? ==> !o.tree.Missing?)
    decreases |c.unread|, 0
  {
    hide ParsePrecedence, ParseLoop, Settle;
    LoopUnfolds(p, first, c);
    if p <= Power(c.unread) && GetParseRule(Current(c.unread)).infix.BinaryRule? {
      var q, c1 := Power(c.unread) + 1, Advance(c);
      ScanSettles(Operand, depth, Rest(c.unread), c.report, nullChild || !Complete(first));
      ScanPrecedence(q, c1, depth, nullChild || !Complete(first));
      var o := ParsePrecedence(q, c1);
      if o.Done? {
        ScanLoop(p, MakeBinary(first, o.tree, OperatorOf(Current(c.unread))), o.cursor, depth, nullChild);
      }
    }
  }

  function ScanAll(ts: seq<Symbol>, report: Report := Silent): Verdict {
    Scan(Fresh, 0, ts, report, false)
  }

  /** The scan and the parser agree on every stream. */
  lemma ScanDecidesParse(ts: seq<Symbol>, report: Report := Silent)
    ensures Parse(ts, report).Fault? <==> ScanAll(ts, report).NullRule?
    ensures var o := Parse(ts, report); o.Done? ==>
      ScanAll(ts, report) == Finished(o.cursor.report, !o.tree.Missing? && !Complete(o.tree))
  {
    ScanSettles(Fresh, 0, ts, report, false);
    ScanPrecedence(PREC_ASSIGNMENT, Settle(ts, report), 0, false);
  }

  /** The NULL rules belong to three tokens, and a stream without them never reaches one. */
  lemma {:induction false} NoNullRule(m: Mode, depth: nat, ts: seq<Symbol>, report: Report, nullChild: bool)
    requires forall s <- ts :: s.Kind() !in {PlusAssign, MinusAssign, RightArrow}
    ensures Scan(m, depth, ts, report, nullChild).Finished?
    decreases |ts|, depth, m.Rank()
  {
    if Current(ts).Error? {
      NoNullRule(m, depth, ts[1..], Fail(report, |ts|, BadToken), nullChild);
    } else if m.After? {
      if Power(ts) == PREC_NONE {
        NoNullRule(Closing, depth, ts, report, nullChild);
      } else {
        NoNullRule(Operand, depth, ts[1..], report, nullChild);
      }
    } else if m.Closing? {
      if depth > 0 {
        if Current(ts).RightParen? {
          NoNullRule(After, depth - 1, ts[1..], report, nullChild);
        } else {
          NoNullRule(After, depth - 1, ts, Fail(report, |ts|, NoParenthesis), nullChild);
        }
      }
    } else {
      match GetParseRule(Current(ts)).prefix
      case GroupingRule => NoNullRule(Fresh, depth + 1, ts[1..], report, nullChild);
      case UnaryRule => NoNullRule(Operand, depth, ts[1..], report, nullChild);
      case LiteralRule => NoNullRule(After, depth, ts[1..], report, nullChild);
      case NoPrefix =>
        NoNullRule(if m.Fresh? then Closing else After, depth, Rest(ts), Unexpected(ts, report),
                   nullChild || m.Operand? || depth > 0);
    }
  }

  lemma LiteralThen(v: Value, ts: seq<Symbol>)
    ensures ScanAll([Literal(v)] + ts) == Scan(After, 0, ts, Silent, false)
  {
    assert ([Literal(v)] + ts)[1..] == ts;
  }

  /** The parser is not safe on every stream: `1 +=` calls a NULL rule. */
  lemma NullRuleReachable()
    ensures Parse([Literal(IntValue(1))] + [Plain(PlusAssign)]).Fault?
  {
    hide Parse;
    LiteralThen(IntValue(1), [Plain(PlusAssign)]);
    ScanDecidesParse([Literal(IntValue(1))] + [Plain(PlusAssign)]);
  }

  /** Nor does it always leave a whole tree: `1 +` has no second operand. */
  lemma NullChildReachable()
    ensures var o := Parse([Literal(IntValue(1))] + [Plain(Plus)]); o.Done? && !o.tree.Missing? && !Complete(o.tree)
  {
    hide Parse;
    LiteralThen(IntValue(1), [Plain(Plus)]);
    NothingAfterPlus();
    ScanDecidesParse([Literal(IntValue(1))] + [Plain(Plus)]);
  }

  lemma NothingAfterPlus()
    ensures Scan(After, 0, [Plain(Plus)], Silent, false) == Finished(Reported(0, NoExpression), true)
  {
    var report := Reported(0, NoExpression);
    assert Scan(Operand, 0, [], Silent, false) == Scan(After, 0, [], report, true) == Finished(report, true);
    assert [Plain(Plus)][1..] == [];
  }

  /** A parse without an error leaves no NULL child. */
  lemma AcceptedIsComplete(ts: seq<Symbol>)
    requires Accepts(ts)
    ensures Complete(Parse(ts).tree)
  {
    ParseIffFlatten(ts, Parse(ts).tree);
    NormalFormIsComplete(Parse(ts).tree);
  }

  lemma {:induction false} NormalFormIsComplete(t: Tree)
    requires NormalForm(t)
    ensures Complete(t)
  {
    match t
    case Value(_, _) =>
    case Unary(_, c, _) => NormalFormIsComplete(c);
    case Grouping(c, _) => NormalFormIsComplete(c);
    case Binary(_, a, b, _) => NormalFormIsComplete(a); NormalFormIsComplete(b);
  }
}
