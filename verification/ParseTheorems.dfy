/** The parser is the inverse of flattening on normal-form trees, in both directions. */
module ParseTheorems {
  import opened Tokens
  import opened Ast
  import opened ParseSpec

  // The defining equations of the parse functions, one turn at a time. The proofs after them hide
  // the functions and use the equations.

  /** One step into an operand: the token with a prefix rule is read, then its rule runs. */
  lemma PrefixStep(p: nat, s: Symbol, tail: seq<Symbol>, report: Report)
    requires p > 0 && !GetParseRule(s.Kind()).prefix.NoPrefix? && !Current(tail).Error?
    ensures Settled(Cursor([s] + tail, report))
    ensures var o := ParsePrefix(s, Cursor(tail, report));
      ParsePrecedence(p, Cursor([s] + tail, report)) ==
      if o.Fault? then Fault else ParseLoop(p, o.tree, o.cursor)
  {
  }

  /** One turn of the loop: the operator is read, then its right operand. */
  lemma InfixStep(p: nat, first: Tree, s: Symbol, tail: seq<Symbol>, report: Report)
    requires GetParseRule(s.Kind()).infix.BinaryRule? && !Current(tail).Error?
    requires 0 < p <= GetParseRule(s.Kind()).precedence
    ensures Settled(Cursor([s] + tail, report))
    ensures var o := ParsePrecedence(GetParseRule(s.Kind()).precedence + 1, Cursor(tail, report));
      ParseLoop(p, first, Cursor([s] + tail, report)) ==
      if o.Fault? then Fault else ParseLoop(p, MakeBinary(first, o.tree, OperatorOf(s.Kind())), o.cursor)
  {
  }

  lemma LoopStops(p: nat, first: Tree, c: Cursor)
    requires Settled(c) && Power(c.unread) < p
    ensures ParseLoop(p, first, c) == Done(first, c)
  {
  }

  lemma SignStep(s: Symbol, c: Cursor)
    requires GetParseRule(s.Kind()).prefix.UnaryRule? && Settled(c)
    ensures var o := ParsePrecedence(PREC_UNARY, c);
      ParsePrefix(s, c) == if o.Fault? then Fault else Done(MakeUnary(o.tree, OperatorOf(s.Kind())), o.cursor)
  {
  }

  lemma LiteralStep(s: Symbol, c: Cursor)
    requires GetParseRule(s.Kind()).prefix.LiteralRule? && Settled(c)
    ensures ParsePrefix(s, c) == Done(MakeValue(s.value), c)
  {
  }

  lemma ParenthesisStep(s: Symbol, c: Cursor)
    requires GetParseRule(s.Kind()).prefix.GroupingRule? && Settled(c)
    ensures var o := ParsePrecedence(PREC_ASSIGNMENT, c);
      ParsePrefix(s, c) ==
      if o.Fault? then Fault else Done(MakeGrouping(o.tree), Consume(o.cursor, RightParen, NoParenthesis))
  {
  }

  lemma PrecedenceUnfolds(p: nat, c: Cursor)
    requires Settled(c) && p > 0
    ensures ParsePrecedence(p, c) ==
      if GetParseRule(Current(c.unread)).prefix.NoPrefix? then
        Done(Missing, Advance(c).FailAt(|c.unread|, NoExpression))
      else
        var o := ParsePrefix(c.unread[0], Advance(c));
        if o.Fault? then Fault else ParseLoop(p, o.tree, o.cursor)
  {
  }

  lemma LoopUnfolds(p: nat, first: Tree, c: Cursor)
    requires Settled(c) && p > 0
    ensures ParseLoop(p, first, c) ==
      if p > Power(c.unread) then Done(first, c)
      else if GetParseRule(Current(c.unread)).infix.NoInfix? then Fault
      else
        var o := ParsePrecedence(Power(c.unread) + 1, Advance(c));
        if o.Fault? then Fault
        else ParseLoop(p, MakeBinary(first, o.tree, OperatorOf(Current(c.unread))), o.cursor)
  {
  }

  lemma LoopTurns(p: nat, first: Tree, c: Cursor)
    requires Settled(c) && 0 < p <= Power(c.unread) && ParseLoop(p, first, c).Done?
    ensures GetParseRule(Current(c.unread)).infix.BinaryRule? && !Current(c.unread).Eof?
    ensures var o := ParseBinary(Current(c.unread), first, Advance(c));
      o.Done? && ParseLoop(p, first, c) == ParseLoop(p, o.tree, o.cursor)
  {
  }

  /** An operator token is spelled by its operator, and binds as tightly as it. */
  lemma OperatorSpelling(s: Symbol)
    requires GetParseRule(s.Kind()).infix.BinaryRule?
    ensures s == Plain(OperatorKind(OperatorOf(s.Kind())))
    ensures GetParseRule(s.Kind()).precedence == OperatorPrecedence(OperatorOf(s.Kind())) < PREC_UNARY
    ensures GetParseRule(s.Kind()).prefix.UnaryRule? <==> IsSign(OperatorOf(s.Kind()))
  {
  }

  lemma SignSpelling(s: Symbol)
    requires GetParseRule(s.Kind()).prefix.UnaryRule?
    ensures s == Plain(OperatorKind(OperatorOf(s.Kind()))) && IsSign(OperatorOf(s.Kind()))
  {
  }

  lemma ConsumeReads(c: Cursor)
    requires !Consume(c, RightParen, NoParenthesis).Failed()
    ensures !c.Failed() && c.unread == [Plain(RightParen)] + Consume(c, RightParen, NoParenthesis).unread
  {
  }

  lemma ConsumeStep(s: Symbol, rest: seq<Symbol>, report: Report, complaint: Complaint)
    requires !Current(rest).Error?
    ensures Consume(Cursor([s] + rest, report), s.Kind(), complaint) == Cursor(rest, report)
  {
  }

  /**
   Completeness, with a continuation: after the tokens of a tree, the parser is in its loop with
   that tree as first operand, whenever what follows does not bind tighter than the tree.
   */
  lemma {:induction false} ParsesFlattened(t: Tree, p: nat, rest: seq<Symbol>, report: Report)
    requires NormalForm(t) && 0 < p <= Level(t)
    requires !Current(rest).Error? && Power(rest) <= Level(t)
    ensures !Current(Flatten(t) + rest).Error?
    ensures ParsePrecedence(p, Cursor(Flatten(t) + rest, report)) == ParseLoop(p, t, Cursor(rest, report))
    decreases t, 1
  {
    match t
    case Value(v, _) => PrefixStep(p, Literal(v), rest, report);
    case Unary(_, _, _) => UnaryParsesFlattened(t, p, rest, report);
    case Grouping(_, _) => GroupingParsesFlattened(t, p, rest, report);
    case Binary(_, _, _, _) => BinaryParsesFlattened(t, p, rest, report);
  }

  lemma {:induction false} UnaryParsesFlattened(t: Tree, p: nat, rest: seq<Symbol>, report: Report)
    requires NormalForm(t) && t.Unary? && p > 0 && !Current(rest).Error?
    ensures !Current(Flatten(t) + rest).Error?
    ensures ParsePrecedence(p, Cursor(Flatten(t) + rest, report)) == ParseLoop(p, t, Cursor(rest, report))
    decreases t, 0
  {
    hide ParsePrecedence, ParsePrefix, ParseLoop, Settle;
    var sign, inner := Plain(OperatorKind(t.op)), Cursor(Flatten(t.child) + rest, report);
    assert Flatten(t) + rest == [sign] + inner.unread;
    ParsesFlattened(t.child, PREC_UNARY, rest, report);
    LoopStops(PREC_UNARY, t.child, Cursor(rest, report));
    SignStep(sign, inner);
    PrefixStep(p, sign, inner.unread, report);
  }

  lemma {:induction false} GroupingParsesFlattened(t: Tree, p: nat, rest: seq<Symbol>, report: Report)
    requires NormalForm(t) && t.Grouping? && p > 0 && !Current(rest).Error?
    ensures !Current(Flatten(t) + rest).Error?
    ensures ParsePrecedence(p, Cursor(Flatten(t) + rest, report)) == ParseLoop(p, t, Cursor(rest, report))
    decreases t, 0
  {
    hide ParsePrecedence, ParsePrefix, ParseLoop, Settle;
    var close := [Plain(RightParen)] + rest;
    var inner := Cursor(Flatten(t.child) + close, report);
    assert Flatten(t) + rest == [Plain(LeftParen)] + inner.unread;
    ParsesFlattened(t.child, PREC_ASSIGNMENT, close, report);
    LoopStops(PREC_ASSIGNMENT, t.child, Cursor(close, report));
    ConsumeStep(Plain(RightParen), rest, report, NoParenthesis);
    ParenthesisStep(Plain(LeftParen), inner);
    PrefixStep(p, Plain(LeftParen), inner.unread, report);
  }

  lemma BinarySound(first: Tree, op: Operator, second: Tree, rest: seq<Symbol>)
    requires NormalForm(first) && Level(first) >= OperatorPrecedence(op)
    requires NormalForm(second) && Level(second) > OperatorPrecedence(op)
    ensures var t := MakeBinary(first, second, op); NormalForm(t) && Level(t) == OperatorPrecedence(op)
    ensures Flatten(first) + ([Plain(OperatorKind(op))] + (Flatten(second) + rest))
         == Flatten(MakeBinary(first, second, op)) + rest
  {
  }

  lemma {:induction false} BinaryParsesFlattened(t: Tree, p: nat, rest: seq<Symbol>, report: Report)
    requires NormalForm(t) && t.Binary? && 0 < p <= Level(t)
    requires !Current(rest).Error? && Power(rest) <= Level(t)
    ensures !Current(Flatten(t) + rest).Error?
    ensures ParsePrecedence(p, Cursor(Flatten(t) + rest, report)) == ParseLoop(p, t, Cursor(rest, report))
    decreases t, 0
  {
    hide ParsePrecedence, ParsePrefix, ParseLoop, Settle, Flatten;
    var sign, inner := Plain(OperatorKind(t.op)), Cursor(Flatten(t.second) + rest, report);
    BinarySound(t.first, t.op, t.second, rest);
    assert t == MakeBinary(t.first, t.second, t.op);
    ParsesFlattened(t.second, Level(t) + 1, rest, report);
    LoopStops(Level(t) + 1, t.second, Cursor(rest, report));
    ParsesFlattened(t.first, p, [sign] + inner.unread, report);
    InfixStep(p, t.first, sign, inner.unread, report);
  }

  /** Parsing the tokens of a tree gives back the tree and stops exactly where they end. */
  lemma ParseInvertsFlatten(t: Tree, p: nat, rest: seq<Symbol>, report: Report)
    requires NormalForm(t) && 0 < p <= Level(t)
    requires !Current(rest).Error? && Power(rest) < p
    ensures !Current(Flatten(t) + rest).Error?
    ensures ParsePrecedence(p, Cursor(Flatten(t) + rest, report)) == Done(t, Cursor(rest, report))
  {
    ParsesFlattened(t, p, rest, report);
  }

  /** A failure-free parse has consumed exactly the tokens of the normal-form tree that it returns. */
  ghost predicate Sound(o: Outcome, p: nat, before: seq<Symbol>) {
    o.Done? && !o.cursor.Failed() ==>
      && NormalForm(o.tree) && Level(o.tree) >= p
      && before == Flatten(o.tree) + o.cursor.unread && Power(o.cursor.unread) < p
  }

  lemma {:induction false} ParsePrecedenceSound(p: nat, c: Cursor)
    requires Settled(c) && 0 < p <= PREC_UNARY
    ensures Sound(ParsePrecedence(p, c), p, c.unread)
    decreases |c.unread|, 0, 1
  {
    hide ParsePrecedence, ParsePrefix, ParseLoop, Settle;
    PrecedenceUnfolds(p, c);
    if !GetParseRule(Current(c.unread)).prefix.NoPrefix? {
      ParsePrefixSound(c.unread[0], Advance(c));
      var o := ParsePrefix(c.unread[0], Advance(c));
      if o.Done? {
        ParseLoopSound(p, o.tree, o.cursor);
      }
    }
  }

  lemma {:induction false} ParsePrefixSound(previous: Symbol, c: Cursor)
    requires Settled(c) && !GetParseRule(previous.Kind()).prefix.NoPrefix?
    ensures var o := ParsePrefix(previous, c); o.Done? && !o.cursor.Failed() ==>
      && NormalForm(o.tree) && !o.tree.Binary?
      && [previous] + c.unread == Flatten(o.tree) + o.cursor.unread
    decreases |c.unread|, 1, 1
  {
    match GetParseRule(previous.Kind()).prefix
    case GroupingRule => GroupingSound(previous, c);
    case UnaryRule =>
      hide ParsePrecedence, ParsePrefix, Settle;
      SignStep(previous, c);
      SignSpelling(previous);
      ParsePrecedenceSound(PREC_UNARY, c);
    case LiteralRule =>
  }

  lemma GroupSpells(child: Tree, rest: seq<Symbol>)
    requires NormalForm(child)
    ensures NormalForm(MakeGrouping(child))
    ensures [Plain(LeftParen)] + (Flatten(child) + ([Plain(RightParen)] + rest)) == Flatten(MakeGrouping(child)) + rest
  {
  }

  lemma {:induction false} GroupingSound(previous: Symbol, c: Cursor)
    requires Settled(c) && GetParseRule(previous.Kind()).prefix.GroupingRule?
    ensures var o := ParsePrefix(previous, c); o.Done? && !o.cursor.Failed() ==>
      && NormalForm(o.tree) && !o.tree.Binary?
      && [previous] + c.unread == Flatten(o.tree) + o.cursor.unread
    decreases |c.unread|, 1, 0
  {
    assert previous == Plain(LeftParen);
    hide ParsePrecedence, ParsePrefix, Settle, GetParseRule, Consume, Advance, Flatten, NormalForm;
    ParenthesisStep(previous, c);
    ParsePrecedenceSound(PREC_ASSIGNMENT, c);
    var o := ParsePrecedence(PREC_ASSIGNMENT, c);
    if o.Done? && !Consume(o.cursor, RightParen, NoParenthesis).Failed() {
      ConsumeReads(o.cursor);
      GroupSpells(o.tree, Consume(o.cursor, RightParen, NoParenthesis).unread);
    }
  }

  lemma {:induction false} ParseLoopSound(p: nat, first: Tree, c: Cursor)
    requires Settled(c) && 0 < p <= PREC_UNARY
    requires !c.Failed() ==> NormalForm(first) && Level(first) >= p && Power(c.unread) <= Level(first)
    ensures Sound(ParseLoop(p, first, c), p, Flatten(first) + c.unread)
    decreases |c.unread|, 0, 0
  {
    hide ParsePrecedence, ParseLoop, Settle, Flatten, NormalForm;
    LoopUnfolds(p, first, c);
    if p <= Power(c.unread) && GetParseRule(Current(c.unread)).infix.BinaryRule? {
      var s, c1 := c.unread[0], Advance(c);
      OperatorSpelling(s);
      hide GetParseRule;
      var op := OperatorOf(s.Kind());
      ParsePrecedenceSound(OperatorPrecedence(op) + 1, c1);
      var o := ParsePrecedence(OperatorPrecedence(op) + 1, c1);
      if o.Done? {
        if !o.cursor.Failed() {
          BinarySound(first, op, o.tree, o.cursor.unread);
          assert c.unread == [s] + c1.unread;
        }
        ParseLoopSound(p, MakeBinary(first, o.tree, op), o.cursor);
      }
    }
  }

  /** A tree of normal form is the one and only tree that its tokens spell. */
  lemma FlattenInjective(t: Tree, u: Tree)
    requires NormalForm(t) && NormalForm(u) && Flatten(t) == Flatten(u)
    ensures t == u
  {
    assert Flatten(t) + [] == Flatten(t) && Flatten(u) + [] == Flatten(u);
    ParseInvertsFlatten(t, PREC_ASSIGNMENT, [], Silent);
    ParseInvertsFlatten(u, PREC_ASSIGNMENT, [], Silent);
  }

  lemma FlattenedParses(t: Tree)
    requires NormalForm(t)
    ensures Parse(Flatten(t)) == Done(t, Cursor([], Silent))
  {
    assert Flatten(t) == Flatten(t) + [];
    ParseInvertsFlatten(t, PREC_ASSIGNMENT, [], Silent);
  }

  lemma AcceptedIsFlattened(ts: seq<Symbol>)
    requires Accepts(ts)
    ensures var o := Parse(ts); NormalForm(o.tree) && Flatten(o.tree) == ts && o.cursor.unread == []
  {
    var c := Settle(ts, Silent);
    ParsePrecedenceSound(PREC_ASSIGNMENT, c);
    hide ParsePrecedence;
    var o := ParsePrecedence(PREC_ASSIGNMENT, c);
    assert o.cursor.unread == [];
    assert Flatten(o.tree) + [] == Flatten(o.tree);
  }

  /** A source parses without an error, to a tree t, exactly when it is the flattening of t. */
  lemma ParseIffFlatten(ts: seq<Symbol>, t: Tree)
    ensures Parse(ts) == Done(t, Cursor([], Silent)) <==> NormalForm(t) && Flatten(t) == ts
    ensures Accepts(ts) ==> Parse(ts).cursor.unread == []
  {
    hide Parse;
    if NormalForm(t) && Flatten(t) == ts {
      FlattenedParses(t);
    }
    if Accepts(ts) {
      AcceptedIsFlattened(ts);
    }
  }
}
