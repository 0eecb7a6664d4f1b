/**
 What the parser makes of a source with syntax errors: the tree that it prints then is the tree of the
 tokens that it read, but for error tokens, which it passes over, and missing parentheses.
 */
module Recovery {
  import opened Tokens
  import opened Ast
  import opened ParseSpec
  import opened ParseTheorems

  /** The tokens without error tokens and closing parentheses. */
  function Bare(ts: seq<Symbol>): seq<Symbol> {
    if ts == [] then []
    else (if ts[0] == Plain(Error) || ts[0] == Plain(RightParen) then [] else [ts[0]]) + Bare(ts[1..])
  }

  lemma {:induction false} BareAdds(a: seq<Symbol>, b: seq<Symbol>)
    ensures Bare(a + b) == Bare(a) + Bare(b)
    decreases |a|
  {
    if a == [] {
      assert a + b == b;
    } else {
      assert (a + b)[1..] == a[1..] + b;
      BareAdds(a[1..], b);
    }
  }

  lemma BareOfOne(s: Symbol)
    ensures Bare([s]) == if s == Plain(Error) || s == Plain(RightParen) then [] else [s]
  {
  }

  lemma {:induction false} SettleKeeps(ts: seq<Symbol>, report: Report)
    ensures Bare(Settle(ts, report).unread) == Bare(ts)
    decreases |ts|
  {
    if Current(ts).Error? {
      SettleKeeps(ts[1..], Fail(report, |ts|, BadToken));
    }
  }

  lemma AdvanceKeeps(c: Cursor)
    requires c.unread != []
    ensures Bare(c.unread) == Bare([c.unread[0]]) + Bare(Advance(c).unread)
  {
    SettleKeeps(c.unread[1..], c.report);
    assert c.unread == [c.unread[0]] + c.unread[1..];
    BareAdds([c.unread[0]], c.unread[1..]);
  }

  /** The closing parenthesis may be there or not. */
  lemma ConsumeKeeps(c: Cursor)
    ensures Bare(Consume(c, RightParen, NoParenthesis).unread) == Bare(c.unread)
  {
    if Current(c.unread).RightParen? {
      AdvanceKeeps(c);
      BareOfOne(c.unread[0]);
    }
  }

  lemma Associates(a: seq<Symbol>, b: seq<Symbol>, c: seq<Symbol>)
    ensures a + (b + c) == a + b + c
  {
  }

  // What a tree spells, without closing parentheses.

  lemma BareBinary(first: Tree, second: Tree, op: Operator)
    ensures Bare(Flatten(MakeBinary(first, second, op))) ==
      Bare(Flatten(first)) + ([Plain(OperatorKind(op))] + Bare(Flatten(second)))
  {
    hide Bare;
    BareOfOne(Plain(OperatorKind(op)));
    BareAround(Flatten(first), Plain(OperatorKind(op)), Flatten(second));
  }

  lemma BareAround(a: seq<Symbol>, s: Symbol, b: seq<Symbol>)
    ensures Bare(a + [s] + b) == Bare(a) + (Bare([s]) + Bare(b))
  {
    hide Bare;
    BareAdds(a, [s]);
    BareAdds(a + [s], b);
  }

  lemma BareUnary(child: Tree, op: Operator)
    ensures Bare(Flatten(MakeUnary(child, op))) == [Plain(OperatorKind(op))] + Bare(Flatten(child))
  {
    hide Bare;
    BareOfOne(Plain(OperatorKind(op)));
    BareAdds([Plain(OperatorKind(op))], Flatten(child));
  }

  lemma BareGrouping(child: Tree)
    ensures Bare(Flatten(MakeGrouping(child))) == [Plain(LeftParen)] + Bare(Flatten(child))
  {
    hide Bare;
    BareOfOne(Plain(LeftParen));
    BareOfOne(Plain(RightParen));
    BareAdds([Plain(LeftParen)], Flatten(child));
    BareAdds([Plain(LeftParen)] + Flatten(child), [Plain(RightParen)]);
  }

  /** Whatever errors there were, a tree without a NULL child is the tree of what was read to get it. */
  ghost predicate Recovered(o: Outcome, p: nat, before: seq<Symbol>) {
    o.Done? && Complete(o.tree) ==>
      && NormalForm(o.tree) && Level(o.tree) >= p && Power(o.cursor.unread) < p
      && before == Bare(Flatten(o.tree)) + Bare(o.cursor.unread)
  }

  lemma {:induction false} PrecedenceRecovers(p: nat, c: Cursor)
    requires Settled(c) && 0 < p <= PREC_UNARY
    ensures Recovered(ParsePrecedence(p, c), p, Bare(c.unread))
    decreases |c.unread|, 0, 1
  {
    hide ParsePrecedence, ParsePrefix, ParseLoop, Settle, Bare, NormalForm, Flatten;
    PrecedenceUnfolds(p, c);
    if !GetParseRule(Current(c.unread)).prefix.NoPrefix? {
      AdvanceKeeps(c);
      PrefixRecovers(c.unread[0], Advance(c));
      var o := ParsePrefix(c.unread[0], Advance(c));
      if o.Done? {
        LoopRecovers(p, o.tree, o.cursor);
      }
    }
  }

  /** The same for a prefix rule, whose token has been read before c. */
  ghost predicate PrefixRecovered(o: Outcome, previous: Symbol, before: seq<Symbol>) {
    o.Done? && Complete(o.tree) ==>
      && NormalForm(o.tree) && !o.tree.Binary?
      && Bare([previous]) + before == Bare(Flatten(o.tree)) + Bare(o.cursor.unread)
  }

  lemma {:induction false} PrefixRecovers(previous: Symbol, c: Cursor)
    requires Settled(c) && !GetParseRule(previous.Kind()).prefix.NoPrefix?
    ensures PrefixRecovered(ParsePrefix(previous, c), previous, Bare(c.unread))
    decreases |c.unread|, 1, 1
  {
    match GetParseRule(previous.Kind()).prefix
    case GroupingRule => GroupingRecovers(previous, c);
    case UnaryRule => UnaryRecovers(previous, c);
    case LiteralRule =>
  }

  lemma {:induction false} GroupingRecovers(previous: Symbol, c: Cursor)
    requires Settled(c) && GetParseRule(previous.Kind()).prefix.GroupingRule?
    ensures PrefixRecovered(ParsePrefix(previous, c), previous, Bare(c.unread))
    decreases |c.unread|, 1, 0
  {
    hide ParsePrecedence, ParsePrefix, Settle, Bare, Flatten, Consume, GetParseRule, NormalForm;
    OnlyParenthesisGroups(previous);
    ParenthesisStep(previous, c);
    PrecedenceRecovers(PREC_ASSIGNMENT, c);
    var o := ParsePrecedence(PREC_ASSIGNMENT, c);
    if o.Done? && Complete(o.tree) {
      BareOfOne(previous);
      BareGrouping(o.tree);
      GroupSpells(o.tree, []);
      ConsumeKeeps(o.cursor);
      Associates([previous], Bare(Flatten(o.tree)), Bare(o.cursor.unread));
    }
  }

  lemma OnlyParenthesisGroups(s: Symbol)
    requires GetParseRule(s.Kind()).prefix.GroupingRule?
    ensures s == Plain(LeftParen)
  {
  }

  lemma {:induction false} UnaryRecovers(previous: Symbol, c: Cursor)
    requires Settled(c) && GetParseRule(previous.Kind()).prefix.UnaryRule?
    ensures PrefixRecovered(ParsePrefix(previous, c), previous, Bare(c.unread))
    decreases |c.unread|, 1, 0
  {
    hide ParsePrecedence, ParsePrefix, Settle, Bare, Flatten;
    SignStep(previous, c);
    SignSpelling(previous);
    hide GetParseRule;
    PrecedenceRecovers(PREC_UNARY, c);
    var o := ParsePrecedence(PREC_UNARY, c);
    if o.Done? {
      BareOfOne(previous);
      BareUnary(o.tree, OperatorOf(previous.Kind()));
      Associates([previous], Bare(Flatten(o.tree)), Bare(o.cursor.unread));
    }
  }

  lemma JoinRecovers(first: Tree, op: Operator, second: Tree, rest: seq<Symbol>)
    requires NormalForm(first) && Level(first) >= OperatorPrecedence(op)
    requires NormalForm(second) && Level(second) > OperatorPrecedence(op)
    ensures var t := MakeBinary(first, second, op);
      && NormalForm(t) && Level(t) == OperatorPrecedence(op)
      && Bare(Flatten(first)) + ([Plain(OperatorKind(op))] + (Bare(Flatten(second)) + rest)) == Bare(Flatten(t)) + rest
  {
    hide Flatten, Bare, NormalForm;
    BinarySound(first, op, second, []);
    BareBinary(first, second, op);
  }

  lemma {:induction false} LoopRecovers(p: nat, first: Tree, c: Cursor)
    requires Settled(c) && 0 < p <= PREC_UNARY
    requires Complete(first) ==> NormalForm(first) && Level(first) >= p && Power(c.unread) <= Level(first)
    ensures Recovered(ParseLoop(p, first, c), p, Bare(Flatten(first)) + Bare(c.unread))
    ensures ParseLoop(p, first, c).Done? && Complete(ParseLoop(p, first, c).tree) ==> Complete(first)
    decreases |c.unread|, 0, 0
  {
    hide ParsePrecedence, ParseLoop, Settle, Flatten, NormalForm, Bare;
    LoopUnfolds(p, first, c);
    if p <= Power(c.unread) && GetParseRule(Current(c.unread)).infix.BinaryRule? {
      var s, c1 := c.unread[0], Advance(c);
      OperatorSpelling(s);
      AdvanceKeeps(c);
      BareOfOne(s);
      hide GetParseRule;
      var op := OperatorOf(s.Kind());
      PrecedenceRecovers(OperatorPrecedence(op) + 1, c1);
      var o := ParsePrecedence(OperatorPrecedence(op) + 1, c1);
      if o.Done? {
        if Complete(first) && Complete(o.tree) {
          JoinRecovers(first, op, o.tree, Bare(o.cursor.unread));
        }
        LoopRecovers(p, MakeBinary(first, o.tree, op), o.cursor);
      }
    }
  }

  /**
   After any errors, a tree without a NULL child has normal form, and the tokens that it spells are those
   of the source in front of where the parser stopped, up to error tokens and closing parentheses.
   */
  lemma ParseRecovers(ts: seq<Symbol>, report: Report)
    ensures var o := Parse(ts, report); o.Done? && Complete(o.tree) ==>
      NormalForm(o.tree) && Bare(ts) == Bare(Flatten(o.tree)) + Bare(o.cursor.unread)
  {
    hide ParsePrecedence, Flatten, NormalForm;
    var c := Settle(ts, report);
    SettleKeeps(ts, report);
    PrecedenceRecovers(PREC_ASSIGNMENT, c);
    hide Settle, Bare;
    var o := ParsePrecedence(PREC_ASSIGNMENT, c);
    if o.Done? && Current(o.cursor.unread).Eof? {
      EndKeeps(o.cursor);
    }
  }

  lemma EndKeeps(c: Cursor)
    requires Current(c.unread).Eof?
    ensures Consume(c, Eof, NoEnd).unread == c.unread == []
  {
  }
}
