/**
 A context-free grammar of expressions, written without reference to trees or to the parser:
   expression ::= term       | expression ('+' | '-') term
   term       ::= factor     | term ('*' | '/' | '|') factor
   factor     ::= literal    | ('+' | '-') factor    | '(' expression ')'
 The parser accepts exactly the sentences of the grammar.
 */
module Grammar {
  import opened Tokens
  import opened Ast
  import opened ParseSpec
  import opened ParseTheorems

  predicate IsAdditive(s: Symbol) { s == Plain(Plus) || s == Plain(Minus) }

  predicate IsMultiplicative(s: Symbol) { s == Plain(Star) || s == Plain(Slash) || s == Plain(Div) }

  predicate IsExpression(ts: seq<Symbol>)
    decreases |ts|, 2
  {
    IsTerm(ts) || exists k | 0 <= k < |ts| ::
      IsAdditive(ts[k]) && IsExpression(ts[..k]) && IsTerm(ts[k + 1..])
  }

  predicate IsTerm(ts: seq<Symbol>)
    decreases |ts|, 1
  {
    IsFactor(ts) || exists k | 0 <= k < |ts| ::
      IsMultiplicative(ts[k]) && IsTerm(ts[..k]) && IsFactor(ts[k + 1..])
  }

  predicate IsFactor(ts: seq<Symbol>)
    decreases |ts|, 0
  {
    || (|ts| == 1 && ts[0].Literal?)
    || (|ts| > 1 && IsAdditive(ts[0]) && IsFactor(ts[1..]))
    || (|ts| > 1 && ts[0] == Plain(LeftParen) && ts[|ts| - 1] == Plain(RightParen) && IsExpression(ts[1..|ts| - 1]))
  }

  /** The nonterminal of a precedence level. */
  predicate Derives(level: nat, ts: seq<Symbol>) {
    if level <= PREC_TERM then IsExpression(ts) else if level == PREC_FACTOR then IsTerm(ts) else IsFactor(ts)
  }

  /** Every normal-form tree spells a sentence, of the nonterminal of its level. */
  lemma {:induction false} FlattenDerives(t: Tree)
    requires NormalForm(t)
    ensures Derives(Level(t), Flatten(t)) && IsExpression(Flatten(t))
  {
    var ts := Flatten(t);
    match t
    case Value(_, _) =>
    case Unary(_, c, _) =>
      FlattenDerives(c);
      assert ts[1..] == Flatten(c);
    case Grouping(c, _) =>
      FlattenDerives(c);
      assert ts[1..|ts| - 1] == Flatten(c);
    case Binary(op, a, b, _) =>
      FlattenDerives(a);
      FlattenDerives(b);
      BinaryDerives(t);
  }

  /** A sentence of a tighter level is one of every looser level. */
  lemma DerivesLooser(level: nat, looser: nat, ts: seq<Symbol>)
    requires Derives(level, ts) && looser <= level
    ensures Derives(looser, ts)
  {
  }

  lemma BinaryDerives(t: Tree)
    requires NormalForm(t) && t.Binary?
    requires Derives(Level(t.first), Flatten(t.first)) && Derives(Level(t.second), Flatten(t.second))
    ensures Derives(Level(t), Flatten(t)) && IsExpression(Flatten(t))
  {
    DerivesLooser(Level(t.first), Level(t), Flatten(t.first));
    DerivesLooser(Level(t.second), Level(t) + 1, Flatten(t.second));
    var ts, k := Flatten(t), |Flatten(t.first)|;
    assert ts[..k] == Flatten(t.first) && ts[k] == Plain(OperatorKind(t.op)) && ts[k + 1..] == Flatten(t.second);
    Joins(ts, k);
    DerivesLooser(Level(t), PREC_TERM, ts);
  }

  lemma Joins(ts: seq<Symbol>, k: nat)
    requires k < |ts|
    ensures IsAdditive(ts[k]) && IsExpression(ts[..k]) && IsTerm(ts[k + 1..]) ==> IsExpression(ts)
    ensures IsMultiplicative(ts[k]) && IsTerm(ts[..k]) && IsFactor(ts[k + 1..]) ==> IsTerm(ts)
  {
  }

  lemma JoinTrees(ts: seq<Symbol>, k: nat, a: Tree, b: Tree) returns (t: Tree)
    requires k < |ts| && (IsAdditive(ts[k]) || IsMultiplicative(ts[k]))
    requires NormalForm(a) && Flatten(a) == ts[..k] && NormalForm(b) && Flatten(b) == ts[k + 1..]
    requires var p := if IsAdditive(ts[k]) then PREC_TERM else PREC_FACTOR; Level(a) >= p && Level(b) > p
    ensures NormalForm(t) && Flatten(t) == ts
    ensures IsMultiplicative(ts[k]) ==> Level(t) == PREC_FACTOR
  {
    t := MakeBinary(a, b, OperatorOf(ts[k].Kind()));
    assert ts == ts[..k] + [ts[k]] + ts[k + 1..];
  }

  /** Every sentence is spelled by a normal-form tree, whose level is at least that of the nonterminal. */
  lemma {:induction false} ExpressionHasTree(ts: seq<Symbol>) returns (t: Tree)
    requires IsExpression(ts)
    ensures NormalForm(t) && Flatten(t) == ts
    decreases |ts|, 2
  {
    if IsTerm(ts) {
      t := TermHasTree(ts);
    } else {
      var k :| 0 <= k < |ts| && IsAdditive(ts[k]) && IsExpression(ts[..k]) && IsTerm(ts[k + 1..]);
      var a := ExpressionHasTree(ts[..k]);
      var b := TermHasTree(ts[k + 1..]);
      t := JoinTrees(ts, k, a, b);
    }
  }

  lemma {:induction false} TermHasTree(ts: seq<Symbol>) returns (t: Tree)
    requires IsTerm(ts)
    ensures NormalForm(t) && Flatten(t) == ts && Level(t) >= PREC_FACTOR
    decreases |ts|, 1
  {
    if IsFactor(ts) {
      t := FactorHasTree(ts);
    } else {
      var k :| 0 <= k < |ts| && IsMultiplicative(ts[k]) && IsTerm(ts[..k]) && IsFactor(ts[k + 1..]);
      var a := TermHasTree(ts[..k]);
      var b := FactorHasTree(ts[k + 1..]);
      t := JoinTrees(ts, k, a, b);
    }
  }

  lemma {:induction false} FactorHasTree(ts: seq<Symbol>) returns (t: Tree)
    requires IsFactor(ts)
    ensures NormalForm(t) && Flatten(t) == ts && Level(t) >= PREC_UNARY
    decreases |ts|, 0
  {
    if |ts| == 1 && ts[0].Literal? {
      t := MakeValue(ts[0].value);
    } else if IsAdditive(ts[0]) && IsFactor(ts[1..]) {
      var c := FactorHasTree(ts[1..]);
      t := SignTree(ts, c);
    } else {
      var c := ExpressionHasTree(ts[1..|ts| - 1]);
      t := GroupTree(ts, c);
    }
  }

  lemma SignTree(ts: seq<Symbol>, c: Tree) returns (t: Tree)
    requires |ts| > 1 && IsAdditive(ts[0]) && NormalForm(c) && Level(c) >= PREC_UNARY && Flatten(c) == ts[1..]
    ensures NormalForm(t) && Flatten(t) == ts && Level(t) >= PREC_UNARY
  {
    t := MakeUnary(c, OperatorOf(ts[0].Kind()));
    assert ts == [ts[0]] + ts[1..];
  }

  lemma GroupTree(ts: seq<Symbol>, c: Tree) returns (t: Tree)
    requires |ts| > 1 && ts[0] == Plain(LeftParen) && ts[|ts| - 1] == Plain(RightParen)
    requires NormalForm(c) && Flatten(c) == ts[1..|ts| - 1]
    ensures NormalForm(t) && Flatten(t) == ts && Level(t) >= PREC_UNARY
  {
    t := MakeGrouping(c);
    assert ts == [ts[0]] + ts[1..|ts| - 1] + [ts[|ts| - 1]];
  }

  /** The parser reports no error exactly on the sentences of the grammar. */
  lemma AcceptsIffExpression(ts: seq<Symbol>)
    ensures Accepts(ts) <==> IsExpression(ts)
  {
    if Accepts(ts) {
      var t := Parse(ts).tree;
      ParseIffFlatten(ts, t);
      FlattenDerives(t);
    }
    if IsExpression(ts) {
      var t := ExpressionHasTree(ts);
      ParseIffFlatten(ts, t);
    }
  }
}
