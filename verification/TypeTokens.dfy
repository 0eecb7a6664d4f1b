/**
 The verdict of the type checker, read off the tokens of a source. It is invalid exactly where a `|`
 stands between a term and a factor of which one has a token that makes it Real.
 */
module TypeTokens {
  import opened Values
  import opened Tokens
  import opened Ast
  import opened ParseSpec
  import opened ParseTheorems
  import opened Grammar
  import opened Typing

  /** A token that puts a Real into an expression. */
  predicate IsReal(s: Symbol) { s.Kind() == LitReal || s == Plain(Slash) }

  predicate HasReal(ts: seq<Symbol>) { exists s <- ts :: IsReal(s) }

  lemma RealInParts(a: seq<Symbol>, b: seq<Symbol>)
    ensures HasReal(a + b) <==> HasReal(a) || HasReal(b)
  {
    assert forall x :: x in a + b <==> x in a || x in b;
  }

  lemma OneReal(s: Symbol)
    ensures HasReal([s]) <==> IsReal(s)
  {
    assert s in [s];
  }

  lemma {:induction false} MakesRealTokens(t: Tree)
    requires NormalForm(t)
    ensures MakesReal(t) <==> HasReal(Flatten(t))
  {
    hide HasReal;
    match t
    case Value(v, _) => OneReal(Literal(v));
    case Unary(op, c, _) =>
      MakesRealTokens(c);
      OneReal(Plain(OperatorKind(op)));
      RealInParts([Plain(OperatorKind(op))], Flatten(c));
    case Grouping(c, _) =>
      MakesRealTokens(c);
      OneReal(Plain(LeftParen));
      OneReal(Plain(RightParen));
      RealInParts([Plain(LeftParen)], Flatten(c));
      RealInParts([Plain(LeftParen)] + Flatten(c), [Plain(RightParen)]);
    case Binary(op, a, b, _) =>
      MakesRealTokens(a);
      MakesRealTokens(b);
      OneReal(Plain(OperatorKind(op)));
      RealInParts(Flatten(a), [Plain(OperatorKind(op))]);
      RealInParts(Flatten(a) + [Plain(OperatorKind(op))], Flatten(b));
  }

  /** At i, a `|` divides the term from `from` on by the factor up to `to`, and one of them is Real. */
  predicate DividesAt(ts: seq<Symbol>, from: int, i: int, to: int) {
    && 0 <= from <= i < to <= |ts| && ts[i] == Plain(Div)
    && IsTerm(ts[from..i]) && IsFactor(ts[i + 1..to])
    && (HasReal(ts[from..i]) || HasReal(ts[i + 1..to]))
  }

  ghost predicate HasRealDivision(ts: seq<Symbol>) {
    exists from, i, to :: DividesAt(ts, from, i, to)
  }

  /** The type of an expression, as its tokens tell it. */
  ghost function TokenType(ts: seq<Symbol>): TypeKind {
    if HasRealDivision(ts) then Invalid else if HasReal(ts) then Real else Int
  }

  /** It does not matter what stands around the term and the factor. */
  lemma DividesInPart(part: seq<Symbol>, ts: seq<Symbol>, offset: nat, from: int, i: int, to: int)
    requires offset + |part| <= |ts| && ts[offset..offset + |part|] == part
    requires offset <= from <= i < to <= offset + |part|
    ensures DividesAt(ts, from, i, to) <==> DividesAt(part, from - offset, i - offset, to - offset)
  {
    hide HasReal, IsTerm, IsFactor;
    SliceOfPart(part, ts, offset, from, i);
    SliceOfPart(part, ts, offset, i + 1, to);
    assert ts[i] == part[i - offset];
  }

  lemma DivisionIsWithin(ts: seq<Symbol>, from: int, i: int, to: int)
    requires DividesAt(ts, from, i, to)
    ensures 0 <= from <= i < to <= |ts| && ts[i] == Plain(Div)
  {
  }

  lemma SliceOfPart(part: seq<Symbol>, ts: seq<Symbol>, offset: nat, from: int, to: int)
    requires offset + |part| <= |ts| && ts[offset..offset + |part|] == part
    requires offset <= from <= to <= offset + |part|
    ensures ts[from..to] == part[from - offset..to - offset]
  {
    forall k | 0 <= k < to - from
      ensures ts[from..to][k] == part[from - offset..to - offset][k]
    {
      assert ts[from + k] == ts[offset..offset + |part|][from - offset + k];
    }
  }

  /** A division of a tree in normal form stands in its tokens. */
  lemma {:induction false} DivisionInTokens(t: Tree) returns (from: int, i: int, to: int)
    requires NormalForm(t) && DividesReal(t)
    ensures DividesAt(Flatten(t), from, i, to)
    decreases t, 0
  {
    hide DividesAt;
    var ts := Flatten(t);
    match t
    case Unary(_, c, _) =>
      from, i, to := DivisionInPart(c, ts, 1);
    case Grouping(c, _) =>
      from, i, to := DivisionInPart(c, ts, 1);
    case Binary(op, a, b, _) =>
      if DividesReal(a) {
        from, i, to := DivisionInPart(a, ts, 0);
      } else if DividesReal(b) {
        from, i, to := DivisionInPart(b, ts, |Flatten(a)| + 1);
      } else {
        from, i, to := 0, |Flatten(a)|, |ts|;
        RootDivides(t);
      }
  }

  lemma {:induction false} DivisionInPart(c: Tree, ts: seq<Symbol>, offset: nat) returns (from: int, i: int, to: int)
    requires NormalForm(c) && DividesReal(c)
    requires offset + |Flatten(c)| <= |ts| && ts[offset..offset + |Flatten(c)|] == Flatten(c)
    ensures DividesAt(ts, from, i, to)
    decreases c, 1
  {
    hide DividesAt, Flatten, NormalForm, DividesReal;
    from, i, to := DivisionInTokens(c);
    DivisionIsWithin(Flatten(c), from, i, to);
    from, i, to := from + offset, i + offset, to + offset;
    DividesInPart(Flatten(c), ts, offset, from, i, to);
  }

  lemma RootDivides(t: Tree)
    requires NormalForm(t) && t.Binary? && t.op == OpDiv && MakesReal(t)
    ensures DividesAt(Flatten(t), 0, |Flatten(t.first)|, |Flatten(t)|)
  {
    hide IsTerm, IsFactor, HasReal;
    var ts, n := Flatten(t), |Flatten(t.first)|;
    OperandsDerive(t);
    assert ts[0..n] == Flatten(t.first) && ts[n] == Plain(Div) && ts[n + 1..|ts|] == Flatten(t.second);
  }

  lemma OperandsDerive(t: Tree)
    requires NormalForm(t) && t.Binary? && t.op == OpDiv && MakesReal(t)
    ensures IsTerm(Flatten(t.first)) && IsFactor(Flatten(t.second))
    ensures HasReal(Flatten(t.first)) || HasReal(Flatten(t.second))
  {
    hide Flatten, IsTerm, IsFactor, HasReal;
    MakesRealTokens(t.first);
    MakesRealTokens(t.second);
    FlattenDerives(t.first);
    FlattenDerives(t.second);
    DerivesLooser(Level(t.first), PREC_FACTOR, Flatten(t.first));
  }

  // The other direction. Parentheses keep a term and a factor from reaching over the operands of a `|`.

  /** How many more parentheses are opened than closed. */
  function Depth(ts: seq<Symbol>): int {
    if ts == [] then 0
    else (if ts[0] == Plain(LeftParen) then 1 else if ts[0] == Plain(RightParen) then -1 else 0) + Depth(ts[1..])
  }

  lemma {:induction false} DepthAdds(a: seq<Symbol>, b: seq<Symbol>)
    ensures Depth(a + b) == Depth(a) + Depth(b)
    decreases |a|
  {
    if a == [] {
      assert a + b == b;
    } else {
      assert (a + b)[1..] == a[1..] + b;
      DepthAdds(a[1..], b);
    }
  }

  lemma DepthAfter(s: Symbol, rest: seq<Symbol>)
    ensures Depth([s] + rest) ==
      (if s == Plain(LeftParen) then 1 else if s == Plain(RightParen) then -1 else 0) + Depth(rest)
  {
    assert ([s] + rest)[1..] == rest;
  }

  lemma DepthSplits(ts: seq<Symbol>, k: nat)
    requires k <= |ts|
    ensures Depth(ts) == Depth(ts[..k]) + Depth(ts[k..])
  {
    assert ts == ts[..k] + ts[k..];
    DepthAdds(ts[..k], ts[k..]);
  }

  lemma DepthOfNothing()
    ensures Depth([]) == 0
  {
  }

  lemma DepthOfOne(s: Symbol)
    ensures Depth([s]) == if s == Plain(LeftParen) then 1 else if s == Plain(RightParen) then -1 else 0
  {
  }

  /** The tokens of a node before k, and the one at k: in front of, in or behind an operand. */
  lemma PrefixShape(t: Tree, k: nat)
    requires 0 < k < |Flatten(t)|
    ensures t.Unary? || t.Grouping? || t.Binary?
    ensures t.Unary? ==>
      var c := Flatten(t.child);
      k - 1 < |c| && Flatten(t)[..k] == [Plain(OperatorKind(t.op))] + c[..k - 1] && Flatten(t)[k] == c[k - 1]
    ensures t.Grouping? ==>
      var c := Flatten(t.child); k - 1 <= |c| && Flatten(t)[..k] == [Plain(LeftParen)] + c[..k - 1]
    ensures t.Binary? ==> BetweenOperands(Flatten(t), Flatten(t.first), Plain(OperatorKind(t.op)), Flatten(t.second), k)
  {
    if t.Binary? {
      CutBinary(Flatten(t.first), Plain(OperatorKind(t.op)), Flatten(t.second), k);
    }
    hide BetweenOperands;
  }

  predicate BetweenOperands(ts: seq<Symbol>, a: seq<Symbol>, sign: Symbol, b: seq<Symbol>, k: nat)
    requires k < |ts|
  {
    if k < |a| then ts[..k] == a[..k] && ts[k] == a[k]
    else if k == |a| then ts[..k] == a && ts[k] == sign
    else
      var j := k - |a| - 1;
      j < |b| && ts[..k] == a + [sign] + b[..j] && ts[k] == b[j]
  }

  lemma CutBinary(a: seq<Symbol>, sign: Symbol, b: seq<Symbol>, k: nat)
    requires k < |a| + 1 + |b|
    ensures BetweenOperands(a + [sign] + b, a, sign, b, k)
  {
  }

  /** A tree closes all that it opens. */
  lemma {:induction false} TreeCloses(t: Tree)
    ensures Depth(Flatten(t)) == 0
  {
    hide Depth;
    DepthOfNothing();
    match t
    case Missing =>
    case Value(v, _) => DepthOfOne(Literal(v));
    case Unary(op, c, _) =>
      TreeCloses(c);
      DepthOfOne(Plain(OperatorKind(op)));
      DepthAdds([Plain(OperatorKind(op))], Flatten(c));
    case Grouping(c, _) =>
      TreeCloses(c);
      DepthOfOne(Plain(LeftParen));
      DepthOfOne(Plain(RightParen));
      DepthAdds([Plain(LeftParen)], Flatten(c));
      DepthAdds([Plain(LeftParen)] + Flatten(c), [Plain(RightParen)]);
    case Binary(op, a, b, _) =>
      TreeCloses(a);
      TreeCloses(b);
      DepthOfOne(Plain(OperatorKind(op)));
      DepthAdds(Flatten(a), [Plain(OperatorKind(op))]);
      DepthAdds(Flatten(a) + [Plain(OperatorKind(op))], Flatten(b));
  }

  lemma DepthBehind(t: Tree, op: Operator, rest: seq<Symbol>)
    ensures Depth(Flatten(t) + [Plain(OperatorKind(op))] + rest) == Depth(rest)
  {
    hide Depth, Flatten;
    TreeCloses(t);
    DepthOfOne(Plain(OperatorKind(op)));
    DepthAdds(Flatten(t), [Plain(OperatorKind(op))]);
    DepthAdds(Flatten(t) + [Plain(OperatorKind(op))], rest);
  }

  /** It closes nothing before it has opened it; and within a group, something is open. */
  lemma {:induction false} PrefixOpens(t: Tree, k: nat)
    requires k <= |Flatten(t)|
    ensures Depth(Flatten(t)[..k]) >= if t.Grouping? && 0 < k < |Flatten(t)| then 1 else 0
  {
    hide Depth, Flatten;
    DepthOfNothing();
    TreeCloses(t);
    if 0 < k < |Flatten(t)| {
      PrefixShape(t, k);
      match t
      case Unary(op, c, _) =>
        PrefixOpens(c, k - 1);
        DepthAfter(Plain(OperatorKind(op)), Flatten(c)[..k - 1]);
      case Grouping(c, _) =>
        PrefixOpens(c, k - 1);
        DepthAfter(Plain(LeftParen), Flatten(c)[..k - 1]);
      case Binary(op, a, b, _) =>
        if k < |Flatten(a)| {
          PrefixOpens(a, k);
        } else if k == |Flatten(a)| {
          TreeCloses(a);
        } else {
          PrefixOpens(b, k - |Flatten(a)| - 1);
          DepthBehind(a, op, Flatten(b)[..k - |Flatten(a)| - 1]);
        }
    } else {
      assert Flatten(t)[..|Flatten(t)|] == Flatten(t);
    }
  }

  predicate EndsOperand(ts: seq<Symbol>) {
    ts != [] && (ts[|ts| - 1].Literal? || ts[|ts| - 1] == Plain(RightParen))
  }

  lemma {:induction false} TreeEndsOperand(t: Tree)
    requires NormalForm(t)
    ensures EndsOperand(Flatten(t))
  {
    match t
    case Value(_, _) =>
    case Unary(_, c, _) => TreeEndsOperand(c);
    case Grouping(_, _) =>
    case Binary(_, _, b, _) => TreeEndsOperand(b);
  }

  /** Outside of its parentheses, a factor has nothing but signs before its end. */
  lemma {:induction false} FactorPrefix(t: Tree, k: nat)
    requires NormalForm(t) && !t.Binary? && k < |Flatten(t)| && Depth(Flatten(t)[..k]) == 0
    ensures !EndsOperand(Flatten(t)[..k]) && Flatten(t)[k] != Plain(Div)
  {
    if k > 0 {
      hide Depth, Flatten;
      PrefixShape(t, k);
      if t.Unary? {
        DepthAfter(Plain(OperatorKind(t.op)), Flatten(t.child)[..k - 1]);
        FactorPrefix(t.child, k - 1);
      } else {
        PrefixOpens(t, k);
      }
    }
  }

  /** Outside of its parentheses, a term has no sign behind an operand. */
  lemma {:induction false} TermPrefix(t: Tree, k: nat)
    requires NormalForm(t) && Level(t) >= PREC_FACTOR && k < |Flatten(t)| && Depth(Flatten(t)[..k]) == 0
    requires EndsOperand(Flatten(t)[..k])
    ensures !IsAdditive(Flatten(t)[k])
  {
    hide Depth, Flatten;
    if !t.Binary? {
      FactorPrefix(t, k);
    } else {
      var n := |Flatten(t.first)|;
      PrefixShape(t, k);
      if k < n {
        TermPrefix(t.first, k);
      } else if k > n {
        DepthBehind(t.first, t.op, Flatten(t.second)[..k - n - 1]);
        FactorPrefix(t.second, k - n - 1);
      }
    }
  }

  /** What is left of a term without its first sign is a term. */
  lemma {:induction false} TermDropsSign(ts: seq<Symbol>)
    requires ts != [] && IsAdditive(ts[0]) && IsTerm(ts)
    ensures |ts| > 1 && IsTerm(ts[1..])
    decreases |ts|
  {
    if !IsFactor(ts) {
      var k :| 0 <= k < |ts| && IsMultiplicative(ts[k]) && IsTerm(ts[..k]) && IsFactor(ts[k + 1..]);
      TermDropsSign(ts[..k]);
      assert ts[1..][..k - 1] == ts[..k][1..] && ts[1..][k - 1 + 1..] == ts[k + 1..];
      Joins(ts[1..], k - 1);
    }
  }

  lemma NodeShape(t: Tree)
    requires NormalForm(t)
    ensures !t.Missing? && (t.Value? ==> Plain(Div) !in Flatten(t))
    ensures t.Unary? ==>
      NormalForm(t.child) && Flatten(t) != [] && IsAdditive(Flatten(t)[0]) && Flatten(t)[1..] == Flatten(t.child)
    ensures t.Grouping? ==>
      NormalForm(t.child) && Flatten(t) == [Plain(LeftParen)] + Flatten(t.child) + [Plain(RightParen)]
  {
  }

  /** Whatever `|` with a Real operand the tokens have, it divides in the tree. */
  lemma {:induction false} DivisionIsInTree(t: Tree, from: int, i: int, to: int)
    requires NormalForm(t) && DividesAt(Flatten(t), from, i, to)
    ensures DividesReal(t)
    decreases t, 1
  {
    hide DividesAt, Depth, Flatten, NormalForm, IsAdditive;
    DivisionIsWithin(Flatten(t), from, i, to);
    NodeShape(t);
    match t
    case Value(_, _) =>
    case Unary(_, c, _) =>
      var start := UnderSign(c, Flatten(t), from, i, to);
      DivisionIsInTree(c, start, i - 1, to - 1);
    case Grouping(c, _) =>
      InGroup(c, Flatten(t), from, i, to);
      DivisionIsInTree(c, from - 1, i - 1, to - 1);
    case Binary(op, a, b, _) => DivisionIsInBinary(t, from, i, to);
  }

  lemma {:induction false} DivisionIsInBinary(t: Tree, from: int, i: int, to: int)
    requires NormalForm(t) && t.Binary? && DividesAt(Flatten(t), from, i, to)
    ensures DividesReal(t)
    decreases t, 0
  {
    hide DividesAt, Depth;
    var a, b, n := t.first, t.second, |Flatten(t.first)|;
    if i < n {
      InFirst(a, Flatten(t), from, i, to);
      DivisionIsInTree(a, from, i, to);
    } else if i > n {
      var start := InSecond(a, t.op, b, Flatten(t), from, i, to);
      DivisionIsInTree(b, start, i - n - 1, to - n - 1);
    } else {
      AtRoot(t, from, i, to);
    }
  }

  /** A division that takes in the sign before it is one without the sign. */
  lemma WithoutSign(ts: seq<Symbol>, i: int, to: int)
    requires DividesAt(ts, 0, i, to) && IsAdditive(ts[0])
    ensures DividesAt(ts, 1, i, to)
  {
    hide IsTerm, IsFactor, HasReal;
    var x := ts[0..i];
    assert i > 0 && x[0] == ts[0] && x[1..] == ts[1..i];
    TermDropsSign(x);
    assert x == [ts[0]] + x[1..];
    RealInParts([ts[0]], x[1..]);
    OneReal(ts[0]);
  }

  lemma UnderSign(c: Tree, ts: seq<Symbol>, from: int, i: int, to: int) returns (start: int)
    requires ts != [] && IsAdditive(ts[0]) && ts[1..] == Flatten(c) && DividesAt(ts, from, i, to)
    ensures DividesAt(Flatten(c), start, i - 1, to - 1)
  {
    hide DividesAt, Flatten;
    DivisionIsWithin(ts, from, i, to);
    start := from - 1;
    if from == 0 {
      WithoutSign(ts, i, to);
      start := 0;
    }
    assert ts[1..1 + |Flatten(c)|] == Flatten(c);
    DivisionIsWithin(ts, start + 1, i, to);
    DividesInPart(Flatten(c), ts, 1, start + 1, i, to);
  }

  /** The term and the factor are those of trees; they close all that they open. */
  lemma DivisionHasTrees(ts: seq<Symbol>, from: int, i: int, to: int) returns (x: Tree, y: Tree)
    requires DividesAt(ts, from, i, to)
    ensures 0 <= from <= i < to <= |ts| && ts[i] == Plain(Div)
    ensures NormalForm(x) && Level(x) >= PREC_FACTOR && Flatten(x) == ts[from..i]
    ensures NormalForm(y) && !y.Binary? && Flatten(y) == ts[i + 1..to]
    ensures Depth(ts[from..i]) == 0 && Depth(ts[i + 1..to]) == 0
  {
    hide Depth, HasReal, IsTerm, IsFactor, NormalForm, Flatten;
    x := TermHasTree(ts[from..i]);
    y := FactorHasTree(ts[i + 1..to]);
    TreeCloses(x);
    TreeCloses(y);
  }

  lemma InGroup(c: Tree, ts: seq<Symbol>, from: int, i: int, to: int)
    requires ts == [Plain(LeftParen)] + Flatten(c) + [Plain(RightParen)] && DividesAt(ts, from, i, to)
    ensures DividesAt(Flatten(c), from - 1, i - 1, to - 1)
  {
    hide Depth, DividesAt, Flatten, NormalForm;
    var _, _ := DivisionHasTrees(ts, from, i, to);
    InsideIsOpen(c, i - 1);
    if to == |ts| {
      assert ts[i + 1..] == ts[i + 1..to] && ts[..i + 1] == [Plain(LeftParen)] + Flatten(c)[..i];
      InsideIsOpen(c, i);
      DepthSplits(ts, i + 1);
      GroupCloses(c);
    }
    assert ts[0..i] == [Plain(LeftParen)] + Flatten(c)[..i - 1];
    assert ts[1..1 + |Flatten(c)|] == Flatten(c);
    DividesInPart(Flatten(c), ts, 1, from, i, to);
  }

  lemma InsideIsOpen(c: Tree, k: nat)
    requires k <= |Flatten(c)|
    ensures Depth([Plain(LeftParen)] + Flatten(c)[..k]) >= 1
  {
    hide Depth, Flatten;
    PrefixOpens(c, k);
    DepthAfter(Plain(LeftParen), Flatten(c)[..k]);
  }

  lemma GroupCloses(c: Tree)
    ensures Depth([Plain(LeftParen)] + Flatten(c) + [Plain(RightParen)]) == 0
  {
    TreeCloses(Grouping(c, Unknown));
  }

  lemma AtRoot(t: Tree, from: int, i: int, to: int)
    requires NormalForm(t) && t.Binary? && i == |Flatten(t.first)| && DividesAt(Flatten(t), from, i, to)
    ensures DividesReal(t)
  {
    hide IsTerm, IsFactor;
    var ts := Flatten(t);
    assert forall s <- ts[from..i] :: s in ts;
    assert forall s <- ts[i + 1..to] :: s in ts;
    assert HasReal(ts);
    MakesRealTokens(t);
    assert ts[i] == Plain(OperatorKind(t.op));
  }

  /** The factor behind a `|` in the first operand ends within that operand. */
  lemma InFirst(a: Tree, ts: seq<Symbol>, from: int, i: int, to: int)
    requires NormalForm(a) && i < |Flatten(a)| <= |ts| && ts[..|Flatten(a)|] == Flatten(a)
    requires DividesAt(ts, from, i, to)
    ensures DividesAt(Flatten(a), from, i, to)
  {
    hide DividesAt, Depth, Flatten, NormalForm;
    var n := |Flatten(a)|;
    var _, y := DivisionHasTrees(ts, from, i, to);
    if to > n {
      EndIsClosed(a, i + 1);
      assert Flatten(a)[i] == ts[i];
      assert Flatten(y)[..n - i - 1] == Flatten(a)[i + 1..];
      PrefixOpens(y, n - i - 1);
      FactorPrefix(y, n - i - 1);
    }
    assert ts[0..0 + n] == Flatten(a);
    DividesInPart(Flatten(a), ts, 0, from, i, to);
  }

  /** The end of a tree opens nothing that it does not close, and ends with an operand. */
  lemma EndIsClosed(t: Tree, k: nat)
    requires NormalForm(t) && k <= |Flatten(t)|
    ensures Depth(Flatten(t)[k..]) <= 0
    ensures Flatten(t) != [] && Flatten(t)[|Flatten(t)| - 1] != Plain(Div)
    ensures k < |Flatten(t)| ==> EndsOperand(Flatten(t)[k..])
  {
    hide Depth, Flatten, NormalForm;
    TreeEndsOperand(t);
    TreeCloses(t);
    PrefixOpens(t, k);
    DepthSplits(Flatten(t), k);
  }

  /** The term before a `|` in the second operand begins within that operand, or with the sign before it. */
  lemma InSecond(a: Tree, op: Operator, b: Tree, ts: seq<Symbol>, from: int, i: int, to: int) returns (start: int)
    requires NormalForm(a) && NormalForm(b) && Level(b) > OperatorPrecedence(op)
    requires ts == Flatten(a) + [Plain(OperatorKind(op))] + Flatten(b) && i > |Flatten(a)|
    requires DividesAt(ts, from, i, to)
    ensures DividesAt(Flatten(b), start, i - |Flatten(a)| - 1, to - |Flatten(a)| - 1)
  {
    hide DividesAt, Flatten, NormalForm, Level, OperatorPrecedence;
    var n := |Flatten(a)|;
    DivisionIsWithin(ts, from, i, to);
    if from <= n {
      OnlySignBefore(a, op, b, ts, from, i, to);
      var rest := ts[n..];
      assert ts[n..n + |rest|] == rest;
      DividesInPart(rest, ts, n, from, i, to);
      assert rest[1..] == Flatten(b);
      start := UnderSign(b, rest, 0, i - n, to - n);
    } else {
      assert ts[n + 1..n + 1 + |Flatten(b)|] == Flatten(b);
      DividesInPart(Flatten(b), ts, n + 1, from, i, to);
      start := from - n - 1;
    }
  }

  lemma SidesClose(a: seq<Symbol>, sign: Symbol, b: seq<Symbol>)
    requires Depth(a + [sign] + b) == 0 && Depth(a) >= 0 && Depth(b) >= 0
    requires sign != Plain(LeftParen) && sign != Plain(RightParen)
    ensures Depth(a) == Depth(b) == 0
  {
    hide Depth;
    DepthOfOne(sign);
    DepthAdds(a, [sign]);
    DepthAdds(a + [sign], b);
  }

  lemma SliceOver(a: seq<Symbol>, sign: Symbol, b: seq<Symbol>, from: int, i: int)
    requires 0 <= from <= |a| < i <= |a| + 1 + |b|
    ensures var slice, rest := (a + [sign] + b)[from..i], b[..i - |a| - 1];
      slice == a[from..] + [sign] + rest && slice[..|a| - from] == a[from..]
  {
  }

  lemma OperatorShape(op: Operator, b: Tree)
    requires Level(b) > OperatorPrecedence(op)
    ensures var sign := Plain(OperatorKind(op));
      sign != Plain(LeftParen) && sign != Plain(RightParen) && (IsAdditive(sign) || !b.Binary?)
  {
  }

  lemma OnlySignBefore(a: Tree, op: Operator, b: Tree, ts: seq<Symbol>, from: int, i: int, to: int)
    requires NormalForm(a) && NormalForm(b) && Level(b) > OperatorPrecedence(op)
    requires ts == Flatten(a) + [Plain(OperatorKind(op))] + Flatten(b) && i > |Flatten(a)| >= from
    requires DividesAt(ts, from, i, to)
    ensures from == |Flatten(a)| && IsAdditive(ts[from])
  {
    hide DividesAt, Depth, Flatten, NormalForm, Level, OperatorPrecedence, EndsOperand, IsAdditive;
    var n, sign := |Flatten(a)|, Plain(OperatorKind(op));
    OperatorShape(op, b);
    var x := TermOverOperator(a, sign, b, ts, from, i, to);
    if !IsAdditive(sign) {
      FactorPrefix(b, i - n - 1);
    } else if from < n {
      NoTermOverSign(a, x, from);
    }
  }

  /** No term ends an operand and goes on with a sign. */
  lemma NoTermOverSign(a: Tree, x: Tree, from: nat)
    requires NormalForm(a) && NormalForm(x) && Level(x) >= PREC_FACTOR
    requires from < |Flatten(a)| < from + |Flatten(x)| && Flatten(x)[..|Flatten(a)| - from] == Flatten(a)[from..]
    requires Depth(Flatten(a)[from..]) == 0
    ensures !IsAdditive(Flatten(x)[|Flatten(a)| - from])
  {
    hide Depth, Flatten, NormalForm, Level, IsAdditive;
    EndIsClosed(a, from);
    TermPrefix(x, |Flatten(a)| - from);
  }

  /** A term that reaches over an operator is closed on both of its sides. */
  lemma TermOverOperator(a: Tree, sign: Symbol, b: Tree, ts: seq<Symbol>, from: int, i: int, to: int)
    returns (x: Tree)
    requires ts == Flatten(a) + [sign] + Flatten(b) && i > |Flatten(a)| >= from && DividesAt(ts, from, i, to)
    requires sign != Plain(LeftParen) && sign != Plain(RightParen)
    ensures 0 <= from && NormalForm(x) && Level(x) >= PREC_FACTOR
    ensures var n := |Flatten(a)|;
      && n - from < |Flatten(x)| && Flatten(x)[..n - from] == Flatten(a)[from..] && Flatten(x)[n - from] == sign
      && i - n - 1 < |Flatten(b)| && Flatten(b)[i - n - 1] == Plain(Div)
      && Depth(Flatten(a)[from..]) == Depth(Flatten(b)[..i - n - 1]) == 0
  {
    hide DividesAt, Depth, Flatten, NormalForm, Level;
    var y;
    x, y := DivisionHasTrees(ts, from, i, to);
    var n := |Flatten(a)|;
    SliceOver(Flatten(a), sign, Flatten(b), from, i);
    PrefixOpens(x, n - from);
    PrefixOpens(b, i - n - 1);
    SidesClose(Flatten(a)[from..], sign, Flatten(b)[..i - n - 1]);
  }

  /** The type of a source that parses can be read off its tokens. */
  lemma TypeFromTokens(ts: seq<Symbol>)
    requires Accepts(ts)
    ensures var t := Parse(ts).tree;
      Complete(t) && TypeOf(t) == TokenType(ts)
  {
    hide Parse, DividesAt, HasReal;
    var t := Parse(ts).tree;
    ParseIffFlatten(ts, t);
    TypeOfCharacterised(t);
    MakesRealTokens(t);
    if DividesReal(t) {
      var from, i, to := DivisionInTokens(t);
    }
    forall from, i, to | DividesAt(ts, from, i, to)
      ensures DividesReal(t)
    {
      DivisionIsInTree(t, from, i, to);
    }
  }
}
