/** Abstract syntax trees (compiler.h) as values, and the token sequence that a tree spells. */
module Ast {
  import opened Values
  import opened Tokens

  datatype Operator = OpPlus | OpMinus | OpStar | OpSlash | OpDiv

  /** Every node carries the type that inference caches in it. Missing stands for a NULL child. */
  datatype Tree =
    | Missing
    | Value(value: Value, ty: TypeKind)
    | Unary(op: Operator, child: Tree, ty: TypeKind)
    | Binary(op: Operator, first: Tree, second: Tree, ty: TypeKind)
    | Grouping(child: Tree, ty: TypeKind)

  // The nodes that the parser builds: only a literal has a type from the start.

  function MakeValue(v: Values.Value): Tree { Value(v, v.Type()) }

  function MakeUnary(child: Tree, op: Operator): Tree { Unary(op, child, Unknown) }

  function MakeBinary(first: Tree, second: Tree, op: Operator): Tree { Binary(op, first, second, Unknown) }

  function MakeGrouping(child: Tree): Tree { Grouping(child, Unknown) }

  /** The operator a token stands for; the parser asks only about tokens with an operator rule. */
  function OperatorOf(kind: TokenKind): Operator
    requires GetParseRule(kind).prefix.UnaryRule? || GetParseRule(kind).infix.BinaryRule?
  {
    match kind
    case Plus => OpPlus
    case Minus => OpMinus
    case Star => OpStar
    case Slash => OpSlash
    case _ => OpDiv
  }

  function OperatorKind(op: Operator): TokenKind {
    match op
    case OpPlus => Plus
    case OpMinus => Minus
    case OpStar => Star
    case OpSlash => Slash
    case OpDiv => Div
  }

  predicate IsSign(op: Operator) { op.OpPlus? || op.OpMinus? }

  function OperatorPrecedence(op: Operator): nat {
    if IsSign(op) then PREC_TERM else PREC_FACTOR
  }

  /** No child anywhere in the tree is NULL, and neither is the root. */
  predicate Complete(t: Tree) {
    match t
    case Missing => false
    case Value(_, _) => true
    case Unary(_, c, _) => Complete(c)
    case Binary(_, a, b, _) => Complete(a) && Complete(b)
    case Grouping(c, _) => Complete(c)
  }

  /** The tokens that spell a tree. */
  function Flatten(t: Tree): seq<Symbol> {
    match t
    case Missing => []
    case Value(v, _) => [Literal(v)]
    case Unary(op, c, _) => [Plain(OperatorKind(op))] + Flatten(c)
    case Binary(op, a, b, _) => Flatten(a) + [Plain(OperatorKind(op))] + Flatten(b)
    case Grouping(c, _) => [Plain(LeftParen)] + Flatten(c) + [Plain(RightParen)]
  }

  /** How tightly a node holds together: nothing binds tighter than a node that is not binary. */
  function Level(t: Tree): nat {
    if t.Binary? then OperatorPrecedence(t.op) else PREC_UNARY
  }

  /** Trees that need no more grouping nodes than they have, with the types the parser leaves. */
  predicate NormalForm(t: Tree) {
    match t
    case Missing => false
    case Value(v, ty) => ty == v.Type()
    case Unary(op, c, ty) => IsSign(op) && NormalForm(c) && !c.Binary? && ty == Unknown
    case Binary(op, a, b, ty) =>
      && NormalForm(a) && NormalForm(b) && ty == Unknown
      && Level(a) >= OperatorPrecedence(op) && Level(b) > OperatorPrecedence(op)
    case Grouping(c, ty) => NormalForm(c) && ty == Unknown
  }
}
