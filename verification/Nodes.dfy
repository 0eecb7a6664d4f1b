/**
 Syntax tree nodes as the compiler allocates them. After construction only the cached type of a
 node is ever assigned, so the shape of a tree is constant and its types are its state.
 */
module Nodes {
  import opened Values
  import opened Ast

  /** The union in a node; a child is null where the parser found no operand. */
  datatype Body =
    | ValueBody(value: Values.Value)
    | UnaryBody(child: AstNode?, op: Operator)
    | BinaryBody(first: AstNode?, second: AstNode?, op: Operator)
    | GroupingBody(child: AstNode?)

  ghost function NodesOf(n: AstNode?): set<AstNode> {
    if n == null then {} else n.nodes
  }

  ghost predicate ValidOrNull(n: AstNode?) {
    n == null || n.Valid()
  }

  /** The tree that a possibly null node stands for. */
  ghost function TreeOf(n: AstNode?): Tree
    requires ValidOrNull(n)
    reads NodesOf(n)
  {
    if n == null then Missing else n.Tree()
  }

  class AstNode {
    const body: Body
    var ty: TypeKind
    ghost const nodes: set<AstNode>

    /** The nodes beneath form a tree: no node is shared, and none is beneath itself. */
    ghost predicate Valid()
      decreases nodes
    {
      match body
      case ValueBody(_) => nodes == {this}
      case UnaryBody(c, _) => Above(NodesOf(c)) && (c != null ==> c.Valid())
      case GroupingBody(c) => Above(NodesOf(c)) && (c != null ==> c.Valid())
      case BinaryBody(a, b, _) =>
        && Above(NodesOf(a) + NodesOf(b)) && NodesOf(a) !! NodesOf(b)
        && (a != null ==> NodesOf(a) < nodes && a.Valid()) && (b != null ==> NodesOf(b) < nodes && b.Valid())
    }

    ghost predicate Above(beneath: set<AstNode>) {
      this !in beneath && nodes == beneath + {this}
    }

    ghost function Tree(): Tree
      requires Valid()
      reads nodes
      decreases nodes
    {
      match body
      case ValueBody(v) => Ast.Value(v, ty)
      case UnaryBody(c, op) => Unary(op, if c == null then Missing else c.Tree(), ty)
      case GroupingBody(c) => Grouping(if c == null then Missing else c.Tree(), ty)
      case BinaryBody(a, b, op) =>
        Binary(op, if a == null then Missing else a.Tree(), if b == null then Missing else b.Tree(), ty)
    }

    constructor OfValue(value: Values.Value, ty: TypeKind)
      ensures Valid() && fresh(nodes) && Tree() == Ast.Value(value, ty)
    {
      body, this.ty, nodes := ValueBody(value), ty, {this};
    }

    constructor OfUnary(child: AstNode?, op: Operator)
      requires ValidOrNull(child)
      ensures Valid() && fresh(nodes - NodesOf(child)) && Tree() == MakeUnary(TreeOf(child), op)
    {
      body, ty, nodes := UnaryBody(child, op), Unknown, NodesOf(child) + {this};
    }

    constructor OfBinary(first: AstNode?, second: AstNode?, op: Operator)
      requires ValidOrNull(first) && ValidOrNull(second) && NodesOf(first) !! NodesOf(second)
      ensures Valid() && fresh(nodes - NodesOf(first) - NodesOf(second))
      ensures Tree() == MakeBinary(TreeOf(first), TreeOf(second), op)
    {
      body, ty, nodes := BinaryBody(first, second, op), Unknown, NodesOf(first) + NodesOf(second) + {this};
    }

    constructor OfGrouping(child: AstNode?)
      requires ValidOrNull(child)
      ensures Valid() && fresh(nodes - NodesOf(child)) && Tree() == MakeGrouping(TreeOf(child))
    {
      body, ty, nodes := GroupingBody(child), Unknown, NodesOf(child) + {this};
    }
  }
}
