/**
 Type inference (compiler.c): the cached inference that the checker runs, a pure typing function
 that has no cache, and how the two agree.
 */
module Typing {
  import opened Values
  import opened Ast

  /** A message of the checker, with what is printed in it; the last two are about a whole expression. */
  datatype TypeError =
    | UnaryOperand(child: TypeKind, op: Operator)
    | BinaryOperands(first: TypeKind, second: TypeKind, op: Operator)
    | NoUnaryRule(op: Operator)
    | NoValueType
    | InvalidExpression
    | UnknownExpression

  /** A type, and the errors reported on the way to it. */
  datatype Inferred = Inferred(ty: TypeKind, errors: seq<TypeError>)

  function Refuse(error: TypeError): Inferred { Inferred(Invalid, [error]) }

  predicate IsNumber(t: TypeKind) { t == Real || t == Int }

  function InferUnary(op: Operator, child: TypeKind): Inferred {
    if child == Invalid then Inferred(Invalid, [])
    else if !IsSign(op) then Refuse(NoUnaryRule(op))
    else if IsNumber(child) then Inferred(child, [])
    else Refuse(UnaryOperand(child, op))
  }

  function InferBinary(op: Operator, first: TypeKind, second: TypeKind): Inferred {
    if first == Invalid || second == Invalid then Inferred(Invalid, [])
    else if !IsNumber(first) || !IsNumber(second) then Refuse(BinaryOperands(first, second, op))
    else match op
      case OpSlash => Inferred(Real, [])
      case OpDiv =>
        if first == Int && second == Int then Inferred(Int, []) else Refuse(BinaryOperands(first, second, op))
      case _ => Inferred(if first == Int && second == Int then Int else Real, [])
  }

  datatype Checked = Checked(tree: Tree, errors: seq<TypeError>)

  /** Inference as the checker runs it: a known type is returned as it is, an unknown one is stored. */
  function Infer(t: Tree): (r: Checked)
    requires Complete(t)
    ensures Complete(r.tree)
  {
    if t.ty != Unknown then Checked(t, [])
    else match t
      case Value(v, _) => Checked(Value(v, Invalid), [NoValueType])
      case Unary(op, c, _) =>
        var child := Infer(c);
        var r := InferUnary(op, child.tree.ty);
        Checked(Unary(op, child.tree, r.ty), child.errors + r.errors)
      case Binary(op, a, b, _) =>
        var first, second := Infer(a), Infer(b);
        var r := InferBinary(op, first.tree.ty, second.tree.ty);
        Checked(Binary(op, first.tree, second.tree, r.ty), first.errors + second.errors + r.errors)
      case Grouping(c, _) =>
        var child := Infer(c);
        Checked(Grouping(child.tree, child.tree.ty), child.errors)
  }

  /** One step of inference, at a node that is not known. */
  lemma InferUnfolds(t: Tree)
    requires Complete(t) && t.ty == Unknown
    ensures t.Value? ==> Infer(t) == Checked(Value(t.value, Invalid), [NoValueType])
    ensures t.Unary? ==>
      var c := Infer(t.child);
      var r := InferUnary(t.op, c.tree.ty);
      Infer(t) == Checked(Unary(t.op, c.tree, r.ty), c.errors + r.errors)
    ensures t.Binary? ==>
      var a, b := Infer(t.first), Infer(t.second);
      var r := InferBinary(t.op, a.tree.ty, b.tree.ty);
      Infer(t) == Checked(Binary(t.op, a.tree, b.tree, r.ty), a.errors + b.errors + r.errors)
    ensures t.Grouping? ==>
      var c := Infer(t.child); Infer(t) == Checked(Grouping(c.tree, c.tree.ty), c.errors)
  {
  }

  /** The type of a tree, computed without looking at any cached type. */
  function TypeOf(t: Tree): (ty: TypeKind)
    requires Complete(t)
    ensures ty != Unknown
  {
    match t
    case Value(v, _) => v.Type()
    case Unary(op, c, _) => InferUnary(op, TypeOf(c)).ty
    case Binary(op, a, b, _) => InferBinary(op, TypeOf(a), TypeOf(b)).ty
    case Grouping(c, _) => TypeOf(c)
  }

  /** The tree with every node labelled by its type. */
  function Annotate(t: Tree): (r: Tree)
    requires Complete(t)
    ensures Complete(r) && r.ty == TypeOf(t)
  {
    match t
    case Value(v, _) => Value(v, TypeOf(t))
    case Unary(op, c, _) => Unary(op, Annotate(c), TypeOf(t))
    case Binary(op, a, b, _) => Binary(op, Annotate(a), Annotate(b), TypeOf(t))
    case Grouping(c, _) => Grouping(Annotate(c), TypeOf(t))
  }

  predicate FullyKnown(t: Tree) {
    match t
    case Missing => false
    case Value(_, ty) => ty != Unknown
    case Unary(_, c, ty) => ty != Unknown && FullyKnown(c)
    case Binary(_, a, b, ty) => ty != Unknown && FullyKnown(a) && FullyKnown(b)
    case Grouping(c, ty) => ty != Unknown && FullyKnown(c)
  }

  /** A cached type is the true one, and everything beneath a known node is known. */
  predicate Consistent(t: Tree)
    requires Complete(t)
  {
    && (t.ty != Unknown ==> t.ty == TypeOf(t) && FullyKnown(t))
    && match t
       case Value(_, ty) => ty != Unknown
       case Unary(_, c, _) => Consistent(c)
       case Binary(_, a, b, _) => Consistent(a) && Consistent(b)
       case Grouping(c, _) => Consistent(c)
  }

  /** A node is at fault when it has no type although each of its children has one. */
  predicate AtFault(t: Tree)
    requires Complete(t)
  {
    TypeOf(t) == Invalid && match t
      case Value(_, _) => true
      case Unary(_, c, _) => TypeOf(c) != Invalid
      case Binary(_, a, b, _) => TypeOf(a) != Invalid && TypeOf(b) != Invalid
      case Grouping(c, _) => TypeOf(c) != Invalid
  }

  /** What is printed of a node at fault: the types of its operands, and its operator. */
  function ErrorOf(t: Tree): TypeError
    requires Complete(t) && AtFault(t)
  {
    if t.Binary? then BinaryOperands(TypeOf(t.first), TypeOf(t.second), t.op)
    else if IsSign(t.op) then UnaryOperand(TypeOf(t.child), t.op)
    else NoUnaryRule(t.op)
  }

  /** The nodes of a tree that are at fault, operands before operators and left before right. */
  function Faults(t: Tree): (nodes: seq<Tree>)
    requires Complete(t)
    ensures forall n <- nodes :: Complete(n) && AtFault(n)
  {
    (match t
     case Value(_, _) => []
     case Unary(_, c, _) => Faults(c)
     case Binary(_, a, b, _) => Faults(a) + Faults(b)
     case Grouping(c, _) => Faults(c))
    + if AtFault(t) then [t] else []
  }

  /** The nodes at fault that have no cached type yet. */
  function PendingFaults(t: Tree): (nodes: seq<Tree>)
    requires Complete(t)
    ensures forall n <- nodes :: Complete(n) && AtFault(n)
  {
    (match t
     case Value(_, _) => []
     case Unary(_, c, _) => PendingFaults(c)
     case Binary(_, a, b, _) => PendingFaults(a) + PendingFaults(b)
     case Grouping(c, _) => PendingFaults(c))
    + if t.ty == Unknown && AtFault(t) then [t] else []
  }

  function ErrorsOf(nodes: seq<Tree>): seq<TypeError>
    requires forall n <- nodes :: Complete(n) && AtFault(n)
  {
    seq(|nodes|, i requires 0 <= i < |nodes| => ErrorOf(nodes[i]))
  }

  lemma NoErrors()
    ensures ErrorsOf([]) == []
  {
  }

  lemma ErrorsAppend(a: seq<Tree>, b: seq<Tree>)
    requires forall n <- a + b :: Complete(n) && AtFault(n)
    ensures (forall n <- a :: Complete(n) && AtFault(n)) && (forall n <- b :: Complete(n) && AtFault(n))
    ensures ErrorsOf(a + b) == ErrorsOf(a) + ErrorsOf(b)
  {
  }

  lemma {:induction false} KnownIsAnnotated(t: Tree)
    requires Complete(t) && Consistent(t) && FullyKnown(t)
    ensures t == Annotate(t) && PendingFaults(t) == []
  {
    match t
    case Value(_, _) =>
    case Unary(_, c, _) => KnownIsAnnotated(c);
    case Grouping(c, _) => KnownIsAnnotated(c);
    case Binary(_, a, b, _) => KnownIsAnnotated(a); KnownIsAnnotated(b);
  }

  /** The rule of an operator reports exactly a node at fault. */
  lemma RuleReports(t: Tree)
    requires Complete(t)
    ensures t.Unary? ==> InferUnary(t.op, TypeOf(t.child)).errors == if AtFault(t) then [ErrorOf(t)] else []
    ensures t.Binary? ==>
      InferBinary(t.op, TypeOf(t.first), TypeOf(t.second)).errors == if AtFault(t) then [ErrorOf(t)] else []
    ensures t.Value? || t.Grouping? ==> !AtFault(t)
  {
  }

  /** The errors of a node that is not known come after those of its operands. */
  lemma PendingErrors(t: Tree, inner: seq<Tree>)
    requires Complete(t) && PendingFaults(t) == inner + if AtFault(t) then [t] else []
    ensures forall n <- inner :: Complete(n) && AtFault(n)
    ensures ErrorsOf(PendingFaults(t)) == ErrorsOf(inner) + if AtFault(t) then [ErrorOf(t)] else []
  {
    hide PendingFaults, AtFault, ErrorOf;
    ErrorsAppend(inner, if AtFault(t) then [t] else []);
  }

  /** From any consistent state of the cache, inference labels the whole tree with the pure types. */
  lemma {:induction false} InferAgrees(t: Tree)
    requires Complete(t) && Consistent(t)
    ensures Infer(t) == Checked(Annotate(t), ErrorsOf(PendingFaults(t)))
  {
    hide AtFault, ErrorOf, ErrorsOf, InferUnary, InferBinary;
    if t.ty != Unknown {
      KnownIsAnnotated(t);
      NoErrors();
    } else {
      RuleReports(t);
      match t
      case Unary(_, c, _) =>
        InferAgrees(c);
        PendingErrors(t, PendingFaults(c));
      case Grouping(c, _) =>
        InferAgrees(c);
        PendingErrors(t, PendingFaults(c));
      case Binary(_, a, b, _) =>
        InferAgrees(a);
        InferAgrees(b);
        PendingErrors(t, PendingFaults(a) + PendingFaults(b));
        ErrorsAppend(PendingFaults(a), PendingFaults(b));
    }
  }

  /** The tree without its types: its shape, its operators and its values. */
  function Erase(t: Tree): Tree {
    match t
    case Missing => Missing
    case Value(v, _) => Value(v, Unknown)
    case Unary(op, c, _) => Unary(op, Erase(c), Unknown)
    case Binary(op, a, b, _) => Binary(op, Erase(a), Erase(b), Unknown)
    case Grouping(c, _) => Grouping(Erase(c), Unknown)
  }

  /** The result is fully known and consistent, so asking again changes nothing and reports nothing. */
  lemma {:induction false} AnnotateConsistent(t: Tree)
    requires Complete(t)
    ensures var r := Annotate(t); TypeOf(r) == TypeOf(t) && FullyKnown(r) && Consistent(r)
    ensures Infer(Annotate(t)) == Checked(Annotate(t), [])
    ensures Erase(Annotate(t)) == Erase(t) && Flatten(Annotate(t)) == Flatten(t)
  {
    match t
    case Value(_, _) =>
    case Unary(_, c, _) => AnnotateConsistent(c);
    case Grouping(c, _) => AnnotateConsistent(c);
    case Binary(_, a, b, _) => AnnotateConsistent(a); AnnotateConsistent(b);
  }

  /** A `|` whose operands have types, of which one is Real. */
  predicate IsRealDivision(t: Tree) {
    && Complete(t) && t.Binary? && t.op == OpDiv
    && var a, b := TypeOf(t.first), TypeOf(t.second); IsNumber(a) && IsNumber(b) && (a == Real || b == Real)
  }

  /** What is said of it: the types of its operands, first and second. */
  predicate IsDivisionError(t: Tree, error: TypeError) {
    IsRealDivision(t) && error == BinaryOperands(TypeOf(t.first), TypeOf(t.second), OpDiv)
  }

  lemma DivisionErrorOf(t: Tree)
    requires IsRealDivision(t) && AtFault(t)
    ensures IsDivisionError(t, ErrorOf(t))
  {
  }

  /**
   Errors do not cascade: the first check of a parsed tree reports each node at fault once, in order.
   Each of them is a `|` between numbers of which one is a Real.
   */
  lemma {:induction false} FirstCheckReports(t: Tree)
    requires NormalForm(t)
    ensures Complete(t) && Consistent(t)
    ensures Infer(t).errors == ErrorsOf(Faults(t)) && Infer(t).tree.ty == TypeOf(t)
    ensures forall i | 0 <= i < |Faults(t)| :: IsDivisionError(Faults(t)[i], Infer(t).errors[i])
  {
    FreshIsConsistent(t);
    InferAgrees(t);
    FaultsAreDivisions(t);
    hide Infer, TypeOf, Faults;
    forall i | 0 <= i < |Faults(t)|
      ensures IsDivisionError(Faults(t)[i], Infer(t).errors[i])
    {
      DivisionErrorOf(Faults(t)[i]);
    }
  }

  lemma {:induction false} FreshIsConsistent(t: Tree)
    requires NormalForm(t)
    ensures Complete(t) && Consistent(t) && PendingFaults(t) == Faults(t)
  {
    hide AtFault;
    match t {
      case Value(_, _) =>
      case Unary(_, c, _) => FreshIsConsistent(c);
      case Grouping(c, _) => FreshIsConsistent(c);
      case Binary(_, a, b, _) => FreshIsConsistent(a); FreshIsConsistent(b);
    }
    RuleReports(t);
  }

  lemma {:induction false} FaultsAreDivisions(t: Tree)
    requires NormalForm(t)
    ensures Complete(t) && forall n <- Faults(t) :: IsRealDivision(n)
  {
    FreshIsConsistent(t);
    FaultIsDivision(t);
    hide AtFault, IsRealDivision;
    match t
    case Value(_, _) =>
    case Unary(_, c, _) => FaultsAreDivisions(c);
    case Grouping(c, _) => FaultsAreDivisions(c);
    case Binary(_, a, b, _) => FaultsAreDivisions(a); FaultsAreDivisions(b);
  }

  lemma FaultIsDivision(t: Tree)
    requires NormalForm(t) && Complete(t)
    ensures AtFault(t) ==> IsRealDivision(t)
  {
  }

  /** A node at fault anywhere makes the root invalid, and nothing else does. */
  lemma {:induction false} InvalidIffFault(t: Tree)
    requires Complete(t)
    ensures TypeOf(t) == Invalid <==> Faults(t) != []
  {
    match t
    case Value(_, _) =>
    case Unary(_, c, _) => InvalidIffFault(c);
    case Grouping(c, _) => InvalidIffFault(c);
    case Binary(_, a, b, _) => InvalidIffFault(a); InvalidIffFault(b);
  }

  // The verdict without any typing rule: only where `|` meets a Real does a tree fail to check.

  /** There is a Real literal or a `/` in the tree. */
  predicate MakesReal(t: Tree) {
    match t
    case Missing => false
    case Value(v, _) => v.RealValue?
    case Unary(_, c, _) => MakesReal(c)
    case Binary(op, a, b, _) => op == OpSlash || MakesReal(a) || MakesReal(b)
    case Grouping(c, _) => MakesReal(c)
  }

  /** Some `|` in the tree has a Real literal or a `/` beneath it. */
  predicate DividesReal(t: Tree) {
    match t
    case Missing => false
    case Value(_, _) => false
    case Unary(_, c, _) => DividesReal(c)
    case Binary(op, a, b, _) => (op == OpDiv && MakesReal(t)) || DividesReal(a) || DividesReal(b)
    case Grouping(c, _) => DividesReal(c)
  }

  lemma {:induction false} TypeOfCharacterised(t: Tree)
    requires NormalForm(t)
    ensures Complete(t)
    ensures TypeOf(t) == if DividesReal(t) then Invalid else if MakesReal(t) then Real else Int
  {
    match t
    case Value(_, _) =>
    case Unary(_, c, _) => TypeOfCharacterised(c);
    case Grouping(c, _) => TypeOfCharacterised(c);
    case Binary(_, a, b, _) => TypeOfCharacterised(a); TypeOfCharacterised(b);
  }
}
