/**
 The compiler object of compiler.c: the recursive parser over its lexer, and the type checker over
 the nodes that it builds. Each method is proved to do what ParseSpec and Typing compute.
 */
module Compilation {
  import opened Values
  import opened Tokens
  import opened Ast
  import opened ParseSpec
  import opened LexSpec
  import opened Scanner
  import opened Nodes
  import opened CompileSpec
  import Typing
  import Grammar
  import ParseTheorems

  class Compiler {
    var lexer: Lexer?
    var current: Token
    var previous: Token
    var isError: bool
    var isPanic: bool

    /** The tokens of the source in which the first error is; of the last source, if there is no error. */
    ghost var tokens: seq<Token>

    /** The first syntax error. */
    ghost var report: Report

    /** The syntax errors and the type errors that have been printed. */
    ghost var printed: seq<Message>
    ghost var typeErrors: seq<Typing.TypeError>

    /** The trees that have been printed. */
    ghost var trees: seq<Tree>

    constructor ()
      ensures lexer == null && !isError && Disciplined() && printed == [] && typeErrors == [] && trees == []
    {
      lexer, isError, isPanic := null, false, false;
      tokens, report, printed, typeErrors, trees := [], Silent, [], [], [];
      current, previous := Token(Eof, "", 0, 0), Token(Eof, "", 0, 0);
    }

    /** Panic mode is entered with the first error and never left, so only that one is printed. */
    ghost predicate Disciplined()
      reads this
    {
      && isError == isPanic == report.Reported? && printed == MessagesOf(tokens, report)
      && (report.Reported? ==> report.left < |tokens|)
    }

    ghost predicate Ready()
      reads this, lexer
    {
      lexer != null && lexer.Valid() && ScansWithin(lexer.source, lexer.current) && Disciplined()
    }

    /** The tokens that the lexer has not scanned yet. */
    ghost function Pending(): seq<Symbol>
      requires Ready()
      reads this, lexer
    {
      Symbols(lexer.source, lexer.current)
    }

    /** Until the first error, the tokens that are still to be scanned are the last of the source. */
    ghost predicate ScanTracked()
      requires Ready()
      reads this, lexer
    {
      isError || EndsWith(tokens, |Pending()|, TokensFrom(lexer.source, lexer.current, lexer.line, lexer.column))
    }

    ghost predicate Valid()
      reads this, lexer
    {
      && Ready() && !current.kind.Error?
      && (current.kind.Eof? ==> Pending() == [])
      && (current.kind.LitInt? ==> AllDigits(current.text))
    }

    ghost function Unread(): seq<Symbol>
      requires Valid()
      reads this, lexer
    {
      if current.kind.Eof? then [] else [LexemeOf(current.kind, current.text)] + Pending()
    }

    /** Where the parser is, in the terms of its specification. */
    ghost function Position(): (c: Cursor)
      requires Valid()
      reads this, lexer
      ensures Settled(c) && Current(c.unread) == current.kind && c.report == report && c.Failed() == isError
    {
      Cursor(Unread(), report)
    }

    /** Until the first error, the current token is where the cursor is among the tokens of the source. */
    ghost predicate Tracked()
      requires Valid()
      reads this, lexer
    {
      isError || (Located(tokens, |Unread()|, current) && (current.kind.Eof? || ScanTracked()))
    }

    /** Prints a message for a token, unless one has been printed. */
    method ParseError(token: Token, message: string, ghost left: nat, ghost complaint: Complaint)
      requires Disciplined()
      requires !isError ==> Located(tokens, left, token) && message == Wording(complaint, token)
      modifies `isError, `isPanic, `report, `printed
      ensures Disciplined() && isError && report == Fail(old(report), left, complaint)
      ensures printed == if old(isPanic) then old(printed) else old(printed) + [Message(token, message)]
    {
      if isPanic {
        return;
      }
      isPanic := true;
      printed := printed + [Message(token, message)];
      isError, report := true, Reported(left, complaint);
    }

    method ParseErrorAtCurrent(message: string, ghost left: nat, ghost complaint: Complaint)
      requires Disciplined()
      requires !isError ==> Located(tokens, left, current) && message == Wording(complaint, current)
      modifies `isError, `isPanic, `report, `printed
      ensures Disciplined() && isError && report == Fail(old(report), left, complaint)
      ensures old(Valid()) ==> Valid() && Tracked() && Position() == old(Position()).FailAt(left, complaint)
    {
      hide Symbols, ScansWithin, TokensFrom;
      ParseError(current, message, left, complaint);
    }

    method ParseErrorAtPrevious(message: string, ghost left: nat, ghost complaint: Complaint)
      requires Valid()
      requires !isError ==> Located(tokens, left, previous) && message == Wording(complaint, previous)
      modifies `isError, `isPanic, `report, `printed
      ensures Valid() && Tracked() && Position() == old(Position()).FailAt(left, complaint)
    {
      hide Symbols, ScansWithin, TokensFrom;
      ParseError(previous, message, left, complaint);
    }

    /** The next token is current: an error token, or the one that the parser reads. */
    method ScanCurrent()
      requires Ready()
      modifies `current, lexer
      ensures Ready()
      ensures current.kind.Error? ==>
        && old(lexer.current) < lexer.current && old(Pending()) != []
        && Settle(old(Pending()), report) == Settle(Pending(), Fail(report, |old(Pending())|, BadToken))
        && (old(ScanTracked()) ==> ScanTracked() && (!isError ==> Located(tokens, |old(Pending())|, current)))
      ensures !current.kind.Error? ==>
        && Valid() && Position() == Settle(old(Pending()), report) && (old(ScanTracked()) ==> Tracked())
    {
      hide Skip, TryAt, Symbols, ScansWithin, Settle, LexemeOf, MessagesOf, TokensFrom, EndsWith, TokenText;
      ScanStep(lexer.source, lexer.current, report);
      if !isError && ScanTracked() {
        TokensStep(lexer.source, lexer.current, lexer.line, lexer.column, tokens, |Pending()|);
      }
      var scan := lexer.ScanToken();
      current := scan.token;
    }

    method Advance()
      requires Ready() && (ScanTracked() || Pending() == [])
      modifies `current, `previous, `isError, `isPanic, `report, `printed, lexer
      ensures Valid() && previous == old(current)
      ensures Position() == Settle(old(Pending()), old(report)) && (old(ScanTracked()) ==> Tracked())
      ensures old(Valid()) ==> Position() == ParseSpec.Advance(old(Position()))
    {
      hide Symbols, ScansWithin, Settle, MessagesOf, TokensFrom, EndsWith, Located;
      previous := current;
      while true
        invariant Ready() && Settle(Pending(), report) == Settle(old(Pending()), old(report))
        invariant previous == old(current)
        invariant if old(ScanTracked()) then ScanTracked() else Pending() == []
        decreases |lexer.source| - lexer.current
      {
        ghost var left := |Pending()|;
        ScanCurrent();
        if !current.kind.Error? {
          break;
        }
        ParseErrorAtCurrent(current.text, left, BadToken);
      }
    }

    method Consume(kind: TokenKind, message: string, ghost complaint: Complaint)
      requires Valid() && Tracked() && message == Wording(complaint, current)
      modifies `current, `previous, `isError, `isPanic, `report, `printed, lexer
      ensures Valid() && Position() == ParseSpec.Consume(old(Position()), kind, complaint)
      ensures !kind.Eof? ==> Tracked()
    {
      hide Symbols, ScansWithin, Settle, TokensFrom, EndsWith, Wording, LexemeOf, Disciplined;
      if current.kind == kind {
        Advance();
        return;
      }
      ParseErrorAtCurrent(message, |Unread()|, complaint);
    }

    // The parse functions. Each returns a fresh tree, and null where there is no operand.

    /** The token just read, as the parse functions see it. */
    ghost function Previous(): Symbol
      requires !previous.kind.Eof? && (previous.kind.LitInt? ==> AllDigits(previous.text))
      reads this
    {
      LexemeOf(previous.kind, previous.text)
    }

    ghost predicate HasPrevious()
      reads this
    {
      !previous.kind.Eof? && (previous.kind.LitInt? ==> AllDigits(previous.text))
    }

    /** What every parse method ensures: its outcome is the given one. */
    ghost predicate Parsed(o: Outcome, node: AstNode?)
      reads this, lexer, NodesOf(node)
    {
      Valid() && Tracked() && ValidOrNull(node) && o == Done(TreeOf(node), Position())
    }

    method ParsePrecedence(p: nat) returns (node: AstNode?)
      requires Valid() && Tracked() && p > 0 && ParseSpec.ParsePrecedence(p, Position()).Done?
      modifies `current, `previous, `isError, `isPanic, `report, `printed, lexer
      ensures Parsed(ParseSpec.ParsePrecedence(p, old(Position())), node) && fresh(NodesOf(node))
      decreases |Position().unread|, 1
    {
      hide ParseSpec.ParsePrecedence, ParseSpec.ParsePrefix, ParseLoop, Settle, Symbols, ScansWithin, GetParseRule;
      hide Disciplined, TokensFrom, EndsWith;
      ghost var c := Position();
      ParseTheorems.PrecedenceUnfolds(p, c);
      EofHasNoRule();
      Advance();
      if GetParseRule(previous.kind).prefix.NoPrefix? {
        ParseErrorAtPrevious("Expected expression.", |c.unread|, NoExpression);
        return null;
      }
      assert Previous() == c.unread[0];
      hide Position;
      var first := ParsePrefix();
      node := ParseInfixes(p, first);
    }

    /** The loop of the function above, once it has its first operand. */
    method ParseInfixes(p: nat, first: AstNode?) returns (node: AstNode?)
      requires Valid() && Tracked() && p > 0 && ValidOrNull(first) && ParseLoop(p, TreeOf(first), Position()).Done?
      modifies `current, `previous, `isError, `isPanic, `report, `printed, lexer
      ensures Parsed(ParseLoop(p, old(TreeOf(first)), old(Position())), node)
      ensures fresh(NodesOf(node) - NodesOf(first))
      decreases |Position().unread|, 1
    {
      hide ParseSpec.ParsePrecedence, ParseSpec.ParseBinary, ParseLoop, Settle, Symbols, ScansWithin, GetParseRule;
      hide Position, TreeOf, Unread, Tracked, Disciplined;
      node := first;
      while p <= GetParseRule(current.kind).precedence
        invariant Valid() && Tracked() && ValidOrNull(node) && fresh(NodesOf(node) - NodesOf(first))
        invariant |Position().unread| <= |old(Position()).unread|
        invariant ParseLoop(p, TreeOf(node), Position()) == ParseLoop(p, old(TreeOf(first)), old(Position()))
        decreases |Position().unread|
      {
        ParseTheorems.LoopTurns(p, TreeOf(node), Position());
        node := ParseInfix(node);
      }
      ParseTheorems.LoopUnfolds(p, TreeOf(node), Position());
    }

    /** One turn of the loop above: reads the operator and runs its infix rule. */
    method ParseInfix(first: AstNode?) returns (node: AstNode?)
      requires Valid() && Tracked() && ValidOrNull(first) && GetParseRule(current.kind).infix.BinaryRule?
      requires ParseSpec.ParseBinary(current.kind, TreeOf(first), ParseSpec.Advance(Position())).Done?
      modifies `current, `previous, `isError, `isPanic, `report, `printed, lexer
      ensures node != null && fresh(NodesOf(node) - NodesOf(first))
      ensures Valid() && |Position().unread| < |old(Position()).unread|
      ensures var c := ParseSpec.Advance(old(Position()));
        Parsed(ParseSpec.ParseBinary(old(current.kind), old(TreeOf(first)), c), node)
      decreases |Position().unread|, 0
    {
      hide ParseSpec.ParsePrecedence, Settle, Symbols, ScansWithin;
      EofHasNoRule();
      Advance();
      node := ParseBinary(first);
    }

    method ParsePrefix() returns (node: AstNode?)
      requires Valid() && Tracked() && HasPrevious() && !GetParseRule(previous.kind).prefix.NoPrefix?
      requires ParseSpec.ParsePrefix(Previous(), Position()).Done?
      modifies `current, `previous, `isError, `isPanic, `report, `printed, lexer
      ensures Parsed(ParseSpec.ParsePrefix(old(Previous()), old(Position())), node) && fresh(NodesOf(node))
      decreases |Position().unread|, 5
    {
      var rule := GetParseRule(previous.kind).prefix;
      if rule.GroupingRule? {
        node := ParseGrouping();
      } else if rule.UnaryRule? {
        node := ParseUnary();
      } else {
        ParseTheorems.LiteralStep(Previous(), Position());
        if previous.kind.LitReal? {
          node := ParseReal();
        } else {
          node := ParseInt();
        }
      }
    }

    method ParseExpression() returns (node: AstNode?)
      requires Valid() && Tracked() && ParseSpec.ParsePrecedence(PREC_ASSIGNMENT, Position()).Done?
      modifies `current, `previous, `isError, `isPanic, `report, `printed, lexer
      ensures Parsed(ParseSpec.ParsePrecedence(PREC_ASSIGNMENT, old(Position())), node) && fresh(NodesOf(node))
      decreases |Position().unread|, 2
    {
      hide ParseSpec.ParsePrecedence, Settle, Symbols, ScansWithin;
      node := ParsePrecedence(PREC_ASSIGNMENT);
    }

    method ParseGrouping() returns (node: AstNode?)
      requires Valid() && Tracked() && HasPrevious() && GetParseRule(previous.kind).prefix.GroupingRule?
      requires ParseSpec.ParsePrefix(Previous(), Position()).Done?
      modifies `current, `previous, `isError, `isPanic, `report, `printed, lexer
      ensures Parsed(ParseSpec.ParsePrefix(old(Previous()), old(Position())), node) && fresh(NodesOf(node))
      decreases |Position().unread|, 4
    {
      hide ParseSpec.ParsePrecedence, ParseSpec.ParsePrefix, Settle, Symbols, ScansWithin, GetParseRule;
      hide Position, Unread, ParseSpec.Consume, Tracked, Disciplined;
      ParseTheorems.ParenthesisStep(Previous(), Position());
      var child := ParseEnclosed();
      node := new AstNode.OfGrouping(child);
    }

    /** The expression in parentheses, with the closing one. */
    method ParseEnclosed() returns (child: AstNode?)
      requires Valid() && Tracked() && ParseSpec.ParsePrecedence(PREC_ASSIGNMENT, Position()).Done?
      modifies `current, `previous, `isError, `isPanic, `report, `printed, lexer
      ensures var o := ParseSpec.ParsePrecedence(PREC_ASSIGNMENT, old(Position()));
        Parsed(Done(o.tree, ParseSpec.Consume(o.cursor, RightParen, NoParenthesis)), child)
      ensures fresh(NodesOf(child))
      decreases |Position().unread|, 3
    {
      hide ParseSpec.ParsePrecedence, Settle, Symbols, ScansWithin, GetParseRule;
      hide Position, Unread, ParseSpec.Consume, Tracked, Disciplined;
      child := ParseExpression();
      Consume(RightParen, "Expected ')' after expression.", NoParenthesis);
    }

    method ParseUnary() returns (node: AstNode?)
      requires Valid() && Tracked() && HasPrevious() && GetParseRule(previous.kind).prefix.UnaryRule?
      requires ParseSpec.ParsePrefix(Previous(), Position()).Done?
      modifies `current, `previous, `isError, `isPanic, `report, `printed, lexer
      ensures Parsed(ParseSpec.ParsePrefix(old(Previous()), old(Position())), node) && fresh(NodesOf(node))
      decreases |Position().unread|, 2
    {
      hide ParseSpec.ParsePrecedence, ParseSpec.ParsePrefix, Settle, Symbols, ScansWithin;
      ParseTheorems.SignStep(Previous(), Position());
      var op := OperatorOf(previous.kind);
      hide Position, Unread;
      var child := ParsePrecedence(PREC_UNARY);
      node := new AstNode.OfUnary(child, op);
    }

    method ParseBinary(first: AstNode?) returns (node: AstNode?)
      requires Valid() && Tracked() && ValidOrNull(first) && GetParseRule(previous.kind).infix.BinaryRule?
      requires ParseSpec.ParseBinary(previous.kind, TreeOf(first), Position()).Done?
      modifies `current, `previous, `isError, `isPanic, `report, `printed, lexer
      ensures Parsed(ParseSpec.ParseBinary(old(previous.kind), old(TreeOf(first)), old(Position())), node)
      ensures node != null && fresh(NodesOf(node) - NodesOf(first))
      decreases |Position().unread|, 2
    {
      hide ParseSpec.ParsePrecedence, Settle, Symbols, ScansWithin, Position, Unread;
      var kind := previous.kind;
      var second := ParsePrecedence(GetParseRule(kind).precedence + 1);
      node := new AstNode.OfBinary(first, second, OperatorOf(kind));
    }

    method ParseReal() returns (node: AstNode?)
      requires Valid() && Tracked() && previous.kind.LitReal?
      ensures Parsed(Done(MakeValue(RealValue(previous.text)), Position()), node) && fresh(NodesOf(node))
    {
      hide Symbols, ScansWithin, Position;
      node := new AstNode.OfValue(RealValue(previous.text), Real);
    }

    method ParseInt() returns (node: AstNode?)
      requires Valid() && Tracked() && HasPrevious() && previous.kind.LitInt?
      ensures Parsed(Done(MakeValue(IntValue(Strtoll(previous.text))), Position()), node) && fresh(NodesOf(node))
    {
      hide Symbols, ScansWithin, Position;
      node := new AstNode.OfValue(IntValue(Strtoll(previous.text)), Int);
    }

    // The type checker. It writes the type of a node once, when it is first asked for.

    method GetExpressionType(node: AstNode) returns (ty: TypeKind)
      requires node.Valid() && Complete(node.Tree())
      modifies node.nodes, `typeErrors
      ensures node.Tree() == Typing.Infer(old(node.Tree())).tree && ty == node.ty
      ensures typeErrors == old(typeErrors) + Typing.Infer(old(node.Tree())).errors
      decreases node.nodes, 2
    {
      if node.ty == Unknown {
        var inferred := InferTypeExpression(node);
        node.ty := inferred;
      }
      return node.ty;
    }

    method InferTypeExpression(node: AstNode) returns (ty: TypeKind)
      requires node.Valid() && Complete(node.Tree()) && node.ty == Unknown
      modifies node.nodes, `typeErrors
      ensures Complete(node.Tree()) && node.ty == Unknown
      ensures node.Tree().(ty := ty) == Typing.Infer(old(node.Tree())).tree
      ensures typeErrors == old(typeErrors) + Typing.Infer(old(node.Tree())).errors
      decreases node.nodes, 1
    {
      hide Typing.Infer, Typing.InferUnary, Typing.InferBinary;
      Typing.InferUnfolds(node.Tree());
      match node.body
      case ValueBody(_) =>
        typeErrors := typeErrors + [Typing.NoValueType];
        ty := Invalid;
      case UnaryBody(child, op) => ty := InferTypeUnary(child, op);
      case BinaryBody(first, second, op) => ty := InferTypeBinary(first, second, op);
      case GroupingBody(child) => ty := GetExpressionType(child);
    }

    method InferTypeUnary(child: AstNode, op: Operator) returns (ty: TypeKind)
      requires child.Valid() && Complete(child.Tree())
      modifies child.nodes, `typeErrors
      ensures var r := Typing.Infer(old(child.Tree()));
        && child.Tree() == r.tree && ty == Typing.InferUnary(op, r.tree.ty).ty
        && typeErrors == old(typeErrors) + r.errors + Typing.InferUnary(op, r.tree.ty).errors
      decreases child.nodes, 3
    {
      var childType := GetExpressionType(child);
      var r := Typing.InferUnary(op, childType);
      typeErrors := typeErrors + r.errors;
      return r.ty;
    }

    method InferTypeBinary(first: AstNode, second: AstNode, op: Operator) returns (ty: TypeKind)
      requires first.Valid() && Complete(first.Tree()) && second.Valid() && Complete(second.Tree())
      requires first.nodes !! second.nodes
      modifies first.nodes, second.nodes, `typeErrors
      ensures var a, b := Typing.Infer(old(first.Tree())), Typing.Infer(old(second.Tree()));
        var r := Typing.InferBinary(op, a.tree.ty, b.tree.ty);
        && first.Tree() == a.tree && second.Tree() == b.tree && ty == r.ty
        && typeErrors == old(typeErrors) + a.errors + b.errors + r.errors
      decreases first.nodes + second.nodes, 3
    {
      hide Typing.InferBinary;
      var firstType := GetExpressionType(first);
      var secondType := GetExpressionType(second);
      var r := Typing.InferBinary(op, firstType, secondType);
      typeErrors := typeErrors + r.errors;
      return r.ty;
    }

    /** Checks a tree; an invalid root is reported once more. */
    method TypecheckExpression(node: AstNode) returns (ok: bool)
      requires node.Valid() && Complete(node.Tree())
      modifies node.nodes, `typeErrors
      ensures node.Tree() == Typing.Infer(old(node.Tree())).tree
      ensures ok == Typing.IsNumber(node.ty)
      ensures typeErrors == old(typeErrors) + Typing.Infer(old(node.Tree())).errors + CheckErrors(node.ty)
    {
      var ty := GetExpressionType(node);
      if ty == Invalid {
        typeErrors := typeErrors + [Typing.InvalidExpression];
        return false;
      }
      if ty == Unknown {
        typeErrors := typeErrors + [Typing.UnknownExpression];
        return false;
      }
      return true;
    }

    /** Parses one source: the first half of GenerateAst. */
    method ParseSource() returns (ast: AstNode?)
      requires Ready() && ScanTracked() && Parse(Pending(), report).Done?
      modifies `current, `previous, `isError, `isPanic, `report, `printed, lexer
      ensures Valid() && ValidOrNull(ast) && fresh(NodesOf(ast))
      ensures Parse(old(Pending()), old(report)) == Done(TreeOf(ast), Position())
    {
      hide ParseSpec.ParsePrecedence, Settle, Symbols, ScansWithin, Position, ParseSpec.Consume;
      Advance();
      ast := ParseExpression();
      Consume(Eof, "Expected end of expression.", NoEnd);
    }

    /** Prints a tree before and after its check: the second half of GenerateAst. */
    method PrintAndCheck(ast: AstNode?)
      requires ValidOrNull(ast) && (ast != null ==> Complete(TreeOf(ast)))
      modifies NodesOf(ast), `trees, `typeErrors
      ensures trees == old(trees) + PrintedTrees(old(TreeOf(ast)))
      ensures typeErrors == old(typeErrors) + PrintedTypeErrors(old(TreeOf(ast)))
    {
      hide Typing.Infer;
      if ast != null {
        trees := trees + [TreeOf(ast)];
        var _ := TypecheckExpression(ast);
        trees := trees + [TreeOf(ast)];
      }
    }

    /**
     Parses and checks one source, and prints the tree before and after the check. The tree is walked
     even after a syntax error, so the stream must not be one on which the parser calls a NULL rule or
     leaves a NULL child.
     */
    method GenerateAst() returns (ok: bool)
      requires Ready() && ScanTracked() && SafeToCompile(Pending(), report)
      modifies `current, `previous, `isError, `isPanic, `report, `printed, `typeErrors, `trees, lexer
      ensures Ready() && ok == !isError
      ensures ok <==> !old(isError) && Grammar.IsExpression(old(Pending()))
      ensures var o := Parse(old(Pending()), old(report));
        && o.Done? && report == o.cursor.report
        && trees == old(trees) + PrintedTrees(o.tree) && typeErrors == old(typeErrors) + PrintedTypeErrors(o.tree)
    {
      hide Parse, Symbols, ScansWithin, Position, SafeToCompile, Grammar.IsExpression, ScanTracked;
      assert isError == report.Reported?;
      hide Disciplined;
      CompileOutcome(Pending(), report);
      var ast := ParseSource();
      PrintAndCheck(ast);
      ok := !isError;
    }

    /** Lists the tokens of a source and goes back to its start. */
    method OpenSource(source: string)
      requires Disciplined() && (forall i | 0 <= i < |source| :: source[i] != '\0') && ScansWithin(source, 0)
      modifies `lexer, `tokens
      ensures lexer != null && fresh(lexer) && lexer.source == source
      ensures Ready() && ScanTracked() && Pending() == Symbols(source, 0)
      ensures tokens == if isError then old(tokens) else TokensFrom(source, 0, 1, 0)
    {
      hide Symbols, TokensFrom, ScansWithin;
      lexer := new Lexer(source);
      var _, _ := lexer.ScanAll();
      lexer.Reset();
      if !isError {
        tokens := TokensFrom(source, 0, 1, 0);
        TokensCount(source, 0, 1, 0);
      }
    }

    /**
     Lists the tokens of a source, then compiles it from the start; there is no result yet but what is
     printed. Without syntax errors, these are a tree that spells the tokens of the source and the same
     tree with a type at every node. The first syntax error is printed at the first token with which no
     sentence goes on.
     */
    method CompileSource(source: string) returns (ok: bool)
      requires Disciplined() && (forall i | 0 <= i < |source| :: source[i] != '\0')
      requires ScansWithin(source, 0) && SafeToCompile(Symbols(source, 0), report)
      modifies this
      ensures !ok && Ready() && lexer.source == source
      ensures isError <==> old(isError) || !Grammar.IsExpression(Symbols(source, 0))
      ensures old(isError) ==> printed == old(printed)
      ensures !old(isError) ==> IsPrintedAtOffence(source, printed)
      ensures var o := Parse(Symbols(source, 0), old(report));
        && o.Done? && report == o.cursor.report
        && trees == old(trees) + PrintedTrees(o.tree) && typeErrors == old(typeErrors) + PrintedTypeErrors(o.tree)
      ensures !isError ==>
        IsCompiled(Symbols(source, 0), trees[|old(trees)|..], typeErrors[|old(typeErrors)|..])
    {
      hide Parse, Symbols, SafeToCompile, Grammar.IsExpression, PrintedTrees, PrintedTypeErrors, IsCompiled;
      hide ScansWithin, TokensFrom, IsPrintedAtOffence, ScanTracked;
      ghost var ts := Symbols(source, 0);
      CompileOutcome(ts, report);
      if !isError {
        ErrorIsAtOffence(source);
        if Grammar.IsExpression(ts) {
          CompiledTree(ts);
        }
      }
      OpenSource(source);
      var _ := GenerateAst();
      return false;
    }
  }
}
