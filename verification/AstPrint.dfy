/** The bracketed prefix form in which trees are printed (compiler.c), and that it can be read back. */
module AstPrint {
  import opened Values
  import opened Tokens
  import opened Ast
  import opened LexSpec
  import opened LexTheorems
  import opened RoundTrip
  import Typing

  function TypeName(ty: TypeKind): string {
    match ty
    case Unknown => "*Unknown"
    case Invalid => "*Invalid"
    case Real => "Real"
    case Int => "Int"
  }

  function OperatorName(op: Operator): string {
    match op
    case OpPlus => "+"
    case OpMinus => "-"
    case OpStar => "*"
    case OpSlash => "/"
    case OpDiv => "|"
  }

  function IntText(n: int): string {
    if n < 0 then "-" + DecimalText(-n) else DecimalText(n)
  }

  /** Trees without Real literals, whose prefix operators are signs: every other one prints as INVALID. */
  predicate Printable(t: Tree) {
    match t
    case Missing => false
    case Value(v, _) => v.IntValue?
    case Unary(op, c, _) => IsSign(op) && Printable(c)
    case Binary(_, a, b, _) => Printable(a) && Printable(b)
    case Grouping(c, _) => Printable(c)
  }

  /** Every tree that is parsed from integers can be printed, whatever types are in its cache. */
  lemma {:induction false} ParsedIsPrintable(t: Tree, parsed: Tree)
    requires NormalForm(parsed) && Typing.Erase(t) == Typing.Erase(parsed)
    requires forall s <- Flatten(parsed) :: s.Kind() != LitReal
    ensures Printable(t)
    decreases t
  {
    var ts := Flatten(parsed);
    match t
    case Value(v, _) => assert Literal(v) in ts;
    case Unary(op, c, _) =>
      assert forall s <- Flatten(parsed.child) :: s in ts;
      ParsedIsPrintable(c, parsed.child);
    case Grouping(c, _) =>
      assert forall s <- Flatten(parsed.child) :: s in ts;
      ParsedIsPrintable(c, parsed.child);
    case Binary(op, a, b, _) =>
      assert forall s <- Flatten(parsed.first) :: s in ts;
      assert forall s <- Flatten(parsed.second) :: s in ts;
      ParsedIsPrintable(a, parsed.first);
      ParsedIsPrintable(b, parsed.second);
  }

  function Print(t: Tree): string
    requires Printable(t)
    decreases t, 1
  {
    "(" + TypeName(t.ty) + " " + Body(t) + ")"
  }

  function Body(t: Tree): string
    requires Printable(t)
    decreases t, 0
  {
    match t
    case Value(v, _) => IntText(v.n)
    case Unary(op, c, _) => OperatorName(op) + " " + Print(c)
    case Binary(op, a, b, _) => OperatorName(op) + " " + Print(a) + Print(b)
    case Grouping(c, _) => "(_) " + Print(c)
  }

  /** An operator is printed as it is spelled in a source. */
  lemma OperatorIsSpelled(op: Operator)
    ensures Spellable(Plain(OperatorKind(op))) && OperatorName(op) == Spelling(Plain(OperatorKind(op)))
  {
  }

  // A reader of the bracketed form. It knows the text only, and has tables of its own.

  /** What has been read, and the text behind it. */
  datatype Reading<T> = Nothing | Got(value: T, rest: string)

  function ReadType(s: string): (r: Reading<TypeKind>)
    ensures r.Got? ==> |r.rest| < |s|
  {
    if "*Unknown " <= s then Got(Unknown, s[9..])
    else if "*Invalid " <= s then Got(Invalid, s[9..])
    else if "Real " <= s then Got(Real, s[5..])
    else if "Int " <= s then Got(Int, s[4..])
    else Nothing
  }

  function ReadOperator(s: string): (r: Reading<Operator>)
    ensures r.Got? ==> |r.rest| < |s|
  {
    if |s| < 2 || s[1] != ' ' then Nothing
    else match s[0]
      case '+' => Got(OpPlus, s[2..])
      case '-' => Got(OpMinus, s[2..])
      case '*' => Got(OpStar, s[2..])
      case '/' => Got(OpSlash, s[2..])
      case '|' => Got(OpDiv, s[2..])
      case _ => Nothing
  }

  /** Where the bracket is that ends a number. */
  function NumberEnd(s: string): (k: nat)
    ensures k <= |s| && (k < |s| ==> s[k] == ')') && forall i | 0 <= i < k :: s[i] != ')'
  {
    if s == "" || s[0] == ')' then 0 else 1 + NumberEnd(s[1..])
  }

  /** A number in base 10, with a minus if it is negative. */
  function ReadNumber(text: string): Reading<int> {
    if IsInteger(text) then
      var n: int := Decimal(text); Got(n, "")
    else if text != "" && text[0] == '-' && IsInteger(text[1..]) then
      var n: int := 0 - Decimal(text[1..]); Got(n, "")
    else Nothing
  }

  function Close(t: Tree, s: string): (r: Reading<Tree>)
    ensures r.Got? ==> |r.rest| < |s|
  {
    if s != "" && s[0] == ')' then Got(t, s[1..]) else Nothing
  }

  /** A tree in brackets, from the front of a text. */
  function ReadTree(s: string): (r: Reading<Tree>)
    ensures r.Got? ==> |r.rest| < |s|
    decreases |s|, 1
  {
    if s == "" || s[0] != '(' then Nothing
    else
      var ty := ReadType(s[1..]);
      if ty.Nothing? then Nothing else ReadBody(ty.value, ty.rest)
  }

  /** What is in the brackets behind the type, and the closing bracket. */
  function ReadBody(ty: TypeKind, s: string): (r: Reading<Tree>)
    ensures r.Got? ==> |r.rest| < |s|
    decreases |s|, 0
  {
    if "(_) " <= s then
      var child := ReadTree(s[4..]);
      if child.Nothing? then Nothing else Close(Grouping(child.value, ty), child.rest)
    else
      var op := ReadOperator(s);
      if op.Got? then
        var first := ReadTree(op.rest);
        if first.Nothing? then Nothing
        else if first.rest != "" && first.rest[0] == '(' then
          var second := ReadTree(first.rest);
          if second.Nothing? then Nothing
          else Close(Binary(op.value, first.value, second.value, ty), second.rest)
        else Close(Unary(op.value, first.value, ty), first.rest)
      else
        var n := ReadNumber(s[..NumberEnd(s)]);
        if n.Got? && INT64_MIN <= n.value <= INT64_MAX then Close(Value(IntValue(n.value), ty), s[NumberEnd(s)..])
        else Nothing
  }

  // The reader reads what is printed.

  lemma TypeReads(ty: TypeKind, x: string)
    ensures ReadType(TypeName(ty) + " " + x) == Got(ty, x)
  {
    var s := TypeName(ty) + " " + x;
    assert s[0] == TypeName(ty)[0] && s[1] == TypeName(ty)[1];
    assert s[..|TypeName(ty)| + 1] == TypeName(ty) + " " && s[|TypeName(ty)| + 1..] == x;
  }

  lemma OperatorReads(op: Operator, x: string)
    ensures var s := OperatorName(op) + " " + x; ReadOperator(s) == Got(op, x) && !("(_) " <= s)
  {
    var s := OperatorName(op) + " " + x;
    assert s[0] == OperatorName(op)[0] && s[1] == ' ' && s[2..] == x;
  }

  lemma {:induction false} NumberEndsAt(text: string, x: string)
    requires forall i | 0 <= i < |text| :: text[i] != ')'
    ensures NumberEnd(text + ")" + x) == |text|
    decreases |text|
  {
    var s := text + ")" + x;
    if text != "" {
      assert s[1..] == text[1..] + ")" + x;
      NumberEndsAt(text[1..], x);
    }
  }

  predicate IsNumberChar(c: char) { '0' <= c <= '9' || c == '-' }

  /** A printed integer is digits, possibly behind a minus. */
  lemma IntTextReads(n: SkInt)
    ensures ReadNumber(IntText(n)) == Got(n, "")
    ensures IntText(n) != "" && forall i | 0 <= i < |IntText(n)| :: IsNumberChar(IntText(n)[i])
  {
    var m: nat := if n < 0 then 0 - n else n;
    DecimalInverts(m);
    if n < 0 {
      NegativeReads(m);
    }
  }

  lemma NegativeReads(m: nat)
    requires IsInteger(DecimalText(m)) && Decimal(DecimalText(m)) == m
    ensures ReadNumber("-" + DecimalText(m)) == Got(0 - m, "")
  {
    var text := "-" + DecimalText(m);
    assert text[1..] == DecimalText(m) && text[0] == '-';
  }

  /** It is no operator, which has a blank behind it, and it ends at the bracket. */
  lemma NumberReads(text: string, x: string)
    requires text != "" && forall i | 0 <= i < |text| :: IsNumberChar(text[i])
    ensures var s := text + ")" + x;
      && NumberEnd(s) == |text| && s[..|text|] == text && s[|text|..] == ")" + x
      && ReadOperator(s).Nothing? && !("(_) " <= s)
  {
    var s := text + ")" + x;
    NumberEndsAt(text, x);
    assert s[0] == text[0] && s[1] == if |text| > 1 then text[1] else ')';
  }

  lemma Closes(t: Tree, x: string)
    ensures Close(t, ")" + x) == Got(t, x)
  {
  }

  /** Reading a printed tree gives back the tree, and stops where its text ends. */
  lemma {:induction false} ReadInvertsPrint(t: Tree, x: string)
    requires Printable(t)
    ensures ReadTree(Print(t) + x) == Got(t, x)
    decreases t, 2
  {
    hide Body, TypeName, ReadType, ReadBody;
    var body := Body(t) + ")" + x;
    assert Print(t) + x == "(" + (TypeName(t.ty) + " " + body);
    assert (Print(t) + x)[1..] == TypeName(t.ty) + " " + body;
    TypeReads(t.ty, body);
    BodyReads(t, x);
  }

  lemma {:induction false} BodyReads(t: Tree, x: string)
    requires Printable(t)
    ensures ReadBody(t.ty, Body(t) + ")" + x) == Got(t, x)
    decreases t, 1
  {
    hide Print, ReadTree, ReadOperator, ReadNumber, OperatorName, IntText;
    match t
    case Value(v, _) =>
      IntTextReads(v.n);
      NumberReads(IntText(v.n), x);
      Closes(t, x);
    case Grouping(c, _) =>
      var s, inner := Body(t) + ")" + x, Print(c) + (")" + x);
      assert s == "(_) " + inner && s[4..] == inner;
      ReadInvertsPrint(c, ")" + x);
      Closes(t, x);
    case Unary(op, c, _) =>
      var inner := Print(c) + (")" + x);
      assert Body(t) + ")" + x == OperatorName(op) + " " + inner;
      OperatorReads(op, inner);
      ReadInvertsPrint(c, ")" + x);
      Closes(t, x);
    case Binary(_, _, _, _) => BinaryReads(t, x);
  }

  lemma {:induction false} BinaryReads(t: Tree, x: string)
    requires Printable(t) && t.Binary?
    ensures ReadBody(t.ty, Body(t) + ")" + x) == Got(t, x)
    decreases t, 0
  {
    hide Print, ReadTree, ReadOperator, ReadNumber, OperatorName, IntText;
    var inner := Print(t.second) + (")" + x);
    assert Body(t) + ")" + x == OperatorName(t.op) + " " + (Print(t.first) + inner);
    OperatorReads(t.op, Print(t.first) + inner);
    ReadInvertsPrint(t.first, inner);
    ReadInvertsPrint(t.second, ")" + x);
    PrintOpens(t.second, ")" + x);
    Closes(t, x);
  }

  lemma PrintOpens(t: Tree, x: string)
    requires Printable(t)
    ensures Print(t) + x != "" && (Print(t) + x)[0] == '('
  {
  }

  /** Two printed trees with anything after them are the same tree if the texts are the same. */
  lemma PrintReadable(t: Tree, x: string, u: Tree, y: string)
    requires Printable(t) && Printable(u) && Print(t) + x == Print(u) + y
    ensures t == u && x == y
  {
    hide Print, ReadTree;
    ReadInvertsPrint(t, x);
    ReadInvertsPrint(u, y);
  }

  /** Printing loses nothing: types, operators, shape and values can all be read back. */
  lemma PrintInjective(t: Tree, u: Tree)
    requires Printable(t) && Printable(u) && Print(t) == Print(u)
    ensures t == u
  {
    PrintReadable(t, "", u, "");
  }
}
