/**
 Where the one syntax error is printed: at the first token with which no sentence of the grammar goes
 on. The modes of the operand scan are the states of a pushdown automaton that reads viable prefixes.
 */
module ErrorReports {
  import opened Values
  import opened Tokens
  import opened ParseSpec
  import opened OperandScan
  import opened Grammar

  /** What reading a token comes to while nothing has been reported yet. */
  datatype Next = Goes(m: Mode, depth: nat) | Offends(complaint: Complaint) | CallsNull

  function Read(m: Mode, depth: nat, s: Symbol): Next {
    var rule := GetParseRule(s.Kind());
    if s.Kind().Error? then Offends(BadToken)
    else if m.Fresh? || m.Operand? then
      match rule.prefix
      case GroupingRule => Goes(Fresh, depth + 1)
      case UnaryRule => Goes(Operand, depth)
      case LiteralRule => Goes(After, depth)
      case NoPrefix => Offends(NoExpression)
    else if m.After? && rule.precedence != PREC_NONE then
      if rule.infix.NoInfix? then CallsNull else Goes(Operand, depth)
    else if depth == 0 then Offends(NoEnd)
    else if s.Kind().RightParen? then Goes(After, depth - 1)
    else Offends(NoParenthesis)
  }

  /** From a state on, the tokens are scanned to the end of file without a report. */
  predicate Completes(m: Mode, depth: nat, ts: seq<Symbol>) {
    var v := Scan(m, depth, ts, Silent, false);
    v.Finished? && v.report.Silent?
  }

  /** Once there is a report, it stays. */
  lemma {:induction false} FirstStays(m: Mode, depth: nat, ts: seq<Symbol>, report: Report, nullChild: bool)
    requires report.Reported?
    ensures var v := Scan(m, depth, ts, report, nullChild); v.Finished? ==> v.report == report
    decreases |ts|, depth, m.Rank()
  {
    if Current(ts).Error? {
      FirstStays(m, depth, ts[1..], report, nullChild);
    } else if m.After? {
      if Power(ts) == PREC_NONE {
        FirstStays(Closing, depth, ts, report, nullChild);
      } else if GetParseRule(Current(ts)).infix.BinaryRule? {
        FirstStays(Operand, depth, ts[1..], report, nullChild);
      }
    } else if m.Closing? {
      if depth > 0 {
        FirstStays(After, depth - 1, if Current(ts).RightParen? then ts[1..] else ts, report, nullChild);
      }
    } else {
      match GetParseRule(Current(ts)).prefix
      case GroupingRule => FirstStays(Fresh, depth + 1, ts[1..], report, nullChild);
      case UnaryRule => FirstStays(Operand, depth, ts[1..], report, nullChild);
      case LiteralRule => FirstStays(After, depth, ts[1..], report, nullChild);
      case NoPrefix =>
        var nulls := nullChild || m.Operand? || depth > 0;
        FirstStays(if m.Fresh? then Closing else After, depth, Rest(ts), report, nulls);
    }
  }

  /** The report for a token that offends. The one behind it has been scanned if an operand was expected. */
  function ReportOf(complaint: Complaint, ts: seq<Symbol>): Report {
    if complaint.NoExpression? then Unexpected(ts, Silent) else Reported(|ts|, complaint)
  }

  lemma ReadGoes(m: Mode, depth: nat, s: Symbol, ts: seq<Symbol>)
    requires Read(m, depth, s).Goes?
    ensures var next := Read(m, depth, s);
      Scan(m, depth, [s] + ts, Silent, false) == Scan(next.m, next.depth, ts, Silent, false)
  {
    assert ([s] + ts)[1..] == ts;
  }

  lemma ReadOffends(m: Mode, depth: nat, s: Symbol, ts: seq<Symbol>)
    requires !Read(m, depth, s).Goes?
    ensures var v, next := Scan(m, depth, [s] + ts, Silent, false), Read(m, depth, s);
      v.Finished? ==> next.Offends? && v.report == ReportOf(next.complaint, [s] + ts) && v.report.Reported?
  {
    var all := [s] + ts;
    assert all[1..] == ts;
    if s.Kind().Error? {
      FirstStays(m, depth, ts, Reported(|all|, BadToken), false);
    } else if m.Fresh? || m.Operand? {
      FirstStays(if m.Fresh? then Closing else After, depth, ts, Unexpected(all, Silent), m.Operand? || depth > 0);
    } else if Read(m, depth, s) == Offends(NoParenthesis) {
      FirstStays(After, depth - 1, all, Reported(|all|, NoParenthesis), false);
    }
  }

  /** What the end of file comes to. */
  function AtEnd(m: Mode, depth: nat): Report {
    if m.Fresh? || m.Operand? then Reported(0, NoExpression)
    else if depth > 0 then Reported(0, NoParenthesis)
    else Silent
  }

  lemma ReadEnds(m: Mode, depth: nat)
    ensures var v := Scan(m, depth, [], Silent, false); v.Finished? ==> v.report == AtEnd(m, depth)
    ensures Completes(m, depth, []) <==> AtEnd(m, depth).Silent?
  {
    var report := AtEnd(m, depth);
    if m.Fresh? || m.Operand? {
      FirstStays(if m.Fresh? then Closing else After, depth, [], report, m.Operand? || depth > 0);
    } else if depth > 0 {
      FirstStays(After, depth - 1, [], report, false);
    }
  }

  // From every state there is a way to the end of a sentence.

  function Parentheses(depth: nat): seq<Symbol> {
    seq(depth, _ => Plain(RightParen))
  }

  lemma {:induction false} ParenthesesComplete(m: Mode, depth: nat)
    requires m.After? || m.Closing?
    ensures Completes(m, depth, Parentheses(depth))
    decreases depth
  {
    if depth > 0 {
      assert Parentheses(depth) == [Plain(RightParen)] + Parentheses(depth - 1);
      ReadGoes(m, depth, Plain(RightParen), Parentheses(depth - 1));
      ParenthesesComplete(After, depth - 1);
    } else {
      ReadEnds(m, 0);
    }
  }

  function Completion(m: Mode, depth: nat, v: Value): seq<Symbol> {
    (if m.Fresh? || m.Operand? then [Literal(v)] else []) + Parentheses(depth)
  }

  lemma CompletionCompletes(m: Mode, depth: nat, v: Value)
    ensures Completes(m, depth, Completion(m, depth, v))
  {
    if m.Fresh? || m.Operand? {
      ReadGoes(m, depth, Literal(v), Parentheses(depth));
      ParenthesesComplete(After, depth);
    } else {
      ParenthesesComplete(m, depth);
      assert [] + Parentheses(depth) == Parentheses(depth);
    }
  }

  /** The state after a whole sequence of tokens, or what stopped it. */
  function Reach(m: Mode, depth: nat, ts: seq<Symbol>): Next
    decreases |ts|
  {
    if ts == [] then Goes(m, depth)
    else
      var next := Read(m, depth, ts[0]);
      if next.Goes? then Reach(next.m, next.depth, ts[1..]) else next
  }

  lemma {:induction false} ReachScans(m: Mode, depth: nat, ts: seq<Symbol>, rest: seq<Symbol>)
    requires Reach(m, depth, ts).Goes?
    ensures var n := Reach(m, depth, ts);
      Scan(m, depth, ts + rest, Silent, false) == Scan(n.m, n.depth, rest, Silent, false)
    decreases |ts|
  {
    hide Read, Scan;
    if ts == [] {
      assert ts + rest == rest;
    } else {
      var next := Read(m, depth, ts[0]);
      assert ts + rest == [ts[0]] + (ts[1..] + rest);
      ReadGoes(m, depth, ts[0], ts[1..] + rest);
      ReachScans(next.m, next.depth, ts[1..], rest);
    }
  }

  /** How many tokens are read before one offends. */
  function Offence(m: Mode, depth: nat, ts: seq<Symbol>): (k: nat)
    ensures k <= |ts|
    decreases |ts|
  {
    if ts == [] || !Read(m, depth, ts[0]).Goes? then 0
    else
      var next := Read(m, depth, ts[0]);
      1 + Offence(next.m, next.depth, ts[1..])
  }

  lemma {:induction false} OffenceIsFirst(m: Mode, depth: nat, ts: seq<Symbol>)
    ensures var k := Offence(m, depth, ts); var n := Reach(m, depth, ts[..k]);
      n.Goes? && (k < |ts| ==> !Read(n.m, n.depth, ts[k]).Goes?)
    decreases |ts|
  {
    hide Read;
    var k := Offence(m, depth, ts);
    if k > 0 {
      var next := Read(m, depth, ts[0]);
      OffenceIsFirst(next.m, next.depth, ts[1..]);
      assert ts[..k][1..] == ts[1..][..k - 1];
    }
  }

  // In the terms of the grammar.

  /** The tokens begin a sentence. */
  ghost predicate Viable(ts: seq<Symbol>) {
    exists rest: seq<Symbol> :: IsExpression(ts + rest)
  }

  /** Token k is the first with which no sentence goes on; at the end, what there is is no sentence. */
  ghost predicate IsFirstOffence(ts: seq<Symbol>, k: nat) {
    k <= |ts| && Viable(ts[..k]) && if k < |ts| then !Viable(ts[..k + 1]) else !IsExpression(ts)
  }

  lemma SentenceCompletes(ts: seq<Symbol>)
    ensures IsExpression(ts) <==> Completes(Fresh, 0, ts)
  {
    ScanDecidesParse(ts);
    AcceptsIffExpression(ts);
    hide Parse, IsExpression, Scan;
  }

  /** The state after ts, with what completes a sentence from it on. */
  lemma ReachIsViable(ts: seq<Symbol>, rest: seq<Symbol>)
    requires Reach(Fresh, 0, ts).Goes?
    ensures var n := Reach(Fresh, 0, ts); IsExpression(ts + rest) <==> Completes(n.m, n.depth, rest)
  {
    hide Reach, Scan, IsExpression;
    ReachScans(Fresh, 0, ts, rest);
    SentenceCompletes(ts + rest);
  }

  lemma ReachedIsViable(ts: seq<Symbol>)
    requires Reach(Fresh, 0, ts).Goes?
    ensures Viable(ts)
  {
    hide Reach, Completes, IsExpression;
    var n := Reach(Fresh, 0, ts);
    CompletionCompletes(n.m, n.depth, IntValue(0));
    ReachIsViable(ts, Completion(n.m, n.depth, IntValue(0)));
  }

  lemma OffenceIsNotViable(ts: seq<Symbol>, s: Symbol)
    requires var n := Reach(Fresh, 0, ts); n.Goes? && !Read(n.m, n.depth, s).Goes?
    ensures !Viable(ts + [s])
  {
    hide Reach, Read, IsExpression, Scan;
    var n := Reach(Fresh, 0, ts);
    forall rest: seq<Symbol>
      ensures !IsExpression(ts + [s] + rest)
    {
      assert ts + [s] + rest == ts + ([s] + rest);
      ReachIsViable(ts, [s] + rest);
      ReadOffends(n.m, n.depth, s, rest);
    }
  }

  /** The automaton stops at the first offence, as the grammar has it. */
  lemma OffenceIsFirstOffence(ts: seq<Symbol>)
    requires !IsExpression(ts)
    ensures IsFirstOffence(ts, Offence(Fresh, 0, ts))
  {
    hide Reach, Read, IsExpression, Offence;
    var k := Offence(Fresh, 0, ts);
    OffenceIsFirst(Fresh, 0, ts);
    ReachedIsViable(ts[..k]);
    if k < |ts| {
      OffenceIsNotViable(ts[..k], ts[k]);
      assert ts[..k] + [ts[k]] == ts[..k + 1];
    }
  }

  lemma PrefixIsViable(ts: seq<Symbol>, more: seq<Symbol>)
    requires Viable(ts + more)
    ensures Viable(ts)
  {
    hide IsExpression;
    var rest: seq<Symbol> :| IsExpression(ts + more + rest);
    assert ts + more + rest == ts + (more + rest);
  }

  /** There is only one first offence. */
  lemma FirstOffenceIsUnique(ts: seq<Symbol>, j: nat, k: nat)
    requires IsFirstOffence(ts, j) && IsFirstOffence(ts, k)
    ensures j == k
  {
    hide Viable, IsExpression;
    if j < k {
      assert ts[..k] == ts[..j + 1] + ts[j + 1..k];
      PrefixIsViable(ts[..j + 1], ts[j + 1..k]);
    } else if k < j {
      assert ts[..j] == ts[..k + 1] + ts[k + 1..j];
      PrefixIsViable(ts[..k + 1], ts[k + 1..j]);
    }
  }

  /** What can be gone on with has been read. */
  lemma ViableIsReached(ts: seq<Symbol>)
    requires Viable(ts)
    ensures Reach(Fresh, 0, ts).Goes?
  {
    hide Reach, Read, IsExpression, Offence, Viable;
    var k := Offence(Fresh, 0, ts);
    OffenceIsFirst(Fresh, 0, ts);
    if k < |ts| {
      OffenceIsNotViable(ts[..k], ts[k]);
      assert ts == (ts[..k] + [ts[k]]) + ts[k + 1..];
      PrefixIsViable(ts[..k] + [ts[k]], ts[k + 1..]);
    }
    assert ts[..|ts|] == ts;
  }

  predicate HasNullRule(kind: TokenKind) { kind in {PlusAssign, MinusAssign, RightArrow} }

  /** The mode in which an operator goes on. */
  lemma OperatorIsViable(ts: seq<Symbol>)
    requires Viable(ts)
    ensures Reach(Fresh, 0, ts).Goes? && !Reach(Fresh, 0, ts).m.Closing?
    ensures Viable(ts + [Plain(Star)]) <==> Reach(Fresh, 0, ts).m.After?
  {
    hide IsExpression, Viable;
    ViableIsReached(ts);
    NeverClosing(Fresh, 0, ts);
    hide Reach;
    if Reach(Fresh, 0, ts).m.After? {
      ReachExtends(Fresh, 0, ts, Plain(Star));
      ReachedIsViable(ts + [Plain(Star)]);
    } else {
      OffenceIsNotViable(ts, Plain(Star));
    }
  }

  lemma {:induction false} ReachExtends(m: Mode, depth: nat, ts: seq<Symbol>, s: Symbol)
    requires Reach(m, depth, ts).Goes?
    ensures var n := Reach(m, depth, ts);
      Read(n.m, n.depth, s).Goes? ==> Reach(m, depth, ts + [s]) == Read(n.m, n.depth, s)
    decreases |ts|
  {
    hide Read;
    if ts == [] {
      assert ts + [s] == [s];
    } else {
      var next := Read(m, depth, ts[0]);
      assert (ts + [s])[1..] == ts[1..] + [s];
      ReachExtends(next.m, next.depth, ts[1..], s);
    }
  }

  lemma {:induction false} NeverClosing(m: Mode, depth: nat, ts: seq<Symbol>)
    requires !m.Closing? && Reach(m, depth, ts).Goes?
    ensures !Reach(m, depth, ts).m.Closing?
    decreases |ts|
  {
    if ts != [] {
      var next := Read(m, depth, ts[0]);
      NeverClosing(next.m, next.depth, ts[1..]);
    }
  }

  /**
   Behind tokens with which an operator would go on, each of the three tokens calls the NULL rule, and
   whatever comes after it.
   */
  lemma NullRuleIsCalled(ts: seq<Symbol>, kind: TokenKind, rest: seq<Symbol>)
    requires HasNullRule(kind) && Viable(ts + [Plain(Star)])
    ensures Parse(ts + [Plain(kind)] + rest).Fault?
  {
    hide Parse, IsExpression, Viable, Reach;
    PrefixIsViable(ts, [Plain(Star)]);
    OperatorIsViable(ts);
    var n := Reach(Fresh, 0, ts);
    assert ts + [Plain(kind)] + rest == ts + ([Plain(kind)] + rest);
    ReachScans(Fresh, 0, ts, [Plain(kind)] + rest);
    ReadOffends(n.m, n.depth, Plain(kind), rest);
    ScanDecidesParse(ts + [Plain(kind)] + rest);
  }

  /** Behind any other tokens that begin a sentence, it does not. */
  lemma NullRuleIff(ts: seq<Symbol>, kind: TokenKind)
    requires HasNullRule(kind) && Viable(ts)
    ensures Parse(ts + [Plain(kind)]).Fault? <==> Viable(ts + [Plain(Star)])
  {
    hide Parse, IsExpression, Viable, Reach;
    OperatorIsViable(ts);
    if Viable(ts + [Plain(Star)]) {
      assert ts + [Plain(kind)] + [] == ts + [Plain(kind)];
      NullRuleIsCalled(ts, kind, []);
    } else {
      var n, one := Reach(Fresh, 0, ts), [Plain(kind)];
      ReachScans(Fresh, 0, ts, one);
      NothingUnread(n.m, n.depth, one);
      ScanDecidesParse(ts + one);
    }
  }

  /** The one token left begins no operand, and nothing is left behind it. */
  lemma NothingUnread(m: Mode, depth: nat, ts: seq<Symbol>)
    requires |ts| == 1 && HasNullRule(ts[0].Kind()) && (m.Fresh? || m.Operand?)
    ensures Scan(m, depth, ts, Silent, false).Finished?
  {
    assert Rest(ts) == [];
    NoNullRule(if m.Fresh? then Closing else After, depth, [], Unexpected(ts, Silent), m.Operand? || depth > 0);
  }

  // What the message says.

  /** The message is right: after these tokens, what it expects would have gone on, or ended, a sentence. */
  ghost predicate IsDeserved(complaint: Complaint, ts: seq<Symbol>) {
    match complaint
    case BadToken => true
    case NoExpression => forall v: Value :: Viable(ts + [Literal(v)])
    case NoParenthesis => Viable(ts + [Plain(RightParen)])
    case NoEnd => IsExpression(ts)
  }

  /** The state in which a complaint is made. */
  predicate Suits(complaint: Complaint, m: Mode, depth: nat) {
    match complaint
    case BadToken => true
    case NoExpression => m.Fresh? || m.Operand?
    case NoParenthesis => (m.After? || m.Closing?) && depth > 0
    case NoEnd => (m.After? || m.Closing?) && depth == 0
  }

  lemma SuitingIsDeserved(complaint: Complaint, ts: seq<Symbol>)
    requires var n := Reach(Fresh, 0, ts); n.Goes? && Suits(complaint, n.m, n.depth)
    ensures IsDeserved(complaint, ts)
  {
    hide Reach, Completes, IsExpression;
    var n := Reach(Fresh, 0, ts);
    match complaint
    case BadToken =>
    case NoExpression =>
      forall v: Value
        ensures Viable(ts + [Literal(v)])
      {
        CompletionCompletes(n.m, n.depth, v);
        ReachIsViable(ts, Completion(n.m, n.depth, v));
        assert ts + Completion(n.m, n.depth, v) == ts + [Literal(v)] + Parentheses(n.depth);
      }
    case NoParenthesis =>
      ParenthesesComplete(n.m, n.depth);
      ReachIsViable(ts, Parentheses(n.depth));
      assert ts + Parentheses(n.depth) == ts + [Plain(RightParen)] + Parentheses(n.depth - 1);
    case NoEnd =>
      ReadEnds(n.m, n.depth);
      ReachIsViable(ts, []);
      assert ts + [] == ts;
  }

  /** Of an operand, a closing parenthesis and the end, exactly one is right where a sentence can go on. */
  lemma OnlyOneIsDeserved(ts: seq<Symbol>)
    requires Viable(ts)
    ensures Viable(ts + [Literal(IntValue(0))]) <==> !Viable(ts + [Plain(RightParen)]) && !IsExpression(ts)
    ensures !(Viable(ts + [Plain(RightParen)]) && IsExpression(ts))
  {
    hide Reach, IsExpression, Viable;
    OperatorIsViable(ts);
    LiteralIsViable(ts);
    var n := Reach(Fresh, 0, ts);
    ReadEnds(n.m, n.depth);
    ReachIsViable(ts, []);
    assert ts + [] == ts;
    if n.m.After? && n.depth > 0 {
      SuitingIsDeserved(NoParenthesis, ts);
    } else {
      OffenceIsNotViable(ts, Plain(RightParen));
    }
  }

  predicate IsErrorAt(ts: seq<Symbol>, k: nat) {
    k < |ts| && ts[k].Kind().Error?
  }

  /** The report that the scan ends with, told by the state at the offence. */
  lemma ReportAtOffence(ts: seq<Symbol>)
    requires Parse(ts).Done? && !Accepts(ts)
    ensures var k := Offence(Fresh, 0, ts); var n := Reach(Fresh, 0, ts[..k]);
      && n.Goes?
      && Parse(ts).cursor.report ==
         if k == |ts| then AtEnd(n.m, n.depth)
         else
           var next := Read(n.m, n.depth, ts[k]);
           if next.Offends? then ReportOf(next.complaint, ts[k..]) else Silent
  {
    hide Parse, Reach, Read, Scan, Offence;
    ScanDecidesParse(ts);
    var k := Offence(Fresh, 0, ts);
    OffenceIsFirst(Fresh, 0, ts);
    var n := Reach(Fresh, 0, ts[..k]);
    ReachScans(Fresh, 0, ts[..k], ts[k..]);
    assert ts[..k] + ts[k..] == ts;
    if k == |ts| {
      ReadEnds(n.m, n.depth);
    } else {
      ReadOffends(n.m, n.depth, ts[k], ts[k + 1..]);
      assert [ts[k]] + ts[k + 1..] == ts[k..];
    }
  }

  /** A literal goes on exactly where an operand is expected. */
  lemma LiteralIsViable(ts: seq<Symbol>)
    requires Reach(Fresh, 0, ts).Goes?
    ensures Viable(ts + [Literal(IntValue(0))]) <==> Suits(NoExpression, Reach(Fresh, 0, ts).m, 0)
  {
    var n := Reach(Fresh, 0, ts);
    if Suits(NoExpression, n.m, 0) {
      SuitingIsDeserved(NoExpression, ts);
    } else {
      OffenceIsNotViable(ts, Literal(IntValue(0)));
    }
  }

  /** What is known of a report at the state of the offence. */
  lemma ReportIsThere(m: Mode, depth: nat, ts: seq<Symbol>)
    requires ts != [] ==> !Read(m, depth, ts[0]).Goes?
    ensures var r := if ts == [] then AtEnd(m, depth)
      else if Read(m, depth, ts[0]).Offends? then ReportOf(Read(m, depth, ts[0]).complaint, ts) else Silent;
      var late := IsErrorAt(ts, 1) && !IsErrorAt(ts, 0) && Suits(NoExpression, m, depth);
      r.Reported? ==>
        && r.left == |ts| - (if late then 1 else 0) && (r.complaint.BadToken? <==> IsErrorAt(ts, |ts| - r.left))
        && (!late ==> Suits(r.complaint, m, depth))
  {
  }

  /** Where an operand is expected and none begins, a token that is read together with an error token. */
  ghost predicate IsLate(ts: seq<Symbol>, k: nat) {
    k <= |ts| && IsErrorAt(ts, k + 1) && !IsErrorAt(ts, k) && Viable(ts[..k] + [Literal(IntValue(0))])
  }

  /**
   The one error that is printed is at the first token with which no sentence goes on, or at the error
   token right behind it, if an operand was expected. The message says what would have gone on there.
   */
  lemma FirstErrorIsPrinted(ts: seq<Symbol>, k: nat)
    requires IsFirstOffence(ts, k) && Parse(ts).Done?
    ensures var r, at := Parse(ts).cursor.report, if IsLate(ts, k) then k + 1 else k;
      && r.Reported? && r.left == |ts| - at
      && (r.complaint.BadToken? <==> IsErrorAt(ts, at)) && IsDeserved(r.complaint, ts[..at])
  {
    hide Parse, Reach, Read, IsExpression, Offence, Viable, IsDeserved;
    OffenceIsNoSentence(ts, k);
    OffenceIsFirst(Fresh, 0, ts);
    OffenceIsFirstOffence(ts);
    FirstOffenceIsUnique(ts, k, Offence(Fresh, 0, ts));
    hide IsFirstOffence;
    ReportAtOffence(ts);
    var n, r := Reach(Fresh, 0, ts[..k]), Parse(ts).cursor.report;
    ReportIsThere(n.m, n.depth, ts[k..]);
    LiteralIsViable(ts[..k]);
    assert forall i | k <= i < |ts| :: ts[k..][i - k] == ts[i];
    if IsLate(ts, k) {
      BadTokenIsDeserved(ts[..k + 1]);
    } else {
      SuitingIsDeserved(r.complaint, ts[..k]);
    }
  }

  lemma BadTokenIsDeserved(ts: seq<Symbol>)
    ensures IsDeserved(BadToken, ts)
  {
  }

  lemma OffenceIsNoSentence(ts: seq<Symbol>, k: nat)
    requires IsFirstOffence(ts, k)
    ensures !IsExpression(ts) && !Accepts(ts)
  {
    AcceptsIffExpression(ts);
    hide IsExpression, Parse;
    if IsExpression(ts) {
      SentenceIsViable(ts, k);
    }
  }

  lemma SentenceIsViable(ts: seq<Symbol>, k: nat)
    requires IsExpression(ts)
    ensures k < |ts| ==> Viable(ts[..k + 1])
  {
    hide IsExpression;
    if k < |ts| {
      assert ts[..k + 1] + ts[k + 1..] == ts;
    }
  }

  /** Every stream that is no sentence has a first offence. */
  lemma FirstOffenceExists(ts: seq<Symbol>)
    ensures !IsExpression(ts) <==> exists k | 0 <= k <= |ts| :: IsFirstOffence(ts, k)
  {
    hide IsExpression, IsFirstOffence, Offence;
    if !IsExpression(ts) {
      OffenceIsFirstOffence(ts);
    } else {
      forall k | 0 <= k <= |ts|
        ensures !IsFirstOffence(ts, k)
      {
        if IsFirstOffence(ts, k) {
          OffenceIsNoSentence(ts, k);
        }
      }
    }
  }

  /** In `* $` the star is the first offence, but the error token behind it is what is reported. */
  lemma ReportCanBeLate()
    ensures var ts := [Plain(Star)] + [Plain(Error)];
      IsFirstOffence(ts, 0) && Parse(ts).Done? && Parse(ts).cursor.report == Reported(1, BadToken)
  {
    hide Parse, IsExpression, Viable;
    var ts := [Plain(Star)] + [Plain(Error)];
    ReachedIsViable([]);
    OffenceIsNotViable([], Plain(Star));
    assert ts[..0] == [] && ts[..1] == [] + [Plain(Star)];
    NoNullRule(Fresh, 0, ts, Silent, false);
    ScanDecidesParse(ts);
    ReadOffends(Fresh, 0, Plain(Star), [Plain(Error)]);
    UnexpectedErrorToken(ts);
  }

  lemma UnexpectedErrorToken(ts: seq<Symbol>)
    requires |ts| == 2 && IsErrorAt(ts, 1)
    ensures Unexpected(ts, Silent) == Reported(1, BadToken)
  {
    assert |ts[1..]| == 1 && ts[1..][0] == ts[1];
  }
}
