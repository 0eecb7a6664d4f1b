/**
 Which sources the scanner leaves: a one-pass automaton over characters, which knows nothing of
 tokens, tells it exactly.
 */
module Quotes {
  import opened Tokens
  import opened LexSpec
  import opened LexTheorems

  /** What a prefix of a source ends in; Opened is a quote that has not taken its character yet. */
  datatype State = Code | AfterSlash | LineComment | BlockComment | AfterStar | Opened

  function Next(state: State, c: char): State {
    match state
    case Opened => Code
    case LineComment => if c == '\n' then Code else LineComment
    case BlockComment => if c == '*' then AfterStar else BlockComment
    case AfterStar => if c == '/' then Code else if c == '*' then AfterStar else BlockComment
    case _ =>
      if c == '"' then Opened
      else if state.AfterSlash? && c == '/' then LineComment
      else if state.AfterSlash? && c == '*' then AfterStar
      else if c == '/' then AfterSlash
      else Code
  }

  function Final(s: string, p: nat, state: State): State
    requires p <= |s|
    decreases |s| - p
  {
    if p == |s| then state else Final(s, p + 1, Next(state, s[p]))
  }

  /** From p on in the given state, the source ends with an opened quote. */
  predicate Opens(s: string, p: nat, state: State)
    requires p <= |s|
  {
    Final(s, p, state).Opened?
  }

  /** Characters other than quotes and slashes change nothing. */
  lemma {:induction false} PlainRun(s: string, p: nat, q: nat)
    requires p <= q <= |s| && forall i | p <= i < q :: s[i] != '"' && s[i] != '/'
    ensures Final(s, p, Code) == Final(s, q, Code)
    decreases q - p
  {
    if p < q {
      PlainRun(s, p + 1, q);
    }
  }

  lemma {:induction false} LineRun(s: string, p: nat)
    requires p <= |s|
    ensures Opens(s, p, LineComment) <==> Opens(s, LineEnd(s, p), Code)
    decreases |s| - p
  {
    if p < |s| && s[p] != '\n' {
      LineRun(s, p + 1);
    }
  }

  lemma {:induction false} BlockRun(s: string, p: nat)
    requires p <= |s|
    ensures Opens(s, p, BlockComment) <==> Opens(s, BlockEnd(s, p), Code)
    decreases |s| - p
  {
    if p < |s| {
      if s[p] == '*' {
        assert Final(s, p, BlockComment) == Final(s, p + 1, AfterStar);
        if CharAt(s, p + 1) != '/' {
          assert Opens(s, p + 1, AfterStar) <==> Opens(s, p + 1, BlockComment);
          BlockRun(s, p + 1);
        }
      } else {
        BlockRun(s, p + 1);
      }
    }
  }

  lemma LineCommentRun(s: string, p: nat)
    requires p + 2 <= |s| && s[p] == s[p + 1] == '/'
    ensures Opens(s, p, Code) <==> Opens(s, LineEnd(s, p), Code)
  {
    assert Final(s, p, Code) == Final(s, p + 1, AfterSlash) == Final(s, p + 2, LineComment);
    assert LineEnd(s, p) == LineEnd(s, p + 1) == LineEnd(s, p + 2);
    LineRun(s, p + 2);
  }

  lemma BlockCommentRun(s: string, p: nat)
    requires p + 2 <= |s| && s[p] == '/' && s[p + 1] == '*'
    ensures Opens(s, p, Code) <==> Opens(s, BlockEnd(s, p), Code)
  {
    assert Final(s, p, Code) == Final(s, p + 1, AfterSlash) == Final(s, p + 2, AfterStar);
    assert Final(s, p + 1, BlockComment) == Final(s, p + 2, AfterStar);
    assert BlockEnd(s, p) == BlockEnd(s, p + 1);
    BlockRun(s, p + 1);
  }

  /** What the scanner skips, the automaton passes in code or in comments. */
  lemma {:induction false} SkipRun(s: string, p: nat)
    requires p <= |s|
    ensures Opens(s, p, Code) <==> Opens(s, Skip(s, p), Code)
    decreases |s| - p
  {
    if IsWhitespace(CharAt(s, p)) {
      SkipRun(s, p + 1);
    } else if CharAt(s, p) == '/' && CharAt(s, p + 1) == '/' {
      LineCommentRun(s, p);
      SkipRun(s, LineEnd(s, p));
    } else if CharAt(s, p) == '/' && CharAt(s, p + 1) == '*' {
      BlockCommentRun(s, p);
      SkipRun(s, BlockEnd(s, p));
    }
  }

  /** A token leaves the automaton in code; an overrunning quote leaves it opened. */
  lemma TokenRun(s: string, p: nat)
    requires p < |s| && !OpensGap(s, p)
    ensures match TryAt(s, p)
      case Overrun => Opens(s, p, Code)
      case Took(piece) => Opens(s, p, Code) <==> Opens(s, piece.end, Code)
  {
    hide Skip, IdentifierKind, Operator;
    if s[p] != '"' {
      var end := TryAt(s, p).piece.end;
      if s[p] == '/' {
        assert Final(s, p, Code) == Final(s, p + 1, AfterSlash);
        SlashRun(s, p);
      } else {
        PlainRun(s, p, end);
      }
    } else if p + 1 < |s| {
      assert Final(s, p, Code) == Final(s, p + 1, Opened) == Final(s, p + 2, Code);
    } else {
      assert Final(s, p, Code) == Final(s, p + 1, Opened) == Opened;
    }
  }

  /** A slash that opens no comment is an operator, alone or with an equals sign. */
  lemma SlashRun(s: string, p: nat)
    requires p < |s| && s[p] == '/' && !OpensGap(s, p)
    ensures TryAt(s, p).Took? && (Opens(s, p + 1, AfterSlash) <==> Opens(s, TryAt(s, p).piece.end, Code))
  {
  }

  /** The scan of a source overruns if and only if the automaton ends in an opened quote. */
  lemma {:induction false} OverrunsIffOpens(s: string, p: nat)
    requires p <= |s|
    ensures Overruns(s, p) <==> Opens(s, p, Code)
    decreases |s| - p
  {
    hide Skip, TryAt;
    var start := Skip(s, p);
    SkipRun(s, p);
    SkipIsGap(s, p);
    if start < |s| {
      TokenRun(s, start);
      if TryAt(s, start).Took? {
        OverrunsIffOpens(s, TryAt(s, start).piece.end);
      }
    }
  }

  lemma {:induction false} LastCharacter(s: string, p: nat, state: State)
    requires p < |s|
    ensures Final(s, p, state) == Next(Final(s[..|s| - 1], p, state), s[|s| - 1])
    decreases |s| - p
  {
    if p < |s| - 1 {
      LastCharacter(s, p + 1, Next(state, s[p]));
    }
  }

  /** The text ends in code: not in a comment, and not with an opened quote. */
  predicate EndsInCode(s: string) {
    var state := Final(s, 0, Code);
    state.Code? || state.AfterSlash?
  }

  /** A source is left if and only if its last character is a quote that stands in code. */
  lemma OverrunsIffQuoteIsLast(s: string)
    ensures Overruns(s, 0) <==> |s| > 0 && s[|s| - 1] == '"' && EndsInCode(s[..|s| - 1])
  {
    OverrunsIffOpens(s, 0);
    if |s| > 0 {
      LastCharacter(s, 0, Code);
    }
  }

  /** A source that ends with no quote is scanned within its text, from any of its positions on. */
  predicate Terminated(s: string) {
    |s| > 0 ==> s[|s| - 1] != '"'
  }

  lemma TerminatedScansWithin(s: string, p: nat)
    requires p <= |s| && Terminated(s)
    ensures ScansWithin(s, p)
  {
    OverrunsIffOpens(s, p);
    if p < |s| {
      LastCharacter(s, p, Code);
    }
  }

  /** The scanner is not safe on every source: a closed string literal of one letter makes it overrun. */
  lemma ClosedStringOverruns()
    ensures TryAt("\"a\"", 0) == Took(Piece(LitString, 0, 2)) && TryAt("\"a\"", 2) == Overrun
    ensures Overruns("\"a\"", 0)
  {
    assert Skip("\"a\"", 0) == 0 && Skip("\"a\"", 2) == 2;
  }
}
