/**
 From a tree to source text and back: however the tokens of a tree are spaced out, scanning and
 parsing the text gives back the tree.
 */
module RoundTrip {
  import opened Tokens
  import opened Ast
  import opened ParseSpec
  import opened ParseTheorems
  import opened LexSpec
  import opened LexTheorems
  import opened Quotes

  function DigitChar(d: nat): (c: char)
    requires d < 10
    ensures IsDigit(c) && c as int - '0' as int == d
  {
    ('0' as int + d) as char
  }

  function DecimalText(n: nat): string {
    if n < 10 then [DigitChar(n)] else DecimalText(n / 10) + [DigitChar(n % 10)]
  }

  /** Reading a number back from its decimal digits. */
  lemma {:induction false} DecimalInverts(n: nat)
    ensures IsInteger(DecimalText(n)) && Decimal(DecimalText(n)) == n
  {
    if n >= 10 {
      DecimalInverts(n / 10);
      var text := DecimalText(n);
      assert text[..|text| - 1] == DecimalText(n / 10);
    } else {
      assert DecimalText(n)[..0] == "";
    }
  }

  predicate IsZeros(text: string) {
    forall i | 0 <= i < |text| :: text[i] == '0'
  }

  lemma {:induction false} DecimalAfterZeros(zeros: string, n: nat)
    requires IsZeros(zeros)
    ensures IsInteger(zeros + DecimalText(n)) && Decimal(zeros + DecimalText(n)) == n
    decreases n
  {
    var text := zeros + DecimalText(n);
    DecimalInverts(n);
    if n >= 10 {
      DecimalAfterZeros(zeros, n / 10);
      assert text[..|text| - 1] == zeros + DecimalText(n / 10);
    } else {
      assert text[..|text| - 1] == zeros;
      ZerosAreZero(zeros);
    }
  }

  lemma {:induction false} ZerosAreZero(zeros: string)
    requires IsZeros(zeros)
    ensures AllDigits(zeros) && Decimal(zeros) == 0
    decreases |zeros|
  {
    if zeros != "" {
      ZerosAreZero(zeros[..|zeros| - 1]);
    }
  }

  /** Every numeral is a number in decimal digits behind zeros. */
  lemma {:induction false} NumeralShape(text: string) returns (zeros: string, n: nat)
    requires IsInteger(text)
    ensures IsZeros(zeros) && text == zeros + DecimalText(n)
    decreases |text|
  {
    var front, last := text[..|text| - 1], text[|text| - 1];
    var digit := last as int - '0' as int;
    assert text == front + [last] && DecimalText(digit) == [last];
    if front == "" {
      zeros, n := "", digit;
    } else {
      zeros, n := NumeralShape(front);
      if n == 0 {
        assert zeros + "0" + [last] == text;
        zeros, n := zeros + "0", digit;
      } else {
        n := 10 * n + digit;
        assert DecimalText(n) == DecimalText(n / 10) + [last];
        assert zeros + DecimalText(n) == zeros + DecimalText(n / 10) + [last];
      }
    }
  }

  /**
   Conversion reads every numeral in base 10, whatever zeros it begins with, and takes a number that
   does not fit for the largest integer.
   */
  lemma StrtollReads(text: string) returns (zeros: string, n: nat)
    requires IsInteger(text)
    ensures IsZeros(zeros) && text == zeros + DecimalText(n)
    ensures AllDigits(text)
    ensures Strtoll(text) == if n <= 9223372036854775807 then n else 9223372036854775807
  {
    zeros, n := NumeralShape(text);
    DecimalAfterZeros(zeros, n);
  }

  /** Tokens of expressions whose literals have a spelling: no negative integers, well-formed numerals. */
  predicate Spellable(s: Symbol) {
    match s
    case Plain(k) => k in {Plus, Minus, Star, Slash, Div, LeftParen, RightParen}
    case Literal(IntValue(n)) => n >= 0
    case Literal(RealValue(numeral)) => LexTheorems.IsReal(numeral)
  }

  /** Every token of a tree has a spelling, except literals that no source spells. */
  lemma {:induction false} TreesAreSpellable(t: Tree)
    requires NormalForm(t)
    ensures forall s <- Flatten(t) :: s.Plain? ==> Spellable(s)
  {
    match t
    case Value(_, _) =>
    case Unary(_, c, _) => TreesAreSpellable(c);
    case Grouping(c, _) => TreesAreSpellable(c);
    case Binary(_, a, b, _) => TreesAreSpellable(a); TreesAreSpellable(b);
  }

  function Spelling(s: Symbol): string
    requires Spellable(s)
  {
    match s
    case Plain(Plus) => "+"
    case Plain(Minus) => "-"
    case Plain(Star) => "*"
    case Plain(Slash) => "/"
    case Plain(Div) => "|"
    case Plain(LeftParen) => "("
    case Plain(_) => ")"
    case Literal(IntValue(n)) => DecimalText(n)
    case Literal(RealValue(numeral)) => numeral
  }

  /** A spelling holds no quote, no NUL and no blank. */
  predicate IsVisible(text: string) {
    forall i | 0 <= i < |text| :: text[i] != '"' && text[i] != '\0' && text[i] !in " \t\r"
  }

  lemma SpellingIsVisible(x: Symbol)
    requires Spellable(x)
    ensures Spelling(x) != "" && IsVisible(Spelling(x))
    ensures x.Plain? ==> |Spelling(x)| == 1
    ensures x.Literal? ==> IsDigit(Spelling(x)[0])
    ensures x.Literal? && x.value.IntValue? ==> IsInteger(Spelling(x))
  {
    if x.Literal? && x.value.IntValue? {
      DecimalInverts(x.value.n);
    }
  }

  /** The kind and the value of a spelling are those of its token. */
  lemma SpellingMeans(x: Symbol)
    requires Spellable(x) && (x.Kind().LitInt? ==> AllDigits(Spelling(x)))
    ensures LexemeOf(x.Kind(), Spelling(x)) == x
  {
    if x.Literal? && x.value.IntValue? {
      DecimalInverts(x.value.n);
    }
  }

  /** A character that does not make a longer token of the one before it, nor opens a comment with it. */
  predicate StopsAt(x: Symbol, c: char)
    requires Spellable(x)
  {
    match x
    case Literal(v) => !IsDigit(c) && (v.IntValue? ==> c != '.')
    case Plain(_) => DoubleKind(Spelling(x)[0], c).Error? && (x.plain.Slash? ==> c != '/' && c != '*')
  }

  /** Tokens that can be written without a blank between them. */
  predicate Separable(x: Symbol, y: Symbol) {
    && !(x.Literal? && y.Literal?)
    && !(x == Plain(Slash) && y in {Plain(Slash), Plain(Star)})
    && !(x == y == Plain(Div))
  }

  lemma SeparableStops(x: Symbol, y: Symbol)
    requires Spellable(x) && Spellable(y) && Separable(x, y)
    ensures Spelling(y) != "" && StopsAt(x, Spelling(y)[0])
  {
    SpellingIsVisible(y);
  }

  lemma BlankStops(x: Symbol, c: char)
    requires Spellable(x) && (c in " \t\r" || c == '\0')
    ensures StopsAt(x, c)
  {
  }

  predicate IsBlank(gap: string) {
    forall i | 0 <= i < |gap| :: gap[i] in " \t\r"
  }

  /** A gap, possibly empty, before and after every token. */
  predicate IsLayout(ts: seq<Symbol>, gaps: seq<string>) {
    |gaps| == |ts| + 1 && forall i | 0 <= i < |gaps| :: IsBlank(gaps[i])
  }

  /** Where no blank stands between two tokens, they are separable. */
  predicate Separates(ts: seq<Symbol>, gaps: seq<string>) {
    IsLayout(ts, gaps) && forall i | 0 < i < |ts| :: gaps[i] == "" ==> Separable(ts[i - 1], ts[i])
  }

  function Text(ts: seq<Symbol>, gaps: seq<string>): string
    requires |gaps| == |ts| + 1 && forall s <- ts :: Spellable(s)
  {
    if ts == [] then gaps[0] else gaps[0] + Spelling(ts[0]) + Text(ts[1..], gaps[1..])
  }

  // No two neighbours in the flattening of a tree run into each other.

  predicate EndsOperand(x: Symbol) { x.Literal? || x == Plain(RightParen) }

  predicate BeginsOperand(x: Symbol) { x.Literal? || x in {Plain(LeftParen), Plain(Plus), Plain(Minus)} }

  /** What may stand behind a token in an expression. */
  predicate Follows(x: Symbol, y: Symbol) {
    if EndsOperand(x) then y.Plain? && y.plain in {RightParen, Plus, Minus, Star, Slash, Div} else BeginsOperand(y)
  }

  predicate IsOperand(ts: seq<Symbol>) {
    && ts != [] && BeginsOperand(ts[0]) && EndsOperand(ts[|ts| - 1])
    && forall i | 0 < i < |ts| :: Follows(ts[i - 1], ts[i])
  }

  lemma PrefixIsOperand(x: Symbol, ts: seq<Symbol>)
    requires IsOperand(ts) && BeginsOperand(x) && !EndsOperand(x)
    ensures IsOperand([x] + ts)
  {
    var all := [x] + ts;
    assert all[|all| - 1] == ts[|ts| - 1];
    forall i | 0 < i < |all|
      ensures Follows(all[i - 1], all[i])
    {
      if i > 1 {
        assert Follows(ts[i - 2], ts[i - 1]);
      }
    }
  }

  lemma InfixIsOperand(a: seq<Symbol>, x: Symbol, b: seq<Symbol>)
    requires IsOperand(a) && IsOperand(b) && x.Plain? && x.plain in {Plus, Minus, Star, Slash, Div}
    ensures IsOperand(a + [x] + b)
  {
    var all := a + [x] + b;
    assert all[|all| - 1] == b[|b| - 1];
    forall i | 0 < i < |all|
      ensures Follows(all[i - 1], all[i])
    {
      if i < |a| {
        assert Follows(a[i - 1], a[i]);
      } else if i > |a| + 1 {
        assert Follows(b[i - |a| - 2], b[i - |a| - 1]);
      }
    }
  }

  lemma PostfixIsOperand(ts: seq<Symbol>)
    requires IsOperand(ts)
    ensures IsOperand(ts + [Plain(RightParen)])
  {
    var all := ts + [Plain(RightParen)];
    forall i | 0 < i < |all|
      ensures Follows(all[i - 1], all[i])
    {
      if i < |ts| {
        assert Follows(ts[i - 1], ts[i]);
      }
    }
  }

  lemma {:induction false} FlattenIsOperand(t: Tree)
    requires NormalForm(t)
    ensures IsOperand(Flatten(t))
  {
    match t
    case Value(_, _) =>
    case Unary(op, c, _) =>
      FlattenIsOperand(c);
      PrefixIsOperand(Plain(OperatorKind(op)), Flatten(c));
    case Binary(op, a, b, _) =>
      FlattenIsOperand(a);
      FlattenIsOperand(b);
      InfixIsOperand(Flatten(a), Plain(OperatorKind(op)), Flatten(b));
    case Grouping(c, _) =>
      FlattenIsOperand(c);
      PrefixIsOperand(Plain(LeftParen), Flatten(c));
      PostfixIsOperand([Plain(LeftParen)] + Flatten(c));
  }

  /** Every layout of a normal-form tree separates its tokens, with no blank at all if need be. */
  lemma TreesSeparate(t: Tree, gaps: seq<string>)
    requires NormalForm(t) && IsLayout(Flatten(t), gaps)
    ensures Separates(Flatten(t), gaps)
  {
    FlattenIsOperand(t);
    var ts := Flatten(t);
    forall i | 0 < i < |ts|
      ensures Separable(ts[i - 1], ts[i])
    {
      assert Follows(ts[i - 1], ts[i]);
    }
  }

  // Scanning the text of tokens that are separated.

  lemma {:induction false} SkipBlank(s: string, p: nat, q: nat)
    requires p <= q <= |s| && IsBlank(s[p..q])
    ensures Skip(s, p) == Skip(s, q)
    decreases q - p
  {
    if p < q {
      assert s[p] == s[p..q][0] && s[p + 1..q] == s[p..q][1..];
      SkipBlank(s, p + 1, q);
    }
  }

  /** The spelling of x stands at p, and what follows does not run into it. */
  predicate SpelledAt(s: string, p: nat, x: Symbol) {
    && Spellable(x) && p + |Spelling(x)| <= |s| && s[p..p + |Spelling(x)|] == Spelling(x)
    && StopsAt(x, CharAt(s, p + |Spelling(x)|))
  }

  lemma NothingToSkip(s: string, p: nat, x: Symbol)
    requires SpelledAt(s, p, x)
    ensures Skip(s, p) == p < |s| && s[p] == Spelling(x)[0]
  {
    SpellingIsVisible(x);
    assert s[p] == Spelling(x)[0];
  }

  lemma DigitsEndAt(s: string, p: nat, q: nat)
    requires p <= q <= |s| && (forall i | p <= i < q :: IsDigit(s[i])) && !IsDigit(CharAt(s, q))
    ensures DigitsEnd(s, p) == q
  {
  }

  lemma OperatorScans(s: string, p: nat, x: Symbol)
    requires SpelledAt(s, p, x) && x.Plain? && p < |s| && s[p] == Spelling(x)[0]
    ensures TryAt(s, p) == Took(Piece(x.plain, p, p + 1))
  {
    OperatorIsTable(s[p], CharAt(s, p + 1));
    hide LexSpec.Operator;
  }

  lemma IntegerScans(s: string, p: nat, x: Symbol)
    requires SpelledAt(s, p, x) && x.Literal? && x.value.IntValue?
    ensures TryAt(s, p) == Took(Piece(LitInt, p, p + |Spelling(x)|))
  {
    SpellingIsVisible(x);
    var end := p + |Spelling(x)|;
    forall i | p <= i < end
      ensures IsDigit(s[i])
    {
      assert s[i] == s[p..end][i - p];
    }
    DigitsEndAt(s, p + 1, end);
  }

  lemma RealScans(s: string, p: nat, x: Symbol)
    requires SpelledAt(s, p, x) && x.Literal? && x.value.RealValue?
    ensures TryAt(s, p) == Took(Piece(LitReal, p, p + |Spelling(x)|))
  {
    var numeral, end := Spelling(x), p + |Spelling(x)|;
    var k :| 0 < k < |numeral| && IsPointAt(numeral, k);
    forall i | p <= i < end
      ensures if i == p + k then s[i] == '.' else IsDigit(s[i])
    {
      assert s[i] == s[p..end][i - p] == numeral[i - p];
    }
    DigitsEndAt(s, p + 1, p + k);
    DigitsEndAt(s, p + k + 1, end);
  }

  lemma NextPieceIsSpelled(s: string, p: nat, x: Symbol)
    requires SpelledAt(s, p, x)
    ensures Skip(s, p) == p && !DanglingQuote(s, p) && !x.Kind().Eof?
    ensures NextPiece(s, p) == Piece(x.Kind(), p, p + |Spelling(x)|)
    ensures (x.Kind().LitInt? ==> AllDigits(Spelling(x))) && LexemeOf(x.Kind(), Spelling(x)) == x
  {
    NothingToSkip(s, p, x);
    SpellingIsVisible(x);
    SpellingMeans(x);
    if x.Plain? {
      OperatorScans(s, p, x);
    } else if x.value.IntValue? {
      IntegerScans(s, p, x);
    } else {
      RealScans(s, p, x);
    }
  }

  lemma {:induction false} TextScans(s: string, p: nat, ts: seq<Symbol>, gaps: seq<string>)
    requires p <= |s| && ScansWithin(s, p) && |gaps| == |ts| + 1
    requires (forall x <- ts :: Spellable(x)) && Separates(ts, gaps)
    requires s[p..] == Text(ts, gaps)
    ensures Symbols(s, p) == ts
    decreases |ts|
  {
    hide Spelling, ScansWithin, Symbols, Separates, Text, Skip, TryAt;
    if ts == [] {
      NothingSpelled(s, p, gaps);
      BlankScans(s, p);
    } else {
      var end := TokenScans(s, p, ts, gaps);
      TextScans(s, end, ts[1..], gaps[1..]);
    }
  }

  lemma TokenScans(s: string, p: nat, ts: seq<Symbol>, gaps: seq<string>) returns (end: nat)
    requires p <= |s| && ScansWithin(s, p) && ts != [] && |gaps| == |ts| + 1
    requires (forall x <- ts :: Spellable(x)) && Separates(ts, gaps)
    requires s[p..] == Text(ts, gaps)
    ensures end <= |s| && ScansWithin(s, end) && Symbols(s, p) == [ts[0]] + Symbols(s, end)
    ensures Separates(ts[1..], gaps[1..]) && s[end..] == Text(ts[1..], gaps[1..])
  {
    hide Spellable, Spelling, ScansWithin, Symbols, Separates, Text, Skip, TryAt, StopsAt, SpelledAt, IsBlank;
    var start := p + |gaps[0]|;
    end := start + |Spelling(ts[0])|;
    FirstIsSpelled(s, p, ts, gaps);
    GapIsBlank(ts, gaps);
    FirstScans(s, p, start, ts[0]);
  }

  lemma NothingSpelled(s: string, p: nat, gaps: seq<string>)
    requires p <= |s| && Separates([], gaps) && s[p..] == Text([], gaps)
    ensures IsBlank(s[p..])
  {
    GapIsBlank([], gaps);
  }

  lemma GapIsBlank(ts: seq<Symbol>, gaps: seq<string>)
    requires Separates(ts, gaps)
    ensures IsBlank(gaps[0])
  {
  }

  lemma BlankScans(s: string, p: nat)
    requires p <= |s| && ScansWithin(s, p) && IsBlank(s[p..])
    ensures Symbols(s, p) == []
  {
    assert s[p..|s|] == s[p..];
    SkipBlank(s, p, |s|);
    SkipAtEnd(s);
    SymbolsEnd(s, p);
  }

  lemma FirstScans(s: string, p: nat, start: nat, x: Symbol)
    requires p <= start <= |s| && ScansWithin(s, p)
    requires IsBlank(s[p..start]) && SpelledAt(s, start, x)
    ensures var end := start + |Spelling(x)|;
      ScansWithin(s, end) && Symbols(s, p) == [x] + Symbols(s, end)
  {
    hide Skip, TryAt, Spelling, LexemeOf, ScansWithin, Symbols;
    SkipBlank(s, p, start);
    NextPieceIsSpelled(s, start, x);
    SymbolsUnfold(s, p, x, start + |Spelling(x)|);
  }

  lemma SymbolsUnfold(s: string, p: nat, x: Symbol, end: nat)
    requires p <= |s| && ScansWithin(s, p) && !DanglingQuote(s, Skip(s, p))
    requires var piece := NextPiece(s, p);
      && !piece.kind.Eof? && piece.end == end && LexemeOf(piece.kind, s[piece.start..end]) == x
    ensures ScansWithin(s, end) && Symbols(s, p) == [x] + Symbols(s, end)
  {
  }

  lemma SymbolsEnd(s: string, p: nat)
    requires p <= |s| && ScansWithin(s, p) && !DanglingQuote(s, Skip(s, p)) && NextPiece(s, p).kind.Eof?
    ensures Symbols(s, p) == []
  {
  }

  lemma SkipAtEnd(s: string)
    ensures Skip(s, |s|) == |s| && ScanAt(s, |s|).kind.Eof?
  {
  }

  lemma FirstIsSpelled(s: string, p: nat, ts: seq<Symbol>, gaps: seq<string>)
    requires p <= |s| && ts != [] && |gaps| == |ts| + 1
    requires (forall x <- ts :: Spellable(x)) && Separates(ts, gaps)
    requires s[p..] == Text(ts, gaps)
    ensures var start := p + |gaps[0]|; var end := start + |Spelling(ts[0])|;
      && end <= |s| && s[p..start] == gaps[0] && SpelledAt(s, start, ts[0])
      && s[end..] == Text(ts[1..], gaps[1..])
      && Separates(ts[1..], gaps[1..])
  {
    hide Spelling, StopsAt, Separable, IsBlank;
    var start, end := p + |gaps[0]|, p + |gaps[0]| + |Spelling(ts[0])|;
    assert s[end..] == Text(ts[1..], gaps[1..]);
    NextIsSpaced(ts, gaps, s[end..]);
    assert end < |s| ==> s[end] == s[end..][0];
  }

  /** What stands behind the first token does not run into it. */
  lemma NextIsSpaced(ts: seq<Symbol>, gaps: seq<string>, behind: string)
    requires ts != [] && (forall x <- ts :: Spellable(x)) && Separates(ts, gaps)
    requires behind == Text(ts[1..], gaps[1..])
    ensures StopsAt(ts[0], CharAt(behind, 0))
  {
    if gaps[1] != "" {
      assert behind[0] == gaps[1][0];
      assert IsBlank(gaps[1]);
      BlankStops(ts[0], behind[0]);
    } else if |ts| == 1 {
      BlankStops(ts[0], '\0');
    } else {
      SeparableStops(ts[0], ts[1]);
      assert behind[0] == Spelling(ts[1])[0];
    }
  }

  lemma {:induction false} TextTerminated(ts: seq<Symbol>, gaps: seq<string>)
    requires (forall x <- ts :: Spellable(x)) && IsLayout(ts, gaps)
    ensures Terminated(Text(ts, gaps))
    decreases |ts|
  {
    if ts == [] {
      assert IsBlank(gaps[0]);
    } else {
      SpellingIsVisible(ts[0]);
      hide Spelling;
      TextTerminated(ts[1..], gaps[1..]);
    }
  }

  predicate HasNoNul(text: string) {
    forall i | 0 <= i < |text| :: text[i] != '\0'
  }

  lemma {:induction false} TextHasNoNul(ts: seq<Symbol>, gaps: seq<string>)
    requires (forall x <- ts :: Spellable(x)) && IsLayout(ts, gaps)
    ensures HasNoNul(Text(ts, gaps))
    decreases |ts|
  {
    assert IsBlank(gaps[0]);
    if ts != [] {
      SpellingIsVisible(ts[0]);
      hide Spelling;
      TextHasNoNul(ts[1..], gaps[1..]);
    }
  }

  /** Tree to text to tokens to tree is the identity. */
  lemma TextRoundTrip(t: Tree, gaps: seq<string>)
    requires NormalForm(t) && (forall x <- Flatten(t) :: Spellable(x)) && IsLayout(Flatten(t), gaps)
    ensures var text := Text(Flatten(t), gaps);
      && ScansWithin(text, 0)
      && Parse(Symbols(text, 0)) == Done(t, Cursor([], Silent))
  {
    var text := Text(Flatten(t), gaps);
    TextTerminated(Flatten(t), gaps);
    assert text[0..] == text;
    TerminatedScansWithin(text, 0);
    TreesSeparate(t, gaps);
    TextScans(text, 0, Flatten(t), gaps);
    ParseIffFlatten(Flatten(t), t);
  }
}
