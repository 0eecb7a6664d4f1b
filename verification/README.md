# A verified model of Skard

Skard is a small language front end and a bytecode machine, written in C. This project models its
scanner, its Pratt parser, its caching type checker, its bytecode encoder, stack machine and
disassembler, and the run-length-encoded line table, and proves what each of them is for. Run
`dafny verify dfyconfig.toml` (Dafny 4.11) to check all of it.

## How it is organised

Code that changes state step by step is a class whose methods are proved equal to functions on
values; what those functions mean is then proved in lemmas, against definitions that do not mention
them.

| part | what it computes, as functions | what is proved of it | the code, as methods |
|---|---|---|---|
| scanner | `LexSpec.dfy` | `LexTheorems.dfy`, `Quotes.dfy` | `Lexer.dfy` |
| parser | `Tokens.dfy`, `Ast.dfy`, `ParseSpec.dfy` | `ParseTheorems.dfy`, `Grammar.dfy`, `OperandScan.dfy`, `Reports.dfy`, `Recovery.dfy` | `Compiler.dfy` |
| type checker | `Typing.dfy` | `Typing.dfy`, `TypeTokens.dfy` | `Nodes.dfy`, `Compiler.dfy` |
| compiling a source | `CompileSpec.dfy` | the same | `Compiler.dfy` |
| text and tree | `RoundTrip.dfy`, `AstPrint.dfy` | the same | |
| chunks | `Buffers.dfy`, `RunLengths.dfy`, `Bytecode.dfy` | the same | `Buffers.dfy`, `DebugInfo.dfy`, `Chunk.dfy` |
| machine and listing | `Bytecode.dfy` | `Bytecode.dfy` | `Vm.dfy`, `Disassembler.dfy`, `Runtime.dfy` |

The main results:

- **Parser.** Parsing is the exact inverse of flattening a tree to its tokens, in both directions
  (`ParseInvertsFlatten`, `ParseIffFlatten`), so flattening is injective and the language is that of a
  stratified grammar (`AcceptsIffExpression`). For *every* stream of tokens, with errors or without, a
  one-pass scan with a counter tells whether the recursive parser calls a null rule, reports an error,
  or leaves a null child (`ScanDecidesParse`). Which tokens call a null rule is told by the grammar: `+=`,
  `-=` and `->` do, wherever an operator would go on (`NullRuleIsCalled`, `NullRuleIff`).
- **Errors.** The one syntax error that is printed is at the first token with which no sentence of the
  grammar goes on, and its text is exactly that of what would have gone on, or ended, a sentence there
  (`FirstErrorIsPrinted`, `ErrorIsAtOffence`); the compiler object prints that message with that token
  (`CompileSource`). A tree that is printed after errors still has normal form, and spells the tokens that
  were read but for error tokens and parentheses (`ParseRecovers`).
- **Types.** From any consistent state of the cache, inference labels the whole tree with the types of
  a cache-free function (`InferAgrees`), reports each node at fault once, in order, with its operands,
  and never again (`FirstCheckReports`, `AnnotateConsistent`), and fails exactly where a `|` has a Real
  literal or a `/` beneath it (`TypeOfCharacterised`). The type of any accepted source, invalid ones
  included, can be read off its tokens without a tree (`TypeFromTokens`).
- **Scanner.** Tokens tile the source (`PiecesTile`), each is the longest text that is a token at all
  (`MaximalMunch`), and the keyword switches are the keyword table (`TrieIsTable`). Which sources make it
  read behind their end is told exactly, without scanning (`OverrunsIffQuoteIsLast`).
- **Text.** The text of any normal-form tree, in any layout of blanks or with none, scans and parses
  back to it (`TextRoundTrip`, `TextCompiles`). A reader of the bracketed form, with tables of its own,
  gives back every printed tree (`ReadInvertsPrint`).
- **Bytecode.** Running emitted bytes is running the operations, with the same dumped values, stack,
  errors and faults (`ExecuteRefinesRun`), the bytes are those of the original (`EncodedBytes`), values are
  dumped last in, first out (`ConstantsPush`, `DumpsPop`), and the listing has exactly one row for each of them, with its
  line and column (`ListingShowsProgram`). A program that never pops more than it has pushed and comes to
  its end is emitted and runs without a fault (`RunProgram`) exactly if it has at most 2^24 constants, 2^60
  bytes of code and 58 runs of operations on one line (`Emit`, `CanEmitIff`). The last limit is a small
  one: when the line changes for the 58th time, the original stores through a null pointer
  (`FiftyNineLines`).
- **Tables.** The line table refines the plain sequence of lines and is its only canonical encoding
  (`AddLineAppends`, `CanonicalIsUnique`). Doubling moves fewer than two elements for each append
  (`Buffer.Add`). The line table doubles at every run, so that its capacity is exponential and its moves
  are quadratic in the runs: it keeps the bounds of the others only up to one run (`LineCapacityBound`)
  and up to two (`LineMovesBound`), and its size in bytes wraps around to 0 at 59 (`LineSizeWraps`).

## Where the code is not what it seems

The model does what the code does in each of these places.

- The infix rule of `+=`, `-=` and `->` is null but their precedence is not, so that `1 +=` calls a null
  function (`NullRuleReachable`). Streams on which this happens, and those after which the tree has a null
  child that printing and checking would dereference (`NullChildReachable`), are told exactly by
  `SafeToCompile` (`SafeIffNoNull`), which the methods that compile a source demand.
- The loop for string literals lacks a negation: a quote takes any one following character with it, and
  at a quote that is the last character it steps over the terminating NUL (`ClosedStringOverruns`, on the
  text `"a"`). This happens if and only if the last character is a quote that is not in a comment and has
  not been taken by a quote before it (`OverrunsIffQuoteIsLast`, `OverrunsIffOpens`).
- A token that begins no operand is reported only after the token behind it has been scanned, so that in
  `* $` the error is reported at `$` (`ReportCanBeLate`); this is the only exception to the first error
  being the first offence (`IsLate`).
- `-=` is scanned as the kind of `*=`; `/*/` is a complete comment; newlines in a block comment do not
  count as lines; the column is an offset in the whole source (`PositionsAreOffsets`).
- The guard for growing the line table compares its capacity with itself plus two and always holds. So
  every run doubles the table, to 2^(runs + 5) bytes. At the 59th run this is 2^64, which a `size_t` of 64
  bits cannot hold: 0 bytes are asked for, the table is freed, and the line is stored through a null pointer
  (`LineSizeWraps`, `AddLine`, `LinesRunOut`).
- The error flags are never lowered, so a compiler that has failed once fails for every later source.

## Model

| member | source | states |
|---|---|---|
| ParseTheorems.ParsesFlattened | skard-lib/src/compiler.c:423-505 | after the tokens of a normal-form tree, with anything not binding tighter behind them, the parser is in its operator loop with that tree as first operand |
| ParseTheorems.ParseInvertsFlatten | skard-lib/src/compiler.c:423-505 | parsing the tokens of a normal-form tree at a precedence yields that tree and stops exactly at the rest, when the rest binds weaker |
| ParseTheorems.ParsePrecedenceSound | skard-lib/src/compiler.c:423-441 | a failure-free parse returns a normal-form tree whose flattening is exactly what was consumed, before a token that binds weaker |
| ParseTheorems.ParsePrefixSound | skard-lib/src/compiler.c:448-519 | the operand that a prefix rule returns is never binary and spells the tokens that the rule consumed |
| ParseTheorems.ParseLoopSound | skard-lib/src/compiler.c:434-440 | the loop keeps the left spine in normal form: left associativity and precedence |
| ParseTheorems.FlattenInjective | skard-lib/src/compiler.c:423-505 | a token sequence spells at most one normal-form tree: the grammar is unambiguous |
| ParseTheorems.ParseIffFlatten | skard-lib/src/compiler.c:833-837 | a source parses to a tree without an error if and only if it is the flattening of that normal-form tree |
| Grammar.FlattenDerives | skard-lib/src/compiler.c:357-413 | every normal-form tree spells a sentence of the nonterminal of its level |
| Grammar.ExpressionHasTree | skard-lib/src/compiler.c:357-413 | every sentence of the stratified grammar is spelled by a normal-form tree |
| Grammar.AcceptsIffExpression | skard-lib/src/compiler.c:833-837 | no error is reported if and only if the tokens are a sentence of the grammar |
| OperandScan.ScanPrecedence | skard-lib/src/compiler.c:423-441 | at any depth and after any errors, the parser consumes what the one-pass scan consumes and ends as it does |
| OperandScan.ScanLoop | skard-lib/src/compiler.c:434-440 | the same for the operator loop, null infix rules included |
| OperandScan.ScanPrefix | skard-lib/src/compiler.c:448-519 | the same for the prefix rules |
| OperandScan.ScanDecidesParse | skard-lib/src/compiler.c:833-846 | for every stream, the scan tells whether a null rule is called, which error is reported first and where, and whether a null child is left |
| OperandScan.NoNullRule | skard-lib/src/compiler.c:371-374 | a stream without `+=`, `-=` and `->` never reaches a null infix rule |
| ErrorReports.NullRuleIsCalled | skard-lib/src/compiler.c:371-374 | behind tokens with which an operator would go on, each of `+=`, `-=` and `->` calls the null rule, whatever comes after it |
| ErrorReports.NullRuleIff | skard-lib/src/compiler.c:434-438 | as the last token of a stream whose other tokens begin a sentence, each of the three calls the null rule if and only if an operator would go on there |
| OperandScan.NullRuleReachable | skard-lib/src/compiler.c:434-438 | a concrete stream on which the null infix rule is called |
| OperandScan.NullChildReachable | skard-lib/src/compiler.c:455-484 | a concrete stream whose parse ends in a tree with a null operand |
| OperandScan.AcceptedIsComplete | skard-lib/src/compiler.c:833-846 | when no error is reported, no node of the tree has a null child |
| ErrorReports.FirstErrorIsPrinted | skard-lib/src/compiler.c:311-441 | the one error is reported at the first token with which no sentence goes on, or at an error token right behind it where an operand was expected, and its message names what would have gone on, or ended, a sentence there |
| ErrorReports.FirstOffenceExists | skard-lib/src/compiler.c:833-846 | a stream has a first offending token, or offends at its end, if and only if it is no sentence |
| ErrorReports.FirstOffenceIsUnique | skard-lib/src/compiler.c:311-329 | a stream has at most one first offence |
| ErrorReports.ReportCanBeLate | skard-lib/src/compiler.c:423-429 | a concrete stream on which the error is reported one token behind the first offence |
| Recovery.ParseRecovers | skard-lib/src/compiler.c:423-505 | after any errors, a tree without a null child has normal form, and spells the tokens in front of where the parser stopped, up to error tokens, which are passed over, and closing parentheses, which may be missing |
| CompileSpec.ErrorIsAtOffence | skard-lib/src/compiler.c:311-329 | the message that a source prints is for its first offence, or the error token right behind it; its text is "Expected expression.", "Expected ')' after expression." or "Expected end of expression." if and only if a literal, a closing parenthesis or the end would be right there, and that of an error token tells a quote from any other character; sentences print none |
| CompileSpec.SafeIffNoNull | skard-lib/src/compiler.c:833-844 | the precondition of compiling is exact: it holds if and only if the parser calls no null rule and leaves no null child |
| Compilation.Compiler.constructor | skard-lib/src/compiler.c:191-196 | a new compiler has no lexer, no error, and is not in panic mode |
| Compilation.Compiler.ParseError | skard-lib/src/compiler.c:311-329 | prints the message for the token exactly when none has been printed, and the first report stays |
| Compilation.Compiler.ParseErrorAtCurrent | skard-lib/src/compiler.c:301-304 | the same for the current token; the cursor stays where it is |
| Compilation.Compiler.ParseErrorAtPrevious | skard-lib/src/compiler.c:306-309 | the same for the token just read |
| Compilation.Compiler.Advance | skard-lib/src/compiler.c:332-344 | moves to the next token that is not an error token, reporting the first error token in between, and knows which token of the source is current |
| Compilation.Compiler.Consume | skard-lib/src/compiler.c:346-354 | reads the expected token or fails where it stands |
| Compilation.Compiler.ParsePrecedence | skard-lib/src/compiler.c:423-441 | returns a fresh node tree, and moves the cursor and the flag, exactly as the specified parse, and terminates |
| Compilation.Compiler.ParseInfixes | skard-lib/src/compiler.c:434-440 | the operator loop computes the specified loop |
| Compilation.Compiler.ParseGrouping | skard-lib/src/compiler.c:448-453 | computes the specified prefix rule for a parenthesis |
| Compilation.Compiler.ParseBinary | skard-lib/src/compiler.c:455-484 | computes the specified infix rule and keeps the first operand as it is |
| Compilation.Compiler.ParseUnary | skard-lib/src/compiler.c:486-505 | computes the specified prefix rule for a sign |
| Compilation.Compiler.ParseReal | skard-lib/src/compiler.c:507-512 | makes a Real literal node of the token just read |
| Compilation.Compiler.ParseInt | skard-lib/src/compiler.c:514-519 | makes an Int literal node of the value that the numeral just read denotes |
| Nodes.AstNode.OfValue | skard-lib/src/compiler.c:257-265 | a literal node, with its type |
| Nodes.AstNode.OfUnary | skard-lib/src/compiler.c:267-275 | a unary node over an unshared child, of unknown type |
| Nodes.AstNode.OfBinary | skard-lib/src/compiler.c:277-288 | a binary node over two unshared children, of unknown type |
| Nodes.AstNode.OfGrouping | skard-lib/src/compiler.c:290-298 | a grouping node over an unshared child, of unknown type |
| Typing.InferAgrees | skard-lib/src/compiler.c:718-798 | from any consistent cache, inference labels every node with the pure type and reports exactly the nodes at fault not yet known, in order, with the types of their operands and their operators |
| Typing.AnnotateConsistent | skard-lib/src/compiler.c:790-798 | the labelled tree is fully known, consistent and equal to the tree but for its types, and a second inference changes and reports nothing |
| Typing.FirstCheckReports | skard-lib/src/compiler.c:718-798 | the first check of a parsed tree reports each minimal ill-typed node once, in order, each of them a `\|` between numbers of which one is Real, and returns its pure type |
| Typing.InvalidIffFault | skard-lib/src/compiler.c:718-761 | the root is invalid if and only if some node beneath is at fault: invalidity reaches every ancestor |
| Typing.TypeOfCharacterised | skard-lib/src/compiler.c:562-701 | a parsed tree is invalid if and only if a `\|` has a Real literal or a `/` beneath it, and otherwise Real if and only if it contains one of these |
| TypeTokens.DivisionInTokens | skard-lib/src/compiler.c:562-701 | a `\|` of a tree with something Real beneath it stands in the tokens between a term and a factor of which one has a Real token |
| TypeTokens.DivisionIsInTree | skard-lib/src/compiler.c:423-505 | and conversely: wherever in the tokens of a tree a `\|` stands between a term and a factor of which one has a Real token, whatever is around them, a `\|` of the tree divides something Real |
| TypeTokens.TypeFromTokens | skard-lib/src/compiler.c:801-846 | an accepted source is invalid if and only if a `\|` stands in its tokens between a term and a factor of which one has a Real literal or a `/`, and otherwise Int if and only if there is neither at all |
| Compilation.Compiler.GetExpressionType | skard-lib/src/compiler.c:790-798 | leaves the node tree as specified inference does, changes types only, and reports the same errors |
| Compilation.Compiler.InferTypeExpression | skard-lib/src/compiler.c:765-787 | infers the children in place and yields the type that specified inference gives the node |
| Compilation.Compiler.InferTypeUnary | skard-lib/src/compiler.c:718-734 | infers the child in place and applies the unary rule to its type |
| Compilation.Compiler.InferTypeBinary | skard-lib/src/compiler.c:736-754 | infers both children in place, disturbing neither, and applies the binary rule |
| Compilation.Compiler.TypecheckExpression | skard-lib/src/compiler.c:801-815 | succeeds exactly on a numeric type, and reports an invalid root once more, after its operands |
| Compilation.Compiler.PrintAndCheck | skard-lib/src/compiler.c:839-844 | prints a tree as it is parsed and as inference labels it, and the type errors of the check; nothing when it is null |
| Compilation.Compiler.GenerateAst | skard-lib/src/compiler.c:833-847 | succeeds exactly on sentences of the grammar while no error came before, prints the parsed tree and then the tree as inference labels it, nothing when it is null, and reports the specified errors |
| Compilation.Compiler.CompileSource | skard-lib/src/compiler.c:208-222 | returns false; the printed trees, the type errors and the first syntax error are those of the specified parse, whether the source is a sentence or not and whatever error came before; a sentence prints its tree and the fully typed tree, whose type is that of its tokens, and the type errors of exactly its `\|` with a Real operand; while no error came before, any other source prints one message, at its first offence or the error token right behind it; after an earlier error no further syntax error is printed |
| CompileSpec.TextCompiles | skard-lib/src/compiler.c:208-222 | the text of a normal-form tree, in any layout of blanks or with none, can be compiled and parses to that tree |
| RoundTrip.TextRoundTrip | skard-lib/src/lexer.c:319-394 | text of a tree, in any layout of blanks or with none, scanned and parsed, gives the tree back without an error and at the end of file |
| RoundTrip.TreesAreSpellable | skard-lib/src/lexer.c:319-394 | every token of a normal-form tree has a spelling, but for literals that no source spells |
| RoundTrip.TreesSeparate | skard-lib/src/lexer.c:319-394 | no two neighbouring tokens of a normal-form tree run into each other when they touch |
| RoundTrip.StrtollReads | skard-lib/src/compiler.c:514-519 | every numeral is a number in decimal digits behind any zeros, and is read in base 10 as that number, up to 9223372036854775807, at which it stops |
| AstPrint.ReadInvertsPrint | skard-lib/src/compiler.c:86-188 | reading a printed tree, with the type words of value.c, the operators of a source, the first bracket as first operand and numbers in base 10, gives back the tree and the text behind it |
| AstPrint.OperatorIsSpelled | skard-lib/src/compiler.c:9-29 | an operator is printed as the scanner reads it |
| AstPrint.ParsedIsPrintable | skard-lib/src/compiler.c:143-188 | every tree parsed from integers can be printed, before and after the check |
| AstPrint.PrintInjective | skard-lib/src/compiler.c:86-188 | two trees of integer literals, with any cached types, print alike only if they are equal |
| AstPrint.PrintReadable | skard-lib/src/compiler.c:171-188 | the end of a printed tree can be found in any text that begins with it, and the tree in front of it |
| LexTheorems.TrieIsTable | skard-lib/src/lexer.c:190-274 | the nested switches return a keyword if and only if the whole text is that keyword, and otherwise an identifier |
| LexTheorems.MaximalMunch | skard-lib/src/lexer.c:291-394 | a token is the longest text at its start that the lexical grammar admits, and an error token is one character where it admits none |
| LexTheorems.QuoteTakesOne | skard-lib/src/lexer.c:277-289 | a quote takes the one character behind it, whatever it is, and makes an error token before a newline |
| LexTheorems.OperatorIsTable | skard-lib/src/lexer.c:343-393 | the operator switch takes two characters exactly when they are an operator |
| LexTheorems.SkipIsGap | skard-lib/src/lexer.c:149-187 | what is skipped is spaces, tabs, carriage returns and comments, and all of them |
| LexTheorems.PiecesTile | skard-lib/src/lexer.c:414-424 | tokens are non-empty disjoint slices in order with only blanks and comments between them, and the last is the end of file at the end of the text |
| LexTheorems.SymbolsArePieces | skard-lib/src/lexer.c:319-394 | the parser is given one token for each scanned piece, of the same kind |
| LexTheorems.PositionsAreOffsets | skard-lib/src/lexer.c:54-86 | lines count newline tokens, columns are offsets in the whole source, and the text of a token is its slice of the source, or the message for a quote or for any other character |
| LexSpec.TryAt | skard-lib/src/lexer.c:319-394 | a scan reads behind the terminating NUL if and only if its token begins with a quote that is the last character; otherwise it takes a slice, empty only at the end of file |
| Quotes.OverrunsIffOpens | skard-lib/src/lexer.c:277-289 | scanning on from any position leaves the source if and only if an automaton over characters, which knows no tokens, ends with an opened quote |
| Quotes.OverrunsIffQuoteIsLast | skard-lib/src/lexer.c:277-289 | scanning a source leaves it if and only if its last character is a quote before which the text ends in code, not in a comment or behind an opened quote |
| Quotes.ClosedStringOverruns | skard-lib/src/lexer.c:277-289 | the source `"a"`, whose second quote is scanned past the end |
| Scanner.Lexer.constructor | skard-lib/src/lexer.c:8-15 | a new lexer is at the start of its source |
| Scanner.Lexer.Reset | skard-lib/src/lexer.c:17-23 | returns to the start of the source |
| Scanner.Lexer.SkipSingleLineComment | skard-lib/src/lexer.c:149-154 | stops at the newline or the end of the text |
| Scanner.Lexer.SkipMultiLineComment | skard-lib/src/lexer.c:156-165 | stops after the first closing mark or at the end of the text |
| Scanner.Lexer.SkipInsignificant | skard-lib/src/lexer.c:167-187 | moves over the gap, and terminates |
| Scanner.Lexer.ScanNumber | skard-lib/src/lexer.c:291-307 | takes the specified number |
| Scanner.Lexer.ScanIdentifier | skard-lib/src/lexer.c:309-316 | takes the specified name and its kind |
| Scanner.Lexer.ScanString | skard-lib/src/lexer.c:277-289 | takes one character after the quote, makes an error token before a newline, or overruns when nothing follows the quote |
| Scanner.Lexer.ScanKind | skard-lib/src/lexer.c:343-386 | takes the specified operator |
| Scanner.Lexer.ScanToken | skard-lib/src/lexer.c:319-394 | on every source, overruns exactly at a dangling quote; otherwise the token, its text and position, and the new state are those of the specified scan |
| Scanner.Lexer.ScanAll | skard-lib/src/lexer.c:414-424 | yields the specified tokens up to the end of file, or overruns exactly when the specified scan does, and terminates |
| Buffers.GrowDoubles | skard-lib/src/utils.h:9-10 | growing goes from 0 to 8 and then doubles, so that the capacity is always 8 times a power of two |
| Buffers.GrowWraps | skard-lib/src/utils.h:9-13 | doubling a buffer asks for a size that wraps around to 0 if and only if the buffer takes half of what a size_t can count |
| Buffers.Buffer.Add | skard-lib/src/value.c:134-141 | appends, except when the size in bytes would wrap around; the capacity is 8 times a power of two and at most 8 or twice the count before, and all moves so far are fewer than twice the count |
| RunLengths.AddLineAppends | skard-lib/src/chunk.c:23-37 | adding a line to the runs appends it to the sequence that they stand for, and keeps them canonical |
| RunLengths.CanonicalIsUnique | skard-lib/src/chunk.c:23-37 | a sequence of lines has only one canonical encoding |
| RunLengths.EncodeInverts | skard-lib/src/chunk.c:23-37 | encoding any sequence of lines loses nothing and gives a canonical encoding |
| RunLengths.ReadLineReads | skard-lib/src/chunk.c:55-69 | walking the runs reads the line at an offset, and 0 past the end |
| RunLengths.LineCapacityDoubles | skard-lib/src/chunk.c:30-36 | every run doubles the line buffer, which always has room for it |
| RunLengths.LineCapacityBound | skard-lib/src/chunk.c:30-33 | the bound of the other buffers holds for the line buffer if and only if it has at most one run |
| RunLengths.LineSizeWraps | skard-lib/src/chunk.c:32-34 | the size in bytes that is asked for the line table is 2^(runs + 5), and wraps around to 0 if and only if there are more than 58 runs |
| RunLengths.LineMovesBound | skard-lib/src/chunk.c:30-33 | all sequences with a number of runs make the line table move fewer than two numbers for each line if and only if it has at most two |
| RunLengths.CanonicalIsEncoded | skard-lib/src/chunk.c:23-37 | what the line table holds is the encoding of the lines that were added |
| DebugInfos.DebugInfo.AddLine | skard-lib/src/chunk.c:23-37 | appends a line by lengthening the last run or starting one, and keeps the runs canonical, if and only if there are at most 58 runs then; otherwise the program stops |
| DebugInfos.DebugInfo.AddColumn | skard-lib/src/chunk.c:39-47 | appends a column, up to 2^60 of them |
| DebugInfos.DebugInfo.Add | skard-lib/src/chunk.c:49-53 | appends a line and a column, if and only if both tables can hold them |
| DebugInfos.DebugInfo.ReadLine | skard-lib/src/chunk.c:55-69 | returns the line added at that offset, and 0 past the end |
| DebugInfos.DebugInfo.ReadColumn | skard-lib/src/chunk.c:71-74 | returns the column added at that offset |
| Chunks.Chunk.WriteByte | skard-lib/src/chunk.c:94-103 | appends one byte with its position and changes nothing else, if and only if the tables can hold it |
| Chunks.Chunk.AddConstant | skard-lib/src/chunk.c:105-109 | appends a constant and returns its index |
| Chunks.Chunk.WriteOpConstant | skard-lib/src/chunk.c:111-127 | appends the constant and the bytes that encode its index, short up to 255 and long above; or stops without code when there are too many, or when the tables cannot hold the positions |
| Chunks.HoldsLess | skard-lib/src/chunk.c:94-103 | tables that hold the positions of some code hold those of any beginning of it, so the first byte that does not fit decides |
| Chunks.ByteEmits | skard-lib/src/chunk.c:94-103 | writing the byte of an operation extends the emitted program by that operation |
| Chunks.ConstantEmits | skard-lib/src/chunk.c:111-127 | writing a constant extends the emitted program by a constant operation |
| Bytecode.ImageAppends | skard-lib/src/chunk.c:94-127 | a program with one more operation is the same chunk with its constant, its bytes and their positions appended |
| Bytecode.OperandInverts | skard-lib/src/chunk.c:123-126 | the three bytes of a long operand give back its index |
| Bytecode.EncodedBytes | skard-lib/src/chunk.h:11-17 | the bytes of every operation: 0 returns, 1 dumps, 2 has an operand of one byte and 3 one of three bytes, the low one first |
| Bytecode.ExecuteRefinesRun | skard-lib/src/vm.c:72-106 | from any point of an emitted program on, running bytes and running operations have the same outcome |
| Bytecode.EmittedCodeRuns | skard-lib/src/vm.c:108-114 | the same for a whole program from its first byte, on any stack |
| Bytecode.RunsIffNoFault | skard-lib/src/vm.c:72-106 | a run faults if and only if counting pushes and pops says so: on no program does it depend on the values |
| Bytecode.ConstantsPush | skard-lib/src/vm.c:91-96 | running constants pushes their values in order onto what is there |
| Bytecode.DumpsPop | skard-lib/src/vm.c:87-90 | running dumps prints the upper values of the stack, the last one first, and leaves the ones below |
| Bytecode.FirstRow | skard-lib/src/debug.c:37-77 | the disassembler decodes an operation as it was emitted, and steps over exactly its bytes |
| Bytecode.ListingShowsProgram | skard-lib/src/debug.c:6-18 | a listing has exactly one row for each emitted operation, at its first byte, with its constant and position |
| Bytecode.VisitsAreListed | skard-lib/src/vm.c:72-106 | on any code, the offsets at which instructions are read are those of the first rows of the listing, in order |
| Vm.DoublesAgain | skard-lib/src/vm.c:25-29 | the stack grows from 0 to 256 and then doubles |
| Vm.VmStack.Push | skard-lib/src/vm.c:22-33 | appends to the stack, growing it only when full and keeping its contents |
| Vm.VmStack.Pop | skard-lib/src/vm.c:35-39 | removes and returns the last value |
| Vm.SkardVm.ReadConstant | skard-lib/src/vm.c:75 | reads the constant of a short operand and steps over it |
| Vm.SkardVm.ReadConstantLong | skard-lib/src/vm.c:76-77 | reads the constant of a long operand and steps over its three bytes |
| Vm.SkardVm.Step | skard-lib/src/vm.c:85-100 | one instruction moves the machine one step along the specified run, or ends it |
| Vm.SkardVm.Loop | skard-lib/src/vm.c:72-106 | dumps, leaves and returns what the specified run does, reads instructions at exactly the specified offsets, and terminates |
| Vm.SkardVm.RunChunk | skard-lib/src/vm.c:108-114 | on the chunk of any program, dumps exactly the values of the abstract machine, in order; on any chunk, reads instructions only at rows of its listing |
| Disassembly.ConstantInstruction | skard-lib/src/debug.c:37-44 | decodes a short operand |
| Disassembly.ConstantLongInstruction | skard-lib/src/debug.c:46-53 | decodes a long operand |
| Disassembly.DisassembleInstruction | skard-lib/src/debug.c:55-77 | returns the row of an instruction and the offset of the next |
| Disassembly.DisassembleChunk | skard-lib/src/debug.c:6-18 | lists a chunk to its end; the chunk of a program operation by operation |
| Runtime.Emit | skard-runtime/src/main.c:17-21 | the emission calls of any program make its chunk and succeed if and only if its constants and positions are not too many; otherwise they stop at the first operation that is too much, and with the limit that it exceeds |
| Runtime.CanEmitIff | skard-lib/src/chunk.c:23-127 | the limits, counted on the operations: 2^24 constants, 2^60 bytes, and 58 runs of neighbouring operations on the same line |
| Runtime.LinesRunOut | skard-lib/src/chunk.c:30-36 | programs that push one constant on each line and return are emitted up to 58 operations and not beyond |
| Runtime.FiftyNineLines | skard-lib/src/chunk.c:30-36 | a program of 59 operations with 58 constants that would run, and at whose last operation the store is through a null pointer |
| Runtime.RunProgram | skard-runtime/src/main.c:17-27 | every program whose depth count never goes below zero and that ends is emitted exactly within the limits, and then listed row by row and run without a fault, dumping the values of the abstract machine |
| Runtime.RunExample | skard-runtime/src/main.c:10-28 | the program of the runtime lists three rows and dumps its one value |
| Runtime.ExampleBytes | skard-runtime/src/main.c:17-21 | the chunk of the program of the runtime, byte by byte |

## Left out

- Compilation.Compiler.CompileSource: takes sources on which scanning and parsing are defined, those without a read behind the end, a null rule or a null child; bytecode generation is an unfinished stub in the original.
- Compilation.Compiler.GenerateAst: records the trees that are printed; their text is the function of AstPrint.
- Compilation.Compiler.ParseError: records the token and the message; how they are put into one line of text is not modelled.
- Runtime.Emit: the original has one program, whose calls it writes out; here the calls are made for any program.
- AstPrint.PrintInjective: covers trees of integer literals, because a Real prints rounded to six places, and prefix operators that are signs, which are the only ones that the parser builds.
- RoundTrip.TextRoundTrip: spells Real literals by their own numeral; that strtod would also read an exponent written right behind the numeral is not modelled, and such a text is not an expression, because the exponent scans as a name.
- Bytecode.OperandInverts: shifts and masks are written as division and remainder of natural numbers.
- Buffers.Buffer.Add: a size_t has 64 bits and a value 16 bytes; running out of memory before a size wraps around, and the exit that follows, are not modelled, and for the line table that comes early: its 30th run takes 32 GiB.
- Vm.VmStack.Push: wrap-around of the size of the stack is not modelled; it takes more than 2^59 values, and an emitted program pushes at most 2^24.
- DebugInfos.DebugInfo.AddLine: line and column numbers are naturals; a store through a null pointer is a result after which nothing is promised.
- Chunks.Chunk.WriteOpConstant: the exit after too many constants is a result instead.
- Buffers.Buffer: the byte code, the columns and the constants have one generic buffer, where the original repeats the same code three times.
- Releasing memory, reading files and printing are not modelled; syntax errors, type errors, trees and dumped values are recorded in order.
- Sources are texts without NUL, the text that a C string holds.
- Floating-point values: the payload of a Real is the numeral that spells it.
- Names of token kinds, trace printing and version macros are not modelled, because they would only add easy members.
