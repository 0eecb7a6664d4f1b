/**
 What skard-runtime/src/main.c does with one program, for any program: emits it into a new chunk,
 lists the chunk, and runs it on a new machine.
 */
module Runtime {
  import opened Values
  import opened Bytecode
  import opened Chunks
  import opened Vm
  import opened Disassembly
  import RunLengths

  /** There are not too many constants for the long operand. */
  predicate Fits(p: seq<Instruction>) {
    |Constants(p)| <= MAX_CHUNK_CONSTANTS
  }

  /** The emission calls of the program succeed. */
  predicate CanEmit(p: seq<Instruction>) {
    Fits(p) && Holds(ImageOf(p))
  }

  /** A program that can be emitted can be emitted without its last operation. */
  lemma EmitsLess(p: seq<Instruction>, i: Instruction)
    requires CanEmit(p + [i])
    ensures CanEmit(p)
  {
    ImageAppends(p, i);
    var m := ImageOf(p);
    var n := m.(constants := m.constants + ConstantsOf(i.op));
    HoldsLess(n, Encode(i.op, |m.constants|), i.line, i.column);
    assert Constants(p + [i]) == m.constants + ConstantsOf(i.op);
  }

  lemma {:induction false} PrefixEmits(p: seq<Instruction>, k: nat)
    requires k <= |p| && CanEmit(p)
    ensures CanEmit(p[..k])
    decreases |p| - k
  {
    hide CanEmit;
    if k < |p| {
      PrefixEmits(p, k + 1);
      assert p[..k + 1] == p[..k] + [p[k]];
      EmitsLess(p[..k], p[k]);
    } else {
      assert p[..k] == p;
    }
  }

  lemma NothingEmits()
    ensures CanEmit([])
  {
    NothingEmitted();
  }

  /** Where the emission stops: at the first operation that is one too much, and with what is too much. */
  predicate StopsAt(p: seq<Instruction>, k: nat, result: Written) {
    && k < |p| && CanEmit(p[..k]) && !CanEmit(p[..k + 1])
    && result == if Fits(p[..k + 1]) then NullStore else TooManyConstants
  }

  function ByteOf(op: Op): byte
    requires !op.Constant?
  {
    match op
    case Return => OP_RETURN
    case Dump => OP_DUMP
    case UnknownOp(code) => code
  }

  /** One emission call, on the chunk of the program so far. */
  method EmitOne(c: Chunk, ghost p: seq<Instruction>, i: Instruction) returns (result: Written)
    requires c.Valid() && c.Image() == ImageOf(p) && CanEmit(p)
    modifies c.repr
    ensures result == if CanEmit(p + [i]) then Done else if Fits(p + [i]) then NullStore else TooManyConstants
    ensures !result.NullStore? ==> c.Valid() && fresh(c.repr - old(c.repr))
    ensures result.Done? ==> c.Image() == ImageOf(p + [i])
  {
    hide Chunk.Valid, Chunk.Image, Append, Holds;
    EmitAppends(p, i, 0);
    if i.op.Constant? {
      ConstantEmits(p, i.op.value, i.line, i.column);
      result := c.WriteOpConstant(i.op.value, i.line, i.column);
    } else {
      ByteEmits(p, i.op, ByteOf(i.op), i.line, i.column);
      var ok := c.WriteByte(ByteOf(i.op), i.line, i.column);
      result := if ok then Done else NullStore;
    }
  }

  /**
   The emission calls of a whole program. They succeed exactly if the constants and the positions are
   not too many; otherwise they stop at the first one that is too much.
   */
  method Emit(p: seq<Instruction>) returns (result: Written, c: Chunk)
    ensures result.Done? <==> CanEmit(p)
    ensures !result.NullStore? ==> c.Valid() && fresh(c.repr)
    ensures result.Done? ==> c.Image() == ImageOf(p)
    ensures !result.Done? ==> exists k: nat :: StopsAt(p, k, result)
  {
    hide Chunk.Valid, Chunk.Image, ImageOf, CanEmit, Fits;
    NothingEmits();
    NothingEmitted();
    assert p[..0] == [];
    c := new Chunk();
    var k := 0;
    while k < |p|
      invariant k <= |p| && c.Valid() && fresh(c.repr)
      invariant c.Image() == ImageOf(p[..k]) && CanEmit(p[..k])
    {
      assert p[..k] + [p[k]] == p[..k + 1];
      result := EmitOne(c, p[..k], p[k]);
      if !result.Done? {
        if CanEmit(p) {
          PrefixEmits(p, k + 1);
        }
        assert StopsAt(p, k, result);
        return;
      }
      k := k + 1;
    }
    assert p[..|p|] == p;
    result := Done;
  }

  /** Lists the chunk of a program and runs it on a machine that has not run yet. */
  method ListAndRun(p: seq<Instruction>, c: Chunk, vm: SkardVm) returns (rows: seq<Row>, ok: bool)
    requires IsProgram(p) && Fits(p) && Runs(p, 0) && vm.Ready(c) && c.Image() == ImageOf(p)
    requires vm.stack.Contents() == [] && vm.dumped == [] && vm.visited == []
    modifies vm, vm.stack, vm.stack.stack
    ensures vm.Valid() && rows == Rows(p, 0, 0) && AreFirst(vm.visited, rows)
    ensures var o := Run(p, []);
      !o.result.Fault? && ok == o.result.Ok? && vm.dumped == o.dumped && vm.stack.Contents() == o.stack
  {
    ProgramOutcome(p);
    hide Chunk.Valid, Chunk.Image, ImageOf, Constants, Runs, Run, Rows, IsProgram;
    hide Listing, Listable, AreFirst, Visited, Execute;
    ghost var offsets := Visited(ImageOf(p).code, ImageOf(p).constants, 0, []);
    rows := DisassembleChunk(c);
    ok := vm.RunChunk(c);
    assert vm.visited == [] + offsets == offsets;
  }

  /**
   A program that never pops more than it pushed and that comes to its end is emitted, if its constants
   and positions are not too many, listed row by row, and run without a fault: what is dumped is what the
   operations mean.
   */
  method RunProgram(p: seq<Instruction>) returns (emitted: bool, rows: seq<Row>, ok: bool, vm: SkardVm)
    requires IsProgram(p) && Runs(p, 0)
    ensures vm.Valid() && (emitted <==> CanEmit(p))
    ensures emitted ==> rows == Rows(p, 0, 0) && AreFirst(vm.visited, rows)
    ensures emitted ==> var o := Run(p, []);
      !o.result.Fault? && ok == o.result.Ok? && vm.dumped == o.dumped && vm.stack.Contents() == o.stack
  {
    hide Chunk.Valid, Chunk.Image, ImageOf, Constants, Runs, Run, Rows, IsProgram, Holds;
    vm := new SkardVm();
    var result, c := Emit(p);
    emitted, rows, ok := result.Done?, [], false;
    if emitted {
      rows, ok := ListAndRun(p, c, vm);
    }
  }

  lemma ProgramOutcome(p: seq<Instruction>)
    requires IsProgram(p) && Fits(p) && Runs(p, 0)
    ensures var m := ImageOf(p);
      && !Run(p, []).result.Fault? && Execute(m.code, m.constants, 0, []) == Run(p, [])
      && Listable(m, 0) && Listing(m, 0) == Rows(p, 0, 0)
  {
    RunsIffNoFault(p, []);
    EmittedCodeRuns(p, []);
    ProgramIsShown(ImageOf(p), p);
    ListingShowsProgram(ImageOf(p), 0, p, 0);
  }

  // Which programs are too much for the tables of positions.

  /** How often the line changes from one operation to the next, with the first line. */
  function LineRuns(p: seq<Instruction>): nat {
    var n := |p|;
    if n == 0 then 0
    else LineRuns(p[..n - 1]) + if n > 1 && p[n - 2].line == p[n - 1].line then 0 else 1
  }

  lemma {:induction false} LineRunsAreRuns(p: seq<Instruction>)
    ensures |RunLengths.Encode(Lines(p, 0))| == LineRuns(p)
    ensures p != [] ==> Lines(p, 0) != [] && Lines(p, 0)[|Lines(p, 0)| - 1] == p[|p| - 1].line
    decreases |p|
  {
    hide RunLengths.Encode, Lines, Encode;
    if p == [] {
      NoLines();
    } else {
      var q, i := p[..|p| - 1], p[|p| - 1];
      assert p == q + [i];
      LineRunsAreRuns(q);
      if q == [] {
        NoLines();
      }
      EmitAppendsLines(q, i, 0);
      RunLengths.EncodeRepeated(Lines(q, 0), i.line, |Encode(i.op, 0 + |Constants(q)|)|);
    }
  }

  lemma NoLines()
    ensures Lines([], 0) == [] && RunLengths.Encode([]) == []
  {
  }

  /** What a program may be, counted on its operations. */
  lemma CanEmitIff(p: seq<Instruction>)
    ensures CanEmit(p) <==>
      |Constants(p)| <= 16777216 && |Code(p, 0)| <= 0x1000_0000_0000_0000 && LineRuns(p) <= 58
  {
    hide Constants, Code, Lines, Columns, LineRuns, RunLengths.Encode;
    PositionsCoverCode(p, 0);
    LineRunsAreRuns(p);
  }

  /** Constants that are pushed and never used, each on its own line. */
  function LineByLine(a: Value, n: nat): seq<Instruction> {
    seq(n + 1, (k: nat) => Instruction(if k < n then Constant(a) else Return, k, 0))
  }

  /** However few the constants are, line by line 58 operations are emitted and 59 are not. */
  lemma LinesRunOut(a: Value, n: nat)
    ensures var p := LineByLine(a, n);
      && |p| == n + 1 && |Constants(p)| <= |p| && IsProgram(p) && Runs(p, 0)
      && (CanEmit(p) <==> |p| <= 58)
  {
    hide Constants, Code, Runs, LineRuns, CanEmit;
    var p := LineByLine(a, n);
    CanEmitIff(p);
    SizeBounds(p, 0);
    PushesRun(p, 0);
    NewLines(p);
  }

  lemma {:induction false} SizeBounds(p: seq<Instruction>, base: nat)
    ensures |Constants(p)| <= |p| && |Code(p, base)| <= 4 * |p|
    decreases |p|
  {
    hide Encode;
    if p != [] {
      SizeBounds(p[1..], base + |ConstantsOf(p[0].op)|);
    }
  }

  lemma {:induction false} PushesRun(p: seq<Instruction>, depth: nat)
    requires p != [] && p[|p| - 1].op.Return? && forall k | 0 <= k < |p| - 1 :: p[k].op.Constant?
    ensures Runs(p, depth)
    decreases |p|
  {
    if |p| > 1 {
      PushesRun(p[1..], depth + 1);
    }
  }

  lemma {:induction false} NewLines(p: seq<Instruction>)
    requires forall k | 0 < k < |p| :: p[k - 1].line != p[k].line
    ensures LineRuns(p) == |p|
    decreases |p|
  {
    if p != [] {
      NewLines(p[..|p| - 1]);
    }
  }

  /** A program of 59 operations that could be run, but that the original stops at. */
  lemma FiftyNineLines(a: Value)
    ensures var p := LineByLine(a, 58);
      |p| == 59 && Fits(p) && IsProgram(p) && Runs(p, 0) && StopsAt(p, 58, NullStore)
  {
    hide Constants, Runs, LineRuns, Holds, ImageOf;
    var p := LineByLine(a, 58);
    LinesRunOut(a, 58);
    assert p[..59] == p;
    FirstLines(a);
  }

  lemma FirstLines(a: Value)
    ensures CanEmit(LineByLine(a, 58)[..58])
  {
    hide Constants, Code, LineRuns, CanEmit;
    var p := LineByLine(a, 58)[..58];
    CanEmitIff(p);
    SizeBounds(p, 0);
    NewLines(p);
  }

  // The program of main.c.

  function Example(a: Value): seq<Instruction> {
    [Instruction(Constant(a), 0, 0), Instruction(Dump, 1, 0), Instruction(Return, 2, 0)]
  }

  function ExampleRows(a: Value): seq<Row> {
    [Row(0, 0, 0, OP_CONSTANT, Operand(0, a)), Row(2, 1, 0, OP_DUMP, NoOperand), Row(3, 2, 0, OP_RETURN, NoOperand)]
  }

  /** The example dumps its value, and is listed as three rows. */
  method RunExample(a: Value) returns (rows: seq<Row>, ok: bool, vm: SkardVm)
    ensures rows == ExampleRows(a)
    ensures ok && vm.dumped == [a] && vm.Valid() && vm.stack.Contents() == []
  {
    ExampleOutcome(a);
    var emitted;
    emitted, rows, ok, vm := RunProgram(Example(a));
  }

  lemma ExampleOutcome(a: Value)
    ensures var p := Example(a);
      && IsProgram(p) && CanEmit(p) && Runs(p, 0)
      && Run(p, []) == Outcome(Ok, [a], []) && Rows(p, 0, 0) == ExampleRows(a)
  {
    ExampleEmits(a);
    ExampleRuns(a);
    ExampleListed(a);
  }

  lemma ExampleEmits(a: Value)
    ensures CanEmit(Example(a))
  {
    hide Constants, Code, LineRuns, CanEmit;
    CanEmitIff(Example(a));
    SizeBounds(Example(a), 0);
    NewLines(Example(a));
  }

  /** Its chunk, byte by byte: a constant on line 0, a dump on line 1 and a return on line 2. */
  lemma ExampleBytes(a: Value)
    ensures ImageOf(Example(a)) == Image([2, 0, 1, 0], [a], [0, 0, 1, 2], [0, 0, 0, 0])
  {
    hide ImageOf, Append;
    var first, second, third := Instruction(Constant(a), 0, 0), Instruction(Dump, 1, 0), Instruction(Return, 2, 0);
    assert [] + [first] == [first] && [first] + [second] + [third] == Example(a);
    NothingEmitted();
    ConstantEmits([], a, 0, 0);
    assert [] + [a] == [a] && ImageOf([first]) == Append(Image([], [a], [], []), [2, 0], 0, 0);
    ByteEmits([first], Dump, 1, 1, 0);
    ByteEmits([first] + [second], Return, 0, 2, 0);
    ExampleAppends(a);
  }

  lemma ExampleAppends(a: Value)
    ensures Append(Image([], [a], [], []), [2, 0], 0, 0) == Image([2, 0], [a], [0, 0], [0, 0])
    ensures Append(Image([2, 0], [a], [0, 0], [0, 0]), [1], 1, 0) == Image([2, 0, 1], [a], [0, 0, 1], [0, 0, 0])
    ensures Append(Image([2, 0, 1], [a], [0, 0, 1], [0, 0, 0]), [0], 2, 0) ==
      Image([2, 0, 1, 0], [a], [0, 0, 1, 2], [0, 0, 0, 0])
  {
  }

  lemma ExampleRuns(a: Value)
    ensures Runs(Example(a), 0) && Run(Example(a), []) == Outcome(Ok, [a], [])
  {
    var p, q, r := Example(a), Example(a)[1..], Example(a)[2..];
    assert p[1..] == q && q[1..] == r;
    assert Runs(r, 0) && Runs(q, 1);
    assert [a][..0] == [] && Run(q, [a]) == Dumping(a, Run(r, [])) == Outcome(Ok, [a], []);
    assert [] + [a] == [a];
  }

  lemma ExampleListed(a: Value)
    ensures Rows(Example(a), 0, 0) == ExampleRows(a)
  {
    var q, r := Example(a)[1..], Example(a)[2..];
    assert q[1..] == r && r[1..] == [];
    assert Rows(r, 1, 3) == [Row(3, 2, 0, OP_RETURN, NoOperand)];
    assert Rows(q, 1, 2) == [Row(2, 1, 0, OP_DUMP, NoOperand)] + Rows(r, 1, 3);
    assert Rows(q, 1, 2) == ExampleRows(a)[1..];
  }
}
