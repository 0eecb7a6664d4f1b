/**
 The byte code of chunk.h: how instructions are written as bytes, what the machine of vm.c makes
 of any bytes, and what the disassembler of debug.c reads in them.
 */
module Bytecode {
  import opened Values
  import RunLengths

  newtype byte = b: int | 0 <= b < 256

  const OP_RETURN: byte := 0
  const OP_DUMP: byte := 1
  const OP_CONSTANT: byte := 2
  const OP_CONSTANT_LONG: byte := 3

  const MAX_CHUNK_CONSTANTS: nat := 16777216

  /** What one call that emits code means. UnknownOp is a byte that no instruction has. */
  datatype Op = Return | Dump | Constant(value: Value) | UnknownOp(code: byte)

  /** An operation, and the position in the source that it was emitted for. */
  datatype Instruction = Instruction(op: Op, line: nat, column: nat)

  predicate IsOp(op: Op) {
    op.UnknownOp? ==> op.code > OP_CONSTANT_LONG
  }

  /** The bytes of an operation in a chunk that holds `index` constants before it. */
  function Encode(op: Op, index: nat): (r: seq<byte>)
    ensures 1 <= |r| <= 4
  {
    match op
    case Return => [OP_RETURN]
    case Dump => [OP_DUMP]
    case UnknownOp(code) => [code]
    case Constant(_) =>
      if index <= 255 then [OP_CONSTANT, index as byte]
      else [OP_CONSTANT_LONG, (index % 256) as byte, (index / 256 % 256) as byte, (index / 65536 % 256) as byte]
  }

  function ConstantsOf(op: Op): seq<Value> {
    if op.Constant? then [op.value] else []
  }

  /** The constants that a program puts into its chunk. */
  function Constants(p: seq<Instruction>): seq<Value> {
    if p == [] then [] else ConstantsOf(p[0].op) + Constants(p[1..])
  }

  /** The code of a program whose chunk holds `base` constants before it. */
  function Code(p: seq<Instruction>, base: nat): seq<byte> {
    if p == [] then [] else Encode(p[0].op, base) + Code(p[1..], base + |ConstantsOf(p[0].op)|)
  }

  /** The line of every byte of the code. */
  function Lines(p: seq<Instruction>, base: nat): seq<nat>
  {
    if p == [] then []
    else RunLengths.Repeat(p[0].line, |Encode(p[0].op, base)|) + Lines(p[1..], base + |ConstantsOf(p[0].op)|)
  }

  /** The column of every byte of the code. */
  function Columns(p: seq<Instruction>, base: nat): seq<nat>
  {
    if p == [] then []
    else RunLengths.Repeat(p[0].column, |Encode(p[0].op, base)|) + Columns(p[1..], base + |ConstantsOf(p[0].op)|)
  }

  /** Emitting one more operation appends its constant and its bytes. */
  lemma {:induction false} EmitAppends(p: seq<Instruction>, i: Instruction, base: nat)
    ensures Constants(p + [i]) == Constants(p) + ConstantsOf(i.op)
    ensures Code(p + [i], base) == Code(p, base) + Encode(i.op, base + |Constants(p)|)
    decreases |p|
  {
    hide Encode;
    if p == [] {
      assert p + [i] == [i];
    } else {
      assert (p + [i])[1..] == p[1..] + [i];
      EmitAppends(p[1..], i, base + |ConstantsOf(p[0].op)|);
    }
  }

  /** It appends one position for each of the bytes. */
  lemma {:induction false} EmitAppendsLines(p: seq<Instruction>, i: Instruction, base: nat)
    ensures Lines(p + [i], base) == Lines(p, base) + RunLengths.Repeat(i.line, |Encode(i.op, base + |Constants(p)|)|)
    decreases |p|
  {
    hide Encode, RunLengths.Repeat, ConstantsOf;
    if p == [] {
      assert p + [i] == [i];
    } else {
      var next := base + |ConstantsOf(p[0].op)|;
      assert (p + [i])[0] == p[0] && (p + [i])[1..] == p[1..] + [i];
      assert base + |Constants(p)| == next + |Constants(p[1..])|;
      EmitAppendsLines(p[1..], i, next);
    }
  }

  lemma {:induction false} EmitAppendsColumns(p: seq<Instruction>, i: Instruction, base: nat)
    ensures Columns(p + [i], base) ==
      Columns(p, base) + RunLengths.Repeat(i.column, |Encode(i.op, base + |Constants(p)|)|)
    decreases |p|
  {
    hide Encode, RunLengths.Repeat, ConstantsOf;
    if p == [] {
      assert p + [i] == [i];
    } else {
      var next := base + |ConstantsOf(p[0].op)|;
      assert (p + [i])[0] == p[0] && (p + [i])[1..] == p[1..] + [i];
      assert base + |Constants(p)| == next + |Constants(p[1..])|;
      EmitAppendsColumns(p[1..], i, next);
    }
  }

  // The machine.

  /** Fault: the machine reads outside the code or the constants, or pops an empty stack. */
  datatype Result = Ok | RuntimeError | Fault

  /** How a run ends, the values that it dumped, and what it left on the stack. */
  datatype Outcome = Outcome(result: Result, dumped: seq<Value>, stack: seq<Value>)

  function Dumping(v: Value, o: Outcome): Outcome {
    o.(dumped := [v] + o.dumped)
  }

  function LongOperand(code: seq<byte>, ip: nat): nat
    requires ip + 3 <= |code|
  {
    code[ip] as nat + code[ip + 1] as nat * 256 + code[ip + 2] as nat * 65536
  }

  /** Running bytes. */
  function Execute(code: seq<byte>, constants: seq<Value>, ip: nat, stack: seq<Value>): Outcome
    decreases |code| - ip
  {
    if ip >= |code| then Outcome(Fault, [], stack)
    else if code[ip] == OP_RETURN then Outcome(Ok, [], stack)
    else if code[ip] == OP_DUMP then
      if stack == [] then Outcome(Fault, [], stack)
      else Dumping(stack[|stack| - 1], Execute(code, constants, ip + 1, stack[..|stack| - 1]))
    else if code[ip] == OP_CONSTANT then
      if ip + 2 > |code| || code[ip + 1] as nat >= |constants| then Outcome(Fault, [], stack)
      else Execute(code, constants, ip + 2, stack + [constants[code[ip + 1] as nat]])
    else if code[ip] == OP_CONSTANT_LONG then
      if ip + 4 > |code| || LongOperand(code, ip + 1) >= |constants| then Outcome(Fault, [], stack)
      else Execute(code, constants, ip + 4, stack + [constants[LongOperand(code, ip + 1)]])
    else Outcome(RuntimeError, [], stack)
  }

  /** Running operations, on a machine that knows neither bytes nor constant tables. */
  function Run(p: seq<Instruction>, stack: seq<Value>): Outcome {
    if p == [] then Outcome(Fault, [], stack)
    else match p[0].op
      case Return => Outcome(Ok, [], stack)
      case UnknownOp(_) => Outcome(RuntimeError, [], stack)
      case Constant(v) => Run(p[1..], stack + [v])
      case Dump =>
        if stack == [] then Outcome(Fault, [], stack)
        else Dumping(stack[|stack| - 1], Run(p[1..], stack[..|stack| - 1]))
  }

  /** With `depth` values on the stack, the program pops no more than there is, and it comes to an end. */
  predicate Runs(p: seq<Instruction>, depth: nat) {
    && p != []
    && match p[0].op
       case Return => true
       case UnknownOp(_) => true
       case Constant(_) => Runs(p[1..], depth + 1)
       case Dump => depth > 0 && Runs(p[1..], depth - 1)
  }

  /** Counting decides whether a run faults: the values do not matter. */
  lemma {:induction false} RunsIffNoFault(p: seq<Instruction>, stack: seq<Value>)
    ensures Run(p, stack).result.Fault? <==> !Runs(p, |stack|)
    decreases |p|
  {
    if p != [] {
      if p[0].op.Constant? {
        RunsIffNoFault(p[1..], stack + [p[0].op.value]);
      } else if p[0].op.Dump? && stack != [] {
        RunsIffNoFault(p[1..], stack[..|stack| - 1]);
      }
    }
  }

  lemma PushStep(p: seq<Instruction>, stack: seq<Value>)
    requires p != [] && p[0].op.Constant?
    ensures Run(p, stack) == Run(p[1..], stack + [p[0].op.value])
  {
  }

  /** Constants are pushed in their order, onto what is there. */
  lemma {:induction false} ConstantsPush(p: seq<Instruction>, rest: seq<Instruction>, stack: seq<Value>)
    requires forall i <- p :: i.op.Constant?
    ensures |Constants(p)| == |p| && forall k | 0 <= k < |p| :: Constants(p)[k] == p[k].op.value
    ensures Run(p + rest, stack) == Run(rest, stack + Constants(p))
    decreases |p|
  {
    hide Run;
    if p == [] {
      assert p + rest == rest && stack + [] == stack;
    } else {
      PushStep(p + rest, stack);
      assert (p + rest)[1..] == p[1..] + rest;
      ConstantsPush(p[1..], rest, stack + [p[0].op.value]);
      assert stack + [p[0].op.value] + Constants(p[1..]) == stack + Constants(p);
    }
  }

  /** The upper values of a stack, the last one first. */
  function FromTop(stack: seq<Value>, k: nat): (values: seq<Value>)
    requires k <= |stack|
    ensures |values| == k
  {
    seq(k, i requires 0 <= i < k => stack[|stack| - 1 - i])
  }

  lemma FromTopStep(stack: seq<Value>, k: nat)
    requires 0 < k <= |stack|
    ensures FromTop(stack, k) == [stack[|stack| - 1]] + FromTop(stack[..|stack| - 1], k - 1)
  {
  }

  lemma DumpStep(p: seq<Instruction>, stack: seq<Value>)
    requires p != [] && p[0].op.Dump? && stack != []
    ensures Run(p, stack) == Dumping(stack[|stack| - 1], Run(p[1..], stack[..|stack| - 1]))
  {
  }

  /** What has been pushed last is dumped first, and is gone then. */
  lemma {:induction false} DumpsPop(p: seq<Instruction>, rest: seq<Instruction>, stack: seq<Value>)
    requires |p| <= |stack| && forall i <- p :: i.op.Dump?
    ensures var o := Run(rest, stack[..|stack| - |p|]);
      Run(p + rest, stack) == o.(dumped := FromTop(stack, |p|) + o.dumped)
    decreases |p|
  {
    hide FromTop, Run;
    var n := |stack|;
    if p == [] {
      assert p + rest == rest && stack[..n] == stack && FromTop(stack, 0) == [];
    } else {
      var below := stack[..n - 1];
      DumpStep(p + rest, stack);
      assert (p + rest)[1..] == p[1..] + rest;
      assert below[..n - |p|] == stack[..n - |p|];
      DumpsPop(p[1..], rest, below);
      FromTopStep(stack, |p|);
      var o := Run(rest, stack[..n - |p|]);
      assert FromTop(stack, |p|) + o.dumped == [stack[n - 1]] + (FromTop(below, |p| - 1) + o.dumped);
    }
  }

  predicate IsProgram(p: seq<Instruction>) {
    forall i <- p :: IsOp(i.op)
  }

  /** Decoding the operand of a constant gives back the index that was encoded. */
  lemma OperandInverts(index: nat)
    requires 255 < index < 16777216
    ensures index % 256 + (index / 256 % 256) * 256 + (index / 65536 % 256) * 65536 == index
  {
  }

  /** The bytes themselves: the codes of chunk.h, and an operand of one byte or of three, the low one first. */
  lemma EncodedBytes(op: Op, index: nat)
    requires index < 16777216
    ensures var bytes := Encode(op, index);
      match op
      case Return => bytes == [0]
      case Dump => bytes == [1]
      case UnknownOp(code) => bytes == [code] && (IsOp(op) <==> code > 3)
      case Constant(_) =>
        if index < 256 then bytes == [2, index as byte]
        else
          && |bytes| == 4 && bytes[0] == 3
          && bytes[1] as nat + 256 * bytes[2] as nat + 65536 * bytes[3] as nat == index
  {
    if op.Constant? && index > 255 {
      OperandInverts(index);
    }
  }

  /** The bytes of the instruction at ip are those of the operation. */
  predicate EncodedAt(code: seq<byte>, ip: nat, op: Op, index: nat) {
    ip + |Encode(op, index)| <= |code| && code[ip..ip + |Encode(op, index)|] == Encode(op, index)
  }

  lemma OperandDecodes(code: seq<byte>, ip: nat, v: Value, index: nat)
    requires index < MAX_CHUNK_CONSTANTS && EncodedAt(code, ip, Constant(v), index)
    ensures index <= 255 ==> code[ip] == OP_CONSTANT && code[ip + 1] as nat == index
    ensures index > 255 ==> code[ip] == OP_CONSTANT_LONG && LongOperand(code, ip + 1) == index
  {
    var bytes := Encode(Constant(v), index);
    forall k | 0 <= k < |bytes|
      ensures code[ip + k] == bytes[k]
    {
      assert code[ip + k] == code[ip..ip + |bytes|][k];
    }
    if index > 255 {
      OperandInverts(index);
    }
  }

  /** The machine pushes the constant that an encoded operation names. */
  lemma ConstantStep(code: seq<byte>, constants: seq<Value>, ip: nat, v: Value, index: nat, stack: seq<Value>)
    requires index < MAX_CHUNK_CONSTANTS && EncodedAt(code, ip, Constant(v), index)
    requires index < |constants| && constants[index] == v
    ensures Execute(code, constants, ip, stack) ==
      Execute(code, constants, ip + |Encode(Constant(v), index)|, stack + [v])
  {
    OperandDecodes(code, ip, v, index);
  }

  lemma PlainStep(code: seq<byte>, constants: seq<Value>, ip: nat, op: Op, index: nat, stack: seq<Value>)
    requires IsOp(op) && !op.Constant? && EncodedAt(code, ip, op, index)
    ensures |Encode(op, index)| == 1
    ensures op.Return? ==> Execute(code, constants, ip, stack) == Outcome(Ok, [], stack)
    ensures op.UnknownOp? ==> Execute(code, constants, ip, stack) == Outcome(RuntimeError, [], stack)
    ensures op.Dump? && stack == [] ==> Execute(code, constants, ip, stack) == Outcome(Fault, [], stack)
    ensures op.Dump? && stack != [] ==>
      (Execute(code, constants, ip, stack) ==
       Dumping(stack[|stack| - 1], Execute(code, constants, ip + 1, stack[..|stack| - 1])))
  {
  }

  /** A suffix of the code that is the code of a program begins with its first operation. */
  lemma FirstEncoded(code: seq<byte>, ip: nat, p: seq<Instruction>, base: nat)
    requires p != [] && ip <= |code| && code[ip..] == Code(p, base)
    ensures EncodedAt(code, ip, p[0].op, base)
    ensures var next := ip + |Encode(p[0].op, base)|;
      code[next..] == Code(p[1..], base + |ConstantsOf(p[0].op)|)
  {
  }

  /**
   Running the bytes is running the operations, from any point of a program on, with every outcome:
   dumped values, stack, errors and faults.
   */
  lemma {:induction false} ExecuteRefinesRun(
    code: seq<byte>, constants: seq<Value>, ip: nat, p: seq<Instruction>, base: nat, stack: seq<Value>)
    requires IsProgram(p) && base + |Constants(p)| <= MAX_CHUNK_CONSTANTS
    requires ip <= |code| && code[ip..] == Code(p, base)
    requires base <= |constants| && constants[base..] == Constants(p)
    ensures Execute(code, constants, ip, stack) == Run(p, stack)
    decreases |p|, 1
  {
    hide Execute, Encode;
    if p == [] {
      RunsOut(code, constants, stack);
    } else if p[0].op.Constant? {
      var op, next := p[0].op, ip + |Encode(p[0].op, base)|;
      FirstEncoded(code, ip, p, base);
      assert constants[base] == constants[base..][0] && constants[base + 1..] == constants[base..][1..];
      ConstantStep(code, constants, ip, op.value, base, stack);
      ExecuteRefinesRun(code, constants, next, p[1..], base + 1, stack + [op.value]);
    } else {
      PlainRefinesRun(code, constants, ip, p, base, stack);
    }
  }

  lemma {:induction false} PlainRefinesRun(
    code: seq<byte>, constants: seq<Value>, ip: nat, p: seq<Instruction>, base: nat, stack: seq<Value>)
    requires IsProgram(p) && p != [] && !p[0].op.Constant? && base + |Constants(p)| <= MAX_CHUNK_CONSTANTS
    requires ip <= |code| && code[ip..] == Code(p, base)
    requires base <= |constants| && constants[base..] == Constants(p)
    ensures Execute(code, constants, ip, stack) == Run(p, stack)
    decreases |p|, 0
  {
    hide Execute, Encode;
    FirstEncoded(code, ip, p, base);
    PlainStep(code, constants, ip, p[0].op, base, stack);
    if p[0].op.Dump? && stack != [] {
      ExecuteRefinesRun(code, constants, ip + 1, p[1..], base, stack[..|stack| - 1]);
    }
  }

  lemma RunsOut(code: seq<byte>, constants: seq<Value>, stack: seq<Value>)
    ensures Execute(code, constants, |code|, stack) == Outcome(Fault, [], stack)
  {
  }

  /** A whole program, run from its first byte. */
  lemma EmittedCodeRuns(p: seq<Instruction>, stack: seq<Value>)
    requires IsProgram(p) && |Constants(p)| <= MAX_CHUNK_CONSTANTS
    ensures Execute(Code(p, 0), Constants(p), 0, stack) == Run(p, stack)
  {
    assert Code(p, 0)[0..] == Code(p, 0) && Constants(p)[0..] == Constants(p);
    ExecuteRefinesRun(Code(p, 0), Constants(p), 0, p, 0, stack);
  }

  // The disassembler.

  datatype Operand = NoOperand | Operand(index: nat, value: Value)

  /** One row of a listing. */
  datatype Row = Row(offset: nat, line: nat, column: nat, code: byte, operand: Operand)

  /** A chunk as the disassembler sees it. */
  datatype Image = Image(code: seq<byte>, constants: seq<Value>, lines: seq<nat>, columns: seq<nat>)

  /** The image with more bytes, all from one position of the source. */
  function Append(m: Image, bytes: seq<byte>, line: nat, column: nat): Image {
    var lines, columns := RunLengths.Repeat(line, |bytes|), RunLengths.Repeat(column, |bytes|);
    Image(m.code + bytes, m.constants, m.lines + lines, m.columns + columns)
  }

  lemma AppendAppends(m: Image, a: seq<byte>, b: seq<byte>, line: nat, column: nat)
    ensures Append(Append(m, a, line, column), b, line, column) == Append(m, a + b, line, column)
  {
  }

  /** The image of the chunk that a program emits. */
  function ImageOf(p: seq<Instruction>): Image {
    Image(Code(p, 0), Constants(p), Lines(p, 0), Columns(p, 0))
  }

  /** One more operation appends its constant, and its bytes at its position. */
  lemma ImageAppends(p: seq<Instruction>, i: Instruction)
    ensures var m := ImageOf(p);
      (ImageOf(p + [i]) ==
       Append(m.(constants := m.constants + ConstantsOf(i.op)), Encode(i.op, |m.constants|), i.line, i.column))
  {
    EmitAppends(p, i, 0);
    EmitAppendsLines(p, i, 0);
    EmitAppendsColumns(p, i, 0);
    hide Code, Lines, Columns, Constants, Encode, RunLengths.Repeat;
  }

  /** Reading the instruction at an offset stays within the chunk. */
  predicate Readable(m: Image, offset: nat)
  {
    && offset < |m.code| && offset < |m.columns|
    && (m.code[offset] == OP_CONSTANT ==> offset + 2 <= |m.code| && m.code[offset + 1] as nat < |m.constants|)
    && (m.code[offset] == OP_CONSTANT_LONG ==>
          offset + 4 <= |m.code| && LongOperand(m.code, offset + 1) < |m.constants|)
  }

  function OperandAt(m: Image, offset: nat): Operand
    requires Readable(m, offset)
  {
    if m.code[offset] == OP_CONSTANT then
      var index := m.code[offset + 1] as nat;
      Operand(index, m.constants[index])
    else if m.code[offset] == OP_CONSTANT_LONG then
      var index := LongOperand(m.code, offset + 1);
      Operand(index, m.constants[index])
    else NoOperand
  }

  function NextOffset(m: Image, offset: nat): (next: nat)
    requires Readable(m, offset)
    ensures offset < next <= |m.code|
  {
    offset + if m.code[offset] == OP_CONSTANT then 2 else if m.code[offset] == OP_CONSTANT_LONG then 4 else 1
  }

  function RowAt(m: Image, offset: nat): Row
    requires Readable(m, offset)
  {
    var line := if offset < |m.lines| then m.lines[offset] else 0;
    Row(offset, line, m.columns[offset], m.code[offset], OperandAt(m, offset))
  }

  /** Reading on from an offset, instruction after instruction, stays within the chunk. */
  predicate Listable(m: Image, offset: nat)
    decreases |m.code| - offset
  {
    offset >= |m.code| || (Readable(m, offset) && Listable(m, NextOffset(m, offset)))
  }

  /** The rows from an offset on. */
  function Listing(m: Image, offset: nat): seq<Row>
    requires Listable(m, offset)
    decreases |m.code| - offset
  {
    if offset >= |m.code| then [] else [RowAt(m, offset)] + Listing(m, NextOffset(m, offset))
  }

  /** What the listing of a program should be: a row for each operation, where and as it was emitted. */
  function Rows(p: seq<Instruction>, base: nat, offset: nat): seq<Row> {
    if p == [] then []
    else
      var i, bytes := p[0], Encode(p[0].op, base);
      var operand := if i.op.Constant? then Operand(base, i.op.value) else NoOperand;
      [Row(offset, i.line, i.column, bytes[0], operand)]
      + Rows(p[1..], base + |ConstantsOf(i.op)|, offset + |bytes|)
  }

  /** The chunk of a program, seen from one of its instructions on. */
  predicate Shows(m: Image, offset: nat, p: seq<Instruction>, base: nat) {
    && offset <= |m.code| == |m.lines| == |m.columns| && m.code[offset..] == Code(p, base)
    && m.lines[offset..] == Lines(p, base) && m.columns[offset..] == Columns(p, base)
    && base <= |m.constants| && m.constants[base..] == Constants(p)
  }

  /** The disassembler reads the first operation as it was emitted, and steps over exactly its bytes. */
  lemma FirstRow(m: Image, offset: nat, p: seq<Instruction>, base: nat)
    requires IsProgram(p) && p != [] && base + |Constants(p)| <= MAX_CHUNK_CONSTANTS && Shows(m, offset, p, base)
    ensures Readable(m, offset) && RowAt(m, offset) == Rows(p, base, offset)[0]
    ensures NextOffset(m, offset) == offset + |Encode(p[0].op, base)|
  {
    hide Shows, OperandAt, RowAt, Readable, NextOffset, Encode, EncodedAt;
    FirstBytes(m, offset, p, base);
    if p[0].op.Constant? {
      ConstantRow(m, offset, p, base);
    } else {
      PlainRow(m, offset, p, base);
    }
  }

  /** The first operation is at the offset, with its position. */
  lemma FirstBytes(m: Image, offset: nat, p: seq<Instruction>, base: nat)
    requires p != [] && Shows(m, offset, p, base)
    ensures offset < |m.code| == |m.lines| == |m.columns| && EncodedAt(m.code, offset, p[0].op, base)
    ensures m.code[offset] == Encode(p[0].op, base)[0]
    ensures m.lines[offset] == p[0].line && m.columns[offset] == p[0].column
    ensures p[0].op.Constant? ==> base < |m.constants| && m.constants[base] == p[0].op.value
  {
    var bytes := Encode(p[0].op, base);
    FirstEncoded(m.code, offset, p, base);
    assert m.code[offset] == m.code[offset..offset + |bytes|][0];
    assert m.lines[offset] == m.lines[offset..][0] && m.columns[offset] == m.columns[offset..][0];
    if p[0].op.Constant? {
      assert m.constants[base] == m.constants[base..][0];
    }
  }

  lemma ConstantRow(m: Image, offset: nat, p: seq<Instruction>, base: nat)
    requires p != [] && p[0].op.Constant? && base < MAX_CHUNK_CONSTANTS
    requires offset < |m.code| == |m.lines| == |m.columns| && EncodedAt(m.code, offset, p[0].op, base)
    requires m.lines[offset] == p[0].line && m.columns[offset] == p[0].column
    requires m.code[offset] == Encode(p[0].op, base)[0]
    requires base < |m.constants| && m.constants[base] == p[0].op.value
    ensures Readable(m, offset) && RowAt(m, offset) == Rows(p, base, offset)[0]
    ensures NextOffset(m, offset) == offset + |Encode(p[0].op, base)|
  {
    OperandDecodes(m.code, offset, p[0].op.value, base);
  }

  lemma PlainRow(m: Image, offset: nat, p: seq<Instruction>, base: nat)
    requires p != [] && !p[0].op.Constant? && IsOp(p[0].op)
    requires offset < |m.code| == |m.lines| == |m.columns|
    requires m.lines[offset] == p[0].line && m.columns[offset] == p[0].column
    requires m.code[offset] == Encode(p[0].op, base)[0]
    ensures Readable(m, offset) && RowAt(m, offset) == Rows(p, base, offset)[0]
    ensures NextOffset(m, offset) == offset + |Encode(p[0].op, base)|
  {
  }

  lemma ShowsRest(m: Image, offset: nat, p: seq<Instruction>, base: nat)
    requires p != [] && Shows(m, offset, p, base)
    ensures Shows(m, offset + |Encode(p[0].op, base)|, p[1..], base + |ConstantsOf(p[0].op)|)
  {
  }

  lemma NothingShown(m: Image, offset: nat, base: nat)
    requires Shows(m, offset, [], base)
    ensures Listable(m, offset) && Listing(m, offset) == []
  {
  }

  /** The listing has exactly one row for each emitted operation. */
  lemma {:induction false} ListingShowsProgram(m: Image, offset: nat, p: seq<Instruction>, base: nat)
    requires IsProgram(p) && base + |Constants(p)| <= MAX_CHUNK_CONSTANTS && Shows(m, offset, p, base)
    ensures Listable(m, offset) && Listing(m, offset) == Rows(p, base, offset)
    decreases |p|
  {
    hide Readable, RowAt, NextOffset, Encode, Shows;
    if p == [] {
      NothingShown(m, offset, base);
    } else {
      FirstRow(m, offset, p, base);
      ShowsRest(m, offset, p, base);
      ListingShowsProgram(m, offset + |Encode(p[0].op, base)|, p[1..], base + |ConstantsOf(p[0].op)|);
    }
  }

  /** The offsets at which the machine reads an instruction, and which its trace shows. */
  function Visited(code: seq<byte>, constants: seq<Value>, ip: nat, stack: seq<Value>): seq<nat>
    decreases |code| - ip
  {
    if ip >= |code| then []
    else if code[ip] == OP_DUMP && stack != [] then
      [ip] + Visited(code, constants, ip + 1, stack[..|stack| - 1])
    else if code[ip] == OP_CONSTANT && ip + 2 <= |code| && code[ip + 1] as nat < |constants| then
      [ip] + Visited(code, constants, ip + 2, stack + [constants[code[ip + 1] as nat]])
    else if code[ip] == OP_CONSTANT_LONG && ip + 4 <= |code| && LongOperand(code, ip + 1) < |constants| then
      [ip] + Visited(code, constants, ip + 4, stack + [constants[LongOperand(code, ip + 1)]])
    else [ip]
  }

  // One turn of the machine, on code that does not fault.

  lemma LastTurn(code: seq<byte>, constants: seq<Value>, ip: nat, stack: seq<Value>)
    requires !Execute(code, constants, ip, stack).result.Fault?
    ensures ip < |code|
    ensures code[ip] !in {OP_DUMP, OP_CONSTANT, OP_CONSTANT_LONG} ==>
      && Execute(code, constants, ip, stack) == Outcome(if code[ip] == OP_RETURN then Ok else RuntimeError, [], stack)
      && Visited(code, constants, ip, stack) == [ip]
  {
  }

  lemma DumpTurn(code: seq<byte>, constants: seq<Value>, ip: nat, stack: seq<Value>)
    requires !Execute(code, constants, ip, stack).result.Fault? && ip < |code| && code[ip] == OP_DUMP
    ensures stack != []
    ensures var top, rest := stack[|stack| - 1], stack[..|stack| - 1];
      && Execute(code, constants, ip, stack) == Dumping(top, Execute(code, constants, ip + 1, rest))
      && Visited(code, constants, ip, stack) == [ip] + Visited(code, constants, ip + 1, rest)
  {
  }

  /** Pushing the constant of the given index leads from one instruction to the next. */
  predicate Pushes(
    code: seq<byte>, constants: seq<Value>, ip: nat, stack: seq<Value>, index: nat, next: nat)
  {
    && ip < next <= |code| && index < |constants|
    && Execute(code, constants, ip, stack) == Execute(code, constants, next, stack + [constants[index]])
    && Visited(code, constants, ip, stack) == [ip] + Visited(code, constants, next, stack + [constants[index]])
  }

  lemma ShortTurn(code: seq<byte>, constants: seq<Value>, ip: nat, stack: seq<Value>)
    requires !Execute(code, constants, ip, stack).result.Fault? && ip < |code| && code[ip] == OP_CONSTANT
    ensures ip + 2 <= |code| && Pushes(code, constants, ip, stack, code[ip + 1] as nat, ip + 2)
  {
  }

  lemma LongTurn(code: seq<byte>, constants: seq<Value>, ip: nat, stack: seq<Value>)
    requires !Execute(code, constants, ip, stack).result.Fault? && ip < |code| && code[ip] == OP_CONSTANT_LONG
    ensures ip + 4 <= |code| && Pushes(code, constants, ip, stack, LongOperand(code, ip + 1), ip + 4)
  {
  }

  /** The offsets are those of the first rows, one after the other. */
  predicate AreFirst(visited: seq<nat>, rows: seq<Row>) {
    |visited| <= |rows| && forall k | 0 <= k < |visited| :: rows[k].offset == visited[k]
  }

  /** On any code, however it was written, the machine stops nowhere but at rows of the listing, in order. */
  lemma {:induction false} VisitsAreListed(m: Image, ip: nat, stack: seq<Value>)
    requires Listable(m, ip)
    ensures AreFirst(Visited(m.code, m.constants, ip, stack), Listing(m, ip))
    decreases |m.code| - ip
  {
    if ip < |m.code| {
      var next := NextOffset(m, ip);
      if m.code[ip] == OP_DUMP && stack != [] {
        VisitsAreListed(m, next, stack[..|stack| - 1]);
      } else if m.code[ip] == OP_CONSTANT || m.code[ip] == OP_CONSTANT_LONG {
        VisitsAreListed(m, next, stack + [OperandAt(m, ip).value]);
      }
    }
  }
}
