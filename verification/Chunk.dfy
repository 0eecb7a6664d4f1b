/** A chunk of byte code with its constants and the positions of its bytes (chunk.c). */
module Chunks {
  import opened Values
  import opened Buffers
  import opened DebugInfos
  import opened Bytecode
  import RunLengths

  lemma NothingEmitted()
    ensures ImageOf([]) == Image([], [], [], [])
  {
  }

  function WithConstant(m: Image, constant: Value): Image {
    m.(constants := m.constants + [constant])
  }

  /** The byte is the whole code of an operation. */
  predicate EncodesAs(op: Op, b: byte) {
    !op.Constant? && Encode(op, 0) == [b]
  }

  /** Writing the byte of an operation emits the operation. */
  lemma ByteEmits(p: seq<Instruction>, op: Op, b: byte, line: nat, column: nat)
    requires EncodesAs(op, b)
    ensures ImageOf(p + [Instruction(op, line, column)]) == Append(ImageOf(p), [b], line, column)
  {
    ImageAppends(p, Instruction(op, line, column));
    hide ImageOf, Append;
    var m := ImageOf(p);
    assert m.(constants := m.constants + []) == m && Encode(op, |m.constants|) == [b];
  }

  /** Writing a constant emits the constant operation. */
  lemma ConstantEmits(p: seq<Instruction>, constant: Value, line: nat, column: nat)
    ensures var m := ImageOf(p);
      (ImageOf(p + [Instruction(Constant(constant), line, column)]) ==
       Append(WithConstant(m, constant), Encode(Constant(constant), |m.constants|), line, column))
  {
    ImageAppends(p, Instruction(Constant(constant), line, column));
  }

  /** The tables of positions can hold as much: so many columns, and so many runs of lines. */
  predicate Holds(m: Image) {
    |m.columns| <= MAX_COLUMNS && |RunLengths.Encode(m.lines)| <= RunLengths.MAX_LINE_RUNS
  }

  lemma NothingAppended(m: Image, line: nat, column: nat)
    ensures Append(m, [], line, column) == m
  {
  }

  lemma ByteAppended(m: Image, b: byte, line: nat, column: nat)
    ensures Append(m, [b], line, column) ==
      Bytecode.Image(m.code + [b], m.constants, m.lines + [line], m.columns + [column])
    ensures Holds(Append(m, [b], line, column)) <==>
      |m.columns| < MAX_COLUMNS && |RunLengths.Encode(m.lines + [line])| <= RunLengths.MAX_LINE_RUNS
  {
    assert RunLengths.Repeat(line, 1) == [line] && RunLengths.Repeat(column, 1) == [column];
  }

  /** What is held with more code is held without it. */
  lemma HoldsLess(m: Image, bytes: seq<byte>, line: nat, column: nat)
    requires Holds(Append(m, bytes, line, column))
    ensures Holds(m)
  {
    if bytes != [] {
      RunLengths.EncodeRepeated(m.lines, line, |bytes|);
    } else {
      assert m.lines + RunLengths.Repeat(line, 0) == m.lines;
    }
  }

  /** How an emission call ends; in two of the cases, the program ends with it. */
  datatype Written = Done | TooManyConstants | NullStore

  class Chunk {
    const code: Buffer<byte>
    const constants: Buffer<Value>
    const debugInfo: DebugInfo

    ghost var repr: set<object>

    /** The parts share no memory, and every byte has a position. */
    ghost predicate Valid()
      reads this, repr
    {
      && {code, constants, debugInfo, debugInfo.columns} <= repr
      && repr == Parts() && Separate()
      && code.Valid() && constants.Valid() && debugInfo.Valid()
      && code.unit == SIZE_OF_BYTE && constants.unit == SIZE_OF_VALUE
      && code.count == |debugInfo.Lines()| == debugInfo.columns.count
    }

    ghost function Parts(): set<object>
      reads this, code, constants, debugInfo, debugInfo.columns
    {
      {this, code, code.data, constants, constants.data}
      + {debugInfo, debugInfo.lines, debugInfo.columns, debugInfo.columns.data}
    }

    ghost predicate Separate()
      reads code, constants, debugInfo, debugInfo.columns
    {
      var bytes: object, values: object, lines: object, columns: object :=
        code.data, constants.data, debugInfo.lines, debugInfo.columns.data;
      && code as object != constants && code as object != debugInfo.columns
      && constants as object != debugInfo.columns
      && bytes != values && bytes != lines && bytes != columns
      && values != lines && values != columns && lines != columns
    }

    /** The contents, as the disassembler sees them. */
    ghost function Image(): Image
      requires Valid()
      reads this, repr
    {
      Bytecode.Image(code.Contents(), constants.Contents(), debugInfo.Lines(), debugInfo.Columns())
    }

    constructor ()
      ensures fresh(repr)
      ensures Valid() && Image() == ImageOf([])
    {
      hide RunLengths.Expand, RunsOf, RunLengths.LineCapacity, IsDoubling, Max, ImageOf;
      hide Buffer.Valid, Buffer.Contents, DebugInfo.Runs, DebugInfo.Lines, DebugInfo.Columns;
      code := new Buffer<byte>(SIZE_OF_BYTE);
      constants := new Buffer<Value>(SIZE_OF_VALUE);
      debugInfo := new DebugInfo();
      new;
      NothingEmitted();
      ghost var buffers: set<object> := {this, code, code.data, constants, constants.data};
      ghost var positions: set<object> := {debugInfo, debugInfo.lines, debugInfo.columns, debugInfo.columns.data};
      repr := buffers + positions;
      assert fresh(buffers) && fresh(positions);
      assert fresh(repr);
    }

    /** Writes a byte with its position, if the tables can hold it; otherwise the program stops. */
    method WriteByte(b: byte, line: nat, column: nat) returns (ok: bool)
      requires Valid()
      modifies repr
      ensures ok <==> Holds(Append(old(Image()), [b], line, column))
      ensures ok ==> Valid() && fresh(repr - old(repr))
      ensures ok ==> Image() == Append(old(Image()), [b], line, column)
    {
      hide RunLengths.Expand, RunLengths.Encode, RunLengths.AddLine, RunsOf, RunLengths.LineCapacity, Append, Holds;
      hide Buffer.Valid, Buffer.Contents, DebugInfo.Runs, DebugInfo.Lines, DebugInfo.Columns;
      ByteAppended(Image(), b, line, column);
      ok := code.Add(b);
      if ok {
        ok := debugInfo.Add(line, column);
        repr := Parts();
      }
    }

    method AddConstant(constant: Value) returns (ok: bool, index: nat)
      requires Valid()
      modifies repr
      ensures ok <==> |old(Image()).constants| < MaxCount(SIZE_OF_VALUE)
      ensures ok ==> Valid() && fresh(repr - old(repr)) && index == |old(Image()).constants|
      ensures ok ==> Image() == WithConstant(old(Image()), constant)
    {
      hide DebugInfo.Valid, DebugInfo.Runs, DebugInfo.Lines, DebugInfo.Columns, Buffer.Valid, Buffer.Contents;
      index := constants.count;
      ok := constants.Add(constant);
      repr := Parts();
    }

    /** Writes byte k of an instruction, after the bytes before it. */
    method WriteNext(ghost m: Image, ghost bytes: seq<byte>, ghost k: nat, b: byte, line: nat, column: nat)
      returns (ok: bool)
      requires Valid() && k < |bytes| && b == bytes[k] && Image() == Append(m, bytes[..k], line, column)
      modifies repr
      ensures ok ==> Valid() && fresh(repr - old(repr)) && Image() == Append(m, bytes[..k + 1], line, column)
      ensures if ok then Holds(Image()) else !Holds(Append(m, bytes, line, column))
    {
      hide Valid, Image, Append, Holds;
      assert bytes[..k] + [b] == bytes[..k + 1] && bytes[..k + 1] + bytes[k + 1..] == bytes;
      AppendAppends(m, bytes[..k], [b], line, column);
      if Holds(Append(m, bytes, line, column)) {
        AppendAppends(m, bytes[..k + 1], bytes[k + 1..], line, column);
        HoldsLess(Append(m, bytes[..k + 1], line, column), bytes[k + 1..], line, column);
      }
      ok := WriteByte(b, line, column);
    }

    /**
     Emits a constant. The program stops when there are too many: then the constant has been added,
     but no code has been written. It also stops when a table cannot hold what is written.
     */
    method WriteOpConstant(constant: Value, line: nat, column: nat) returns (result: Written)
      requires Valid()
      modifies repr
      ensures !result.NullStore? ==> Valid() && fresh(repr - old(repr))
      ensures var m := old(Image());
        var written := Append(WithConstant(m, constant), Encode(Constant(constant), |m.constants|), line, column);
        && (result.Done? <==> |m.constants| < MAX_CHUNK_CONSTANTS && Holds(written))
        && (result.TooManyConstants? <==> MAX_CHUNK_CONSTANTS <= |m.constants| < MaxCount(SIZE_OF_VALUE))
        && (result.Done? ==> Image() == written)
        && (result.TooManyConstants? ==> Image() == WithConstant(m, constant))
    {
      hide Valid, Image, Append, Parts, Holds;
      var ok, index := AddConstant(constant);
      if !ok {
        return NullStore;
      }
      ghost var m := Image();
      if index >= MAX_CHUNK_CONSTANTS {
        return TooManyConstants;
      }
      ghost var bytes := Encode(Constant(constant), index);
      NothingAppended(m, line, column);
      assert bytes[..0] == [] && bytes[..|bytes|] == bytes;
      if index <= 255 {
        ok := WriteNext(m, bytes, 0, OP_CONSTANT, line, column);
        if ok {
          ok := WriteNext(m, bytes, 1, index as byte, line, column);
        }
        return if ok then Done else NullStore;
      }
      ok := WriteNext(m, bytes, 0, OP_CONSTANT_LONG, line, column);
      if ok {
        ok := WriteNext(m, bytes, 1, (index % 256) as byte, line, column);
      }
      if ok {
        ok := WriteNext(m, bytes, 2, (index / 256 % 256) as byte, line, column);
      }
      if ok {
        ok := WriteNext(m, bytes, 3, (index / 65536 % 256) as byte, line, column);
      }
      return if ok then Done else NullStore;
    }
  }
}
