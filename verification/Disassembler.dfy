/** The disassembler (debug.c), which returns the rows that the original prints. */
module Disassembly {
  import opened Bytecode
  import opened Chunks

  // The operand decoders; each returns the operand and the offset of the next instruction.

  method ConstantInstruction(c: Chunk, offset: nat) returns (operand: Operand, next: nat)
    requires c.Valid() && Readable(c.Image(), offset) && c.Image().code[offset] == OP_CONSTANT
    ensures operand == OperandAt(c.Image(), offset) && next == NextOffset(c.Image(), offset)
  {
    var index := c.code.data[offset + 1] as nat;
    operand, next := Operand(index, c.constants.data[index]), offset + 2;
  }

  method ConstantLongInstruction(c: Chunk, offset: nat) returns (operand: Operand, next: nat)
    requires c.Valid() && Readable(c.Image(), offset) && c.Image().code[offset] == OP_CONSTANT_LONG
    ensures operand == OperandAt(c.Image(), offset) && next == NextOffset(c.Image(), offset)
  {
    var data := c.code.data;
    var index := data[offset + 1] as nat + data[offset + 2] as nat * 256 + data[offset + 3] as nat * 65536;
    operand, next := Operand(index, c.constants.data[index]), offset + 4;
  }

  method DisassembleInstruction(c: Chunk, offset: nat) returns (row: Row, next: nat)
    requires c.Valid() && Readable(c.Image(), offset)
    ensures row == RowAt(c.Image(), offset) && next == NextOffset(c.Image(), offset)
  {
    var line := c.debugInfo.ReadLine(offset);
    var column := c.debugInfo.ReadColumn(offset);
    var code := c.code.data[offset];
    var operand := NoOperand;
    if code == OP_CONSTANT {
      operand, next := ConstantInstruction(c, offset);
    } else if code == OP_CONSTANT_LONG {
      operand, next := ConstantLongInstruction(c, offset);
    } else {
      next := offset + 1;
    }
    row := Row(offset, line, column, code, operand);
  }

  /** Lists a chunk; one that holds the code of a program is listed operation by operation. */
  method DisassembleChunk(c: Chunk) returns (rows: seq<Row>)
    requires c.Valid() && Listable(c.Image(), 0)
    ensures rows == Listing(c.Image(), 0)
    ensures forall p | IsProgram(p) && |Constants(p)| <= MAX_CHUNK_CONSTANTS && c.Image() == ImageOf(p) ::
      rows == Rows(p, 0, 0)
  {
    hide Readable, RowAt, NextOffset, Rows, Shows, ImageOf, Constants, Listing, Listable;
    ghost var m := c.Image();
    rows := [];
    var offset := 0;
    while offset < c.code.count
      invariant Listable(m, offset) && rows + Listing(m, offset) == Listing(m, 0)
      decreases |m.code| - offset
    {
      ListingStep(m, offset);
      var row, next := DisassembleInstruction(c, offset);
      rows, offset := rows + [row], next;
    }
    ListingEnds(m, offset);
    forall p | IsProgram(p) && |Constants(p)| <= MAX_CHUNK_CONSTANTS && m == ImageOf(p)
      ensures rows == Rows(p, 0, 0)
    {
      ProgramIsShown(m, p);
      ListingShowsProgram(m, 0, p, 0);
    }
  }

  lemma ListingStep(m: Image, offset: nat)
    requires Listable(m, offset) && offset < |m.code|
    ensures Readable(m, offset) && Listable(m, NextOffset(m, offset))
    ensures Listing(m, offset) == [RowAt(m, offset)] + Listing(m, NextOffset(m, offset))
  {
  }

  lemma ListingEnds(m: Image, offset: nat)
    requires offset >= |m.code|
    ensures Listable(m, offset) && Listing(m, offset) == []
  {
  }

  lemma ProgramIsShown(m: Image, p: seq<Instruction>)
    requires m == ImageOf(p)
    ensures Shows(m, 0, p, 0)
  {
    PositionsCoverCode(p, 0);
    assert m.code[0..] == m.code && m.lines[0..] == m.lines && m.columns[0..] == m.columns;
    assert m.constants[0..] == m.constants;
  }

  /** Every byte of a program has a line and a column. */
  lemma {:induction false} PositionsCoverCode(p: seq<Instruction>, base: nat)
    ensures |Lines(p, base)| == |Columns(p, base)| == |Code(p, base)|
    decreases |p|
  {
    if p != [] {
      PositionsCoverCode(p[1..], base + |ConstantsOf(p[0].op)|);
    }
  }
}
