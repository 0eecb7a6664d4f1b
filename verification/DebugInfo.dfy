/** Where each byte of code comes from: a run-length-encoded line table and plain columns (chunk.c). */
module DebugInfos {
  import opened Buffers
  import opened RunLengths

  /** The runs that the pairs of a line table hold. */
  function RunsOf(pairs: seq<nat>): seq<Run>
    requires |pairs| % 2 == 0
  {
    if pairs == [] then []
    else RunsOf(pairs[..|pairs| - 2]) + [Run(pairs[|pairs| - 2], pairs[|pairs| - 1])]
  }

  lemma {:induction false} RunsOfAt(pairs: seq<nat>, i: nat)
    requires |pairs| % 2 == 0 && 2 * i < |pairs|
    ensures |RunsOf(pairs)| == |pairs| / 2 && RunsOf(pairs)[i] == Run(pairs[2 * i], pairs[2 * i + 1])
    decreases |pairs|
  {
    if 2 * i < |pairs| - 2 {
      RunsOfAt(pairs[..|pairs| - 2], i);
    } else if |pairs| > 2 {
      RunsOfAt(pairs[..|pairs| - 2], 0);
    }
  }

  lemma {:induction false} RunsOfLength(pairs: seq<nat>)
    requires |pairs| % 2 == 0
    ensures |RunsOf(pairs)| == |pairs| / 2
    decreases |pairs|
  {
    if pairs != [] {
      RunsOfLength(pairs[..|pairs| - 2]);
    }
  }

  lemma BumpedPairs(pairs: seq<nat>, bumped: seq<nat>)
    requires |pairs| % 2 == 0 && pairs != [] && bumped == pairs[|pairs| - 1 := pairs[|pairs| - 1] + 1]
    ensures |RunsOf(bumped)| == |RunsOf(pairs)|
    ensures RunsOf(bumped) == RunLengths.AddLine(RunsOf(pairs), pairs[|pairs| - 2])
  {
  }

  lemma AppendedPairs(pairs: seq<nat>, line: nat)
    requires |pairs| % 2 == 0 && (pairs != [] ==> pairs[|pairs| - 2] != line)
    ensures |RunsOf(pairs + [line, 1])| == |RunsOf(pairs)| + 1
    ensures RunsOf(pairs + [line, 1]) == RunLengths.AddLine(RunsOf(pairs), line)
  {
  }

  /** How many columns there can be. */
  const MAX_COLUMNS: nat := 0x1000_0000_0000_0000

  class DebugInfo {
    var lines: array<nat>
    var linesCount: nat
    const columns: Buffer<nat>

    /** How many numbers of the line table reallocation has moved so far. */
    ghost var moved: nat

    /** The runs are the canonical encoding of the lines, in a buffer that doubles at every run. */
    ghost predicate Valid()
      reads this, lines, columns
    {
      && columns.Valid() && columns.unit == SIZE_OF_SIZE_T && lines != columns.data
      && linesCount % 2 == 0 && linesCount <= lines.Length == LineCapacity(linesCount / 2)
      && linesCount / 2 <= MAX_LINE_RUNS && moved == LineMoves(linesCount / 2)
      && Canonical(RunsOf(lines[..linesCount]))
    }

    ghost function Runs(): seq<Run>
      requires Valid()
      reads this, lines, columns
    {
      RunsOf(lines[..linesCount])
    }

    /** The line of every byte, in the order in which they were added. */
    ghost function Lines(): seq<nat>
      requires Valid()
      reads this, lines, columns
    {
      Expand(Runs())
    }

    ghost function Columns(): (positions: seq<nat>)
      requires Valid()
      reads this, lines, columns, columns.data
      ensures |positions| == columns.count
    {
      columns.Contents()
    }

    constructor ()
      ensures Valid() && fresh(lines) && fresh(columns) && fresh(columns.data)
      ensures Runs() == [] && Lines() == [] && Columns() == []
    {
      lines, linesCount, moved := new nat[0], 0, 0;
      columns := new Buffer<nat>(SIZE_OF_SIZE_T);
    }

    /** Doubles the line table, unless its size wraps around to 0. */
    method GrowLines() returns (ok: bool)
      requires linesCount <= lines.Length
      modifies `lines, `moved
      ensures ok <==> ByteSize(SIZE_OF_SIZE_T, GrowCapacity(old(lines.Length))) != 0
      ensures ok ==> fresh(lines) && lines.Length == GrowCapacity(old(lines.Length))
      ensures ok ==> linesCount <= lines.Length && lines[..linesCount] == old(lines[..linesCount])
      ensures ok ==> moved == old(moved) + linesCount
    {
      if ByteSize(SIZE_OF_SIZE_T, GrowCapacity(lines.Length)) == 0 {
        return false;
      }
      var grown := new nat[GrowCapacity(lines.Length)];
      forall i | 0 <= i < linesCount {
        grown[i] := lines[i];
      }
      lines, moved := grown, moved + linesCount;
      return true;
    }

    /**
     Adds a line to the table. A new run doubles the table, and the program stops when the size of the
     table wraps around to 0: there can be 58 runs.
     */
    method AddLine(line: nat) returns (ok: bool)
      requires Valid()
      modifies this, lines
      ensures ok <==> |RunLengths.AddLine(old(Runs()), line)| <= MAX_LINE_RUNS
      ensures ok <==> |Encode(old(Lines()) + [line])| <= MAX_LINE_RUNS
      ensures ok ==> Valid() && (lines == old(lines) || fresh(lines))
      ensures ok ==> Runs() == RunLengths.AddLine(old(Runs()), line)
      ensures ok ==> Lines() == old(Lines()) + [line]
    {
      hide Expand, LineCapacity, RunsOf, Canonical, RunLengths.AddLine, Encode, ByteSize, GrowCapacity, Buffer.Valid;
      ghost var pairs := lines[..linesCount];
      AddLineAppends(Runs(), line);
      CanonicalIsEncoded(Runs(), line);
      LineCapacityDoubles(linesCount / 2);
      LineSizeWraps(linesCount / 2 + 1);
      RunsOfLength(pairs);
      if lines.Length != 0 && lines[linesCount - 2] == line {
        lines[linesCount - 1] := lines[linesCount - 1] + 1;
        BumpedPairs(pairs, lines[..linesCount]);
        return true;
      }
      AppendedPairs(pairs, line);
      if lines.Length < lines.Length + 2 {
        ok := GrowLines();
        if !ok {
          return;
        }
      }
      lines[linesCount] := line;
      lines[linesCount + 1] := 1;
      linesCount := linesCount + 2;
      assert lines[..linesCount] == pairs + [line, 1];
      return true;
    }

    method AddColumn(column: nat) returns (ok: bool)
      requires Valid()
      modifies columns, columns.data
      ensures ok <==> |old(Columns())| < MAX_COLUMNS
      ensures ok ==> Valid() && (columns.data == old(columns.data) || fresh(columns.data))
      ensures ok ==> Columns() == old(Columns()) + [column]
    {
      ok := columns.Add(column);
    }

    /** Adds the position of one byte, if both tables can hold it; otherwise the program stops. */
    method Add(line: nat, column: nat) returns (ok: bool)
      requires Valid()
      modifies this, lines, columns, columns.data
      ensures ok <==> |Encode(old(Lines()) + [line])| <= MAX_LINE_RUNS && |old(Columns())| < MAX_COLUMNS
      ensures ok ==> Valid() && (lines == old(lines) || fresh(lines))
      ensures ok ==> columns.data == old(columns.data) || fresh(columns.data)
      ensures ok ==> Lines() == old(Lines()) + [line] && Columns() == old(Columns()) + [column]
      ensures ok ==> Runs() == RunLengths.AddLine(old(Runs()), line)
    {
      hide Expand, RunsOf, LineCapacity, RunLengths.AddLine, Encode;
      ok := AddLine(line);
      if ok {
        ok := AddColumn(column);
      }
    }

    method ReadLine(offset: nat) returns (line: nat)
      requires Valid()
      ensures line == if offset < |Lines()| then Lines()[offset] else 0
    {
      hide Expand, RunLengths.ReadLine, RunsOf, Canonical, LineCapacity;
      ghost var runs := Runs();
      ReadLineReads(runs, offset);
      RunsOfLength(lines[..linesCount]);
      var pos, rest := 0, offset;
      assert runs[0..] == runs;
      while pos * 2 < linesCount
        invariant pos * 2 <= linesCount && |runs| == linesCount / 2
        invariant RunLengths.ReadLine(runs[pos..], rest) == RunLengths.ReadLine(runs, offset)
        decreases linesCount - pos * 2
      {
        RunsOfAt(lines[..linesCount], pos);
        ReadLineStep(runs, pos, rest);
        if rest >= lines[pos * 2 + 1] {
          rest := rest - lines[pos * 2 + 1];
        } else {
          return lines[pos * 2];
        }
        pos := pos + 1;
      }
      ReadLineEnd(runs, rest);
      return 0;
    }

    method ReadColumn(offset: nat) returns (column: nat)
      requires Valid() && offset < |Columns()|
      ensures column == Columns()[offset]
    {
      column := columns.data[offset];
    }
  }
}
