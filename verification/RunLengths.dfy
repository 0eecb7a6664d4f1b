/** Run-length encoding of a sequence of line numbers, as a value (chunk.c). */
module RunLengths {
  import opened Buffers

  datatype Run = Run(line: nat, length: nat)

  function Repeat(line: nat, n: nat): seq<nat> {
    seq(n, _ => line)
  }

  /** The sequence that the runs stand for. */
  function Expand(runs: seq<Run>): seq<nat> {
    if runs == [] then []
    else Expand(runs[..|runs| - 1]) + Repeat(runs[|runs| - 1].line, runs[|runs| - 1].length)
  }

  /** No run is empty, and no two neighbours could be merged. */
  predicate Canonical(runs: seq<Run>) {
    && (forall i | 0 <= i < |runs| :: runs[i].length > 0)
    && forall i | 0 < i < |runs| :: runs[i - 1].line != runs[i].line
  }

  /** Adding a line makes the last run longer or starts a new one. */
  function AddLine(runs: seq<Run>, line: nat): seq<Run> {
    var n := |runs|;
    if n > 0 && runs[n - 1].line == line then runs[n - 1 := Run(line, runs[n - 1].length + 1)]
    else runs + [Run(line, 1)]
  }

  /** The encoding refines the plain sequence, and stays canonical. */
  lemma AddLineAppends(runs: seq<Run>, line: nat)
    ensures Expand(AddLine(runs, line)) == Expand(runs) + [line]
    ensures Canonical(runs) ==> Canonical(AddLine(runs, line))
  {
    var n, added := |runs|, AddLine(runs, line);
    if n > 0 && runs[n - 1].line == line {
      assert added[..n - 1] == runs[..n - 1];
      assert Repeat(line, runs[n - 1].length + 1) == Repeat(line, runs[n - 1].length) + [line];
    } else {
      assert added[..n] == runs;
      assert Repeat(line, 1) == [line];
    }
  }

  lemma LastRun(runs: seq<Run>, other: seq<Run>)
    requires Canonical(runs) && Canonical(other) && runs != [] && other != [] && Expand(runs) == Expand(other)
    ensures runs[|runs| - 1] == other[|other| - 1]
  {
    var r, o := runs[|runs| - 1], other[|other| - 1];
    var e := Expand(runs);
    RunIsMaximal(runs);
    RunIsMaximal(other);
    assert e[|e| - 1] == r.line == o.line;
    assert forall i | |e| - r.length <= i < |e| :: e[i] == r.line;
    assert forall i | |e| - o.length <= i < |e| :: e[i] == o.line;
  }

  /** The last run of a canonical encoding is as long as it can be. */
  lemma RunIsMaximal(runs: seq<Run>)
    requires Canonical(runs) && runs != []
    ensures var e, last := Expand(runs), runs[|runs| - 1];
      |e| >= last.length && (|e| > last.length ==> e[|e| - last.length - 1] != last.line)
  {
  }

  /** A sequence has only one canonical encoding. */
  lemma {:induction false} CanonicalIsUnique(runs: seq<Run>, other: seq<Run>)
    requires Canonical(runs) && Canonical(other) && Expand(runs) == Expand(other)
    ensures runs == other
    decreases |runs|
  {
    if runs == [] {
      ExpandLength(other);
    } else if other == [] {
      ExpandLength(runs);
    } else {
      LastRun(runs, other);
      var e, n, m := Expand(runs), |runs| - 1, |other| - 1;
      assert Expand(runs[..n]) == e[..|e| - runs[n].length] == Expand(other[..m]);
      CanonicalIsUnique(runs[..n], other[..m]);
      assert runs == runs[..n] + [runs[n]] && other == other[..m] + [other[m]];
    }
  }

  lemma {:induction false} ExpandLength(runs: seq<Run>)
    requires Canonical(runs)
    ensures |Expand(runs)| >= |runs|
    decreases |runs|
  {
    if runs != [] {
      ExpandLength(runs[..|runs| - 1]);
    }
  }

  /** The runs of any sequence of lines, added one by one. */
  function Encode(lines: seq<nat>): seq<Run> {
    if lines == [] then [] else AddLine(Encode(lines[..|lines| - 1]), lines[|lines| - 1])
  }

  lemma EncodeStep(lines: seq<nat>)
    requires lines != []
    ensures Encode(lines) == AddLine(Encode(lines[..|lines| - 1]), lines[|lines| - 1])
  {
  }

  /** Encoding loses nothing. */
  lemma {:induction false} EncodeInverts(lines: seq<nat>)
    ensures Expand(Encode(lines)) == lines && Canonical(Encode(lines))
    decreases |lines|
  {
    if lines != [] {
      hide Expand, Canonical, AddLine, Encode;
      EncodeStep(lines);
      EncodeInverts(lines[..|lines| - 1]);
      AddLineAppends(Encode(lines[..|lines| - 1]), lines[|lines| - 1]);
      assert lines == lines[..|lines| - 1] + [lines[|lines| - 1]];
    }
  }

  /** Canonical runs are the encoding of what they stand for, and adding a line to them encodes it too. */
  lemma CanonicalIsEncoded(runs: seq<Run>, line: nat)
    requires Canonical(runs)
    ensures runs == Encode(Expand(runs)) && AddLine(runs, line) == Encode(Expand(runs) + [line])
  {
    hide Canonical, AddLine, Expand, Encode;
    AddLineAppends(runs, line);
    EncodeInverts(Expand(runs));
    EncodeInverts(Expand(runs) + [line]);
    CanonicalIsUnique(runs, Encode(Expand(runs)));
    CanonicalIsUnique(AddLine(runs, line), Encode(Expand(runs) + [line]));
  }

  /** Repeating a line adds one run, or none if the line goes on. */
  lemma {:induction false} EncodeRepeated(lines: seq<nat>, line: nat, n: nat)
    requires n > 0
    ensures |Encode(lines + Repeat(line, n))| ==
      |Encode(lines)| + if lines != [] && lines[|lines| - 1] == line then 0 else 1
  {
    var all := lines + Repeat(line, n);
    EncodeStep(all);
    EncodeInverts(all[..|all| - 1]);
    if n > 1 {
      assert all[..|all| - 1] == lines + Repeat(line, n - 1);
      EncodeRepeated(lines, line, n - 1);
      LastIsLast(all[..|all| - 1]);
    } else {
      assert all[..|all| - 1] == lines;
      if lines != [] {
        LastIsLast(lines);
      }
    }
  }

  /** The last run is one of the last line. */
  lemma LastIsLast(lines: seq<nat>)
    requires lines != []
    ensures var runs := Encode(lines); runs != [] && runs[|runs| - 1].line == lines[|lines| - 1]
  {
  }

  /** What a walk over the runs from the first one on finds at an offset; 0 past the end. */
  function ReadLine(runs: seq<Run>, offset: nat): nat {
    if runs == [] then 0
    else if offset < runs[0].length then runs[0].line
    else ReadLine(runs[1..], offset - runs[0].length)
  }

  lemma ReadLineStep(runs: seq<Run>, pos: nat, rest: nat)
    requires pos < |runs|
    ensures ReadLine(runs[pos..], rest) ==
      if rest < runs[pos].length then runs[pos].line else ReadLine(runs[pos + 1..], rest - runs[pos].length)
  {
    assert runs[pos..][1..] == runs[pos + 1..];
  }

  lemma ReadLineEnd(runs: seq<Run>, rest: nat)
    ensures ReadLine(runs[|runs|..], rest) == 0
  {
  }

  lemma {:induction false} ExpandFirst(runs: seq<Run>)
    requires runs != []
    ensures Expand(runs) == Repeat(runs[0].line, runs[0].length) + Expand(runs[1..])
    decreases |runs|
  {
    var n := |runs| - 1;
    if n > 0 {
      ExpandFirst(runs[..n]);
      assert runs[..n][1..] == runs[1..][..n - 1];
    }
  }

  /** Reading by walking the runs is reading the plain sequence. */
  lemma {:induction false} ReadLineReads(runs: seq<Run>, offset: nat)
    ensures ReadLine(runs, offset) == if offset < |Expand(runs)| then Expand(runs)[offset] else 0
    decreases |runs|
  {
    if runs != [] {
      ExpandFirst(runs);
      if offset >= runs[0].length {
        ReadLineReads(runs[1..], offset - runs[0].length);
      }
    }
  }

  /**
   The capacity of the line buffer after a number of runs. The guard of its growth compares the
   capacity with itself and always holds, so that every run doubles it.
   */
  function LineCapacity(runs: nat): nat {
    if runs == 0 then 0 else 8 * Pow2(runs - 1)
  }

  /** Every run doubles the buffer, which leaves room for the pair of the run. */
  lemma {:induction false} LineCapacityDoubles(runs: nat)
    ensures LineCapacity(runs + 1) == GrowCapacity(LineCapacity(runs)) >= 2 * (runs + 1)
    ensures LineCapacity(runs) == 0 <==> runs == 0
  {
    if runs > 0 {
      LineCapacityDoubles(runs - 1);
    }
  }

  /** The bound that the other buffers keep holds for the line buffer up to its first run only. */
  lemma {:induction false} LineCapacityBound(runs: nat)
    ensures LineCapacity(runs) <= Max(8, 2 * (2 * runs - 1)) <==> runs <= 1
  {
    if runs > 1 {
      LineCapacityGrows(runs);
    }
  }

  /** How many runs the line table can have: with one more, its size in bytes wraps around to 0. */
  const MAX_LINE_RUNS: nat := 58

  /** The table takes 2^(runs + 5) bytes, up to that number of runs. */
  lemma LineSizeWraps(runs: nat)
    requires runs > 0
    ensures ByteSize(SIZE_OF_SIZE_T, LineCapacity(runs)) == 0 <==> runs > MAX_LINE_RUNS
    ensures runs <= MAX_LINE_RUNS ==> ByteSize(SIZE_OF_SIZE_T, LineCapacity(runs)) == 64 * Pow2(runs - 1)
  {
    PowersOfTwo();
    if runs > MAX_LINE_RUNS {
      Pow2Adds(MAX_LINE_RUNS, runs - 1 - MAX_LINE_RUNS);
      assert SIZE_OF_SIZE_T * LineCapacity(runs) == SIZE_VALUES * Pow2(runs - 1 - MAX_LINE_RUNS);
    } else {
      Pow2Grows(runs - 1, 57);
    }
  }

  /** How many numbers reallocation of the line table has moved, after a number of runs. */
  function LineMoves(runs: nat): nat
  {
    if runs == 0 then 0 else LineMoves(runs - 1) + 2 * (runs - 1)
  }

  lemma {:induction false} LineMovesAre(runs: nat)
    ensures LineMoves(runs) == runs * (runs - 1)
  {
    if runs > 0 {
      LineMovesAre(runs - 1);
    }
  }

  /** Numbers that go up take a run each. */
  function Ascending(n: nat): seq<nat> {
    seq(n, i => i)
  }

  lemma {:induction false} AscendingRuns(n: nat)
    ensures |Encode(Ascending(n))| == n
  {
    if n > 0 {
      AscendingRuns(n - 1);
      EncodeStep(Ascending(n));
      assert Ascending(n)[..n - 1] == Ascending(n - 1);
      if n > 1 {
        LastIsLast(Ascending(n - 1));
      }
    }
  }

  /** The line table moves fewer than two numbers for each line that it stands for. */
  predicate MovesFew(lines: seq<nat>) {
    LineMoves(|Encode(lines)|) < 2 * |lines|
  }

  /** All sequences with that many runs keep the bound of the other buffers only if it is one or two. */
  lemma LineMovesBound(runs: nat)
    requires runs > 0
    ensures (forall lines | |Encode(lines)| == runs :: MovesFew(lines)) <==> runs <= 2
  {
    LineMovesAre(runs);
    AscendingRuns(runs);
    if runs > 2 {
      assert runs * (runs - 1) >= 2 * runs;
      assert !MovesFew(Ascending(runs));
    }
    forall lines | |Encode(lines)| == runs
      ensures |lines| >= runs
    {
      EncodeInverts(lines);
      ExpandLength(Encode(lines));
    }
  }

  lemma {:induction false} LineCapacityGrows(runs: nat)
    requires runs > 1
    ensures LineCapacity(runs) >= 8 * runs
  {
    if runs > 2 {
      LineCapacityGrows(runs - 1);
    }
  }
}
