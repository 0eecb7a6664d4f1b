/** The stack machine (vm.c). */
module Vm {
  import opened Values
  import opened Buffers
  import opened Bytecode
  import opened Chunks

  const STACK_MIN_SIZE: nat := 256

  /** The stack doubles from 256; popping moves the top and keeps the memory. */
  class VmStack {
    var stack: array<Value>
    var top: nat

    ghost predicate Valid()
      reads this
    {
      top <= stack.Length && (stack.Length == 0 || IsStackCapacity(stack.Length))
    }

    ghost function Contents(): seq<Value>
      requires Valid()
      reads this, stack
    {
      stack[..top]
    }

    constructor ()
      ensures Valid() && fresh(stack) && Contents() == []
    {
      stack, top := new Value[0], 0;
    }

    method Push(value: Value)
      requires Valid()
      modifies this, stack
      ensures Valid() && (stack == old(stack) || fresh(stack))
      ensures Contents() == old(Contents()) + [value]
      ensures stack.Length ==
        if old(top) < old(stack.Length) then old(stack.Length) else Max(STACK_MIN_SIZE, 2 * old(stack.Length))
    {
      if top == stack.Length {
        DoublesAgain(stack.Length);
        var capacity := if stack.Length < STACK_MIN_SIZE then STACK_MIN_SIZE else 2 * stack.Length;
        var grown := new Value[capacity];
        forall i | 0 <= i < top {
          grown[i] := stack[i];
        }
        stack := grown;
      }
      stack[top] := value;
      top := top + 1;
    }

    method Pop() returns (value: Value)
      requires Valid() && Contents() != []
      modifies `top
      ensures Valid() && stack == old(stack)
      ensures old(Contents()) == Contents() + [value]
    {
      top := top - 1;
      value := stack[top];
    }
  }

  /** The capacities that doubling from 256 goes through. */
  ghost predicate IsStackCapacity(capacity: nat) {
    exists k: nat :: capacity == STACK_MIN_SIZE * Pow2(k)
  }

  lemma DoublesAgain(capacity: nat)
    requires capacity == 0 || IsStackCapacity(capacity)
    ensures var grown := if capacity < STACK_MIN_SIZE then STACK_MIN_SIZE else 2 * capacity;
      grown == Max(256, 2 * capacity) > capacity && IsStackCapacity(grown)
  {
    if capacity == 0 {
      assert STACK_MIN_SIZE == STACK_MIN_SIZE * Pow2(0);
    } else {
      var k: nat :| capacity == STACK_MIN_SIZE * Pow2(k);
      assert 2 * capacity == STACK_MIN_SIZE * Pow2(k + 1);
    }
  }

  class SkardVm {
    var chunk: Chunk?
    var ip: nat
    const stack: VmStack

    /** What the dump instruction has printed. */
    ghost var dumped: seq<Value>

    /** The offsets of the instructions that have been read. */
    ghost var visited: seq<nat>

    ghost predicate Valid()
      reads this, stack
    {
      stack.Valid()
    }

    constructor ()
      ensures Valid() && fresh(stack) && fresh(stack.stack) && stack.Contents() == []
      ensures dumped == [] && visited == []
    {
      stack := new VmStack();
      chunk, ip, dumped, visited := null, 0, [], [];
    }

    /** The memory of the machine is its own, and the chunk is not part of it. */
    ghost predicate Ready(c: Chunk)
      reads this, stack, c, c.repr
    {
      && Valid() && c.Valid()
      && this !in c.repr && stack !in c.repr && stack.stack !in c.repr
    }

    /** What remains to run from the next byte on. */
    ghost function Rest(c: Chunk): Outcome
      requires Ready(c)
      reads this, stack, stack.stack, c, c.repr
    {
      Execute(c.Image().code, c.Image().constants, ip, stack.Contents())
    }

    /** The instructions that remain to be read. */
    ghost function RestVisited(c: Chunk): seq<nat>
      requires Ready(c)
      reads this, stack, stack.stack, c, c.repr
    {
      Visited(c.Image().code, c.Image().constants, ip, stack.Contents())
    }

    method ReadByte(c: Chunk) returns (b: byte)
      requires Ready(c) && ip < |c.Image().code|
      modifies `ip
      ensures Ready(c) && ip == old(ip) + 1 && b == c.Image().code[old(ip)]
    {
      b := c.code.data[ip];
      ip := ip + 1;
    }

    method ConstantAt(c: Chunk, index: nat) returns (value: Value)
      requires Ready(c) && index < |c.Image().constants|
      ensures value == c.Image().constants[index]
    {
      value := c.constants.data[index];
    }

    method ReadConstant(c: Chunk) returns (value: Value)
      requires Ready(c) && ip < |c.Image().code| && c.Image().code[ip] as nat < |c.Image().constants|
      modifies `ip
      ensures Ready(c) && ip == old(ip) + 1 && value == c.Image().constants[c.Image().code[old(ip)]]
    {
      hide Chunk.Valid, Chunk.Image;
      var index := ReadByte(c);
      value := ConstantAt(c, index as nat);
    }

    method ReadConstantLong(c: Chunk) returns (value: Value)
      requires Ready(c) && ip + 3 <= |c.Image().code| && LongOperand(c.Image().code, ip) < |c.Image().constants|
      modifies `ip
      ensures Ready(c) && ip == old(ip) + 3 && value == c.Image().constants[LongOperand(c.Image().code, old(ip))]
    {
      hide Chunk.Valid, Chunk.Image;
      var low := ReadByte(c);
      var middle := ReadByte(c);
      var high := ReadByte(c);
      value := ConstantAt(c, low as nat + middle as nat * 256 + high as nat * 65536);
    }

    /** Pushing a value on the stack of the machine leaves the chunk alone. */
    method Push(c: Chunk, value: Value)
      requires Ready(c)
      modifies stack, stack.stack
      ensures Ready(c) && c.Image() == old(c.Image()) && (stack.stack == old(stack.stack) || fresh(stack.stack))
      ensures stack.Contents() == old(stack.Contents()) + [value]
    {
      stack.Push(value);
    }

    /** One turn of the loop: reads an instruction and does what it says, or stops. */
    method Step(c: Chunk) returns (running: bool, ok: bool)
      requires Ready(c) && !Rest(c).result.Fault?
      modifies `ip, `dumped, `visited, stack, stack.stack
      ensures Ready(c) && c.Image() == old(c.Image()) && (stack.stack == old(stack.stack) || fresh(stack.stack))
      ensures running ==> old(ip) < ip <= |c.Image().code|
      ensures running ==> Rest(c).result == old(Rest(c)).result && Rest(c).stack == old(Rest(c)).stack
      ensures running ==> dumped + Rest(c).dumped == old(dumped + Rest(c).dumped)
      ensures !running ==> dumped == old(dumped)
      ensures visited + (if running then RestVisited(c) else []) == old(visited + RestVisited(c))
      ensures !running ==> old(Rest(c)) == Outcome(if ok then Ok else RuntimeError, [], stack.Contents())
    {
      hide Chunk.Valid, Chunk.Image, Execute, Visited;
      ghost var code, constants, at, values := c.Image().code, c.Image().constants, ip, stack.Contents();
      LastTurn(code, constants, at, values);
      visited := visited + [ip];
      var instruction := ReadByte(c);
      if instruction == OP_RETURN {
        return false, true;
      } else if instruction == OP_DUMP {
        DumpTurn(code, constants, at, values);
        var value := stack.Pop();
        dumped := dumped + [value];
      } else if instruction == OP_CONSTANT {
        ShortTurn(code, constants, at, values);
        var value := ReadConstant(c);
        Push(c, value);
      } else if instruction == OP_CONSTANT_LONG {
        LongTurn(code, constants, at, values);
        var value := ReadConstantLong(c);
        Push(c, value);
      } else {
        return false, false;
      }
      return true, true;
    }

    /** Runs to a return or to a byte that is no instruction, and must not run into anything else. */
    method Loop(c: Chunk) returns (ok: bool)
      requires Ready(c) && !Rest(c).result.Fault?
      modifies `ip, `dumped, `visited, stack, stack.stack
      ensures Ready(c) && c.Image() == old(c.Image())
      ensures var o := old(Rest(c));
        ok == o.result.Ok? && dumped == old(dumped) + o.dumped && stack.Contents() == o.stack
      ensures visited == old(visited) + old(RestVisited(c))
    {
      hide Chunk.Valid, Chunk.Image, Execute, Visited;
      var running := true;
      ok := true;
      while running
        invariant Ready(c) && c.Image() == old(c.Image())
        invariant stack.stack == old(stack.stack) || fresh(stack.stack)
        invariant running ==> Rest(c).result == old(Rest(c)).result && Rest(c).stack == old(Rest(c)).stack
        invariant running ==> dumped + Rest(c).dumped == old(dumped) + old(Rest(c)).dumped
        invariant !running ==> ok == old(Rest(c)).result.Ok? && stack.Contents() == old(Rest(c)).stack
        invariant !running ==> dumped == old(dumped) + old(Rest(c)).dumped
        invariant visited + (if running then RestVisited(c) else []) == old(visited) + old(RestVisited(c))
        decreases running, |c.Image().code| - ip
      {
        running, ok := Step(c);
      }
    }

    /**
     Runs a chunk from its first byte. When the chunk holds the code of a program, this dumps, in
     order, the values that the program dumps, and leaves its stack. Whatever the chunk holds, the
     instructions that are read are rows of its listing.
     */
    method RunChunk(c: Chunk) returns (ok: bool)
      requires Ready(c) && !Execute(c.Image().code, c.Image().constants, 0, stack.Contents()).result.Fault?
      modifies this, stack, stack.stack
      ensures Ready(c) && chunk == c && c.Image() == old(c.Image())
      ensures var o := old(Execute(c.Image().code, c.Image().constants, 0, stack.Contents()));
        ok == o.result.Ok? && dumped == old(dumped) + o.dumped && stack.Contents() == o.stack
      ensures forall p | IsProgram(p) && |Constants(p)| <= MAX_CHUNK_CONSTANTS && c.Image() == ImageOf(p) ::
        var o := Run(p, old(stack.Contents()));
        ok == o.result.Ok? && dumped == old(dumped) + o.dumped && stack.Contents() == o.stack
      ensures var offsets := old(Visited(c.Image().code, c.Image().constants, 0, stack.Contents()));
        && visited == old(visited) + offsets
        && (Listable(c.Image(), 0) ==> AreFirst(offsets, Listing(c.Image(), 0)))
    {
      hide Chunk.Valid, Chunk.Image, Execute, Visited, Listable, Listing, AreFirst;
      chunk, ip := c, 0;
      if Listable(c.Image(), 0) {
        VisitsAreListed(c.Image(), 0, stack.Contents());
      }
      forall p | IsProgram(p) && |Constants(p)| <= MAX_CHUNK_CONSTANTS && c.Image() == ImageOf(p)
        ensures Rest(c) == Run(p, stack.Contents())
      {
        EmittedCodeRuns(p, stack.Contents());
      }
      ok := Loop(c);
    }
  }
}
