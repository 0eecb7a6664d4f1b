/**
 Growable arrays. The byte code, the columns and the constants of a chunk all grow in the same way
 (value_array_add, chunk_write_byte, debug_info_add_column), which is written once here.
 */
module Buffers {

  function Pow2(k: nat): (r: nat)
    ensures r >= 1
  {
    if k == 0 then 1 else 2 * Pow2(k - 1)
  }

  function GrowCapacity(capacity: nat): nat {
    if capacity < 8 then 8 else capacity * 2
  }

  function Max(a: int, b: int): int {
    if a < b then b else a
  }

  /** How many values a size_t has, on a machine of 64 bits. */
  const SIZE_VALUES: nat := 0x1_0000_0000_0000_0000

  const SIZE_OF_BYTE: nat := 1
  const SIZE_OF_SIZE_T: nat := 8
  const SIZE_OF_VALUE: nat := 16

  /** The sizes in bytes of the elements of growable arrays. */
  type Unit = n: nat | n == SIZE_OF_BYTE || n == SIZE_OF_SIZE_T || n == SIZE_OF_VALUE witness SIZE_OF_BYTE

  /**
   The size in bytes that reallocation is asked for; it wraps around. When it is 0, the old elements
   are freed and the new ones are at NULL, where the program stops with the store that follows.
   */
  function ByteSize(unit: Unit, capacity: nat): nat {
    unit * capacity % SIZE_VALUES
  }

  /** How many elements there can be: half of the memory that a size_t can count. */
  function MaxCount(unit: Unit): nat {
    SIZE_VALUES / 2 / unit
  }

  /** The capacities that doubling from 8 goes through. */
  ghost predicate IsDoubling(capacity: nat) {
    exists k: nat :: capacity == 8 * Pow2(k)
  }

  lemma GrowDoubles(capacity: nat)
    requires capacity == 0 || IsDoubling(capacity)
    ensures IsDoubling(GrowCapacity(capacity))
    ensures GrowCapacity(capacity) == if capacity == 0 then 8 else 2 * capacity
  {
    if capacity == 0 {
      assert 8 == 8 * Pow2(0);
    } else {
      var k: nat :| capacity == 8 * Pow2(k);
      assert 2 * capacity == 8 * Pow2(k + 1);
    }
  }

  lemma {:induction false} Pow2Grows(j: nat, k: nat)
    requires j <= k
    ensures Pow2(j) <= Pow2(k)
    decreases k
  {
    if j < k {
      Pow2Grows(j, k - 1);
    }
  }

  /** A power of two below another one is at most its half. */
  lemma Pow2Below(j: nat, k: nat)
    requires Pow2(j) < Pow2(k)
    ensures 2 * Pow2(j) <= Pow2(k)
  {
    if j >= k {
      Pow2Grows(k, j);
    } else {
      Pow2Grows(j + 1, k);
    }
  }

  lemma {:induction false} Pow2Adds(j: nat, k: nat)
    ensures Pow2(j + k) == Pow2(j) * Pow2(k)
  {
    if j > 0 {
      Pow2Adds(j - 1, k);
    }
  }

  lemma PowersOfTwo()
    ensures Pow2(57) == 0x200_0000_0000_0000 && Pow2(58) == 0x400_0000_0000_0000
    ensures Pow2(61) == 0x2000_0000_0000_0000
  {
    assert Pow2(14) == 0x4000;
    Pow2Adds(14, 14);
    Pow2Adds(28, 28);
  }

  /** The size wraps around to 0 when half of the memory is used up, and not before. */
  lemma GrowWraps(unit: Unit, capacity: nat)
    requires capacity == 0 || IsDoubling(capacity)
    requires unit * capacity < SIZE_VALUES
    ensures capacity <= MaxCount(unit)
    ensures ByteSize(unit, GrowCapacity(capacity)) == 0 <==> capacity == MaxCount(unit)
    ensures capacity < MaxCount(unit) ==> unit * GrowCapacity(capacity) < SIZE_VALUES
  {
    if capacity > 0 {
      GrowDoubles(capacity);
      var k: nat :| capacity == 8 * Pow2(k);
      PowersOfTwo();
      if unit == SIZE_OF_BYTE {
        Pow2Below(k, 61);
      } else if unit == SIZE_OF_SIZE_T {
        Pow2Below(k, 58);
      } else {
        Pow2Below(k, 57);
      }
    }
  }

  class Buffer<T(0)> {
    const unit: Unit
    var data: array<T>
    var count: nat

    /** How many elements reallocation has moved so far. */
    ghost var moved: nat

    /**
     The capacity is 0 or 8 * 2^k, less than twice what is needed, and the moves so far are what
     doubling up to it costs.
     */
    ghost predicate Valid()
      reads this
    {
      && count <= data.Length
      && (data.Length == 0 || IsDoubling(data.Length))
      && moved == Max(0, data.Length - 8) && unit * data.Length < SIZE_VALUES
      && (data.Length > 0 ==> count > 0 && data.Length <= Max(8, 2 * (count - 1)))
    }

    ghost function Contents(): (elements: seq<T>)
      requires Valid()
      reads this, data
      ensures |elements| == count
    {
      data[..count]
    }

    constructor (unit: Unit)
      ensures Valid() && fresh(data) && Contents() == [] && this.unit == unit
    {
      this.unit, data, count, moved := unit, new T[0], 0, 0;
    }

    /**
     Appends an element, if the new size does not wrap around; otherwise the program stops. Over all
     appends fewer than two elements are moved for each.
     */
    method Add(x: T) returns (ok: bool)
      requires Valid()
      modifies this, data
      ensures ok <==> old(count) < MaxCount(unit)
      ensures ok ==> Valid() && (data == old(data) || fresh(data))
      ensures ok ==> Contents() == old(Contents()) + [x] && moved < 2 * count
    {
      GrowWraps(unit, data.Length);
      if data.Length < count + 1 {
        GrowDoubles(data.Length);
        if ByteSize(unit, GrowCapacity(data.Length)) == 0 {
          return false;
        }
        var grown := new T[GrowCapacity(data.Length)];
        forall i | 0 <= i < count {
          grown[i] := data[i];
        }
        data, moved := grown, moved + count;
      }
      data[count] := x;
      count := count + 1;
      return true;
    }
  }
}
