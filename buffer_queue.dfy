/**
 * `libMU_BufferQueue_t`: a ring of 32 transmit descriptors (`libMU_Buffer_t`)
 * with 8-bit count and indices; the indices advance by masking with 31.
 */
module BufferQueue {
  import opened Ints
  import Fifo
  import Bits

  /** `BUFFER_QUEUE_SIZE`, `1 << BUFFER_QUEUE_BITS`. */
  const Capacity: nat := 32

  /** `BUFFER_QUEUE_MASK` applied to an index below 256: the low five bits. */
  function Mask(x: nat): (r: u8)
    requires x < 0x100
    ensures r == x % Capacity
  {
    Bits.LowMask(x, 5, 8);
    assert Bits.Pow2(5) == 32 by { Bits.Pow2Values(); }
    Bits.Bitwise(Bits.AndOp, x, 31, 8)
  }

  /** An index advanced by one and masked to its low five bits. */
  method Next(i: u8) returns (j: u8)
    requires i < 0xFF
    ensures j == (i as nat + 1) % Capacity
  {
    j := Mask(i as nat + 1);
  }

  /** The `n` descriptors of a ring of 32 slots from index `read` on. */
  ghost function Window(slots: seq<Fifo.Buffer>, read: nat, n: nat): (w: seq<Fifo.Buffer>)
    requires |slots| == Capacity && n <= Capacity
    ensures |w| == n
  {
    seq(n, i requires 0 <= i < n => slots[(read + i) % Capacity])
  }

  /** Storing at the slot after the window appends to it. */
  lemma WindowAppend(slots: seq<Fifo.Buffer>, read: nat, n: nat, x: Fifo.Buffer)
    requires |slots| == Capacity && n < Capacity
    ensures Window(slots[(read + n) % Capacity := x], read, n + 1) == Window(slots, read, n) + [x]
  {
    var after := Window(slots[(read + n) % Capacity := x], read, n + 1);
    forall i | 0 <= i < n
      ensures after[i] == Window(slots, read, n)[i]
    {
      ModDistinct(read, i, n);
    }
  }

  /** Advancing the read index drops the first descriptor. */
  lemma WindowDrop(slots: seq<Fifo.Buffer>, read: nat, n: nat)
    requires |slots| == Capacity && 0 < n <= Capacity
    ensures Window(slots, (read + 1) % Capacity, n - 1) == Window(slots, read, n)[1..]
  {
    var after := Window(slots, (read + 1) % Capacity, n - 1);
    forall i | 0 <= i < n - 1
      ensures after[i] == Window(slots, read, n)[1 + i]
    {
      ModShift(read, i);
    }
  }

  lemma ModDistinct(a: nat, i: nat, j: nat)
    requires i < j < Capacity
    ensures (a + i) % Capacity != (a + j) % Capacity
  {
  }

  /** Reducing an index modulo 32 before advancing it by b changes nothing modulo 32. */
  lemma ModAdd(a: nat, b: nat)
    ensures (a % Capacity + b) % Capacity == (a + b) % Capacity
  {
    var q, r := a / Capacity, a % Capacity;
    var q2, r2 := (r + b) / Capacity, (r + b) % Capacity;
    DivModUnique(a + b, Capacity, q + q2, r2);
  }

  lemma ModShift(a: nat, i: nat)
    ensures ((a + 1) % Capacity + i) % Capacity == (a + 1 + i) % Capacity
  {
  }

  class Queue {
    /** The descriptor storage `buffer[BUFFER_QUEUE_SIZE]`. */
    const slots: array<Fifo.Buffer>
    var count: u8
    var nextWrite: u8
    var nextRead: u8

    ghost predicate Valid()
      reads this
    {
      && slots.Length == Capacity
      && count <= Capacity && nextRead < Capacity
      && nextWrite == (nextRead + count) % Capacity
    }

    /** The queued descriptors, oldest first. */
    ghost function Contents(): (s: seq<Fifo.Buffer>)
      reads this, slots
      requires Valid()
      ensures |s| == count
    {
      Window(slots[..], nextRead as nat, count as nat)
    }

    /** A zero-initialised queue, as the static storage the firmware declares. */
    constructor ()
      ensures Valid() && Contents() == []
      ensures count == 0 && nextRead == 0 && nextWrite == 0
      ensures fresh(slots)
    {
      slots := new Fifo.Buffer[Capacity](_ => Fifo.Buffer(null, 0));
      count, nextWrite, nextRead := 0, 0, 0;
    }

    /** `libMU_BufferQueue_Count`. */
    function Count(): (r: u8)
      reads this, slots
      requires Valid()
      ensures r == |Contents()|
    {
      count
    }

    /** `libMU_BufferQueue_IsEmpty`. */
    function IsEmpty(): (r: bool)
      reads this, slots
      requires Valid()
      ensures r <==> Contents() == []
    {
      count == 0
    }

    /** `libMU_BufferQueue_IsFull`: all 32 slots hold a descriptor. */
    function IsFull(): (r: bool)
      reads this, slots
      requires Valid()
      ensures r <==> |Contents()| == Capacity
    {
      count == Capacity as u8
    }

    /** `libMU_BufferQueue_Size`: the fixed capacity. */
    function Size(): (r: nat)
      ensures r == Capacity
    {
      32
    }

    /** `libMU_BufferQueue_SpaceLeft`. */
    function SpaceLeft(): (r: nat)
      reads this, slots
      requires Valid()
      ensures r + |Contents()| == Size()
    {
      Capacity - count
    }

    /**
     * `libMU_BufferQueue_Put` on a queue that is not full: the descriptor is
     * stored at `next_write`, which advances modulo 32.
     */
    method Put(data: Fifo.Buffer)
      requires Valid() && !IsFull()
      modifies this, slots
      ensures Valid()
      ensures Contents() == old(Contents()) + [data]
      ensures slots[old(nextWrite)] == data
      ensures forall j :: 0 <= j < Capacity && j != old(nextWrite) ==> slots[j] == old(slots[j])
      ensures count == old(count) + 1 && nextRead == old(nextRead)
      ensures nextWrite == (old(nextWrite) + 1) % Capacity
    {
      ghost var before := slots[..];
      ghost var r, c := nextRead as nat, count as nat;
      WindowAppend(before, r, c, data);
      ModAdd(r + c, 1);
      slots[nextWrite] := data;
      assert slots[..] == before[(r + c) % Capacity := data];
      count := count + 1;
      nextWrite := Next(nextWrite);
      assert Contents() == Window(before[(r + c) % Capacity := data], r, c + 1);
    }

    /**
     * `libMU_BufferQueue_Get` on a queue that is not empty: the descriptor
     * at `next_read`, which advances modulo 32.
     */
    method Get() returns (data: Fifo.Buffer)
      requires Valid() && !IsEmpty()
      modifies this
      ensures Valid()
      ensures data == old(Contents())[0] && Contents() == old(Contents())[1..]
      ensures count == old(count) - 1 && nextWrite == old(nextWrite)
      ensures nextRead == (old(nextRead) + 1) % Capacity
    {
      ghost var r, c := nextRead as nat, count as nat;
      WindowDrop(slots[..], r, c);
      DivModUnique(r, Capacity, 0, r);
      assert Contents()[0] == slots[nextRead];
      data := slots[nextRead];
      ModAdd(r + 1, c - 1);
      count := count - 1;
      nextRead := Next(nextRead);
      assert Contents() == Window(slots[..], (r + 1) % Capacity, c - 1);
    }

    /** `libMU_BufferQueue_Reset`: the queue is emptied. */
    method Reset()
      requires Valid()
      modifies this
      ensures Valid() && Contents() == []
      ensures count == 0 && nextRead == 0 && nextWrite == 0
    {
      count, nextRead, nextWrite := 0, 0, 0;
    }
  }
}
