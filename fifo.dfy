/**
 * `libMU_FIFO_t`: a ring buffer whose header (size, unit size, both indices
 * and the element count) sits in front of the element storage inside the
 * memory block the caller hands to `libMU_FIFO_Initialize`. Indices and
 * sizes are in bytes; `count` is in elements of `unit_size` bytes.
 */
module Fifo {
  import opened Ints

  /** `sizeof(libMU_FIFO_t)`: five `uint32_t` fields before the storage. */
  const Header: nat := 20

  /** `libMU_Buffer_t`: a FIFO with data to transmit and how many bytes of it remain. */
  datatype Buffer = Buffer(queue: Queue?, left: u32)

  /**
   * The usable storage `libMU_FIFO_Initialize` computes for a block of `size`
   * bytes: what is left after the header, rounded down to a whole number of
   * elements, provided that holds at least two elements.
   */
  function UsableBytes(size: u32, unitSize: u32): (r: Option<nat>)
    ensures r.Some? <==> 1 <= unitSize && Header <= size && 2 * unitSize <= size - Header - (size - Header) % unitSize
    ensures r.Some? ==> r.value % unitSize == 0 && r.value + Header <= size
    ensures r.Some? ==> size - Header - r.value < unitSize && 2 * unitSize <= r.value
  {
    if unitSize < 1 || size < Header then None
    else
      var rest := size - Header;
      var usable := rest - rest % unitSize;
      RoundDown(rest, unitSize);
      if usable < 2 * unitSize then None else Some(usable)
  }

  /** Subtracting the remainder leaves a multiple. */
  lemma RoundDown(a: nat, u: nat)
    requires u > 0
    ensures (a - a % u) % u == 0 && a % u < u
  {
    DivModUnique(a - a % u, u, a / u, 0);
  }

  /**
   * The same computation with the two-element test as the C code evaluates
   * it: `unit_size << 1` is a 32-bit shift and loses the top bit.
   */
  function UsableBytesAsWritten(size: u32, unitSize: u32): (r: Option<nat>)
    ensures unitSize < 0x8000_0000 ==> r == UsableBytes(size, unitSize)
  {
    if unitSize < 1 || size < Header then None
    else
      var rest := size - Header;
      var usable := rest - rest % unitSize;
      if usable < Wrap32(2 * unitSize) then None else Some(usable)
  }

  /** With a unit of 2^31 bytes the shifted bound wraps to 0 and a one-element FIFO is accepted. */
  lemma ShiftWrapAcceptsOneElement()
    ensures UsableBytesAsWritten(0xFFFF_FFFF, 0x8000_0000) == Some(0x8000_0000)
    ensures UsableBytes(0xFFFF_FFFF, 0x8000_0000) == None
  {
  }

  /** Two distinct multiples of `u` are at least `u` apart. */
  lemma MultipleGap(a: nat, b: nat, u: nat)
    requires u > 0 && a % u == 0 && b % u == 0 && a < b
    ensures a + u <= b
  {
    var p, q := a / u, b / u;
    assert a == p * u && b == q * u;
    if q <= p {
      MulMonotone(q, p, u);
    }
    MulMonotone(p + 1, q, u);
  }

  /** Adding one unit keeps a multiple of the unit. */
  lemma MultipleStep(a: nat, u: nat)
    requires u > 0 && a % u == 0
    ensures (a + u) % u == 0
  {
    DivModUnique(a + u, u, a / u + 1, 0);
  }

  /** A multiple of `u` no larger than `n * u` counts at most `n` units. */
  lemma UnitsBound(c: nat, u: nat, size: nat)
    requires 0 < u && size % u == 0 && c * u <= size
    ensures c <= size / u && (size / u) * u == size
    ensures (size / u - c) * u == size - c * u
  {
    var n := size / u;
    assert n * u == size;
    if c > n {
      MulMonotone(n + 1, c, u);
    }
  }

  /** A byte offset reduced into a storage of `size` bytes, for offsets below twice the size. */
  function RingIndex(size: nat, i: nat): nat
  {
    if i < size then i else i - size
  }

  /** The element written after `used` stored bytes lands in one piece at the write index. */
  lemma RingTail(size: nat, start: nat, used: nat, u: nat, read: nat, i: nat)
    requires read < size && used + u <= size && start == RingIndex(size, read + used) && start + u <= size
    requires used <= i < used + u
    ensures RingIndex(size, read + i) == start + (i - used)
  {
  }

  /** ... and does not overlap any stored byte. */
  lemma RingDisjoint(size: nat, start: nat, used: nat, u: nat, read: nat, i: nat)
    requires read < size && used + u <= size && start == RingIndex(size, read + used) && start + u <= size
    requires i < used
    ensures RingIndex(size, read + i) < start || start + u <= RingIndex(size, read + i)
  {
  }

  /** Taking one element at `read` keeps the indices of the ring consistent. */
  lemma ReadAdvance(size: nat, u: nat, read: nat, c: nat, write: nat)
    requires 1 <= u && read < size && read % u == 0 && read + u <= size && 1 <= c && c * u <= size
    requires write == RingIndex(size, read + c * u)
    ensures (c - 1) * u == c * u - u
    ensures var next := if read + u >= size then 0 else read + u;
      next < size && next % u == 0 && write == RingIndex(size, next + (c - 1) * u)
  {
    assert (c - 1) * u == c * u - u;
    MultipleStep(read, u);
  }

  /** Storing one element at `write` when fewer than `size / u` are stored keeps the ring consistent. */
  lemma WriteAdvance(size: nat, u: nat, read: nat, c: nat, write: nat)
    requires 1 <= u && size % u == 0 && read < size && write % u == 0 && c * u < size
    requires write == RingIndex(size, read + c * u)
    ensures (c + 1) * u == c * u + u && (c + 1) * u <= size && write + u <= size
    ensures var next := if write + u >= size then 0 else write + u;
      next % u == 0 && next == RingIndex(size, read + (c + 1) * u)
  {
    assert (c + 1) * u == c * u + u;
    DivModUnique(c * u, u, c, 0);
    MultipleGap(c * u, size, u);
    MultipleGap(write, size, u);
    MultipleStep(write, u);
  }

  /** The `n` bytes stored from offset `read` of a ring of `size` bytes laid after the header of `buf`. */
  ghost function Ring(buf: seq<bv8>, size: nat, read: nat, n: nat): (s: seq<bv8>)
    requires read < size && n <= size && Header + size <= |buf|
    ensures |s| == n
  {
    seq(n, i requires 0 <= i < n => buf[Header + RingIndex(size, read + i)])
  }

  /** Writing `data` at the write index appends it to the ring. */
  lemma RingAppend(buf: seq<bv8>, buf2: seq<bv8>, size: nat, read: nat, used: nat, start: nat, data: seq<bv8>)
    requires read < size && used + |data| <= size && start == RingIndex(size, read + used) && start + |data| <= size
    requires Header + size <= |buf| == |buf2|
    requires forall j :: 0 <= j < |data| ==> buf2[Header + start + j] == data[j]
    requires forall j :: 0 <= j < |buf| && !(Header + start <= j < Header + start + |data|) ==> buf2[j] == buf[j]
    ensures Ring(buf2, size, read, used + |data|) == Ring(buf, size, read, used) + data
  {
    var after := Ring(buf2, size, read, used + |data|);
    var before := Ring(buf, size, read, used);
    forall i | used <= i < used + |data|
      ensures after[i] == (before + data)[i]
    {
      RingTail(size, start, used, |data|, read, i);
    }
    forall i | 0 <= i < used
      ensures after[i] == (before + data)[i]
    {
      RingDisjoint(size, start, used, |data|, read, i);
    }
  }

  /** Moving the read index past `u` bytes drops them from the front of the ring. */
  lemma RingDrop(buf: seq<bv8>, size: nat, read: nat, used: nat, u: nat)
    requires read < size && u <= used <= size && read + u <= size && Header + size <= |buf|
    ensures var next := if read + u >= size then 0 else read + u;
      Ring(buf, size, next, used - u) == Ring(buf, size, read, used)[u..]
    ensures Ring(buf, size, read, used)[..u] == buf[Header + read..Header + read + u]
  {
    var next := if read + u >= size then 0 else read + u;
    var before := Ring(buf, size, read, used);
    var after := Ring(buf, size, next, used - u);
    forall i | 0 <= i < used - u
      ensures after[i] == before[u + i]
    {
      assert RingIndex(size, next + i) == RingIndex(size, read + u + i);
    }
    forall i | 0 <= i < u
      ensures before[i] == buf[Header + read + i]
    {
      assert RingIndex(size, read + i) == read + i;
    }
  }

  /** The `memcpy` into the storage: `data` lands at `at`, nothing else changes. */
  method CopyIn(mem: array<bv8>, at: nat, data: seq<bv8>)
    requires at + |data| <= mem.Length
    modifies mem
    ensures forall j :: 0 <= j < |data| ==> mem[at + j] == data[j]
    ensures forall j :: 0 <= j < mem.Length && !(at <= j < at + |data|) ==> mem[j] == old(mem[j])
  {
    var k := 0;
    while k < |data|
      invariant 0 <= k <= |data|
      invariant forall j :: 0 <= j < k ==> mem[at + j] == data[j]
      invariant forall j :: 0 <= j < mem.Length && !(at <= j < at + k) ==> mem[j] == old(mem[j])
    {
      mem[at + k] := data[k];
      k := k + 1;
    }
  }

  class Queue {
    /** The caller's memory block; the header occupies its first `Header` bytes. */
    const mem: array<bv8>
    /** Usable storage in bytes. */
    const size: nat
    const unitSize: nat
    var nextWrite: nat
    var nextRead: nat
    var count: nat

    ghost predicate Valid()
      reads this
    {
      && 1 <= unitSize && size % unitSize == 0 && 2 * unitSize <= size && size < 0x1_0000_0000
      && Header + size <= mem.Length
      && nextRead < size && nextRead % unitSize == 0 && nextWrite % unitSize == 0
      && count * unitSize <= size
      && nextWrite == RingIndex(size, nextRead + count * unitSize)
    }

    /** The stored bytes, oldest first. */
    ghost function Contents(): (s: seq<bv8>)
      reads this, mem
      requires Valid()
      ensures |s| == count * unitSize
    {
      Ring(mem[..], size, nextRead, count * unitSize)
    }

    constructor (mem: array<bv8>, size: nat, unitSize: nat)
      requires 1 <= unitSize && size % unitSize == 0 && 2 * unitSize <= size < 0x1_0000_0000
      requires Header + size <= mem.Length
      ensures Valid() && Contents() == []
      ensures this.mem == mem && this.size == size && this.unitSize == unitSize
      ensures count == 0 && nextRead == 0 && nextWrite == 0
    {
      this.mem := mem;
      this.size := size;
      this.unitSize := unitSize;
      nextWrite, nextRead, count := 0, 0, 0;
    }

    /** `libMU_FIFO_Count`: the number of stored elements. */
    function Count(): (r: nat)
      reads this, mem
      requires Valid()
      ensures r * unitSize == |Contents()|
    {
      count
    }

    /** `libMU_FIFO_IsEmpty`. */
    function IsEmpty(): (r: bool)
      reads this, mem
      requires Valid()
      ensures r <==> Contents() == []
      ensures !r ==> unitSize <= |Contents()|
    {
      if count == 0 then true
      else
        MulMonotone(1, count, unitSize);
        false
    }

    /** `libMU_FIFO_IsFull`: the stored bytes fill the whole storage. */
    function IsFull(): (r: bool)
      reads this, mem
      requires Valid()
      ensures r <==> |Contents()| == size
    {
      count * unitSize == size
    }

    /** `libMU_FIFO_Size`: the capacity in elements. */
    function Size(): (r: nat)
      reads this
      requires Valid()
      ensures r * unitSize == size && r >= 2
    {
      UnitsBound(2, unitSize, size);
      size / unitSize
    }

    /** `libMU_FIFO_SpaceLeft`: free elements, capacity minus count. */
    function SpaceLeft(): (r: nat)
      reads this, mem
      requires Valid()
      ensures r == Size() - Count()
      ensures r * unitSize == size - |Contents()|
    {
      UnitsBound(count, unitSize, size);
      size / unitSize - count
    }

    /**
     * `libMU_FIFO_PutChar` on a byte FIFO that is not full: the byte goes to
     * `next_write`, which then advances and wraps to 0 at `size`.
     */
    method PutChar(c: bv8)
      requires Valid() && unitSize == 1 && !IsFull()
      modifies this, mem
      ensures Valid()
      ensures Contents() == old(Contents()) + [c]
      ensures mem[Header + old(nextWrite)] == c
      ensures forall j :: 0 <= j < mem.Length && j != Header + old(nextWrite) ==> mem[j] == old(mem[j])
      ensures count == old(count) + 1 && nextRead == old(nextRead)
      ensures nextWrite == if old(nextWrite) + 1 >= size then 0 else old(nextWrite) + 1
    {
      ghost var buf := mem[..];
      ghost var used := count * unitSize;
      WriteAdvance(size, unitSize, nextRead, count, nextWrite);
      var start := nextWrite;
      mem[Header + nextWrite] := c;
      count := count + 1;
      nextWrite := nextWrite + 1;
      if nextWrite >= size {
        nextWrite := 0;
      }
      RingAppend(buf, mem[..], size, nextRead, used, start, [c]);
    }

    /**
     * `libMU_FIFO_GetChar` on a byte FIFO that is not empty: the byte at
     * `next_read`, which then advances and wraps to 0 at `size`.
     */
    method GetChar() returns (c: bv8)
      requires Valid() && unitSize == 1 && !IsEmpty()
      modifies this
      ensures Valid()
      ensures c == old(Contents())[0] && Contents() == old(Contents())[1..]
      ensures c == mem[Header + old(nextRead)]
      ensures count == old(count) - 1 && nextWrite == old(nextWrite)
      ensures nextRead == if old(nextRead) + 1 >= size then 0 else old(nextRead) + 1
    {
      ReadAdvance(size, unitSize, nextRead, count, nextWrite);
      RingDrop(mem[..], size, nextRead, count * unitSize, 1);
      c := mem[Header + nextRead];
      count := count - 1;
      nextRead := nextRead + 1;
      if nextRead >= size {
        nextRead := 0;
      }
    }

    /**
     * `libMU_FIFO_PutData` on a FIFO that is not full: exactly `unit_size`
     * bytes are copied to `next_write`, which advances by one element.
     */
    method PutData(data: seq<bv8>)
      requires Valid() && |data| == unitSize && !IsFull()
      modifies this, mem
      ensures Valid()
      ensures Contents() == old(Contents()) + data
      ensures old(nextWrite) + unitSize <= size
      ensures forall j :: 0 <= j < unitSize ==> mem[Header + old(nextWrite) + j] == data[j]
      ensures forall j :: 0 <= j < mem.Length && !(Header + old(nextWrite) <= j < Header + old(nextWrite) + unitSize) ==>
        mem[j] == old(mem[j])
      ensures count == old(count) + 1 && nextRead == old(nextRead)
      ensures nextWrite == if old(nextWrite) + unitSize >= size then 0 else old(nextWrite) + unitSize
    {
      ghost var buf := mem[..];
      ghost var used := count * unitSize;
      WriteAdvance(size, unitSize, nextRead, count, nextWrite);
      var start := nextWrite;
      CopyIn(mem, Header + start, data);
      count := count + 1;
      nextWrite := start + unitSize;
      if nextWrite >= size {
        nextWrite := 0;
      }
      RingAppend(buf, mem[..], size, nextRead, used, start, data);
    }

    /**
     * `libMU_FIFO_GetData` on a FIFO that is not empty: exactly `unit_size`
     * bytes are copied out from `next_read`, which advances by one element.
     */
    method GetData() returns (data: seq<bv8>)
      requires Valid() && !IsEmpty()
      modifies this
      ensures Valid()
      ensures |data| == unitSize
      ensures data == old(Contents())[..unitSize] && Contents() == old(Contents())[unitSize..]
      ensures count == old(count) - 1 && nextWrite == old(nextWrite)
      ensures nextRead == if old(nextRead) + unitSize >= size then 0 else old(nextRead) + unitSize
    {
      HeadFits();
      MulMonotone(1, count, unitSize);
      ReadAdvance(size, unitSize, nextRead, count, nextWrite);
      RingDrop(mem[..], size, nextRead, count * unitSize, unitSize);
      var start := nextRead;
      data := [];
      var k := 0;
      while k < unitSize
        invariant 0 <= k <= unitSize
        invariant data == mem[Header + start..Header + start + k]
      {
        data := data + [mem[Header + start + k]];
        k := k + 1;
      }
      count := count - 1;
      nextRead := start + unitSize;
      if nextRead >= size {
        nextRead := 0;
      }
    }

    /** `libMU_FIFO_Reset`: empties the FIFO; size and unit size stay. */
    method Reset()
      requires Valid()
      modifies this
      ensures Valid() && Contents() == []
      ensures count == 0 && nextRead == 0 && nextWrite == 0
    {
      count, nextRead, nextWrite := 0, 0, 0;
    }

    /** When the FIFO is not full a whole element fits at `next_write`. */
    lemma TailFits()
      requires Valid() && count * unitSize < size
      ensures nextWrite + unitSize <= size
    {
      MultipleGap(nextWrite, size, unitSize);
    }

    /** A whole element can always be read at `next_read`. */
    lemma HeadFits()
      requires Valid()
      ensures nextRead + unitSize <= size
    {
      MultipleGap(nextRead, size, unitSize);
    }
  }

  /**
   * `libMU_FIFO_Initialize`: NULL for a NULL block, a unit below 1 byte or a
   * block smaller than the header, or when fewer than two elements fit;
   * otherwise an empty FIFO laid over `buffer`.
   */
  method Initialize(buffer: array?<bv8>, size: u32, unitSize: u32) returns (fifo: Queue?)
    requires buffer != null ==> size <= buffer.Length
    ensures fifo == null <==> buffer == null || UsableBytes(size, unitSize).None?
    ensures fifo != null ==> fresh(fifo) && fifo.Valid() && fifo.Contents() == []
    ensures fifo != null ==> fifo.mem == buffer && fifo.unitSize == unitSize && fifo.size == UsableBytes(size, unitSize).value
    ensures fifo != null ==> fifo.count == 0 && fifo.nextRead == 0 && fifo.nextWrite == 0
  {
    if buffer == null { return null; }
    if unitSize < 1 { return null; }
    if size < Header { return null; }
    var rest := size - Header;
    var unused := rest % unitSize;
    RoundDown(rest, unitSize);
    rest := rest - unused;
    if rest < 2 * unitSize { return null; }
    fifo := new Queue(buffer, rest, unitSize);
  }
}
