/**
 * Access to the variables of a PLC (Siemens TCP/IP transfers). A transfer
 * record holds a window of the PLC memory: its first address, its length
 * in bytes, the bit it refers to, and the bytes. Sending copies a byte,
 * word or double word into the window in big-endian order when it fits;
 * receiving reads one out when the record is exactly that variable.
 * Status 0 means success and 1 an error, as in the source.
 */
module Plc {
  import opened Ints

  /** A status and the value delivered through the out-parameter (unchanged on error). */
  datatype Reply = Reply(status: nat, value: nat)

  /** A 16-bit value in network (big-endian) order. */
  function Be16(v: u16): (b: seq<u8>)
    ensures |b| == 2 && b[0] == v / 0x100
  {
    [v / 0x100, v % 0x100]
  }

  /** A 32-bit value in network order: the high half first, as `p[0] = htons(v >> 16)` writes it. */
  function Be32(v: u32): (b: seq<u8>)
    ensures |b| == 4 && b[..2] == Be16(v / 0x1_0000) && b[2..] == Be16(v % 0x1_0000)
  {
    Be16(v / 0x1_0000) + Be16(v % 0x1_0000)
  }

  /** The value of two bytes in network order. */
  function FromBe16(b: seq<u8>): (v: u16)
    requires |b| == 2
    ensures v / 0x100 == b[0] && v % 0x100 == b[1]
  {
    var v := b[0] as int * 0x100 + b[1] as int;
    DivModUnique(v, 0x100, b[0], b[1]);
    v
  }

  /** The value of four bytes in network order. */
  function FromBe32(b: seq<u8>): (v: u32)
    requires |b| == 4
    ensures v / 0x1_0000 == FromBe16(b[..2]) && v % 0x1_0000 == FromBe16(b[2..])
  {
    var hi, lo := FromBe16(b[..2]), FromBe16(b[2..]);
    DivModUnique(hi * 0x1_0000 + lo, 0x1_0000, hi, lo);
    hi * 0x1_0000 + lo
  }

  lemma Be16RoundTrip(v: u16)
    ensures FromBe16(Be16(v)) == v
  {
    var b := Be16(v);
    DivModUnique(v, 0x100, b[0], b[1]);
  }

  lemma {:induction false} Be16Injective(b: seq<u8>)
    requires |b| == 2
    ensures Be16(FromBe16(b)) == b
  {
  }

  lemma Be32RoundTrip(v: u32)
    ensures FromBe32(Be32(v)) == v
  {
    var b := Be32(v);
    Be16RoundTrip(v / 0x1_0000);
    Be16RoundTrip(v % 0x1_0000);
    DivModUnique(v, 0x1_0000, v / 0x1_0000, v % 0x1_0000);
  }

  lemma {:induction false} Be32Injective(b: seq<u8>)
    requires |b| == 4
    ensures Be32(FromBe32(b)) == b
  {
    var v := FromBe32(b);
    Be16Injective(b[..2]);
    Be16Injective(b[2..]);
    assert b == b[..2] + b[2..];
  }

  /** `s` with the bytes from `off` on replaced by `b`. */
  function Splice(s: seq<u8>, off: nat, b: seq<u8>): (r: seq<u8>)
    requires off + |b| <= |s|
    ensures |r| == |s| && r[off..off + |b|] == b
    ensures r[..off] == s[..off] && r[off + |b|..] == s[off + |b|..]
  {
    s[..off] + b + s[off + |b|..]
  }

  /**
   * The window guard of the Send functions as written: the end of the
   * variable, `address + sizeof(type)`, is an unsigned sum stored back into
   * an `int`, so it wraps to a negative number at the top of the range.
   */
  predicate SendGuardAsWritten(first: i32, numBytes: nat, address: i32, width: nat)
    requires width <= 4
  {
    first <= address && first + numBytes >= ToInt32(address + width)
  }

  /** The intended guard: the whole variable lies inside the window. */
  predicate SendGuard(first: i32, numBytes: nat, address: i32, width: nat)
  {
    first <= address && address + width <= first + numBytes
  }

  /** Both guards agree whenever the end of the variable fits in an `int`. */
  lemma SendGuardsAgree(first: i32, numBytes: nat, address: i32, width: nat)
    requires width <= 4 && address + width < 0x8000_0000
    ensures SendGuardAsWritten(first, numBytes, address, width) == SendGuard(first, numBytes, address, width)
  {
  }

  /** At the top of the address range the written guard lets a byte through far outside a one-byte window at 0. */
  lemma SendGuardWraps()
    ensures SendGuardAsWritten(0, 1, 0x7FFF_FFFF, 1)
    ensures !SendGuard(0, 1, 0x7FFF_FFFF, 1)
  {
  }

  /**
   * The double word as `Receive_MD` assembles it on the little-endian
   * target: the first big-endian half goes to `val[0]`, the LOW half.
   */
  function ReadDoubleAsWritten(b: seq<u8>): (v: u32)
    requires |b| == 4
    ensures v % 0x1_0000 == FromBe16(b[..2]) && v / 0x1_0000 == FromBe16(b[2..])
  {
    var lo, hi := FromBe16(b[..2]), FromBe16(b[2..]);
    DivModUnique(hi * 0x1_0000 + lo, 0x1_0000, hi, lo);
    hi * 0x1_0000 + lo
  }

  /** Reading back what `Send_MD` wrote swaps the two halves. */
  lemma DoubleHalvesSwapped(v: u32)
    ensures ReadDoubleAsWritten(Be32(v)) == v % 0x1_0000 * 0x1_0000 + v / 0x1_0000
  {
    Be16RoundTrip(v / 0x1_0000);
    Be16RoundTrip(v % 0x1_0000);
  }

  lemma DoubleSwapExample()
    ensures ReadDoubleAsWritten(Be32(0x0001_0002)) == 0x0002_0001
  {
    DoubleHalvesSwapped(0x0001_0002);
  }

  /** A transfer record: the window of PLC memory starting at `address`, and the bit it refers to. */
  class Transfer {
    var address: i32
    var numBit: int
    const data: array<u8>

    /** The end of the window, `address + num_bytes`, is a valid `int`. */
    predicate Valid()
      reads this
    {
      address + data.Length < 0x8000_0000
    }

    constructor (address: i32, numBit: int, bytes: seq<u8>)
      requires address + |bytes| < 0x8000_0000
      ensures Valid() && fresh(data)
      ensures this.address == address && this.numBit == numBit && data[..] == bytes
    {
      this.address := address;
      this.numBit := numBit;
      data := new u8[|bytes|](i requires 0 <= i < |bytes| => bytes[i]);
    }

    predicate Fits(address: i32, width: nat)
      reads this
    {
      SendGuard(this.address, data.Length, address, width)
    }

    method SendByte(address: i32, value: u8) returns (status: nat)
      requires Valid()
      modifies data
      ensures status == if Fits(address, 1) then 0 else 1
      ensures Fits(address, 1) ==> data[..] == Splice(old(data[..]), address - this.address, [value])
      ensures !Fits(address, 1) ==> data[..] == old(data[..])
    {
      if Fits(address, 1) {
        data[address - this.address] := value;
        return 0;
      }
      return 1;
    }

    method SendWord(address: i32, value: u16) returns (status: nat)
      requires Valid()
      modifies data
      ensures status == if Fits(address, 2) then 0 else 1
      ensures Fits(address, 2) ==> data[..] == Splice(old(data[..]), address - this.address, Be16(value))
      ensures !Fits(address, 2) ==> data[..] == old(data[..])
    {
      if Fits(address, 2) {
        var off := address - this.address;
        var b := Be16(value);
        data[off] := b[0];
        data[off + 1] := b[1];
        return 0;
      }
      return 1;
    }

    method SendDouble(address: i32, value: u32) returns (status: nat)
      requires Valid()
      modifies data
      ensures status == if Fits(address, 4) then 0 else 1
      ensures Fits(address, 4) ==> data[..] == Splice(old(data[..]), address - this.address, Be32(value))
      ensures !Fits(address, 4) ==> data[..] == old(data[..])
    {
      if Fits(address, 4) {
        var off := address - this.address;
        var b := Be32(value);
        data[off] := b[0];
        data[off + 1] := b[1];
        data[off + 2] := b[2];
        data[off + 3] := b[3];
        return 0;
      }
      return 1;
    }

    /** Succeeds only for this bit of this address with some data, delivering the first byte. */
    function ReceiveBit(address: int, bit: int, value: u8): (r: Reply)
      reads this, data
      ensures r.status == 0 <==> numBit == bit && this.address == address && data.Length > 0
      ensures r.status != 0 ==> r == Reply(1, value)
      ensures r.status == 0 ==> r.value == data[0]
    {
      if numBit == bit && this.address == address && data.Length > 0 then Reply(0, data[0])
      else Reply(1, value)
    }

    /** The record is exactly the variable of `width` bytes at `address`, not a single bit of it. */
    predicate Holds(address: int, width: nat)
      reads this
    {
      numBit > 7 && this.address == address && data.Length == width
    }

    function ReceiveByte(address: int, value: u8): (r: Reply)
      reads this, data
      ensures r.status == 0 <==> Holds(address, 1)
      ensures r.status != 0 ==> r == Reply(1, value)
      ensures r.status == 0 ==> [r.value] == data[..]
    {
      if Holds(address, 1) then Reply(0, data[0]) else Reply(1, value)
    }

    function ReceiveWord(address: int, value: u16): (r: Reply)
      reads this, data
      ensures r.status == 0 <==> Holds(address, 2)
      ensures r.status != 0 ==> r == Reply(1, value)
      ensures r.status == 0 ==> r.value < 0x1_0000 && Be16(r.value) == data[..]
    {
      if Holds(address, 2) then
        Be16Injective(data[..]);
        Reply(0, FromBe16(data[..]))
      else Reply(1, value)
    }

    /** The double word with its halves in network order (see `ReadDoubleAsWritten` for the code as written). */
    function ReceiveDouble(address: int, value: u32): (r: Reply)
      reads this, data
      ensures r.status == 0 <==> Holds(address, 4)
      ensures r.status != 0 ==> r == Reply(1, value)
      ensures r.status == 0 ==> r.value < 0x1_0000_0000 && Be32(r.value) == data[..]
    {
      if Holds(address, 4) then
        Be32Injective(data[..]);
        Reply(0, FromBe32(data[..]))
      else Reply(1, value)
    }
  }

  /**
   * A word sent at the first address of a record that is exactly one word
   * (its bytes are those of `before` with the word spliced in at offset 0,
   * the state `SendWord` leaves) is received back unchanged.
   */
  lemma WordRoundTrip(t: Transfer, before: seq<u8>, v: u16, value: u16)
    requires t.numBit > 7 && |before| == t.data.Length == 2
    requires t.data[..] == Splice(before, 0, Be16(v))
    ensures t.ReceiveWord(t.address, value) == Reply(0, v)
  {
    SpliceWhole(before, Be16(v));
    Be16RoundTrip(v);
  }

  /** The same for a double word sent at the first address of a four-byte record. */
  lemma DoubleRoundTrip(t: Transfer, before: seq<u8>, v: u32, value: u32)
    requires t.numBit > 7 && |before| == t.data.Length == 4
    requires t.data[..] == Splice(before, 0, Be32(v))
    ensures t.ReceiveDouble(t.address, value) == Reply(0, v)
  {
    SpliceWhole(before, Be32(v));
    Be32RoundTrip(v);
  }

  /** `Send_MW` followed by `Receive_MW` at the first address of a one-word record: both succeed and the word comes back. */
  method SendReceiveWord(t: Transfer, v: u16, value: u16) returns (status: nat, r: Reply)
    requires t.Valid() && t.numBit > 7 && t.data.Length == 2
    modifies t.data
    ensures status == 0 && r == Reply(0, v)
  {
    ghost var before := t.data[..];
    status := t.SendWord(t.address, v);
    WordRoundTrip(t, before, v, value);
    r := t.ReceiveWord(t.address, value);
  }

  /** `Send_MD` followed by the corrected `Receive_MD` at the first address of a double-word record. */
  method SendReceiveDouble(t: Transfer, v: u32, value: u32) returns (status: nat, r: Reply)
    requires t.Valid() && t.numBit > 7 && t.data.Length == 4
    modifies t.data
    ensures status == 0 && r == Reply(0, v)
  {
    ghost var before := t.data[..];
    status := t.SendDouble(t.address, v);
    DoubleRoundTrip(t, before, v, value);
    r := t.ReceiveDouble(t.address, value);
  }

  /** Sending at the first address of a record fills the whole record. */
  lemma {:induction false} SpliceWhole(s: seq<u8>, b: seq<u8>)
    requires |s| == |b|
    ensures Splice(s, 0, b) == b
  {
  }
}
