/**
 * General purpose inputs and outputs. A pin identifier packs the port
 * number into bits 28..31 and a mask of pins of that port into bits 0..27.
 * Rising and falling edges are detected against a status word saved per
 * port; the live port reading comes from the hardware and is a parameter.
 */
module Gpio {
  import opened Edges

  const PortPos: bv32 := 28
  const PinMask: bv32 := (1 << 28) - 1
  const Ports: nat := 7

  /** The identifier of pin `bit` of port `port`. */
  function Id(port: bv32, bit: bv32): (id: bv32)
    requires port < 7 && bit < 28
    ensures BitMask(id) == 1 << bit && PortOf(id) == port
  {
    (port << PortPos) | (1 << bit)
  }

  /** The identifier naming every pin of a port at once. */
  function WholePort(port: bv32): (id: bv32)
    requires port < 7
    ensures BitMask(id) == PinMask && PortOf(id) == port
  {
    (port << PortPos) | PinMask
  }

  /** The pins named by an identifier: the port number is stripped off. */
  function BitMask(pin: bv32): (m: bv32)
    ensures m >> PortPos == 0
  {
    pin & PinMask
  }

  /** The port number of an identifier. */
  function PortOf(pin: bv32): (p: bv32)
    ensures p < 16
  {
    pin >> PortPos
  }

  /** The state of the pins named by `pin` in a reading of their port. */
  function GetStatus(portReading: bv32, pin: bv32): (r: bv32)
    ensures r == Status(portReading, BitMask(pin))
  {
    portReading & BitMask(pin)
  }

  /** The status words saved per port between edge queries. */
  class PortStatus {
    const saved: array<bv32>

    predicate Valid()
      reads this
    {
      saved.Length == Ports
    }

    /** The saved words start cleared, as a zero-initialized global does. */
    constructor ()
      ensures Valid() && fresh(saved)
      ensures forall p :: 0 <= p < Ports ==> saved[p] == 0
    {
      saved := new bv32[Ports](_ => 0);
    }

    method RisingEdge(pin: bv32, portReading: bv32) returns (r: bv32)
      requires Valid() && PortOf(pin) < 7
      modifies saved
      ensures var p := PortOf(pin) as int;
        r == Rising(old(saved[p]), portReading, BitMask(pin)) &&
        saved[..] == old(saved[..])[p := Update(old(saved[p]), portReading, BitMask(pin))]
    {
      var p := pin >> PortPos;
      var mask := BitMask(pin);
      r := Rising(saved[p], portReading, mask);
      saved[p] := Update(saved[p], portReading, mask);
    }

    method FallingEdge(pin: bv32, portReading: bv32) returns (r: bv32)
      requires Valid() && PortOf(pin) < 7
      modifies saved
      ensures var p := PortOf(pin) as int;
        r == Falling(old(saved[p]), portReading, BitMask(pin)) &&
        saved[..] == old(saved[..])[p := Update(old(saved[p]), portReading, BitMask(pin))]
    {
      var p := pin >> PortPos;
      var mask := BitMask(pin);
      r := Falling(saved[p], portReading, mask);
      saved[p] := Update(saved[p], portReading, mask);
    }
  }

  /** An edge query on a single pin reports that pin or nothing. */
  lemma PinEdge(port: bv32, bit: bv32, state: bv32, portReading: bv32)
    requires port < 7 && bit < 28
    ensures var r := Rising(state, portReading, BitMask(Id(port, bit))); r == 0 || r == 1 << bit
  {
    var m := BitMask(Id(port, bit));
    assert m == 1 << bit;
    SinglePin(Rising(state, portReading, m), bit);
  }

  lemma SinglePin(r: bv32, bit: bv32)
    requires bit < 28 && r & !(1 << bit) == 0
    ensures r == 0 || r == 1 << bit
  {
  }
}
