/**
 * The state of the basic-option TS 27.010 receiver of `libMU/ts27010` as a
 * value: the channel table, the decoder statics, the UA/DM counters, the
 * lost-byte counter, the ISR transmit FIFO and the calls handed to the
 * serial driver. `Step` is one call of `libMU_TS27010_BasicRxStateMachine`.
 */
module MuxModel {
  import opened Ints
  import Crc8
  import Fifo
  import opened MuxFrames

  /** A FreeRTOS byte queue: `xQueueSendFromISR` fails once `capacity` bytes wait. */
  datatype RxQueue = RxQueue(capacity: nat, items: seq<bv8>)

  /** `libMU_TS27010_DLCInfo_t`; `connected` and `ui_enabled` only ever hold 0 or 1. */
  datatype Channel = Channel(connected: bool, uiEnabled: bool, mtu: u16, queue: Option<RxQueue>)

  /** `TS27010_BasicState_t`. */
  datatype RxState = WaitingAddress | ExtAddress | Command | Length | LengthExt | Payload | Checksum | FlagExpected

  /**
   * The receiver statics. `dest` says whether `fsm_dlci_queue` is the queue
   * of channel `dlci >> 2` (true) or NULL (false); `data` is `fsm_data`.
   */
  datatype Decoder = Decoder(
    state: RxState, packetSize: u16, numberReceived: u16, dlci: bv8, cr: bv8,
    dest: bool, data: seq<bv8>, fcs: bv8, uiEnabled: bool)

  /** A request handed to the serial driver. */
  datatype SerialCall =
    | SendBuffer(queue: Fifo.Queue, len: nat)
    | SendBufferHP(queue: Fifo.Queue, len: nat)
    | SendBufferHPFromIsr(len: nat)
    | RestoreRxHandler
    | StartSending

  datatype Mux = Mux(
    channels: seq<Channel>, dec: Decoder, uaReceived: bv8, dmReceived: bv8,
    dataLost: u32, isr: seq<bv8>, log: seq<SerialCall>)

  /** The channel an address byte names: `dlci >> 2`. */
  function Index(dlci: bv8): (k: nat)
    ensures k < MaxChannels
  {
    (dlci >> 2) as int
  }

  /** A byte's unsigned value. */
  function Value(c: bv8): (v: nat)
    ensures v < 0x100
  {
    c as int
  }

  /** The control byte without its P/F bit. */
  function Base(cr: bv8): bv8
  {
    cr & !PfMask
  }

  /** What the receiver statics keep true between bytes. */
  ghost predicate DecoderInv(d: Decoder)
  {
    && |d.data| == Mtu
    && (d.state == LengthExt ==> d.packetSize < 128 && d.numberReceived == 0)
    && (d.state == Payload ==> d.numberReceived < d.packetSize < 0x8000)
    && (d.state == Payload && d.dest ==> d.packetSize <= Mtu)
  }

  /** What the multiplexer keeps true between bytes: a live destination has a queue. */
  ghost predicate WellFormed(m: Mux)
  {
    && |m.channels| == MaxChannels && DecoderInv(m.dec)
    && (m.dec.dest ==> m.channels[Index(m.dec.dlci)].queue.Some?)
  }

  // ---------------------------------------------------------------------
  // Reception queues

  /**
   * `xQueueSendFromISR` for each byte in turn: a byte that does not fit
   * increments `libMU_Serial_DataLost` (32 bits, wrapping).
   */
  function Deliver(q: RxQueue, lost: u32, bytes: seq<bv8>): (RxQueue, u32)
    decreases |bytes|
  {
    if bytes == [] then (q, lost)
    else if |q.items| < q.capacity then Deliver(q.(items := q.items + [bytes[0]]), lost, bytes[1..])
    else Deliver(q, Wrap32(lost + 1), bytes[1..])
  }

  /**
   * Since nothing is removed while the handler runs, the queue takes the
   * bytes that fit, in order, and every other byte counts as lost.
   */
  lemma {:induction false} DeliverTakesPrefix(q: RxQueue, lost: u32, bytes: seq<bv8>)
    ensures var room := if |q.items| < q.capacity then q.capacity - |q.items| else 0;
      var taken := Min(room, |bytes|);
      var (q', lost') := Deliver(q, lost, bytes);
      && q'.capacity == q.capacity
      && q'.items == q.items + bytes[..taken]
      && lost' == Wrap32(lost + (|bytes| - taken))
    decreases |bytes|
  {
    if bytes != [] {
      if |q.items| < q.capacity {
        var q1 := q.(items := q.items + [bytes[0]]);
        DeliverTakesPrefix(q1, lost, bytes[1..]);
        var room := q.capacity - |q.items|;
        var taken := Min(room, |bytes|);
        assert q.items + [bytes[0]] + bytes[1..][..taken - 1] == q.items + bytes[..taken];
      } else {
        DeliverTakesPrefix(q, Wrap32(lost + 1), bytes[1..]);
        WrapAdd(lost + 1, |bytes| - 1);
      }
    }
  }

  /** Wrapping an intermediate sum does not change the wrapped total. */
  lemma WrapAdd(a: nat, b: nat)
    ensures Wrap32(Wrap32(a) + b) == Wrap32(a + b)
  {
  }

  /** The bytes of a finished frame go to the queue of channel `k`. */
  function DeliverTo(m: Mux, k: nat, bytes: seq<bv8>): (r: Mux)
    requires k < |m.channels| && m.channels[k].queue.Some?
    ensures |r.channels| == |m.channels| && r.dec == m.dec
    ensures forall j :: 0 <= j < |m.channels| && j != k ==> r.channels[j] == m.channels[j]
    ensures r.channels[k].queue.Some? && r.channels[k].connected == m.channels[k].connected
  {
    var (q, lost) := Deliver(m.channels[k].queue.value, m.dataLost, bytes);
    m.(channels := m.channels[k := m.channels[k].(queue := Some(q))], dataLost := lost)
  }

  // ---------------------------------------------------------------------
  // Control commands

  /**
   * `libMU_TS27010_ManageMuxLowLevel(dlci, cr)`: the reply frames are
   * appended to the ISR FIFO, and only the replies to SABM and to a DISC on
   * channel 0 are handed to the serial driver.
   */
  function Manage(m: Mux, dlci: bv8, cr: bv8): (r: Mux)
    requires |m.channels| == MaxChannels
    ensures |r.channels| == MaxChannels && r.dec == m.dec
  {
    var k := Index(dlci);
    var ch := m.channels[k];
    if cr == Disc then
      var reply := if ch.connected then Ua | PfMask else DmResp | PfMask;
      var log := if k == 0 then m.log + [SendBufferHPFromIsr(5), RestoreRxHandler] else m.log;
      m.(channels := m.channels[k := ch.(connected := false)],
         isr := m.isr + CommandFrame(dlci ^ CrMask, reply), log := log)
    else if cr == Sabm then
      m.(channels := m.channels[k := ch.(connected := true)],
         isr := m.isr + CommandFrame(dlci ^ CrMask, Ua | PfMask), log := m.log + [SendBufferHPFromIsr(5)])
    else if cr == Ua || cr == Ua | PfMask then
      m.(uaReceived := m.uaReceived + 1)
    else if cr == DmResp || cr == DmResp | PfMask then
      m.(dmReceived := m.dmReceived + 1)
    else m
  }

  /**
   * The effect of each control byte, and that nothing else changes: SABM
   * connects and answers UA|PF; DISC disconnects and answers UA|PF when
   * connected, DM|PF otherwise; UA and DM (with or without P/F) count.
   */
  lemma ManageEffects(m: Mux, dlci: bv8, cr: bv8)
    requires |m.channels| == MaxChannels
    ensures var r := Manage(m, dlci, cr); var k := Index(dlci);
      && (forall j :: 0 <= j < MaxChannels && j != k ==> r.channels[j] == m.channels[j])
      && r.channels[k] == m.channels[k].(connected :=
           if cr == Sabm then true else if cr == Disc then false else m.channels[k].connected)
      && r.isr == m.isr + (if cr == Sabm || (cr == Disc && m.channels[k].connected) then CommandFrame(dlci ^ CrMask, Ua | PfMask)
                           else if cr == Disc then CommandFrame(dlci ^ CrMask, DmResp | PfMask) else [])
      && r.log == m.log + (if cr == Sabm then [SendBufferHPFromIsr(5)]
                           else if cr == Disc && k == 0 then [SendBufferHPFromIsr(5), RestoreRxHandler] else [])
      && r.uaReceived == m.uaReceived + (if cr == Ua || cr == Ua | PfMask then 1 else 0)
      && r.dmReceived == m.dmReceived + (if cr == DmResp || cr == DmResp | PfMask then 1 else 0)
      && r.dataLost == m.dataLost && r.dec == m.dec
  {
  }

  // ---------------------------------------------------------------------
  // The receive state machine, one state at a time

  /** `WAITING_ADDRESS`: flags are skipped; an address with EA captures the channel. */
  function AddressDec(channels: seq<Channel>, d: Decoder, c: bv8): Decoder
    requires |channels| == MaxChannels
  {
    if c == Flag then d
    else if c & EaMask == EaMask then
      var k := Index(c);
      d.(fcs := Crc8.Update(0xFF, c), dlci := c, dest := channels[k].queue.Some?,
         uiEnabled := channels[k].uiEnabled, state := Command)
    else d.(fcs := Crc8.Update(0xFF, c), state := ExtAddress)
  }

  /** `EXTADDRESS`: extended addresses are not supported; the frame goes nowhere. */
  function ExtAddressDec(d: Decoder, c: bv8): Decoder
  {
    d.(dlci := 0xFF, dest := false, uiEnabled := false, state := Command)
  }

  /** `CMD`: UI and UIH frames carry a length field, every other frame goes to the FCS. */
  function CommandDec(d: Decoder, c: bv8): Decoder
  {
    var next := if Base(c) == Ui || Base(c) == Uih then Length else Checksum;
    d.(fcs := Crc8.Update(d.fcs, c), cr := c, state := next)
  }

  /** `LEN`: the low seven bits of the length; over 128 bytes the frame is discarded. */
  function LengthDec(d: Decoder, c: bv8): Decoder
  {
    var size := Value(c) / 2;
    var next := if c & EaMask == EaMask then (if size != 0 then Payload else Checksum) else LengthExt;
    d.(fcs := Crc8.Update(d.fcs, c), packetSize := size, numberReceived := 0,
       dest := d.dest && size <= Mtu, state := next)
  }

  /**
   * `LEN_EXT`: the high byte, `packet_size |= c << 7`; the low part is below
   * 128, so the OR adds.
   */
  function LengthExtDec(d: Decoder, c: bv8): Decoder
    requires d.packetSize < 128
  {
    var size := d.packetSize + Value(c) * 128;
    d.(fcs := Crc8.Update(d.fcs, c), packetSize := size,
       dest := d.dest && size <= Mtu, state := if size != 0 then Payload else Checksum)
  }

  /** `DATA`: the byte is kept (and checksummed when UIH) only for a live destination. */
  function PayloadDec(d: Decoder, c: bv8): Decoder
    requires d.numberReceived < d.packetSize && (d.dest ==> d.numberReceived < |d.data|)
  {
    var n := d.numberReceived + 1;
    d.(data := if d.dest then d.data[d.numberReceived := c] else d.data,
       fcs := if d.dest && d.uiEnabled then Crc8.Update(d.fcs, c) else d.fcs,
       numberReceived := n, state := if n == d.packetSize then Checksum else Payload)
  }

  /** `FCS`: `fsm_FCS ^ c` must be 0xFF, otherwise the frame is discarded. */
  function ChecksumDec(d: Decoder, c: bv8): Decoder
  {
    d.(dest := d.dest && d.fcs ^ c == 0xFF, state := FlagExpected)
  }

  /** Every state but FLAG_EXPECTED changes the receiver statics only. */
  function DecoderStep(channels: seq<Channel>, d: Decoder, c: bv8): Decoder
    requires |channels| == MaxChannels && DecoderInv(d) && d.state != FlagExpected
  {
    match d.state
    case WaitingAddress => AddressDec(channels, d, c)
    case ExtAddress => ExtAddressDec(d, c)
    case Command => CommandDec(d, c)
    case Length => LengthDec(d, c)
    case LengthExt => LengthExtDec(d, c)
    case Payload => PayloadDec(d, c)
    case Checksum => ChecksumDec(d, c)
  }

  function OnAddress(m: Mux, c: bv8): (r: Mux)
    requires WellFormed(m) && m.dec.state == WaitingAddress
    ensures WellFormed(r)
  {
    m.(dec := AddressDec(m.channels, m.dec, c))
  }

  function OnExtAddress(m: Mux, c: bv8): (r: Mux)
    requires WellFormed(m) && m.dec.state == ExtAddress
    ensures WellFormed(r)
  {
    m.(dec := ExtAddressDec(m.dec, c))
  }

  function OnCommand(m: Mux, c: bv8): (r: Mux)
    requires WellFormed(m) && m.dec.state == Command
    ensures WellFormed(r)
  {
    m.(dec := CommandDec(m.dec, c))
  }

  function OnLength(m: Mux, c: bv8): (r: Mux)
    requires WellFormed(m) && m.dec.state == Length
    ensures WellFormed(r)
  {
    m.(dec := LengthDec(m.dec, c))
  }

  function OnLengthExt(m: Mux, c: bv8): (r: Mux)
    requires WellFormed(m) && m.dec.state == LengthExt
    ensures WellFormed(r)
  {
    m.(dec := LengthExtDec(m.dec, c))
  }

  function OnPayload(m: Mux, c: bv8): (r: Mux)
    requires WellFormed(m) && m.dec.state == Payload
    ensures WellFormed(r)
  {
    m.(dec := PayloadDec(m.dec, c))
  }

  function OnChecksum(m: Mux, c: bv8): (r: Mux)
    requires WellFormed(m) && m.dec.state == Checksum
    ensures WellFormed(r)
  {
    m.(dec := ChecksumDec(m.dec, c))
  }

  /**
   * What the closing flag does outside the decoder: a frame with a non-zero
   * `packet_size` on a connected channel delivers the received bytes, at
   * most the 128 that `fsm_data` holds; any other frame is a control command.
   */
  function FrameEnd(m: Mux): (r: Mux)
    requires WellFormed(m)
    ensures WellFormed(r) && r.dec == m.dec
  {
    var d := m.dec;
    var k := Index(d.dlci);
    if d.packetSize > 0 && m.channels[k].connected then
      if d.dest then DeliverTo(m, k, d.data[..Min(d.numberReceived, Mtu)]) else m
    else Manage(m, d.dlci, d.cr)
  }

  /** `FLAG_EXPECTED`: only the closing flag ends the frame; either way the destination is dropped. */
  function OnFlag(m: Mux, c: bv8): (r: Mux)
    requires WellFormed(m) && m.dec.state == FlagExpected
    ensures WellFormed(r)
  {
    var d := m.dec;
    if c == Flag then FrameEnd(m).(dec := d.(dest := false, state := WaitingAddress))
    else m.(dec := d.(dest := false))
  }

  /** `libMU_TS27010_BasicRxStateMachine(c)`. */
  function Step(m: Mux, c: bv8): (r: Mux)
    requires WellFormed(m)
    ensures WellFormed(r)
  {
    match m.dec.state
    case WaitingAddress => OnAddress(m, c)
    case ExtAddress => OnExtAddress(m, c)
    case Command => OnCommand(m, c)
    case Length => OnLength(m, c)
    case LengthExt => OnLengthExt(m, c)
    case Payload => OnPayload(m, c)
    case Checksum => OnChecksum(m, c)
    case FlagExpected => OnFlag(m, c)
  }

  /** Before the closing flag a byte changes the receiver statics only. */
  lemma StepIsDecoderStep(m: Mux, c: bv8)
    requires WellFormed(m) && m.dec.state != FlagExpected
    ensures Step(m, c) == m.(dec := DecoderStep(m.channels, m.dec, c))
  {
  }

  /** The state machine fed byte after byte. */
  function Steps(m: Mux, s: seq<bv8>): (r: Mux)
    requires WellFormed(m)
    ensures WellFormed(r)
    decreases |s|
  {
    if s == [] then m else Steps(Step(m, s[0]), s[1..])
  }

  lemma {:induction false} StepsAppend(m: Mux, a: seq<bv8>, b: seq<bv8>)
    requires WellFormed(m)
    ensures Steps(m, a + b) == Steps(Steps(m, a), b)
    decreases |a|
  {
    if a == [] {
      assert a + b == b;
    } else {
      assert (a + b)[1..] == a[1..] + b;
      StepsAppend(Step(m, a[0]), a[1..], b);
    }
  }

  // ---------------------------------------------------------------------
  // Properties of the receiver

  /**
   * States LEN and LEN_EXT read back the length field `Send` writes, for
   * every length below 2^15; a length over 128 drops the destination and
   * nothing but the decoder changes.
   */
  lemma LengthFieldRoundTrip(m: Mux, n: nat)
    requires WellFormed(m) && m.dec.state == Length && n < 0x8000
    ensures var r := Steps(m, LenField(n));
      && r.dec == m.dec.(packetSize := n, numberReceived := 0,
                         state := if n == 0 then Checksum else Payload,
                         dest := m.dec.dest && n <= Mtu,
                         fcs := Crc8.Fold(m.dec.fcs, LenField(n)))
      && r.(dec := m.dec) == m
  {
    var f := LenField(n);
    LenFieldDecodes(n);
    var m1 := OnLength(m, f[0]);
    Crc8.FoldSingle(m.dec.fcs, f[0]);
    if n > 0x7F {
      var m2 := OnLengthExt(m1, f[1]);
      assert f == [f[0]] + [f[1]];
      StepsCons(m, f[0], [f[1]]);
      StepsOne(m1, f[1]);
      Crc8.FoldSnoc(m.dec.fcs, [f[0]], f[1]);
    } else {
      assert f == [f[0]];
      StepsOne(m, f[0]);
    }
  }

  lemma StepsCons(m: Mux, c: bv8, s: seq<bv8>)
    requires WellFormed(m)
    ensures Steps(m, [c] + s) == Steps(Step(m, c), s)
  {
    assert ([c] + s)[1..] == s;
  }

  lemma StepsOne(m: Mux, c: bv8)
    requires WellFormed(m)
    ensures Steps(m, [c]) == Step(m, c)
  {
    StepsCons(m, c, []);
    assert [c] + [] == [c];
  }

  /**
   * A flag followed by a `PrepareCMD` frame whose control byte is neither
   * UI nor UIH, arriving with `packet_size` 0: the flags are skipped, the
   * address is captured, the FCS check keeps the destination, and the
   * closing flag runs `ManageMuxLowLevel(address | EA, cmd)` once and
   * returns to WAITING_ADDRESS.
   */
  lemma CommandFrameReachesManage(m: Mux, address: bv8, cmd: bv8)
    requires WellFormed(m) && m.dec.state == WaitingAddress && m.dec.packetSize == 0
    requires address | EaMask != Flag && Base(cmd) != Ui && Base(cmd) != Uih
    ensures var a := address | EaMask; var f := [Flag] + CommandFrame(address, cmd);
      && Steps(m, f[..5]).dec.state == FlagExpected
      && Steps(m, f[..5]).dec.dest == m.channels[Index(a)].queue.Some?
      && Steps(m, f).dec.state == WaitingAddress
      && Steps(m, f).(dec := m.dec) == Manage(m, a, cmd)
  {
    var a := address | EaMask;
    var f := [Flag] + CommandFrame(address, cmd);
    var checked := CommandPrefix(m, address, cmd);
    CommandBytes(address, cmd);
    StepsAppend(m, f[..5], [Flag]);
    StepsOne(checked, Flag);
    ManageIgnoresDecoder(m, checked.dec, a, cmd);
  }

  /** Control commands never look at the decoder. */
  lemma ManageIgnoresDecoder(m: Mux, d: Decoder, dlci: bv8, cr: bv8)
    requires |m.channels| == MaxChannels
    ensures Manage(m.(dec := d), dlci, cr) == Manage(m, dlci, cr).(dec := d)
  {
  }

  /** Delivery never looks at the decoder. */
  lemma DeliverToIgnoresDecoder(m: Mux, d: Decoder, k: nat, bytes: seq<bv8>)
    requires k < |m.channels| && m.channels[k].queue.Some?
    ensures DeliverTo(m.(dec := d), k, bytes) == DeliverTo(m, k, bytes).(dec := d)
  {
  }

  /** The first five bytes of a flag and a command frame, as the decoder sees them. */
  lemma CommandPrefix(m: Mux, address: bv8, cmd: bv8) returns (checked: Mux)
    requires WellFormed(m) && m.dec.state == WaitingAddress
    requires address | EaMask != Flag && Base(cmd) != Ui && Base(cmd) != Uih
    ensures var a := address | EaMask; var f := [Flag] + CommandFrame(address, cmd);
      && WellFormed(checked) && checked == Steps(m, f[..5])
      && checked.(dec := m.dec) == m
      && checked.dec == m.dec.(state := FlagExpected, dlci := a, cr := cmd,
                               dest := m.channels[Index(a)].queue.Some?,
                               uiEnabled := m.channels[Index(a)].uiEnabled,
                               fcs := Crc8.Fold(0xFF, [a, cmd]))
  {
    var a := address | EaMask;
    var x := Crc8.Fcs([a, cmd]);
    assert a & EaMask == EaMask;
    var m3 := OnAddress(m, a);
    var m4 := OnCommand(m3, cmd);
    CommandFcs(a, cmd);
    checked := OnChecksum(m4, x);
    CommandBytes(address, cmd);
    StepsCons(m, Flag, [Flag] + ([a] + ([cmd] + [x])));
    StepsCons(m, Flag, [a] + ([cmd] + [x]));
    StepsCons(m, a, [cmd] + [x]);
    StepsCons(m3, cmd, [x]);
    StepsOne(m4, x);
  }

  lemma CommandFcs(a: bv8, cmd: bv8)
    ensures Crc8.Update(Crc8.Update(0xFF, a), cmd) == Crc8.Fold(0xFF, [a, cmd])
    ensures Crc8.Fold(0xFF, [a, cmd]) ^ Crc8.Fcs([a, cmd]) == 0xFF
  {
    Crc8.FoldSingle(0xFF, a);
    Crc8.FoldSnoc(0xFF, [a], cmd);
    assert [a] + [cmd] == [a, cmd];
  }

  lemma CommandBytes(address: bv8, cmd: bv8)
    ensures var a := address | EaMask; var f := [Flag] + CommandFrame(address, cmd);
      && f[..5] == [Flag] + ([Flag] + ([a] + ([cmd] + [Crc8.Fcs([a, cmd])])))
      && f == f[..5] + [Flag]
  {
  }

  /**
   * `packet_size` survives a command frame: on a connected channel a later
   * command frame with a stale non-zero `packet_size` never reaches
   * `ManageMuxLowLevel` and instead delivers the stale `fsm_data` bytes.
   */
  lemma StaleLengthSkipsManage(m: Mux, address: bv8, cmd: bv8)
    requires WellFormed(m) && m.dec.state == WaitingAddress && m.dec.packetSize > 0
    requires address | EaMask != Flag && Base(cmd) != Ui && Base(cmd) != Uih
    requires m.channels[Index(address | EaMask)].connected
    ensures var k := Index(address | EaMask); var f := [Flag] + CommandFrame(address, cmd);
      Steps(m, f).(dec := m.dec) ==
        if m.channels[k].queue.Some? then DeliverTo(m, k, m.dec.data[..Min(m.dec.numberReceived, Mtu)]) else m
  {
    var k := Index(address | EaMask);
    var f := [Flag] + CommandFrame(address, cmd);
    var checked := CommandPrefix(m, address, cmd);
    CommandBytes(address, cmd);
    StepsAppend(m, f[..5], [Flag]);
    StepsOne(checked, Flag);
    if m.channels[k].queue.Some? {
      DeliverToIgnoresDecoder(m, checked.dec, k, m.dec.data[..Min(m.dec.numberReceived, Mtu)]);
    }
  }

  /** An FCS that does not complement the register drops the destination. */
  lemma ChecksumMismatchDiscards(m: Mux, c: bv8)
    requires WellFormed(m) && m.dec.state == Checksum && m.dec.fcs ^ c != 0xFF
    ensures !Step(m, c).dec.dest && Step(m, c).dec.state == FlagExpected
  {
  }

  /** A UI/UIH frame whose destination has been dropped. */
  ghost predicate Discarding(m: Mux)
  {
    && !m.dec.dest
    && m.dec.state in {Length, LengthExt, Payload, Checksum, FlagExpected}
    && (Base(m.dec.cr) == Ui || Base(m.dec.cr) == Uih)
  }

  /**
   * Once a data frame is discarded (length over 128, FCS mismatch or no
   * queue), no byte until the closing flag changes anything outside the
   * decoder: no queue, counter, reply or serial call.
   */
  lemma DiscardedFrameChangesNothing(m: Mux, c: bv8)
    requires WellFormed(m) && Discarding(m)
    ensures var r := Step(m, c);
      r.(dec := m.dec) == m && (Discarding(r) || r.dec.state == WaitingAddress)
  {
    if m.dec.state == FlagExpected {
      ManageIgnoresDataFrames(m, m.dec.dlci, m.dec.cr);
    }
  }

  /** A UI or UIH control byte is none of the commands `ManageMuxLowLevel` acts on. */
  lemma ManageIgnoresDataFrames(m: Mux, dlci: bv8, cr: bv8)
    requires |m.channels| == MaxChannels && (Base(cr) == Ui || Base(cr) == Uih)
    ensures Manage(m, dlci, cr) == m
  {
    assert cr != Disc && cr != Sabm && cr != Ua && cr != Ua | PfMask && cr != DmResp && cr != DmResp | PfMask;
  }

  /**
   * The payload bytes of a frame with a live destination land in `fsm_data`
   * in order, and the FCS covers them only when `ui_enabled`.
   */
  lemma {:induction false} PayloadCollect(m: Mux, s: seq<bv8>)
    requires WellFormed(m) && m.dec.state == Payload && m.dec.dest
    requires m.dec.numberReceived + |s| == m.dec.packetSize
    ensures var r := Steps(m, s); var d := m.dec;
      && r.dec == d.(state := Checksum, numberReceived := d.packetSize,
                     data := d.data[..d.numberReceived] + s + d.data[d.packetSize..],
                     fcs := if d.uiEnabled then Crc8.Fold(d.fcs, s) else d.fcs)
      && r.(dec := m.dec) == m
    decreases |s|
  {
    var d := m.dec;
    var m1 := OnPayload(m, s[0]);
    var n := d.numberReceived;
    Crc8.FoldSingle(d.fcs, s[0]);
    assert s == [s[0]] + s[1..];
    StepsCons(m, s[0], s[1..]);
    PlaceByte(d.data, n, d.packetSize, s);
    if |s| == 1 {
      assert s[1..] == [];
    } else {
      PayloadCollect(m1, s[1..]);
      Crc8.FoldAppend(d.fcs, [s[0]], s[1..]);
    }
  }

  lemma PlaceByte(data: seq<bv8>, n: nat, end: nat, s: seq<bv8>)
    requires n + |s| == end <= |data| && s != []
    ensures data[n := s[0]][..n + 1] + s[1..] + data[n := s[0]][end..] == data[..n] + s + data[end..]
  {
    assert data[n := s[0]][..n + 1] == data[..n] + [s[0]];
    assert data[n := s[0]][end..] == data[end..];
    assert [s[0]] + s[1..] == s;
  }

  /**
   * A data frame as `Send` writes it, with the receiving channel's
   * `ui_enabled`, a one-byte address with EA set and 1 to 128 payload bytes,
   * on a connected channel that has a queue: the whole payload is handed to
   * that queue and the decoder is ready for the next frame.
   */
  lemma DataFrameDelivered(m: Mux, address: bv8, payload: seq<bv8>)
    requires WellFormed(m) && m.dec.state == WaitingAddress
    requires address & EaMask == EaMask && address != Flag
    requires 0 < |payload| <= Mtu
    requires m.channels[Index(address)].connected && m.channels[Index(address)].queue.Some?
    ensures var k := Index(address);
      var r := Steps(m, DataFrame(address, m.channels[k].uiEnabled, payload));
      r.dec.state == WaitingAddress && r.(dec := m.dec) == DeliverTo(m, k, payload)
  {
    var k := Index(address);
    var ui := m.channels[k].uiEnabled;
    var fcs := Crc8.Fcs(Covered(address, ui, payload));
    var front := [Flag, address, Control(ui)] + LenField(|payload|) + payload;
    assert DataFrame(address, ui, payload) == front + [fcs, Flag];
    var m3 := DataFront(m, address, payload);
    var m5 := DataTail(m3, fcs);
    StepsAppend(m, front, [fcs, Flag]);
    DeliverToIgnoresDecoder(m, m5.dec, k, payload);
  }

  /** Every byte of a data frame up to its FCS, with the channel's `ui_enabled`. */
  lemma DataFront(m: Mux, address: bv8, payload: seq<bv8>) returns (m3: Mux)
    requires WellFormed(m) && m.dec.state == WaitingAddress
    requires address & EaMask == EaMask && address != Flag
    requires 0 < |payload| <= Mtu && m.channels[Index(address)].queue.Some?
    ensures var ui := m.channels[Index(address)].uiEnabled;
      && WellFormed(m3) && m3 == Steps(m, [Flag, address, Control(ui)] + LenField(|payload|) + payload)
      && m3.(dec := m.dec) == m && m3.dec.state == Checksum && m3.dec.dest
      && m3.dec.dlci == address && m3.dec.packetSize == m3.dec.numberReceived == |payload|
      && m3.dec.data[..|payload|] == payload
      && m3.dec.fcs == Crc8.Fold(0xFF, Covered(address, ui, payload))
  {
    var ui := m.channels[Index(address)].uiEnabled;
    var n := |payload|;
    var len := LenField(n);
    var head := [Flag, address, Control(ui)];
    var m1 := DataHead(m, address);
    LengthFieldRoundTrip(m1, n);
    var m2 := Steps(m1, len);
    StepsAppend(m, head, len);
    PayloadCollect(m2, payload);
    m3 := Steps(m2, payload);
    StepsAppend(m, head + len, payload);
    CoveredFold(address, ui, payload);
    assert m3.dec.data[..n] == payload;
  }

  /** Flag, address and control byte of a data frame. */
  lemma DataHead(m: Mux, address: bv8) returns (m1: Mux)
    requires WellFormed(m) && m.dec.state == WaitingAddress
    requires address & EaMask == EaMask && address != Flag
    ensures var k := Index(address); var ui := m.channels[k].uiEnabled;
      && WellFormed(m1) && m1 == Steps(m, [Flag, address, Control(ui)])
      && m1.(dec := m.dec) == m
      && m1.dec == m.dec.(state := Length, dlci := address, cr := Control(ui),
                          dest := m.channels[k].queue.Some?, uiEnabled := ui,
                          fcs := Crc8.Fold(0xFF, [address, Control(ui)]))
  {
    var ui := m.channels[Index(address)].uiEnabled;
    var ctrl := Control(ui);
    var ma := OnAddress(m, address);
    m1 := OnCommand(ma, ctrl);
    CommandFcs(address, ctrl);
    assert [Flag, address, ctrl] == [Flag] + ([address] + [ctrl]);
    StepsCons(m, Flag, [address] + [ctrl]);
    StepsCons(m, address, [ctrl]);
    StepsOne(ma, ctrl);
  }

  /** The FCS register after the payload is the FCS over `Covered`. */
  lemma CoveredFold(address: bv8, ui: bool, payload: seq<bv8>)
    requires |payload| < 0x1_0000
    ensures var f0 := Crc8.Fold(Crc8.Fold(0xFF, [address, Control(ui)]), LenField(|payload|));
      (if ui then Crc8.Fold(f0, payload) else f0) == Crc8.Fold(0xFF, Covered(address, ui, payload))
  {
    var len := LenField(|payload|);
    Crc8.FoldAppend(0xFF, [address, Control(ui)], len);
    Crc8.FoldAppend(0xFF, [address, Control(ui)] + len, payload);
    assert [address, Control(ui)] + len + [] == [address, Control(ui)] + len;
  }

  /** The right FCS and the closing flag end a data frame on a connected channel with a queue. */
  lemma DataTail(m: Mux, fcs: bv8) returns (r: Mux)
    requires WellFormed(m) && m.dec.state == Checksum && m.dec.dest && m.dec.fcs ^ fcs == 0xFF
    requires 0 < m.dec.packetSize == m.dec.numberReceived <= Mtu
    requires m.channels[Index(m.dec.dlci)].connected
    ensures r == Steps(m, [fcs, Flag]) && r.dec.state == WaitingAddress
    ensures r.(dec := m.dec) == DeliverTo(m, Index(m.dec.dlci), m.dec.data[..m.dec.numberReceived])
  {
    var m4 := OnChecksum(m, fcs);
    r := OnFlag(m4, Flag);
    assert [fcs, Flag] == [fcs] + [Flag];
    StepsCons(m, fcs, [Flag]);
    StepsOne(m4, Flag);
    DeliverToIgnoresDecoder(m, m4.dec, Index(m.dec.dlci), m.dec.data[..m.dec.numberReceived]);
  }

  /**
   * `Send` writes the raw DLCI as the address byte. Read back by this
   * receiver, an odd DLCI is filed under channel `dlci / 4`, and an even one
   * (no EA bit) is taken for an extended address.
   */
  lemma SendAddressIsRawDlci(m: Mux, dlci: nat)
    requires WellFormed(m) && m.dec.state == WaitingAddress && dlci < MaxChannels
    ensures var r := Steps(m, [Flag, Byte(dlci)]);
      if dlci % 2 == 1 then r.dec.state == Command && r.dec.dlci == Byte(dlci) && Index(r.dec.dlci) == dlci / 4
      else r.dec.state == ExtAddress
  {
    var b := Byte(dlci);
    ExtensionBit(dlci);
    assert b != Flag;
    assert [Flag, b] == [Flag] + [b];
    StepsCons(m, Flag, [b]);
    StepsOne(m, b);
    IndexOfByte(dlci);
  }

  lemma IndexOfByte(x: nat)
    requires x < 0x100
    ensures Index(Byte(x)) == x / 4
  {
    var b := Byte(x);
    assert (b >> 2) as int == (b as int) / 4;
  }

  // ---------------------------------------------------------------------
  // Sending

  /**
   * Whether `Send` writes anything: channel `dlci` is one of the 64, is
   * connected and has a reception queue, its MTU is not 0, and the FIFO can
   * hold one frame of that MTU.
   */
  predicate SendAccepted(channels: seq<Channel>, dlci: int, fifoSize: nat)
    requires |channels| == MaxChannels
  {
    && 0 <= dlci < MaxChannels && channels[dlci].connected && channels[dlci].queue.Some?
    && channels[dlci].mtu > 0 && FrameLen(channels[dlci].mtu) <= fifoSize
  }

  /** The hand-off after each frame: `SendBuffer_HP` for DLCI 0, `SendBuffer` otherwise, with `frame_len`. */
  function Handoff(queue: Fifo.Queue, dlci: bv8, frameLen: nat): SerialCall
  {
    if dlci == 0 then SendBufferHP(queue, frameLen) else SendBuffer(queue, frameLen)
  }

  /** `n` hand-offs of the same frame length. */
  function Handoffs(queue: Fifo.Queue, dlci: bv8, frameLen: nat, n: nat): seq<SerialCall>
  {
    seq(n, _ => Handoff(queue, dlci, frameLen))
  }

  // ---------------------------------------------------------------------
  // Reading past `fsm_data`

  /**
   * FLAG_EXPECTED as the delivery loop is written: it reads `fsm_data[i]`
   * for every `i < number_received`. `None` when such a read falls past the
   * 128-byte buffer; otherwise the same step as `OnFlag`.
   */
  function OnFlagAsWritten(m: Mux, c: bv8): (r: Option<Mux>)
    requires WellFormed(m) && m.dec.state == FlagExpected
    ensures r.None? <==> (c == Flag && m.dec.packetSize > 0 && m.channels[Index(m.dec.dlci)].connected
                           && m.dec.dest && m.dec.numberReceived > Mtu)
    ensures r.Some? ==> r.value == OnFlag(m, c)
  {
    var d := m.dec;
    if c == Flag && d.packetSize > 0 && m.channels[Index(d.dlci)].connected && d.dest then
      if d.numberReceived > Mtu then None
      else
        assert d.data[..Min(d.numberReceived, Mtu)] == d.data[..d.numberReceived];
        Some(DeliverTo(m, Index(d.dlci), d.data[..d.numberReceived]).(dec := d.(dest := false, state := WaitingAddress)))
    else Some(OnFlag(m, c))
  }

  /** The payload of a discarded frame is counted but not stored. */
  lemma {:induction false} SkipPayload(m: Mux, s: seq<bv8>)
    requires WellFormed(m) && m.dec.state == Payload && !m.dec.dest
    requires m.dec.numberReceived + |s| == m.dec.packetSize
    ensures Steps(m, s) == m.(dec := m.dec.(state := Checksum, numberReceived := m.dec.packetSize))
    decreases |s|
  {
    var m1 := OnPayload(m, s[0]);
    assert s == [s[0]] + s[1..];
    StepsCons(m, s[0], s[1..]);
    if |s| > 1 {
      SkipPayload(m1, s[1..]);
    }
  }

  /** The multiplexer just after channel 1 (address byte 0x07) connected. */
  function OverReadStart(): (m: Mux)
    ensures WellFormed(m) && m.dec.state == WaitingAddress && m.dec.packetSize == 0
  {
    var idle := Channel(false, false, 0, None);
    var channels := seq(MaxChannels, i => if i == 1 then Channel(true, false, 0, Some(RxQueue(256, []))) else idle);
    Mux(channels, Decoder(WaitingAddress, 0, 0, 0, 0, false, seq(Mtu, _ => 0), 0, false), 0, 0, 0, [], [])
  }

  /**
   * A UI frame on channel 1 announcing 129 bytes (discarded for its length,
   * but `number_received` reaches 129), then the first four bytes of a SABM
   * frame on the same channel with a correct FCS.
   */
  function OverReadBytes(): seq<bv8>
  {
    [Flag, 0x07, Ui] + LenField(129) + seq(129, _ => 0) + [0x00, Flag]
      + ([Flag] + CommandFrame(0x07, Sabm))[..5]
  }

  /**
   * A UI/UIH frame announcing more than 128 bytes on a connected channel is
   * dropped whatever its FCS byte, but leaves `packet_size` and
   * `number_received` at the announced length.
   */
  lemma OversizeFrameDropped(m: Mux, address: bv8, body: seq<bv8>, fcs: bv8)
    requires WellFormed(m) && m.dec.state == WaitingAddress
    requires address & EaMask == EaMask && address != Flag
    requires Mtu < |body| < 0x8000 && m.channels[Index(address)].connected
    ensures var ui := m.channels[Index(address)].uiEnabled;
      var r := Steps(m, [Flag, address, Control(ui)] + LenField(|body|) + body + [fcs, Flag]);
      && r.(dec := m.dec) == m && r.dec.state == WaitingAddress && !r.dec.dest
      && r.dec.packetSize == |body| && r.dec.numberReceived == |body|
  {
    var ui := m.channels[Index(address)].uiEnabled;
    var head := [Flag, address, Control(ui)];
    var len := LenField(|body|);
    var m1 := DataHead(m, address);
    LengthFieldRoundTrip(m1, |body|);
    var m2 := Steps(m1, len);
    SkipPayload(m2, body);
    var m3 := Steps(m2, body);
    var r := DroppedTail(m3, fcs);
    StepsAppend(m, head, len);
    StepsAppend(m, head + len, body);
    StepsAppend(m, head + len + body, [fcs, Flag]);
  }

  /** FCS byte and closing flag of a frame whose destination is gone, on a connected channel. */
  lemma DroppedTail(m: Mux, fcs: bv8) returns (r: Mux)
    requires WellFormed(m) && m.dec.state == Checksum && !m.dec.dest
    requires m.dec.packetSize > 0 && m.channels[Index(m.dec.dlci)].connected
    ensures r == Steps(m, [fcs, Flag])
    ensures r == m.(dec := m.dec.(state := WaitingAddress))
  {
    var m4 := OnChecksum(m, fcs);
    r := OnFlag(m4, Flag);
    assert [fcs, Flag] == [fcs] + [Flag];
    StepsCons(m, fcs, [Flag]);
    StepsOne(m4, Flag);
  }

  /** The closing flag then makes the delivery loop read `fsm_data[128]`. */
  lemma OverReadReachable()
    ensures var r := Steps(OverReadStart(), OverReadBytes());
      r.dec.state == FlagExpected && OnFlagAsWritten(r, Flag).None?
  {
    var m := OverReadStart();
    var first := [Flag, 0x07, Ui] + LenField(129) + seq(129, _ => 0) + [0x00, Flag];
    var cmd := ([Flag] + CommandFrame(0x07, Sabm))[..5];
    assert Index(0x07) == 1 && Control(false) == Ui;
    OversizeFrameDropped(m, 0x07, seq(129, _ => 0), 0x00);
    var m5 := Steps(m, first);
    var m6 := CommandPrefix(m5, 0x07, Sabm);
    StepsAppend(m, first, cmd);
  }
}
