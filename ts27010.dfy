/**
 * `libMU/ts27010/ts27010.c` as the firmware runs it: the channel table
 * `libMU_TS27010_DLCInfo`, the receiver statics, the UA/DM counters and the
 * ISR transmit FIFO live in one `Multiplexer` object whose methods change
 * them in place. Every method is proved against the value model in
 * `MuxModel`: its new state is `Step`, `Manage` or the frames of `Frames`
 * applied to its old state.
 */
module Ts27010 {
  import opened Ints
  import Crc8
  import Fifo
  import opened MuxFrames
  import opened MuxModel

  /**
   * `libMU_TS27010_PrepareCMD`: a command/response frame for `dlci | EA`
   * appended to a byte FIFO with room for it; returns 5.
   */
  method PrepareCmd(queue: Fifo.Queue, dlci: bv8, cmd: bv8) returns (len: nat)
    requires queue.Valid() && queue.unitSize == 1 && queue.SpaceLeft() >= 5
    modifies queue, queue.mem
    ensures queue.Valid() && queue.unitSize == 1
    ensures queue.Contents() == old(queue.Contents()) + CommandFrame(dlci, cmd)
    ensures len == 5
  {
    var a := dlci | EaMask;
    var fcs := Crc8.TableStep(0xFF, a);
    fcs := Crc8.TableStep(fcs, cmd);
    CommandFcs(a, cmd);
    var frame := [Flag, a, cmd, !fcs, Flag];
    assert frame == CommandFrame(dlci, cmd);
    PushAll(queue, frame);
    len := 5;
  }

  /** The bytes of `bytes`, one `libMU_FIFO_PutChar` after another, into a byte FIFO that has room. */
  method PushAll(queue: Fifo.Queue, bytes: seq<bv8>)
    requires queue.Valid() && queue.unitSize == 1 && queue.SpaceLeft() >= |bytes|
    modifies queue, queue.mem
    ensures queue.Valid() && queue.unitSize == 1 && queue.Contents() == old(queue.Contents()) + bytes
  {
    ghost var before := queue.Contents();
    var i := 0;
    while i < |bytes|
      invariant 0 <= i <= |bytes|
      invariant queue.Valid() && queue.unitSize == 1 && queue.SpaceLeft() >= |bytes| - i
      invariant queue.Contents() == before + bytes[..i]
    {
      Push(queue, bytes[i]);
      assert bytes[..i + 1] == bytes[..i] + [bytes[i]];
      i := i + 1;
    }
    assert bytes[..i] == bytes;
  }

  /** `libMU_FIFO_PutChar` on a byte FIFO that has room, seen through its contents. */
  method Push(queue: Fifo.Queue, c: bv8)
    requires queue.Valid() && queue.unitSize == 1 && queue.SpaceLeft() >= 1
    modifies queue, queue.mem
    ensures queue.Valid() && queue.unitSize == 1 && queue.Contents() == old(queue.Contents()) + [c]
    ensures queue.SpaceLeft() == old(queue.SpaceLeft()) - 1
  {
    queue.PutChar(c);
  }

  /**
   * The start of a data frame: flag, address and control (UIH when
   * `ui_enabled`, UI otherwise). The FCS register starts from
   * `CRCtable[dlci ^ 0xFF]` and takes in the address and control.
   */
  method PutHeader(queue: Fifo.Queue, address: bv8, uiEnabled: bool) returns (fcs: bv8)
    requires queue.Valid() && queue.unitSize == 1 && queue.SpaceLeft() >= 3
    modifies queue, queue.mem
    ensures queue.Valid()
    ensures queue.Contents() == old(queue.Contents()) + [Flag, address, Control(uiEnabled)]
    ensures fcs == Crc8.Fold(0xFF, [address, Control(uiEnabled)])
  {
    ghost var before := queue.Contents();
    Push(queue, Flag);
    Push(queue, address);
    fcs := Crc8.TableStep(0xFF, address);
    var control := if uiEnabled then Uih else Ui;
    Push(queue, control);
    fcs := Crc8.TableStep(fcs, control);
    Crc8.FoldSingle(0xFF, address);
    Crc8.FoldSnoc(0xFF, [address], control);
    assert [address] + [control] == [address, control];
    assert queue.Contents() == before + [Flag, address, control];
  }

  /**
   * The length field of a data frame: `((n & 0x7F) << 1) | EA` for up to
   * 0x7F bytes, otherwise `(n & 0x7F) << 1` then `n >> 7` as a byte; each
   * byte goes into the FCS.
   */
  method PutLength(queue: Fifo.Queue, fcs: bv8, n: nat) returns (fcs': bv8)
    requires queue.Valid() && queue.unitSize == 1 && queue.SpaceLeft() >= 2 && n < 0x1_0000
    modifies queue, queue.mem
    ensures queue.Valid() && queue.Contents() == old(queue.Contents()) + LenField(n)
    ensures fcs' == Crc8.Fold(fcs, LenField(n))
  {
    ghost var before := queue.Contents();
    if n > 0x7F {
      var c := Byte((n % 128) * 2);
      Push(queue, c);
      fcs' := Crc8.TableStep(fcs, c);
      var c' := Byte((n / 128) % 256);
      Push(queue, c');
      fcs' := Crc8.TableStep(fcs', c');
      Crc8.FoldSingle(fcs, c);
      Crc8.FoldSnoc(fcs, [c], c');
      assert [c] + [c'] == LenField(n);
      assert queue.Contents() == before + [c, c'];
    } else {
      var c := Byte(n * 2 + 1);
      Push(queue, c);
      fcs' := Crc8.TableStep(fcs, c);
      Crc8.FoldSingle(fcs, c);
    }
  }

  /** The payload of a data frame, byte by byte; it goes into the FCS only when `ui_enabled`. */
  method PutPayload(queue: Fifo.Queue, fcs: bv8, uiEnabled: bool, block: seq<bv8>) returns (fcs': bv8)
    requires queue.Valid() && queue.unitSize == 1 && queue.SpaceLeft() >= |block|
    modifies queue, queue.mem
    ensures queue.Valid() && queue.Contents() == old(queue.Contents()) + block
    ensures fcs' == if uiEnabled then Crc8.Fold(fcs, block) else fcs
  {
    ghost var before := queue.Contents();
    fcs' := fcs;
    var i := 0;
    while i < |block|
      invariant 0 <= i <= |block|
      invariant queue.Valid() && queue.unitSize == 1 && queue.SpaceLeft() >= |block| - i
      invariant queue.Contents() == before + block[..i]
      invariant fcs' == if uiEnabled then Crc8.Fold(fcs, block[..i]) else fcs
    {
      var c := block[i];
      ghost var i0, fcs0 := i, fcs';
      Push(queue, c);
      if uiEnabled {
        fcs' := Crc8.TableStep(fcs', c);
      }
      i := i + 1;
      PayloadStep(before, fcs, uiEnabled, block, i0, fcs0, queue.Contents(), fcs', i);
    }
    assert block[..i] == block;
  }

  /** One byte of `PutPayload`: it is appended to the FIFO and, with `ui_enabled`, folded into the FCS. */
  lemma PayloadStep(before: seq<bv8>, fcs: bv8, uiEnabled: bool, block: seq<bv8>, i: nat, fcs0: bv8,
                    contents: seq<bv8>, fcs1: bv8, i': nat)
    requires i < |block| && i' == i + 1
    requires contents == (before + block[..i]) + [block[i]]
    requires fcs0 == if uiEnabled then Crc8.Fold(fcs, block[..i]) else fcs
    requires fcs1 == if uiEnabled then Crc8.Update(fcs0, block[i]) else fcs0
    ensures contents == before + block[..i']
    ensures fcs1 == if uiEnabled then Crc8.Fold(fcs, block[..i']) else fcs
  {
    assert block[..i'] == block[..i] + [block[i]];
    Crc8.FoldSnoc(fcs, block[..i], block[i]);
  }

  /** One data frame of `libMU_TS27010_Send` appended to a FIFO with room for it. */
  method PutFrame(queue: Fifo.Queue, address: bv8, uiEnabled: bool, block: seq<bv8>)
    requires queue.Valid() && queue.unitSize == 1 && |block| < 0x1_0000
    requires queue.SpaceLeft() >= FrameLen(|block|)
    modifies queue, queue.mem
    ensures queue.Valid() && queue.Contents() == old(queue.Contents()) + DataFrame(address, uiEnabled, block)
  {
    ghost var before := queue.Contents();
    var fcs := PutHeader(queue, address, uiEnabled);
    fcs := PutLength(queue, fcs, |block|);
    fcs := PutPayload(queue, fcs, uiEnabled, block);
    CoveredFold(address, uiEnabled, block);
    PutTrailer(queue, fcs);
    Append4(before, [Flag, address, Control(uiEnabled)], LenField(|block|), block, [!fcs, Flag]);
  }

  /** The FCS, complemented, and the closing flag. */
  method PutTrailer(queue: Fifo.Queue, fcs: bv8)
    requires queue.Valid() && queue.unitSize == 1 && queue.SpaceLeft() >= 2
    modifies queue, queue.mem
    ensures queue.Valid() && queue.Contents() == old(queue.Contents()) + [!fcs, Flag]
  {
    Push(queue, !fcs);
    Push(queue, Flag);
  }

  lemma Append4(a: seq<bv8>, b: seq<bv8>, c: seq<bv8>, d: seq<bv8>, e: seq<bv8>)
    ensures a + b + c + d + e == a + (b + c + d + e)
  {
  }

  /**
   * `while (libMU_FIFO_SpaceLeft(queue) < frame_len) portYIELD();` for a
   * FIFO whose size admits `n`: while the sending task yields, the serial driver
   * takes bytes from the front of the FIFO onto the wire.
   */
  method AwaitSpace(queue: Fifo.Queue, n: nat) returns (ghost drained: seq<bv8>)
    requires queue.Valid() && queue.unitSize == 1 && n <= queue.Size()
    modifies queue
    ensures queue.Valid() && queue.SpaceLeft() >= n
    ensures drained + queue.Contents() == old(queue.Contents())
  {
    drained := [];
    while queue.SpaceLeft() < n
      invariant queue.Valid() && drained + queue.Contents() == old(queue.Contents())
      decreases queue.Count()
    {
      ghost var rest := queue.Contents();
      var c := queue.GetChar();
      DrainStep(drained, rest, c, queue.Contents());
      drained := drained + [c];
    }
  }

  /** Moving the byte taken from the front of the FIFO to the drained bytes keeps their concatenation. */
  lemma DrainStep(drained: seq<bv8>, rest: seq<bv8>, c: bv8, after: seq<bv8>)
    requires |rest| > 0 && c == rest[0] && after == rest[1..]
    ensures (drained + [c]) + after == drained + rest
  {
    assert rest == [c] + after;
  }

  /**
   * The segmenting loop of `libMU_TS27010_Send` for an MTU above 0: block
   * after block of `mtu` bytes (the last one shorter), each written as a
   * frame once the FIFO has room for `frame_len` and handed to the serial
   * driver; returns `data_sent`.
   */
  method SendFrames(queue: Fifo.Queue, address: bv8, uiEnabled: bool, mtu: nat, data: seq<bv8>)
    returns (dataSent: u32, ghost wire: seq<bv8>, ghost calls: seq<SerialCall>)
    requires queue.Valid() && queue.unitSize == 1
    requires 0 < mtu < 0x1_0000 && FrameLen(mtu) <= queue.Size() && |data| < 0x1_0000_0000
    modifies queue, queue.mem
    ensures queue.Valid() && dataSent == |data|
    ensures wire + queue.Contents() == old(queue.Contents()) + Frames(address, uiEnabled, mtu, data)
    ensures calls == Handoffs(queue, address, FrameLen(mtu), FrameCount(mtu, |data|))
  {
    ghost var target := queue.Contents() + Frames(address, uiEnabled, mtu, data);
    var frameLen: nat := if mtu > 0x7F then mtu + 7 else mtu + 6;
    var blockLen := mtu;
    var len: nat := |data|;
    var rest := data;
    ghost var frames: nat := 0;
    dataSent, wire := 0, [];
    while len > 0
      invariant |rest| == len && dataSent + len == |data|
      invariant len > 0 ==> blockLen == mtu
      invariant queue.Valid() && queue.unitSize == 1
      invariant wire + queue.Contents() + Frames(address, uiEnabled, mtu, rest) == target
      invariant frames + FrameCount(mtu, |rest|) == FrameCount(mtu, |data|)
    {
      if blockLen > len {
        blockLen := len;
      }
      len := len - blockLen;
      rest, wire := SendNext(queue, address, uiEnabled, frameLen, mtu, rest, blockLen, wire, target);
      dataSent := dataSent + blockLen;
      frames := frames + 1;
    }
    calls := Handoffs(queue, address, FrameLen(mtu), frames);
  }

  /** Each frame accounts for one block. */
  lemma FrameCountStep(mtu: nat, rest: seq<bv8>, blockLen: nat)
    requires 0 < mtu && 0 < |rest| && blockLen == Min(mtu, |rest|)
    ensures FrameCount(mtu, |rest|) == 1 + FrameCount(mtu, |rest[blockLen..]|)
  {
  }

  /**
   * One pass of the segmenting loop: the next `block_len` bytes of `data`
   * go out as one frame, which moves them from the frames still to write
   * to the FIFO (and what the driver took from it onto the wire); the
   * rest of the data is what follows them.
   */
  method SendNext(queue: Fifo.Queue, address: bv8, uiEnabled: bool, frameLen: nat, mtu: nat, data: seq<bv8>,
                  blockLen: nat, ghost wire: seq<bv8>, ghost target: seq<bv8>)
    returns (rest: seq<bv8>, ghost wire': seq<bv8>)
    requires queue.Valid() && queue.unitSize == 1
    requires 0 < mtu < 0x1_0000 && frameLen == FrameLen(mtu) <= queue.Size()
    requires 0 < |data| && blockLen == Min(mtu, |data|)
    requires wire + queue.Contents() + Frames(address, uiEnabled, mtu, data) == target
    modifies queue, queue.mem
    ensures queue.Valid() && queue.unitSize == 1
    ensures rest == data[blockLen..] && FrameCount(mtu, |data|) == 1 + FrameCount(mtu, |rest|)
    ensures wire' + queue.Contents() + Frames(address, uiEnabled, mtu, rest) == target
  {
    ghost var queued := queue.Contents();
    var block := data[..blockLen];
    rest := data[blockLen..];
    FrameLenMonotone(blockLen, mtu);
    ghost var drained := SendBlock(queue, address, uiEnabled, frameLen, block);
    SendStep(wire, queued, drained, queue.Contents(), DataFrame(address, uiEnabled, block),
      Frames(address, uiEnabled, mtu, rest), Frames(address, uiEnabled, mtu, data));
    FrameCountStep(mtu, data, blockLen);
    wire' := wire + drained;
  }

  /** One pass of the segmenting loop: wait for `frame_len` bytes of room, then write the frame. */
  method SendBlock(queue: Fifo.Queue, address: bv8, uiEnabled: bool, frameLen: nat, block: seq<bv8>)
    returns (ghost drained: seq<bv8>)
    requires queue.Valid() && queue.unitSize == 1 && |block| < 0x1_0000
    requires FrameLen(|block|) <= frameLen <= queue.Size()
    modifies queue, queue.mem
    ensures queue.Valid()
    ensures drained + queue.Contents() == old(queue.Contents()) + DataFrame(address, uiEnabled, block)
  {
    drained := AwaitSpace(queue, frameLen);
    ghost var kept := queue.Contents();
    PutFrame(queue, address, uiEnabled, block);
    Regroup(drained, kept, DataFrame(address, uiEnabled, block));
  }

  lemma Regroup(drained: seq<bv8>, kept: seq<bv8>, f: seq<bv8>)
    ensures drained + (kept + f) == drained + kept + f
  {
  }

  /** The bookkeeping of one pass of `SendFrames`. */
  lemma SendStep(wire: seq<bv8>, queued: seq<bv8>, drained: seq<bv8>, after: seq<bv8>,
                 frame: seq<bv8>, tail: seq<bv8>, frames: seq<bv8>)
    requires drained + after == queued + frame && frames == frame + tail
    ensures wire + drained + after + tail == wire + queued + frames
  {
    calc {
      wire + drained + after + tail;
      wire + (drained + after) + tail;
      wire + (queued + frame) + tail;
      wire + queued + (frame + tail);
    }
  }

  /** A control command leaves the decoder invariant in place. */
  lemma ManageKeepsWellFormed(m: Mux, dlci: bv8, cr: bv8)
    requires WellFormed(m)
    ensures WellFormed(Manage(m, dlci, cr))
  {
    ManageEffects(m, dlci, cr);
  }

  /** Any other control byte (an empty UI/UIH frame, an unknown command) is discarded. */
  lemma ManageIgnores(m: Mux, dlci: bv8, cr: bv8)
    requires |m.channels| == MaxChannels
    requires cr !in {Disc, Sabm, Ua, Ua | PfMask, DmResp, DmResp | PfMask}
    ensures Manage(m, dlci, cr) == m
  {
  }

  /** `c >> 1`: the byte's value halved. */
  lemma ShiftHalves(c: bv8)
    ensures (c >> 1) as int == Value(c) / 2
  {
  }

  /**
   * `packet_size |= (uint16_t)c << 7` when `packet_size` is below 128: the
   * two bit ranges are disjoint, so the OR is the sum `LEN_EXT` computes.
   */
  lemma OrIsAdd(lo: bv16, c: bv8)
    requires lo < 128
    ensures lo | ((c as bv16) << 7) == lo + ((c as bv16) << 7)
    ensures (lo | ((c as bv16) << 7)) as int == lo as int + Value(c) * 128
  {
    ShiftScales(c);
  }

  lemma ShiftScales(c: bv8)
    ensures ((c as bv16) << 7) as int == (c as int) * 128
  {
  }

  class Multiplexer {
    /** `libMU_TS27010_DLCInfo`; the reception queues are held by value. */
    const channels: array<Channel>
    /** `libMU_TS27010_ISRqueue`: replies written from the receive interrupt. */
    const isrQueue: Fifo.Queue
    /** `fsm_data`. */
    const fsmData: array<bv8>
    var uaReceived: bv8
    var dmReceived: bv8
    /** `libMU_Serial_DataLost`. */
    var dataLost: u32
    var state: RxState
    var packetSize: u16
    var numberReceived: u16
    var fsmDlci: bv8
    var fsmCr: bv8
    /** `fsm_dlci_queue != NULL`. */
    var fsmDest: bool
    var fsmFcs: bv8
    var fsmUi: bool
    /** The requests handed to the serial driver so far. */
    ghost var serialLog: seq<SerialCall>

    ghost predicate Shape()
      reads this, isrQueue
    {
      && channels.Length == MaxChannels && fsmData.Length == Mtu
      && isrQueue.Valid() && isrQueue.unitSize == 1
      && fsmData != isrQueue.mem && channels as object != isrQueue.mem
    }

    ghost function Abs(): Mux
      reads this, channels, fsmData, isrQueue, isrQueue.mem
      requires Shape()
    {
      Mux(channels[..], Dec(), uaReceived, dmReceived, dataLost, isrQueue.Contents(), serialLog)
    }

    /** The receiver statics as a `Decoder`. */
    ghost function Dec(): Decoder
      reads this, fsmData
    {
      Decoder(state, packetSize, numberReceived, fsmDlci, fsmCr, fsmDest, fsmData[..], fsmFcs, fsmUi)
    }

    /** Everything outside the receiver statics is as it was. */
    twostate predicate OutsideDecoderUnchanged()
      reads this
    {
      && uaReceived == old(uaReceived) && dmReceived == old(dmReceived)
      && dataLost == old(dataLost) && serialLog == old(serialLog)
    }

    ghost predicate Valid()
      reads this, channels, fsmData, isrQueue, isrQueue.mem
    {
      Shape() && WellFormed(Abs())
    }

    /** The zero-initialised statics, with an empty ISR FIFO laid over `isrBuffer`. */
    constructor (isrQueue: Fifo.Queue)
      requires isrQueue.Valid() && isrQueue.unitSize == 1 && isrQueue.Contents() == []
      ensures Valid() && this.isrQueue == isrQueue && fresh(channels) && fresh(fsmData)
      ensures Abs() == Mux(seq(MaxChannels, _ => Channel(false, false, 0, None)),
                           Decoder(WaitingAddress, 0, 0, 0, 0, false, seq(Mtu, _ => 0), 0, false),
                           0, 0, 0, [], [])
    {
      channels := new Channel[MaxChannels](_ => Channel(false, false, 0, None));
      fsmData := new bv8[Mtu](_ => 0);
      this.isrQueue := isrQueue;
      uaReceived, dmReceived, dataLost := 0, 0, 0;
      state, packetSize, numberReceived := WaitingAddress, 0, 0;
      fsmDlci, fsmCr, fsmDest, fsmFcs, fsmUi := 0, 0, false, 0, false;
      serialLog := [];
    }

    /** `libMU_TS27010_Connected` for a channel number below 64. */
    function Connected(dlci: u8): (r: bool)
      reads this, channels, fsmData, isrQueue, isrQueue.mem
      requires Valid() && dlci < MaxChannels
      ensures r == Abs().channels[dlci].connected
    {
      channels[dlci].connected
    }

    /**
     * `libMU_TS27010_Send`. Nothing is written and 0 is returned unless the
     * channel is one of the 64, is connected, has a reception queue and an
     * MTU above 0, and the FIFO can hold one frame of that MTU. Otherwise
     * the data goes out as `Frames` (the address byte is the raw `dlci`),
     * each frame handed to the driver with the `frame_len` of the MTU, and
     * the call returns `len`.
     */
    method Send(queue: Fifo.Queue, dlci: int, data: seq<bv8>) returns (sent: int, ghost wire: seq<bv8>)
      requires Valid() && queue.Valid() && queue.unitSize == 1 && |data| < 0x1_0000_0000
      requires queue != isrQueue && queue.mem != isrQueue.mem && queue.mem != fsmData && channels as object != queue.mem
      modifies this`serialLog, queue, queue.mem
      ensures Valid() && Abs() == old(Abs()).(log := serialLog)
      ensures queue.Valid() && queue.unitSize == 1
      ensures !SendAccepted(channels[..], dlci, queue.Size()) ==>
        sent == 0 && wire == [] && queue.Contents() == old(queue.Contents()) && serialLog == old(serialLog)
      ensures SendAccepted(channels[..], dlci, queue.Size()) ==>
        var ch := channels[dlci];
        && sent == |data|
        && wire + queue.Contents() == old(queue.Contents()) + Frames(Byte(dlci), ch.uiEnabled, ch.mtu, data)
        && serialLog == old(serialLog) + Handoffs(queue, Byte(dlci), FrameLen(ch.mtu), FrameCount(ch.mtu, |data|)) + [StartSending]
    {
      sent, wire := 0, [];
      if dlci < 0 || dlci > 63 {
        return;
      }
      var ch := channels[dlci];
      if !ch.connected || ch.queue.None? {
        return;
      }
      var blockLen: nat := ch.mtu;
      var frameLen: nat := if blockLen > 0x7F then blockLen + 7 else blockLen + 6;
      if queue.Size() < frameLen || blockLen == 0 {
        return;
      }
      assert SendAccepted(channels[..], dlci, queue.Size());
      sent, wire := Transmit(queue, dlci, data);
    }

    /** The frames and hand-offs of `Send` once every check has passed. */
    method Transmit(queue: Fifo.Queue, dlci: int, data: seq<bv8>) returns (sent: int, ghost wire: seq<bv8>)
      requires Valid() && queue.Valid() && queue.unitSize == 1 && |data| < 0x1_0000_0000
      requires queue != isrQueue && queue.mem != isrQueue.mem && queue.mem != fsmData && channels as object != queue.mem
      requires SendAccepted(channels[..], dlci, queue.Size())
      modifies this`serialLog, queue, queue.mem
      ensures Valid() && Abs() == old(Abs()).(log := serialLog)
      ensures queue.Valid() && queue.unitSize == 1
      ensures var ch := channels[dlci];
        && sent == |data|
        && wire + queue.Contents() == old(queue.Contents()) + Frames(Byte(dlci), ch.uiEnabled, ch.mtu, data)
        && serialLog == old(serialLog) + Handoffs(queue, Byte(dlci), FrameLen(ch.mtu), FrameCount(ch.mtu, |data|)) + [StartSending]
    {
      ghost var isr := isrQueue.Contents();
      var ch := channels[dlci];
      var dataSent;
      ghost var calls;
      dataSent, wire, calls := SendFrames(queue, Byte(dlci), ch.uiEnabled, ch.mtu, data);
      assert isrQueue.Valid() && isrQueue.Contents() == isr;
      serialLog := serialLog + calls + [StartSending];
      sent := dataSent;
    }

    /** `libMU_TS27010_GetQueue`: no queue above channel 63. */
    function GetQueue(dlci: u8): (r: Option<RxQueue>)
      reads this, channels, fsmData, isrQueue, isrQueue.mem
      requires Valid()
      ensures dlci > 63 ==> r == None
      ensures dlci <= 63 ==> r == Abs().channels[dlci].queue
    {
      if dlci > 63 then None else channels[dlci].queue
    }

    /**
     * `libMU_TS27010_ManageMuxLowLevel(dlci, cr)`: the table, the counters,
     * the ISR FIFO and the driver requests change exactly as `Manage` says.
     */
    method ManageMuxLowLevel(dlci: bv8, cr: bv8)
      requires Valid() && isrQueue.SpaceLeft() >= 5
      modifies this, channels, isrQueue, isrQueue.mem
      ensures Valid() && Abs() == Manage(old(Abs()), dlci, cr)
    {
      if cr == Disc {
        Disconnect(dlci);
      } else if cr == Sabm {
        Establish(dlci);
      } else if cr == Ua || cr == Ua | PfMask {
        CountUa(dlci, cr);
      } else if cr == DmResp || cr == DmResp | PfMask {
        CountDm(dlci, cr);
      } else {
        ManageIgnores(Abs(), dlci, cr);
      }
    }

    /** `libMU_TS27010_UaReceived++`, wrapping at 8 bits. */
    method CountUa(dlci: bv8, cr: bv8)
      requires Valid() && (cr == Ua || cr == Ua | PfMask)
      modifies this
      ensures Valid() && Abs() == Manage(old(Abs()), dlci, cr)
    {
      uaReceived := uaReceived + 1;
    }

    /** `libMU_TS27010_DmReceived++`, wrapping at 8 bits. */
    method CountDm(dlci: bv8, cr: bv8)
      requires Valid() && (cr == DmResp || cr == DmResp | PfMask)
      modifies this
      ensures Valid() && Abs() == Manage(old(Abs()), dlci, cr)
    {
      dmReceived := dmReceived + 1;
    }

    /** The DISC case: disconnect and answer UA|PF or DM|PF. */
    method Disconnect(dlci: bv8)
      requires Valid() && isrQueue.SpaceLeft() >= 5
      modifies this, channels, isrQueue, isrQueue.mem
      ensures Valid() && Abs() == Manage(old(Abs()), dlci, Disc)
    {
      ghost var m := Abs();
      ManageKeepsWellFormed(m, dlci, Disc);
      var k := Index(dlci);
      var ch := channels[k];
      var reply := if ch.connected then Ua | PfMask else DmResp | PfMask;
      channels[k] := ch.(connected := false);
      var len := Reply(dlci ^ CrMask, reply);
      serialLog := serialLog + (if k == 0 then [SendBufferHPFromIsr(len), RestoreRxHandler] else []);
      ghost var r := Manage(m, dlci, Disc);
      assert channels[..] == r.channels;
      assert isrQueue.Contents() == r.isr;
      assert Dec() == r.dec && serialLog == r.log;
      assert Abs() == r;
    }

    /** The SABM case: connect and answer UA|PF. */
    method Establish(dlci: bv8)
      requires Valid() && isrQueue.SpaceLeft() >= 5
      modifies this, channels, isrQueue, isrQueue.mem
      ensures Valid() && Abs() == Manage(old(Abs()), dlci, Sabm)
    {
      ghost var m := Abs();
      ManageKeepsWellFormed(m, dlci, Sabm);
      var k := Index(dlci);
      var ch := channels[k];
      channels[k] := ch.(connected := true);
      var len := Reply(dlci ^ CrMask, Ua | PfMask);
      serialLog := serialLog + [SendBufferHPFromIsr(len)];
      ghost var r := Manage(m, dlci, Sabm);
      assert channels[..] == r.channels;
      assert isrQueue.Contents() == r.isr;
    }

    /** `libMU_TS27010_PrepareCMD` on `libMU_TS27010_ISRqueue`. */
    method Reply(address: bv8, cmd: bv8) returns (len: nat)
      requires Shape() && isrQueue.SpaceLeft() >= 5
      modifies isrQueue, isrQueue.mem
      ensures Shape() && len == 5
      ensures isrQueue.Contents() == old(isrQueue.Contents()) + CommandFrame(address, cmd)
    {
      len := PrepareCmd(isrQueue, address, cmd);
    }

    /**
     * `libMU_TS27010_BasicRxStateMachine(c)`: one received byte moves the
     * receiver exactly as `Step` does on the abstract state.
     */
    method BasicRxStateMachine(c: bv8)
      requires Valid() && isrQueue.SpaceLeft() >= 5
      modifies this, channels, fsmData, isrQueue, isrQueue.mem
      ensures Valid() && Abs() == Step(old(Abs()), c)
    {
      if state == FlagExpected {
        FlagByte(c);
      } else {
        ghost var m := Abs();
        StepIsDecoderStep(m, c);
        DecodeByte(c);
        assert Abs() == m.(dec := Dec());
      }
    }

    /** The states before the closing flag, which only touch the receiver statics. */
    method DecodeByte(c: bv8)
      requires channels.Length == MaxChannels && DecoderInv(Dec()) && state != FlagExpected
      modifies this, fsmData
      ensures Dec() == DecoderStep(channels[..], old(Dec()), c) && OutsideDecoderUnchanged()
    {
      match state
      case WaitingAddress => AddressByte(c);
      case ExtAddress => ExtAddressByte(c);
      case Command => CommandByte(c);
      case Length => LengthByte(c);
      case LengthExt => LengthExtByte(c);
      case Payload => PayloadByte(c);
      case Checksum => ChecksumByte(c);
    }

    method AddressByte(c: bv8)
      requires channels.Length == MaxChannels
      modifies this
      ensures Dec() == AddressDec(channels[..], old(Dec()), c) && OutsideDecoderUnchanged()
    {
      if c != Flag {
        fsmFcs := Crc8.TableStep(0xFF, c);
        if c & EaMask == EaMask {
          fsmDlci := c;
          var k := Index(c);
          fsmDest := channels[k].queue.Some?;
          fsmUi := channels[k].uiEnabled;
          state := Command;
        } else {
          state := ExtAddress;
        }
      }
    }

    method ExtAddressByte(c: bv8)
      modifies this
      ensures Dec() == ExtAddressDec(old(Dec()), c) && OutsideDecoderUnchanged()
    {
      fsmDlci := 0xFF;
      fsmDest := false;
      fsmUi := false;
      state := Command;
    }

    method CommandByte(c: bv8)
      modifies this
      ensures Dec() == CommandDec(old(Dec()), c) && OutsideDecoderUnchanged()
    {
      fsmFcs := Crc8.TableStep(fsmFcs, c);
      fsmCr := c;
      var b := c & !PfMask;
      if b == Ui || b == Uih {
        state := Length;
      } else {
        state := Checksum;
      }
    }

    method LengthByte(c: bv8)
      modifies this
      ensures Dec() == LengthDec(old(Dec()), c) && OutsideDecoderUnchanged()
    {
      fsmFcs := Crc8.TableStep(fsmFcs, c);
      ShiftHalves(c);
      packetSize := (c >> 1) as int;
      numberReceived := 0;
      // Seven bits never exceed `TS27010_BASIC_MTU`: the discard test of this state cannot fire.
      assert packetSize < 128;
      if c & EaMask == EaMask {
        if packetSize != 0 {
          state := Payload;
        } else {
          state := Checksum;
        }
      } else {
        state := LengthExt;
      }
    }

    method LengthExtByte(c: bv8)
      requires packetSize < 128
      modifies this
      ensures Dec() == LengthExtDec(old(Dec()), c) && OutsideDecoderUnchanged()
    {
      fsmFcs := Crc8.TableStep(fsmFcs, c);
      packetSize := JoinLength(packetSize, c);
      if 128 < packetSize {
        fsmDest := false;
      }
      if packetSize != 0 {
        state := Payload;
      } else {
        state := Checksum;
      }
    }

    /** `packet_size |= c << 7` over a low part below 128: the high byte adds `c * 128`. */
    static method JoinLength(lo: u16, c: bv8) returns (size: u16)
      requires lo < 128
      ensures size == lo + Value(c) * 128
    {
      ShiftScales(c);
      size := lo + ((c as bv16) << 7) as int;
    }

    method PayloadByte(c: bv8)
      requires state == Payload && numberReceived < packetSize && (fsmDest ==> numberReceived < fsmData.Length)
      modifies this, fsmData
      ensures Dec() == PayloadDec(old(Dec()), c) && OutsideDecoderUnchanged()
    {
      ghost var data := fsmData[..];
      if fsmDest {
        fsmData[numberReceived] := c;
        assert fsmData[..] == data[numberReceived := c];
        if fsmUi {
          fsmFcs := Crc8.TableStep(fsmFcs, c);
        }
      }
      numberReceived := numberReceived + 1;
      if numberReceived == packetSize {
        state := Checksum;
      }
    }

    method ChecksumByte(c: bv8)
      modifies this
      ensures Dec() == ChecksumDec(old(Dec()), c) && OutsideDecoderUnchanged()
    {
      if fsmFcs ^ c != 0xFF {
        fsmDest := false;
      }
      state := FlagExpected;
    }

    /**
     * `FLAG_EXPECTED`. The delivery loop stops at the 128 bytes of
     * `fsm_data`; the loop over `number_received` as written is
     * `OnFlagAsWritten`.
     */
    method FlagByte(c: bv8)
      requires Valid() && state == FlagExpected && isrQueue.SpaceLeft() >= 5
      modifies this, channels, isrQueue, isrQueue.mem
      ensures Valid() && Abs() == OnFlag(old(Abs()), c)
    {
      if c == Flag {
        EndFrame();
        state, fsmDest := WaitingAddress, false;
      } else {
        fsmDest := false;
      }
    }

    /** The closing flag: deliver the payload or act on the command. */
    method EndFrame()
      requires Valid() && isrQueue.SpaceLeft() >= 5
      modifies this, channels, isrQueue, isrQueue.mem
      ensures Valid() && Abs() == FrameEnd(old(Abs()))
    {
      var k := Index(fsmDlci);
      if packetSize != 0 && channels[k].connected {
        if fsmDest {
          DeliverFrame(k);
        }
      } else {
        ManageMuxLowLevel(fsmDlci, fsmCr);
      }
    }

    /**
     * `xQueueSendFromISR` for each received byte of a finished frame, at
     * most the 128 held in `fsm_data`.
     */
    method DeliverFrame(k: nat)
      requires Valid() && fsmDest && k == Index(fsmDlci)
      modifies this, channels
      ensures Valid()
      ensures Abs() == DeliverTo(old(Abs()), k, old(fsmData[..])[..Min(old(numberReceived), Mtu)])
    {
      var n := Min(numberReceived, Mtu);
      ghost var bytes := fsmData[..n];
      var q := channels[k].queue.value;
      var lost := dataLost;
      var i := 0;
      while i < n
        invariant 0 <= i <= n
        invariant Deliver(q, lost, bytes[i..]) == Deliver(channels[k].queue.value, dataLost, bytes)
      {
        assert bytes[i..][1..] == bytes[i + 1..];
        if |q.items| < q.capacity {
          q := q.(items := q.items + [fsmData[i]]);
        } else {
          lost := Wrap32(lost as int + 1);
        }
        i := i + 1;
      }
      channels[k] := channels[k].(queue := Some(q));
      dataLost := lost;
    }
  }
}
