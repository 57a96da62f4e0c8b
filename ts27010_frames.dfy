/**
 * Frame layout of the basic option of 3GPP TS 27.010 as `libMU/ts27010`
 * writes it: the field constants, the length field, the short
 * command/response frames and the segmented UI/UIH data frames.
 */
module MuxFrames {
  import opened Ints
  import Crc8

  /** `TS27010_BASIC_STARTSTOP`: opening and closing flag. */
  const Flag: bv8 := 0xF9
  /** `TS27010_BASIC_MTU`: size of the receive buffer. */
  const Mtu: nat := 128
  /** `LIBMU_TS27010_MAX_CHANNELS`. */
  const MaxChannels: nat := 64

  const EaMask: bv8 := 0x01
  const CrMask: bv8 := 0x02
  const PfMask: bv8 := 0x10
  const Sabm: bv8 := 0x3F
  const Ua: bv8 := 0x63
  const DmResp: bv8 := 0x0F
  const Disc: bv8 := 0x53
  const Uih: bv8 := 0xEF
  const Ui: bv8 := 0x03

  /** The extension bit of a small number taken as a byte is its parity. */
  lemma ExtensionBit(x: nat)
    requires x < 0x100
    ensures (Byte(x) & EaMask == EaMask) <==> x % 2 == 1
    ensures (Byte(x) as int) / 2 == x / 2
  {
  }

  /**
   * The length field `Send` writes for a block of `n` bytes: one byte
   * `(n << 1) | EA` up to 0x7F, otherwise `(n & 0x7F) << 1` followed by
   * `n >> 7` truncated to a byte.
   */
  function LenField(n: nat): (f: seq<bv8>)
    requires n < 0x1_0000
    ensures |f| == if n > 0x7F then 2 else 1
  {
    if n > 0x7F then [Byte((n % 128) * 2), Byte((n / 128) % 256)]
    else [Byte(n * 2 + 1)]
  }

  /**
   * For every `n` below 2^15 the field carries `n` back: the first byte's
   * extension bit says whether a second byte follows, its upper seven bits
   * are the low part and the second byte is the high part.
   */
  lemma LenFieldDecodes(n: nat)
    requires n < 0x8000
    ensures var f := LenField(n);
      if n > 0x7F then
        f[0] & EaMask != EaMask && (f[0] as int) / 2 + (f[1] as int) * 128 == n && (f[0] as int) / 2 < 128
      else
        f[0] & EaMask == EaMask && (f[0] as int) / 2 == n
  {
    var f := LenField(n);
    if n > 0x7F {
      var lo := (n % 128) * 2;
      ExtensionBit(lo);
      Halve(n % 128);
      assert (f[1] as int) == n / 128;
    } else {
      ExtensionBit(n * 2 + 1);
    }
  }

  lemma Halve(v: nat)
    ensures (v * 2) % 2 == 0 && (v * 2) / 2 == v
  {
  }

  /** `libMU_TS27010_PrepareCMD` output: flag, address with EA, command, FCS, flag. */
  function CommandFrame(address: bv8, cmd: bv8): (f: seq<bv8>)
    ensures |f| == 5 && f[0] == Flag && f[4] == Flag
    ensures f[1] == address | EaMask && f[2] == cmd
  {
    var a := address | EaMask;
    [Flag, a, cmd, Crc8.Fcs([a, cmd]), Flag]
  }

  /** The FCS byte of a command frame passes `libMU_TS27010_FCSCheck` over address and command. */
  lemma CommandFrameChecks(address: bv8, cmd: bv8)
    ensures var f := CommandFrame(address, cmd);
      Crc8.Update(Crc8.Fold(0xFF, f[1..3]), f[3]) == Crc8.Residue
  {
    var a := address | EaMask;
    Crc8.CheckAcceptsCalculated([a, cmd]);
    assert CommandFrame(address, cmd)[1..3] == [a, cmd];
  }

  /** The control byte of a data frame: UIH when `ui_enabled`, UI otherwise. */
  function Control(uiEnabled: bool): bv8
  {
    if uiEnabled then Uih else Ui
  }

  /** The bytes the FCS of a data frame covers: header, and the payload only when `ui_enabled`. */
  function Covered(address: bv8, uiEnabled: bool, block: seq<bv8>): seq<bv8>
    requires |block| < 0x1_0000
  {
    [address, Control(uiEnabled)] + LenField(|block|) + (if uiEnabled then block else [])
  }

  /** One data frame of `Send`: flag, address, control, length, payload, FCS, flag. */
  function DataFrame(address: bv8, uiEnabled: bool, block: seq<bv8>): (f: seq<bv8>)
    requires |block| < 0x1_0000
    ensures |f| == FrameLen(|block|)
    ensures f[0] == Flag && f[|f| - 1] == Flag && f[1] == address && f[2] == Control(uiEnabled)
  {
    [Flag, address, Control(uiEnabled)] + LenField(|block|) + block
      + [Crc8.Fcs(Covered(address, uiEnabled, block)), Flag]
  }

  /** `frame_len`: the bytes of a frame carrying `n` payload bytes. */
  function FrameLen(n: nat): nat
  {
    if n > 0x7F then n + 7 else n + 6
  }

  /** A shorter block never needs a longer frame. */
  lemma FrameLenMonotone(a: nat, b: nat)
    requires a <= b
    ensures FrameLen(a) <= FrameLen(b)
  {
  }

  /** The blocks `Send` cuts `data` into: `mtu` bytes each, the last one possibly shorter. */
  function Blocks(mtu: nat, data: seq<bv8>): (bs: seq<seq<bv8>>)
    requires mtu > 0
    ensures forall i :: 0 <= i < |bs| ==> 0 < |bs[i]| <= mtu
    ensures forall i :: 0 <= i < |bs| - 1 ==> |bs[i]| == mtu
    decreases |data|
  {
    if data == [] then []
    else
      var b := Min(mtu, |data|);
      [data[..b]] + Blocks(mtu, data[b..])
  }

  function Flatten(bs: seq<seq<bv8>>): seq<bv8>
  {
    if bs == [] then [] else bs[0] + Flatten(bs[1..])
  }

  /** Cutting into blocks loses, duplicates and reorders nothing. */
  lemma {:induction false} BlocksFlatten(mtu: nat, data: seq<bv8>)
    requires mtu > 0
    ensures Flatten(Blocks(mtu, data)) == data
    decreases |data|
  {
    if data != [] {
      var b := Min(mtu, |data|);
      BlocksFlatten(mtu, data[b..]);
      assert [data[..b]] + Blocks(mtu, data[b..]) == Blocks(mtu, data);
      assert Blocks(mtu, data)[1..] == Blocks(mtu, data[b..]);
      assert data[..b] + data[b..] == data;
    }
  }

  /** Every byte sent by `Send`, frame after frame. */
  function Frames(address: bv8, uiEnabled: bool, mtu: nat, data: seq<bv8>): seq<bv8>
    requires 0 < mtu < 0x1_0000
    decreases |data|
  {
    if data == [] then []
    else
      var b := Min(mtu, |data|);
      DataFrame(address, uiEnabled, data[..b]) + Frames(address, uiEnabled, mtu, data[b..])
  }

  /** `Frames` is the data frames of `Blocks`, in order. */
  lemma {:induction false} FramesAreBlocks(address: bv8, uiEnabled: bool, mtu: nat, data: seq<bv8>)
    requires 0 < mtu < 0x1_0000
    ensures var bs := Blocks(mtu, data);
      Frames(address, uiEnabled, mtu, data) == FramesOf(address, uiEnabled, bs)
    decreases |data|
  {
    if data != [] {
      var b := Min(mtu, |data|);
      FramesAreBlocks(address, uiEnabled, mtu, data[b..]);
      assert Blocks(mtu, data)[1..] == Blocks(mtu, data[b..]);
    }
  }

  function FramesOf(address: bv8, uiEnabled: bool, bs: seq<seq<bv8>>): seq<bv8>
    requires forall i :: 0 <= i < |bs| ==> |bs[i]| < 0x1_0000
  {
    if bs == [] then [] else DataFrame(address, uiEnabled, bs[0]) + FramesOf(address, uiEnabled, bs[1..])
  }

  /** How many frames `Send` emits for `len` bytes. */
  function FrameCount(mtu: nat, len: nat): nat
    requires mtu > 0
    decreases len
  {
    if len == 0 then 0 else 1 + FrameCount(mtu, len - Min(mtu, len))
  }

  /** One frame per block. */
  lemma {:induction false} FrameCountIsBlocks(mtu: nat, data: seq<bv8>)
    requires mtu > 0
    ensures FrameCount(mtu, |data|) == |Blocks(mtu, data)|
    decreases |data|
  {
    if data != [] {
      FrameCountIsBlocks(mtu, data[Min(mtu, |data|)..]);
    }
  }

  /**
   * The variables of `Send`'s outer loop: `block_len`, the bytes not yet
   * sent (what `data` points to, `len` of them), `data_sent`, and the
   * payload of every frame written into the FIFO so far (the frames
   * themselves are `FramesOf` these).
   */
  datatype SendLoop = SendLoop(blockLen: nat, rest: seq<bv8>, sent: nat, payloads: seq<seq<bv8>>)

  /**
   * One pass of `Send`'s outer loop as written: `block_len` is cut down to
   * `len` when larger and stays so, `len` drops by `block_len`, one frame
   * goes out and `data_sent` grows by `block_len`.
   */
  function SendPass(s: SendLoop): (r: SendLoop)
    ensures r.blockLen <= s.blockLen && |r.rest| + r.blockLen == |s.rest|
  {
    var b := if s.blockLen > |s.rest| then |s.rest| else s.blockLen;
    SendLoop(b, s.rest[b..], s.sent + b, s.payloads + [s.rest[..b]])
  }

  /** `n` passes of the loop; it stops once `len` is 0. */
  function Passes(s: SendLoop, n: nat): SendLoop
    decreases n
  {
    if n == 0 || s.rest == [] then s else Passes(SendPass(s), n - 1)
  }

  /** `n` empty payloads. */
  function Empties(n: nat): (e: seq<seq<bv8>>)
    ensures |e| == n && forall i :: 0 <= i < n ==> e[i] == []
  {
    seq(n, _ => [])
  }

  /**
   * With an MTU of 0 the loop never ends: after any number of passes `len`
   * is unchanged and non-zero, nothing has been counted as sent, and one
   * frame with no payload per pass has gone into the FIFO.
   */
  lemma {:induction false} ZeroMtuNeverFinishes(s: SendLoop, n: nat)
    requires s.blockLen == 0 && s.rest != []
    ensures var r := Passes(s, n);
      r.rest == s.rest && r.sent == s.sent && r.blockLen == 0 && r.payloads == s.payloads + Empties(n)
    decreases n
  {
    if n > 0 {
      var s' := SendLoop(0, s.rest, s.sent, s.payloads + [[]]);
      assert s.rest[..0] == [] && s.rest[0..] == s.rest;
      assert SendPass(s) == s';
      ZeroMtuNeverFinishes(s', n - 1);
      assert s.payloads + [[]] + Empties(n - 1) == s.payloads + Empties(n);
    }
  }

  /**
   * With an MTU above 0 the loop as written ends after `FrameCount` passes,
   * having counted every byte as sent and written one frame per block of
   * `Blocks`, which is `Frames`.
   */
  lemma {:induction false} PassesSendAll(mtu: nat, s: SendLoop)
    requires mtu > 0 && s.blockLen == mtu
    ensures var r := Passes(s, FrameCount(mtu, |s.rest|));
      r.rest == [] && r.sent == s.sent + |s.rest| && r.payloads == s.payloads + Blocks(mtu, s.rest)
    decreases |s.rest|
  {
    if s.rest != [] {
      var b := Min(mtu, |s.rest|);
      var s' := SendLoop(b, s.rest[b..], s.sent + b, s.payloads + [s.rest[..b]]);
      assert SendPass(s) == s';
      assert Blocks(mtu, s.rest) == [s.rest[..b]] + Blocks(mtu, s'.rest);
      if s'.rest != [] {
        PassesSendAll(mtu, s');
        assert s.payloads + [s.rest[..b]] + Blocks(mtu, s'.rest) == s.payloads + Blocks(mtu, s.rest);
      }
    }
  }
}
