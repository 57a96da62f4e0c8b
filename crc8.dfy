/**
 * Frame check sequence of the basic option of 3GPP TS 27.010 (section 5.2.1.6):
 * a reflected CRC-8 over the polynomial x^8 + x^2 + x + 1, computed one byte
 * at a time through a 256-entry table.
 */
module Crc8 {

  /** `libMU_TS27010_CRCtable`: the reversed 8-bit CRC table for polynomial 0x07, in rows of 16. */
  const Table: seq<seq<bv8>> := [
    [0x00, 0x91, 0xE3, 0x72, 0x07, 0x96, 0xE4, 0x75, 0x0E, 0x9F, 0xED, 0x7C, 0x09, 0x98, 0xEA, 0x7B],
    [0x1C, 0x8D, 0xFF, 0x6E, 0x1B, 0x8A, 0xF8, 0x69, 0x12, 0x83, 0xF1, 0x60, 0x15, 0x84, 0xF6, 0x67],
    [0x38, 0xA9, 0xDB, 0x4A, 0x3F, 0xAE, 0xDC, 0x4D, 0x36, 0xA7, 0xD5, 0x44, 0x31, 0xA0, 0xD2, 0x43],
    [0x24, 0xB5, 0xC7, 0x56, 0x23, 0xB2, 0xC0, 0x51, 0x2A, 0xBB, 0xC9, 0x58, 0x2D, 0xBC, 0xCE, 0x5F],
    [0x70, 0xE1, 0x93, 0x02, 0x77, 0xE6, 0x94, 0x05, 0x7E, 0xEF, 0x9D, 0x0C, 0x79, 0xE8, 0x9A, 0x0B],
    [0x6C, 0xFD, 0x8F, 0x1E, 0x6B, 0xFA, 0x88, 0x19, 0x62, 0xF3, 0x81, 0x10, 0x65, 0xF4, 0x86, 0x17],
    [0x48, 0xD9, 0xAB, 0x3A, 0x4F, 0xDE, 0xAC, 0x3D, 0x46, 0xD7, 0xA5, 0x34, 0x41, 0xD0, 0xA2, 0x33],
    [0x54, 0xC5, 0xB7, 0x26, 0x53, 0xC2, 0xB0, 0x21, 0x5A, 0xCB, 0xB9, 0x28, 0x5D, 0xCC, 0xBE, 0x2F],
    [0xE0, 0x71, 0x03, 0x92, 0xE7, 0x76, 0x04, 0x95, 0xEE, 0x7F, 0x0D, 0x9C, 0xE9, 0x78, 0x0A, 0x9B],
    [0xFC, 0x6D, 0x1F, 0x8E, 0xFB, 0x6A, 0x18, 0x89, 0xF2, 0x63, 0x11, 0x80, 0xF5, 0x64, 0x16, 0x87],
    [0xD8, 0x49, 0x3B, 0xAA, 0xDF, 0x4E, 0x3C, 0xAD, 0xD6, 0x47, 0x35, 0xA4, 0xD1, 0x40, 0x32, 0xA3],
    [0xC4, 0x55, 0x27, 0xB6, 0xC3, 0x52, 0x20, 0xB1, 0xCA, 0x5B, 0x29, 0xB8, 0xCD, 0x5C, 0x2E, 0xBF],
    [0x90, 0x01, 0x73, 0xE2, 0x97, 0x06, 0x74, 0xE5, 0x9E, 0x0F, 0x7D, 0xEC, 0x99, 0x08, 0x7A, 0xEB],
    [0x8C, 0x1D, 0x6F, 0xFE, 0x8B, 0x1A, 0x68, 0xF9, 0x82, 0x13, 0x61, 0xF0, 0x85, 0x14, 0x66, 0xF7],
    [0xA8, 0x39, 0x4B, 0xDA, 0xAF, 0x3E, 0x4C, 0xDD, 0xA6, 0x37, 0x45, 0xD4, 0xA1, 0x30, 0x42, 0xD3],
    [0xB4, 0x25, 0x57, 0xC6, 0xB3, 0x22, 0x50, 0xC1, 0xBA, 0x2B, 0x59, 0xC8, 0xBD, 0x2C, 0x5E, 0xCF]
  ]

  /** `CRCtable[i]`: row `i >> 4`, column `i & 0xF`. */
  function Entry(i: bv8): bv8
  {
    Table[(i >> 4) as int][(i & 0xF) as int]
  }

  /** One shift of the reflected register; 0xE0 is the polynomial 0x07 bit-reversed. */
  function Shift(x: bv8): bv8
  {
    if x & 1 == 1 then (x >> 1) ^ 0xE0 else x >> 1
  }

  /** The register after eight shifts: what each table entry holds. */
  function Reflected(i: bv8): bv8
  {
    Shift(Shift(Shift(Shift(Shift(Shift(Shift(Shift(i))))))))
  }

  /** Every entry of the table is the eight-shift register value of its index. */
  lemma EntryIsReflected(i: bv8)
    ensures Entry(i) == Reflected(i)
  {
    if i >> 4 == 0 { EntryRow0(i); }
    else if i >> 4 == 1 { EntryRow1(i); }
    else if i >> 4 == 2 { EntryRow2(i); }
    else if i >> 4 == 3 { EntryRow3(i); }
    else if i >> 4 == 4 { EntryRow4(i); }
    else if i >> 4 == 5 { EntryRow5(i); }
    else if i >> 4 == 6 { EntryRow6(i); }
    else if i >> 4 == 7 { EntryRow7(i); }
    else if i >> 4 == 8 { EntryRow8(i); }
    else if i >> 4 == 9 { EntryRow9(i); }
    else if i >> 4 == 10 { EntryRow10(i); }
    else if i >> 4 == 11 { EntryRow11(i); }
    else if i >> 4 == 12 { EntryRow12(i); }
    else if i >> 4 == 13 { EntryRow13(i); }
    else if i >> 4 == 14 { EntryRow14(i); }
    else { EntryRow15(i); }
  }

  lemma EntryRow0(i: bv8)
    requires i >> 4 == 0
    ensures Entry(i) == Reflected(i)
  {
    if i == 0x00 {} else if i == 0x01 {} else if i == 0x02 {} else if i == 0x03 {} else if i == 0x04 {}
    else if i == 0x05 {} else if i == 0x06 {} else if i == 0x07 {} else if i == 0x08 {} else if i == 0x09 {}
    else if i == 0x0A {} else if i == 0x0B {} else if i == 0x0C {} else if i == 0x0D {} else if i == 0x0E {}
  }

  lemma EntryRow1(i: bv8)
    requires i >> 4 == 1
    ensures Entry(i) == Reflected(i)
  {
    if i == 0x10 {} else if i == 0x11 {} else if i == 0x12 {} else if i == 0x13 {} else if i == 0x14 {}
    else if i == 0x15 {} else if i == 0x16 {} else if i == 0x17 {} else if i == 0x18 {} else if i == 0x19 {}
    else if i == 0x1A {} else if i == 0x1B {} else if i == 0x1C {} else if i == 0x1D {} else if i == 0x1E {}
  }

  lemma EntryRow2(i: bv8)
    requires i >> 4 == 2
    ensures Entry(i) == Reflected(i)
  {
    if i == 0x20 {} else if i == 0x21 {} else if i == 0x22 {} else if i == 0x23 {} else if i == 0x24 {}
    else if i == 0x25 {} else if i == 0x26 {} else if i == 0x27 {} else if i == 0x28 {} else if i == 0x29 {}
    else if i == 0x2A {} else if i == 0x2B {} else if i == 0x2C {} else if i == 0x2D {} else if i == 0x2E {}
  }

  lemma EntryRow3(i: bv8)
    requires i >> 4 == 3
    ensures Entry(i) == Reflected(i)
  {
    if i == 0x30 {} else if i == 0x31 {} else if i == 0x32 {} else if i == 0x33 {} else if i == 0x34 {}
    else if i == 0x35 {} else if i == 0x36 {} else if i == 0x37 {} else if i == 0x38 {} else if i == 0x39 {}
    else if i == 0x3A {} else if i == 0x3B {} else if i == 0x3C {} else if i == 0x3D {} else if i == 0x3E {}
  }

  lemma EntryRow4(i: bv8)
    requires i >> 4 == 4
    ensures Entry(i) == Reflected(i)
  {
    if i == 0x40 {} else if i == 0x41 {} else if i == 0x42 {} else if i == 0x43 {} else if i == 0x44 {}
    else if i == 0x45 {} else if i == 0x46 {} else if i == 0x47 {} else if i == 0x48 {} else if i == 0x49 {}
    else if i == 0x4A {} else if i == 0x4B {} else if i == 0x4C {} else if i == 0x4D {} else if i == 0x4E {}
  }

  lemma EntryRow5(i: bv8)
    requires i >> 4 == 5
    ensures Entry(i) == Reflected(i)
  {
    if i == 0x50 {} else if i == 0x51 {} else if i == 0x52 {} else if i == 0x53 {} else if i == 0x54 {}
    else if i == 0x55 {} else if i == 0x56 {} else if i == 0x57 {} else if i == 0x58 {} else if i == 0x59 {}
    else if i == 0x5A {} else if i == 0x5B {} else if i == 0x5C {} else if i == 0x5D {} else if i == 0x5E {}
  }

  lemma EntryRow6(i: bv8)
    requires i >> 4 == 6
    ensures Entry(i) == Reflected(i)
  {
    if i == 0x60 {} else if i == 0x61 {} else if i == 0x62 {} else if i == 0x63 {} else if i == 0x64 {}
    else if i == 0x65 {} else if i == 0x66 {} else if i == 0x67 {} else if i == 0x68 {} else if i == 0x69 {}
    else if i == 0x6A {} else if i == 0x6B {} else if i == 0x6C {} else if i == 0x6D {} else if i == 0x6E {}
  }

  lemma EntryRow7(i: bv8)
    requires i >> 4 == 7
    ensures Entry(i) == Reflected(i)
  {
    if i == 0x70 {} else if i == 0x71 {} else if i == 0x72 {} else if i == 0x73 {} else if i == 0x74 {}
    else if i == 0x75 {} else if i == 0x76 {} else if i == 0x77 {} else if i == 0x78 {} else if i == 0x79 {}
    else if i == 0x7A {} else if i == 0x7B {} else if i == 0x7C {} else if i == 0x7D {} else if i == 0x7E {}
  }

  lemma EntryRow8(i: bv8)
    requires i >> 4 == 8
    ensures Entry(i) == Reflected(i)
  {
    if i == 0x80 {} else if i == 0x81 {} else if i == 0x82 {} else if i == 0x83 {} else if i == 0x84 {}
    else if i == 0x85 {} else if i == 0x86 {} else if i == 0x87 {} else if i == 0x88 {} else if i == 0x89 {}
    else if i == 0x8A {} else if i == 0x8B {} else if i == 0x8C {} else if i == 0x8D {} else if i == 0x8E {}
  }

  lemma EntryRow9(i: bv8)
    requires i >> 4 == 9
    ensures Entry(i) == Reflected(i)
  {
    if i == 0x90 {} else if i == 0x91 {} else if i == 0x92 {} else if i == 0x93 {} else if i == 0x94 {}
    else if i == 0x95 {} else if i == 0x96 {} else if i == 0x97 {} else if i == 0x98 {} else if i == 0x99 {}
    else if i == 0x9A {} else if i == 0x9B {} else if i == 0x9C {} else if i == 0x9D {} else if i == 0x9E {}
  }

  lemma EntryRow10(i: bv8)
    requires i >> 4 == 10
    ensures Entry(i) == Reflected(i)
  {
    if i == 0xA0 {} else if i == 0xA1 {} else if i == 0xA2 {} else if i == 0xA3 {} else if i == 0xA4 {}
    else if i == 0xA5 {} else if i == 0xA6 {} else if i == 0xA7 {} else if i == 0xA8 {} else if i == 0xA9 {}
    else if i == 0xAA {} else if i == 0xAB {} else if i == 0xAC {} else if i == 0xAD {} else if i == 0xAE {}
  }

  lemma EntryRow11(i: bv8)
    requires i >> 4 == 11
    ensures Entry(i) == Reflected(i)
  {
    if i == 0xB0 {} else if i == 0xB1 {} else if i == 0xB2 {} else if i == 0xB3 {} else if i == 0xB4 {}
    else if i == 0xB5 {} else if i == 0xB6 {} else if i == 0xB7 {} else if i == 0xB8 {} else if i == 0xB9 {}
    else if i == 0xBA {} else if i == 0xBB {} else if i == 0xBC {} else if i == 0xBD {} else if i == 0xBE {}
  }

  lemma EntryRow12(i: bv8)
    requires i >> 4 == 12
    ensures Entry(i) == Reflected(i)
  {
    if i == 0xC0 {} else if i == 0xC1 {} else if i == 0xC2 {} else if i == 0xC3 {} else if i == 0xC4 {}
    else if i == 0xC5 {} else if i == 0xC6 {} else if i == 0xC7 {} else if i == 0xC8 {} else if i == 0xC9 {}
    else if i == 0xCA {} else if i == 0xCB {} else if i == 0xCC {} else if i == 0xCD {} else if i == 0xCE {}
  }

  lemma EntryRow13(i: bv8)
    requires i >> 4 == 13
    ensures Entry(i) == Reflected(i)
  {
    if i == 0xD0 {} else if i == 0xD1 {} else if i == 0xD2 {} else if i == 0xD3 {} else if i == 0xD4 {}
    else if i == 0xD5 {} else if i == 0xD6 {} else if i == 0xD7 {} else if i == 0xD8 {} else if i == 0xD9 {}
    else if i == 0xDA {} else if i == 0xDB {} else if i == 0xDC {} else if i == 0xDD {} else if i == 0xDE {}
  }

  lemma EntryRow14(i: bv8)
    requires i >> 4 == 14
    ensures Entry(i) == Reflected(i)
  {
    if i == 0xE0 {} else if i == 0xE1 {} else if i == 0xE2 {} else if i == 0xE3 {} else if i == 0xE4 {}
    else if i == 0xE5 {} else if i == 0xE6 {} else if i == 0xE7 {} else if i == 0xE8 {} else if i == 0xE9 {}
    else if i == 0xEA {} else if i == 0xEB {} else if i == 0xEC {} else if i == 0xED {} else if i == 0xEE {}
  }

  lemma EntryRow15(i: bv8)
    requires i >> 4 == 15
    ensures Entry(i) == Reflected(i)
  {
    if i == 0xF0 {} else if i == 0xF1 {} else if i == 0xF2 {} else if i == 0xF3 {} else if i == 0xF4 {}
    else if i == 0xF5 {} else if i == 0xF6 {} else if i == 0xF7 {} else if i == 0xF8 {} else if i == 0xF9 {}
    else if i == 0xFA {} else if i == 0xFB {} else if i == 0xFC {} else if i == 0xFD {} else if i == 0xFE {}
  }

  /** Register value the receiver expects after folding in the transmitted FCS. */
  const Residue: bv8 := 0xCF

  /** One table step, `FCS = CRCtable[FCS ^ b]`, by way of `EntryIsReflected`. */
  function Update(fcs: bv8, b: bv8): (r: bv8)
  {
    Reflected(fcs ^ b)
  }

  /** `Update` is the table step of the C code. */
  lemma UpdateIsTableStep(fcs: bv8, b: bv8)
    ensures Update(fcs, b) == Entry(fcs ^ b)
  {
    EntryIsReflected(fcs ^ b);
  }

  /** `FCS = CRCtable[FCS ^ b]` as the C code executes it. */
  method TableStep(fcs: bv8, b: bv8) returns (r: bv8)
    ensures r == Update(fcs, b)
  {
    UpdateIsTableStep(fcs, b);
    r := Entry(fcs ^ b);
  }

  /** The register after folding every byte of `msg`, first byte first, into `seed`. */
  function Fold(seed: bv8, msg: seq<bv8>): bv8
    decreases |msg|
  {
    if msg == [] then seed else Update(Fold(seed, msg[..|msg| - 1]), msg[|msg| - 1])
  }

  /** The FCS a sender transmits for `msg`: ones complement of the register. */
  function Fcs(msg: seq<bv8>): bv8
  {
    !Fold(0xFF, msg)
  }

  /** Folding a concatenation folds the second part into the register left by the first. */
  lemma {:induction false} FoldAppend(seed: bv8, a: seq<bv8>, b: seq<bv8>)
    ensures Fold(seed, a + b) == Fold(Fold(seed, a), b)
    decreases |b|
  {
    if b == [] {
      assert a + b == a;
    } else {
      var b' := b[..|b| - 1];
      assert (a + b)[..|a + b| - 1] == a + b';
      FoldAppend(seed, a, b');
    }
  }

  /** Folding one more byte is one more table step. */
  lemma FoldSnoc(seed: bv8, a: seq<bv8>, x: bv8)
    ensures Fold(seed, a + [x]) == Update(Fold(seed, a), x)
  {
    assert (a + [x])[..|a + [x]| - 1] == a;
  }

  /** Folding a single byte into the initial register. */
  lemma FoldSingle(seed: bv8, b: bv8)
    ensures Fold(seed, [b]) == Update(seed, b)
  {
    assert [b][..0] == [];
  }

  /** The only register value the FCS byte can carry to the residue is its ones complement. */
  lemma ResidueOnlyFromComplement(f: bv8, received: bv8)
    ensures Update(f, received) == Residue <==> received == !f
  {
  }

  /**
   * `libMU_TS27010_FCSCalculate`: seed 0xFF, fold every byte through
   * the table, return the ones complement.
   */
  method FcsCalculate(msg: seq<bv8>) returns (fcs: bv8)
    requires |msg| < 0x1_0000_0000
    ensures fcs == Fcs(msg)
    ensures Update(Fold(0xFF, msg), fcs) == Residue
  {
    var acc: bv8 := 0xFF;
    var i := 0;
    while i < |msg|
      invariant 0 <= i <= |msg|
      invariant acc == Fold(0xFF, msg[..i])
    {
      assert msg[..i + 1][..i] == msg[..i];
      acc := TableStep(acc, msg[i]);
      i := i + 1;
    }
    assert msg[..i] == msg;
    fcs := !acc;
    ResidueOnlyFromComplement(acc, fcs);
  }

  /**
   * `libMU_TS27010_FCSCheck`: fold the message and then the received FCS;
   * accept when the register reaches the residue 0xCF, which happens
   * exactly for the FCS `FcsCalculate` produces.
   */
  method FcsCheck(msg: seq<bv8>, received: bv8) returns (ok: bool)
    requires |msg| < 0x1_0000_0000
    ensures ok <==> Update(Fold(0xFF, msg), received) == Residue
    ensures ok <==> received == Fcs(msg)
  {
    var acc: bv8 := 0xFF;
    var i := 0;
    while i < |msg|
      invariant 0 <= i <= |msg|
      invariant acc == Fold(0xFF, msg[..i])
    {
      assert msg[..i + 1][..i] == msg[..i];
      acc := TableStep(acc, msg[i]);
      i := i + 1;
    }
    assert msg[..i] == msg;
    var last := TableStep(acc, received);
    ok := last == 0xCF;
    ResidueOnlyFromComplement(acc, received);
  }

  /** Every message passes the check with the FCS computed for it. */
  lemma CheckAcceptsCalculated(msg: seq<bv8>)
    ensures Update(Fold(0xFF, msg), Fcs(msg)) == Residue
  {
    ResidueOnlyFromComplement(Fold(0xFF, msg), Fcs(msg));
  }
}
