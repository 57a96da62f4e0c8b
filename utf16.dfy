/**
 * UTF-16 at the level of one character: a surrogate pair or a single unit
 * to a code point, and a code point to its one or two units.
 */
module Utf16 {
  import opened Ints
  import Utf8

  /** The unit at `i`, with the terminating 0 past the end. */
  function At16(txt: seq<u16>, i: nat): u16
  {
    if i < |txt| then txt[i] else 0
  }

  predicate IsHigh(w: u16)
  {
    0xD800 <= w < 0xDC00
  }

  predicate IsLow(w: u16)
  {
    0xDC00 <= w < 0xE000
  }

  /** The code point of a high and a low surrogate: ten bits from each, above the basic plane. */
  function PairValue(w0: u16, w1: u16): (u: u32)
    ensures 0x1_0000 <= u <= 0x10_FFFF
  {
    (w0 % 0x400) * 0x400 + w1 % 0x400 + 0x1_0000
  }

  /**
   * `utf16_to_utf32_char` as written: the units are matched against the mask
   * 0xDC00, which leaves bit 13 out, so 0xF800..0xFBFF also count as a
   * first half and 0xFC00..0xFFFF as a second half.
   */
  function Utf16CharAsWritten(txt: seq<u16>, i: nat): (d: Utf8.Decoded)
    ensures d.len == 1 || d.len == 2
  {
    var w0, w1 := At16(txt, i), At16(txt, i + 1);
    if FirstAsWritten(w0) && SecondAsWritten(w1) then
      Utf8.Decoded(PairValue(w0, w1), 2)
    else Utf8.Decoded(w0, 1)
  }

  /** The same decoder with the surrogate ranges matched exactly (mask 0xFC00). */
  function Utf16Char(txt: seq<u16>, i: nat): (d: Utf8.Decoded)
    ensures d.len == 2 <==> IsHigh(At16(txt, i)) && IsLow(At16(txt, i + 1))
    ensures d.len == 1 ==> d.value == At16(txt, i)
    ensures d.len == 2 ==> 0x1_0000 <= d.value <= 0x10_FFFF
    ensures At16(txt, i) != 0 ==> i + d.len <= |txt|
  {
    var w0, w1 := At16(txt, i), At16(txt, i + 1);
    if IsHigh(w0) && IsLow(w1) then Utf8.Decoded(PairValue(w0, w1), 2)
    else Utf8.Decoded(w0, 1)
  }

  /** The bit of weight `p` of a unit. */
  function Bit(w: u16, p: nat): nat
    requires p > 0
  {
    w / p % 2
  }

  /** `(w & 0xDC00) == 0xD800`: bits 15, 14, 12 and 11 set and bit 10 clear; bit 13 is not looked at. */
  predicate FirstAsWritten(w: u16)
  {
    Bit(w, 0x8000) == 1 && Bit(w, 0x4000) == 1 && Bit(w, 0x1000) == 1 && Bit(w, 0x800) == 1 && Bit(w, 0x400) == 0
  }

  /** `(w & 0xDC00) == 0xDC00`: bits 15, 14, 12, 11 and 10 set; bit 13 is not looked at. */
  predicate SecondAsWritten(w: u16)
  {
    Bit(w, 0x8000) == 1 && Bit(w, 0x4000) == 1 && Bit(w, 0x1000) == 1 && Bit(w, 0x800) == 1 && Bit(w, 0x400) == 1
  }

  /** The written tests accept the surrogate ranges and, with bit 13 set, the same ranges 0x2000 higher. */
  lemma MaskRanges(w: u16)
    ensures FirstAsWritten(w) <==> IsHigh(w) || 0xF800 <= w < 0xFC00
    ensures SecondAsWritten(w) <==> IsLow(w) || 0xFC00 <= w
  {
  }

  /** Away from 0xF800..0xFFFF the two tests agree. */
  lemma MasksAgree(txt: seq<u16>, i: nat)
    requires At16(txt, i) < 0xF800 && At16(txt, i + 1) < 0xF800
    ensures Utf16CharAsWritten(txt, i) == Utf16Char(txt, i)
  {
    MaskRanges(At16(txt, i));
    MaskRanges(At16(txt, i + 1));
  }

  /** U+F800 then U+FC00, two characters of the basic plane, come out of the written test as the single pair U+10000. */
  lemma PrivateUseReadAsPair()
    ensures Utf16CharAsWritten([0xF800, 0xFC00], 0) == Utf8.Decoded(0x1_0000, 2)
    ensures Utf16Char([0xF800, 0xFC00], 0) == Utf8.Decoded(0xF800, 1)
  {
    MaskRanges(0xF800);
    MaskRanges(0xFC00);
  }

  /** The first unit of a character and the extra one (0 when there is none, 0xFFFF beyond U+10FFFF). */
  datatype Units = Units(first: u16, extra: u16)

  /** `utf32_to_utf16_chars`. */
  function Utf32ToUtf16(u: u32): (w: Units)
    ensures u <= 0xFFFF ==> w == Units(u, 0)
    ensures u > 0x10_FFFF ==> w == Units(0, 0xFFFF)
    ensures 0xFFFF < u <= 0x10_FFFF ==> IsHigh(w.first) && IsLow(w.extra)
  {
    if u <= 0xFFFF then Units(u, 0)
    else if u > 0x10_FFFF then Units(0, 0xFFFF)
    else
      var v := u - 0x1_0000;
      Units(0xD800 + (v / 0x400) % 0x400, 0xDC00 + v % 0x400)
  }

  /** The units a code point up to U+10FFFF is stored as. */
  function UnitsOf(u: u32): (s: seq<u16>)
    requires u <= 0x10_FFFF
    ensures |s| == (if u > 0xFFFF then 2 else 1)
  {
    var w := Utf32ToUtf16(u);
    if w.extra != 0 then [w.first, w.extra] else [w.first]
  }

  /** Every code point outside the surrogate range decodes back from its units, whatever follows them. */
  lemma Utf16RoundTrip(u: u32, rest: seq<u16>)
    requires u <= 0x10_FFFF && !(0xD800 <= u < 0xE000)
    ensures Utf16Char(UnitsOf(u) + rest, 0) == Utf8.Decoded(u, |UnitsOf(u)|)
  {
    var txt := UnitsOf(u) + rest;
    if u > 0xFFFF {
      var v := u - 0x1_0000;
      var h, l := (v / 0x400) % 0x400, v % 0x400;
      assert At16(txt, 0) == 0xD800 + h && At16(txt, 1) == 0xDC00 + l;
      assert v / 0x400 < 0x400;
      assert (0xD800 + h) % 0x400 == h && (0xDC00 + l) % 0x400 == l;
    }
  }
}
