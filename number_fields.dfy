/**
 * What the fields of the number formatters promise: their width, the mark
 * exactly when the number does not fit, and that the parsers of the same
 * module read the number back from a field it fits in.
 *
 * The second half models the left-justified branch of the formatters, and
 * the right-justified branch of `libMU_int_to_str` on a number left
 * negative by the negation, as the C code has them, next to the corrected
 * `NumberText` fields: it shows that the two agree on every number that
 * fits, and exhibits the inputs on which they differ.
 */
module NumberFields {
  import opened Ints
  import opened Numerals
  import opened NumberText
  import Parse

  /** Whether a formatter takes the left-justified branch. */
  predicate LeftMode(width: int, justify: char)
  {
    justify == '\0' || width < 0
  }

  /** The characters a number can take in a field: the decimal text of x for a left-justified field, otherwise the field width. */
  function Room(width: int, justify: char, size: nat): nat
  {
    if LeftMode(width, justify) then size else Min(width, size)
  }

  /** The width of a left-justified field: the text padded up to the width, within the room. */
  function LeftWidth(n: nat, width: int, size: nat): nat
  {
    Min(if width > n then width else n, size)
  }

  /** Decimal text holds digits and the sign, never the mark. */
  lemma Unmarked(x: int)
    ensures forall k :: 0 <= k < |Decimal(Abs(x))| ==> IsDigit(Decimal(Abs(x))[k])
    ensures ErrorChar !in Decimal(Abs(x)) && ErrorChar !in SignedDecimal(x)
  {
    DecimalValue(Abs(x));
    var s := SignedDecimal(x);
    forall k | 0 <= k < |s|
      ensures s[k] != ErrorChar
    {
      if k >= |Sign(x)| {
        assert s[k] == Decimal(Abs(x))[k - |Sign(x)|];
      }
    }
  }

  /**
   * A left-justified field is the text padded to the width within the
   * room, and carries the mark exactly when the text is longer than the
   * room; a text that fits starts the field.
   */
  lemma LeftShape(s: seq<char>, width: int, size: nat)
    requires size >= 1 && ErrorChar !in s
    ensures |LeftText(s, width, size)| == LeftWidth(|s|, width, size)
    ensures ErrorChar in LeftText(s, width, size) <==> |s| > size
    ensures |s| <= size ==> LeftText(s, width, size) == s + Repeat(' ', |LeftText(s, width, size)| - |s|)
  {
    var t := LeftText(s, width, size);
    if |s| > size {
      assert t[size - 1] == ErrorChar;
    } else {
      var pad := Repeat(' ', Pad(width - |s|, size - |s|));
      assert t == s + pad;
      assert ErrorChar !in pad;
    }
  }

  /**
   * A right-justified field has exactly its width, carries the mark
   * exactly when the text is longer than that, and otherwise ends with
   * the text behind the fill.
   */
  lemma RightShape(s: seq<char>, w: nat, fill: char)
    requires w >= 1 && ErrorChar !in s && fill != ErrorChar
    ensures |RightText(s, w, fill)| == w
    ensures ErrorChar in RightText(s, w, fill) <==> |s| > w
    ensures |s| <= w ==> RightText(s, w, fill) == Repeat(fill, w - |s|) + s
  {
    var t := RightText(s, w, fill);
    if |s| > w {
      assert t[0] == ErrorChar;
    } else {
      assert ErrorChar !in Repeat(fill, w - |s|);
    }
  }

  /** `libMU_uint_to_str`: the field's width, and the mark exactly when the digits do not fit in the room. */
  lemma UintShape(num: nat, width: int, justify: char, size: nat)
    requires size >= 1 && width != 0
    ensures |UintText(num, width, justify, size)| ==
              if LeftMode(width, justify) then LeftWidth(|Decimal(num)|, width, size) else Min(width, size)
    ensures ErrorChar in UintText(num, width, justify, size) <==> |Decimal(num)| > Room(width, justify, size)
  {
    Unmarked(num);
    if LeftMode(width, justify) {
      LeftShape(Decimal(num), width, size);
    } else {
      RightShape(Decimal(num), Min(width, size), Justify(justify));
    }
  }

  /** `libMU_int_to_str`: the field's width, and the mark exactly when the signed text does not fit in the room. */
  lemma IntShape(x: int, width: int, justify: char, size: nat)
    requires size >= 1 && width != 0
    ensures |IntText(x, width, justify, size)| ==
              if LeftMode(width, justify) then LeftWidth(|SignedDecimal(x)|, width, size) else Min(width, size)
    ensures ErrorChar in IntText(x, width, justify, size) <==> |SignedDecimal(x)| > Room(width, justify, size)
  {
    Unmarked(x);
    var s := SignedDecimal(x);
    if LeftMode(width, justify) {
      LeftShape(s, width, size);
    } else if justify == '0' {
      var w := Min(width, size);
      var t := ZeroFilled(x, w);
      if |s| <= w {
        assert t == Sign(x) + Repeat('0', w - |s|) + Decimal(Abs(x));
        assert ErrorChar !in Repeat('0', w - |s|);
        forall k | 0 <= k < |t|
          ensures t[k] != ErrorChar
        {
          if k >= |Sign(x)| + (w - |s|) {
            assert t[k] == Decimal(Abs(x))[k - |Sign(x)| - (w - |s|)];
          } else if k >= |Sign(x)| {
            assert t[k] == Repeat('0', w - |s|)[k - |Sign(x)|];
          }
        }
      } else {
        assert t[0] == ErrorChar;
      }
    } else {
      RightShape(s, Min(width, size), ' ');
    }
  }

  /** A run of leading zeros does not change the value of a digit run. */
  lemma {:induction false} LeadingZeros(k: nat, d: seq<char>)
    requires forall i :: 0 <= i < |d| ==> IsDigit(d[i])
    ensures forall i :: 0 <= i < k + |d| ==> IsDigit((Repeat('0', k) + d)[i])
    ensures Value(Repeat('0', k) + d) == Value(d)
    decreases |d|, k
  {
    var t := Repeat('0', k) + d;
    if d == [] {
      assert t == Repeat('0', k);
      if k > 0 {
        assert t[..k - 1] == Repeat('0', k - 1) + [];
        LeadingZeros(k - 1, []);
      }
    } else {
      assert t[..|t| - 1] == Repeat('0', k) + d[..|d| - 1];
      LeadingZeros(k, d[..|d| - 1]);
    }
  }

  /** The parsers read zeros followed by the numeral of n, up to the end, as n. */
  lemma ZerosMagnitude(s: seq<char>, at: nat, k: nat, n: nat)
    requires at <= |s| && s[at..] == Repeat('0', k) + Decimal(n)
    ensures Parse.Magnitude(s, at) == n
  {
    DecimalValue(n);
    LeadingZeros(k, Decimal(n));
    forall i | at <= i < |s|
      ensures IsDigit(s[i])
    {
      assert s[i] == s[at..][i - at];
    }
    Parse.DigitsTo(s, at, |s|);
    assert s[at..|s|] == Repeat('0', k) + Decimal(n);
  }

  /** Blanks read as blanks. */
  lemma Blanks(n: nat)
    ensures forall k :: 0 <= k < |Repeat(' ', n)| ==> Parse.IsBlank(Repeat(' ', n)[k])
  {
  }

  /** `libMU_atoul` reads back the number `libMU_uint_to_str` wrote whenever it fits, whatever the justification. */
  lemma UintRoundTrip(num: u32, width: int, justify: char, size: nat)
    requires size >= 1 && width != 0 && |Decimal(num)| <= Room(width, justify, size)
    ensures Parse.Unsigned(UintText(num, width, justify, size)) == num
  {
    var t := UintText(num, width, justify, size);
    var d := Decimal(num);
    Unmarked(num);
    if LeftMode(width, justify) {
      LeftShape(d, width, size);
      var tail := Repeat(' ', |t| - |d|);
      assert t == [] + d + tail;
      Parse.UnsignedRoundTrip([], num, tail);
    } else {
      var w := Min(width, size);
      RightShape(d, w, Justify(justify));
      if Justify(justify) == '0' {
        ZerosMagnitude(t, 0, w - |d|, num);
        Parse.SkipTo(t, 0, 0);
      } else {
        Blanks(w - |d|);
        assert t == Repeat(' ', w - |d|) + d + [];
        Parse.UnsignedRoundTrip(Repeat(' ', w - |d|), num, []);
      }
    }
  }

  /** `libMU_atoi` reads back the number `libMU_int_to_str` wrote whenever it fits, whatever the justification. */
  lemma IntRoundTrip(x: i32, width: int, justify: char, size: nat)
    requires size >= 1 && width != 0 && |SignedDecimal(x)| <= Room(width, justify, size)
    ensures Parse.Signed(IntText(x, width, justify, size)) == x
  {
    var t := IntText(x, width, justify, size);
    var s := SignedDecimal(x);
    Unmarked(x);
    if LeftMode(width, justify) {
      LeftShape(s, width, size);
      var tail := Repeat(' ', |t| - |s|);
      assert t == [] + s + tail;
      Parse.SignedRoundTrip([], x, tail);
    } else if justify == '0' {
      var w := Min(width, size);
      var z := w - |s|;
      assert t == Sign(x) + Repeat('0', z) + Decimal(Abs(x));
      Parse.SkipTo(t, 0, 0);
      if x < 0 {
        assert t[1..] == Repeat('0', z) + Decimal(Abs(x));
        ZerosMagnitude(t, 1, z, Abs(x));
      } else {
        assert t[0..] == Repeat('0', z) + Decimal(Abs(x));
        ZerosMagnitude(t, 0, z, Abs(x));
      }
    } else {
      var w := Min(width, size);
      RightShape(s, w, ' ');
      Blanks(w - |s|);
      assert t == Repeat(' ', w - |s|) + s + [];
      Parse.SignedRoundTrip(Repeat(' ', w - |s|), x, []);
    }
  }

  /** `16^8`: every 32-bit value has at most eight hexadecimal digits. */
  lemma PowSixteen()
    ensures Pow(16, 8) == 0x1_0000_0000
  {
    assert Pow(16, 4) == 65536;
    assert Pow(16, 8) == 65536 * 65536 by {
      assert Pow(16, 8) == 16 * (16 * (16 * (16 * Pow(16, 4))));
    }
  }

  /**
   * `libMU_uint_to_hex` without a width and with room for eight
   * characters: all the digits of a 32-bit value, behind the fill, in a
   * field of eight.
   */
  lemma HexWhole(num: u32, width: int, fill: char, size: nat)
    requires width < 0 && size >= 8
    ensures |Hex(num)| <= 8
    ensures HexText(num, width, fill, size) == Repeat(if fill == '\0' then '0' else fill, 8 - |Hex(num)|) + Hex(num)
  {
    PowSixteen();
    NumeralLength(num, 16, 8);
  }

  // ---------------------------------------------------------------------
  // The left-justified branch as written

  /** C's conversion of an int to `char`: its low eight bits. */
  function CharOf(v: int): char
  {
    (v % 256) as char
  }

  /** The negation `num = -num` of `libMU_int_to_str` on a 32-bit int: the least value is its own negation. */
  function NegateAsWritten(x: i32): (r: i32)
    ensures x != -0x8000_0000 ==> r == -x
    ensures x == -0x8000_0000 ==> r == x
  {
    ToInt32(-(x as int))
  }

  /**
   * The top-down loop of the left-justified branch as written, from the
   * divisor div on with `room` characters left: the digits it writes, a
   * digit once one above zero was met, and the value of `num` when it
   * stops. `num -= div * dig` leaves C's remainder of num by div.
   */
  function DownAsWritten(num: int, div: nat, room: nat, first: bool): (r: (seq<char>, int))
    ensures |r.0| <= room
    decreases div
  {
    if room == 0 || div == 0 then ([], num)
    else
      var dig := CDiv(num, div);
      var first' := first || dig > 0;
      var next := DownAsWritten(CRem(num, div), div / 10, if first' then room - 1 else room, first');
      if first' then ([CharOf(dig + '0' as int)] + next.0, next.1) else next
  }

  /**
   * The left-justified branch of `libMU_uint_to_str` and
   * `libMU_int_to_str` as written, for the `num` that remains once the
   * sign is taken off: the characters written from the start of the field,
   * with the '0' for no digit written even when there is no room for it,
   * and the mark only when the digits cut off are not all zeros.
   */
  function LeftAsWritten(sign: bool, num: int, width: int, size: nat): (r: seq<char>)
    requires size >= 1
    ensures sign ==> |r| >= 2 && r[0] == '-'
    ensures |r| <= size || (sign && size == 1 && |r| == 2)
  {
    var down := DownAsWritten(num, 1_000_000_000, if sign then size - 1 else size, false);
    if sign then LeftFinish(['-'], down, width, size) else LeftFinish([], down, width, size)
  }

  /**
   * What the left-justified branch writes after the top-down loop, from
   * the sign s0 and what the loop left: the '0' for no digit, the padding
   * while there is room, and the mark on the last character written.
   */
  function LeftFinish(s0: seq<char>, down: (seq<char>, int), width: int, size: nat): (r: seq<char>)
    ensures |s0| + 1 <= |r| && |s0| + |down.0| <= |r|
    ensures |r| <= size || |r| == |s0| + (if down.0 == [] then 1 else |down.0|)
    ensures down.1 > 0 ==> r[|r| - 1] == ErrorChar
    ensures down.1 <= 0 ==> r[..|s0|] == s0
  {
    var s1 := s0 + (if down.0 == [] then "0" else down.0);
    var s2 := if |s1| < size then s1 + Repeat(' ', Pad(width - |s1|, size - |s1|)) else s1;
    if down.1 > 0 then s2[|s2| - 1 := ErrorChar] else s2
  }

  /** When what the loop wrote, or the '0' for no digit, fits and nothing was left over, the branch finishes as the corrected field does. */
  lemma LeftFinishFits(s0: seq<char>, digits: seq<char>, text: seq<char>, width: int, size: nat)
    requires text == (if digits == [] then "0" else digits) && |s0 + text| <= size
    ensures LeftFinish(s0, (digits, 0), width, size) == LeftText(s0 + text, width, size)
  {
    var s1 := s0 + text;
    assert |s1| == size ==> Pad(width - |s1|, size - |s1|) == 0;
  }


  /**
   * The top-down loop as written on a number that has room: with the
   * places above the last k standing for `top`, the digits still to come
   * complete the numeral and nothing of the number is left over.
   */
  lemma {:induction false} DownWrites(mag: nat, k: nat, room: nat)
    requires room >= Need(mag, k)
    ensures var d := DownAsWritten(Low(mag, k), Place(k), room, Top(mag, k) > 0);
            Shown(Top(mag, k)) + d.0 == Shown(mag) && d.1 == 0
    decreases k
  {
    var top, num := Top(mag, k), Low(mag, k);
    if k == 0 {
      DivModUnique(mag, 1, mag, 0);
    } else if room == 0 {
      NoRoomNothingLeft(mag, k);
    } else {
      var dig := PlaceStep(mag, k);
      var top' := Top(mag, k - 1);
      ShownStep(top, dig, top');
      var first' := top > 0 || dig > 0;
      var room' := if first' then room - 1 else room;
      RoomStep(mag, k, room, dig);
      DownWrites(mag, k - 1, room');
      DownStep(num, Place(k), room, top > 0, dig, Low(mag, k - 1), Place(k - 1));
      var d := DownAsWritten(num, Place(k), room, top > 0);
      var d' := DownAsWritten(Low(mag, k - 1), Place(k - 1), room', first');
      Joined(Shown(top), Shown(top'), if first' then [DigitChar(dig)] else [], d.0, d'.0, Shown(mag));
    }
  }

  /** The digits shown before a pass, the one it writes and those written after it make up the digits shown after the pass and the rest. */
  lemma Joined(a: seq<char>, a': seq<char>, c: seq<char>, d: seq<char>, d': seq<char>, all: seq<char>)
    requires a' == a + c && d == c + d' && a' + d' == all
    ensures a + d == all
  {
  }

  /** One pass of the top-down loop: the digit is written once one above zero was met, and the loop goes on with the remainder. */
  lemma DownStep(num: int, div: nat, room: nat, first: bool, dig: nat, rest: int, div': nat)
    requires room > 0 && div > 0 && dig < 10
    requires dig == CDiv(num, div) && rest == CRem(num, div) && div' == div / 10
    ensures var next := DownAsWritten(rest, div', if first || dig > 0 then room - 1 else room, first || dig > 0);
            DownAsWritten(num, div, room, first) == if first || dig > 0 then ([DigitChar(dig)] + next.0, next.1) else next
  {
    assert CharOf(dig + '0' as int) == DigitChar(dig);
  }


  /** The divisor of the top-down loop with k places left. */
  function Place(k: nat): nat
  {
    if k == 0 then 0 else Pow(10, k - 1)
  }

  /** The characters the top-down loop still writes for mag with k places left. */
  ghost function Need(mag: nat, k: nat): nat
  {
    if Top(mag, k) > 0 then k else |Shown(Low(mag, k))|
  }

  /** The number the places above the last k of mag stand for. */
  function Top(mag: nat, k: nat): nat
  {
    var p := Pow(10, k);
    mag / p
  }

  /** The last k places of mag. */
  function Low(mag: nat, k: nat): nat
  {
    var p := Pow(10, k);
    mag % p
  }

  /** With no room and no digit yet shown, nothing remains of a number that needs no room. */
  lemma NoRoomNothingLeft(mag: nat, k: nat)
    requires k >= 1 && Need(mag, k) == 0
    ensures Top(mag, k) == 0 && Low(mag, k) == 0 && mag == 0
  {
    if mag > 0 {
      DivModUnique(mag, Pow(10, k), 0, mag);
    }
  }

  /** One pass of the top-down loop in the terms of the place: the digit, the remainder and the next divisor. */
  lemma PlaceStep(mag: nat, k: nat) returns (dig: nat)
    requires k >= 1
    ensures dig < 10 && dig == CDiv(Low(mag, k), Place(k))
    ensures CRem(Low(mag, k), Place(k)) == Low(mag, k - 1)
    ensures Place(k) / 10 == Place(k - 1)
    ensures Top(mag, k - 1) == 10 * Top(mag, k) + dig
    ensures CharOf(dig + '0' as int) == DigitChar(dig)
  {
    var num, div := Low(mag, k), Pow(10, k - 1);
    assert Place(k) == div;
    dig := num / div;
    DigitSplit(mag, k, num, dig, div / 10);
    var q := CDiv(num, div);
    assert q == dig;
    assert q * div + CRem(num, div) == num;
    assert CRem(num, div) == num - div * dig;
  }


  /** The room left after one pass still covers what the remaining places need. */
  lemma RoomStep(mag: nat, k: nat, room: nat, dig: nat)
    requires k >= 1 && room >= 1 && room >= Need(mag, k)
    requires Top(mag, k - 1) == 10 * Top(mag, k) + dig
    ensures (if Top(mag, k) > 0 || dig > 0 then room - 1 else room) >= Need(mag, k - 1)
  {
    var p, top := Pow(10, k - 1), Top(mag, k);
    if top > 0 {
      assert mag / p > 0;
    } else {
      DivModUnique(mag, Pow(10, k), 0, mag);
      assert Need(mag, k) == |Shown(mag)|;
      if dig > 0 {
        assert mag / p > 0 && Need(mag, k - 1) == k - 1;
        QuotientBelow(mag, p, 1);
        if k > 1 {
          NumeralLength(mag, 10, k - 1);
        }
        assert |Shown(mag)| >= k;
      } else {
        assert mag / p == 0;
        QuotientBelow(mag, p, 1);
        DivModUnique(mag, p, 0, mag);
        assert Need(mag, k - 1) == |Shown(mag)|;
      }
    }
  }


  /**
   * On a number whose sign and digits fit in the room the left-justified
   * branch as written is the corrected field: the written text is the
   * sign and the numeral, padded, with no mark.
   */
  lemma LeftAsWrittenFits(sign: bool, num: nat, width: int, size: nat)
    requires size >= 1 && num < Pow(10, 10)
    requires |(if sign then ['-'] else []) + Decimal(num)| <= size
    ensures LeftAsWritten(sign, num, width, size) == LeftText((if sign then ['-'] else []) + Decimal(num), width, size)
  {
    var s0: seq<char> := if sign then ['-'] else [];
    var room := if sign then size - 1 else size;
    TopDigits(num, room);
    assert LeftAsWritten(sign, num, width, size) == LeftFinish(s0, (Shown(num), 0), width, size);
    ShownText(num);
    LeftFinishFits(s0, Shown(num), Decimal(num), width, size);
  }

  /** The digits shown for a number, or the '0' for none, are its numeral. */
  lemma ShownText(num: nat)
    ensures (if Shown(num) == [] then "0" else Shown(num)) == Decimal(num)
  {
  }

  /** The top-down loop writes the numeral of a number below 10^10, nothing for zero, when it has room for the numeral. */
  lemma TopDigits(num: nat, room: nat)
    requires num < Pow(10, 10) && room >= |Decimal(num)|
    ensures DownAsWritten(num, 1_000_000_000, room, false) == (Shown(num), 0)
  {
    AllPlaces(num);
    DownWrites(num, 10, room);
    var d := DownAsWritten(num, Place(10), room, false);
    assert Shown(Top(num, 10)) + d.0 == Shown(num) && d.1 == 0;
    assert Shown(0) == [];
    assert d.0 == Shown(num);
  }

  /** A number below 10^10 has nothing above its last ten places, and the first divisor is 10^9. */
  lemma AllPlaces(num: nat)
    requires num < Pow(10, 10)
    ensures Top(num, 10) == 0 && Low(num, 10) == num && Place(10) == 1_000_000_000
    ensures Need(num, 10) <= |Decimal(num)|
  {
    PowTen();
    DivModUnique(num, Pow(10, 10), 0, num);
  }



  /**
   * Every int except the least one, negated as written, is left-justified
   * as in the corrected field whenever its signed text fits in the room.
   */
  lemma LeftAsWrittenAgrees(x: i32, width: int, size: nat)
    requires x != -0x8000_0000 && size >= 1 && width != 0
    requires |SignedDecimal(x)| <= size
    ensures LeftAsWritten(x < 0, if x < 0 then NegateAsWritten(x) else x, width, size) == IntText(x, width, '\0', size)
  {
    PowTen();
    LeftAsWrittenFits(x < 0, Abs(x), width, size);
  }

  /**
   * Digits cut off by the room go unmarked when they are zeros: 1000 in a
   * room of two characters is written "10", where the corrected field is
   * "1#".
   */
  lemma TrailingZerosUnflagged()
    ensures LeftAsWritten(false, 1000, -1, 2) == "10"
    ensures UintText(1000, -1, '\0', 2) == "1#"
  {
    ThousandDown();
    ThousandText();
  }

  /** The top-down loop writes "10" for 1000 in two characters and leaves nothing of it. */
  lemma ThousandDown()
    ensures DownAsWritten(1000, 1_000_000_000, 2, false) == ("10", 0)
  {
    ThousandSkips();
    LastZero();
    assert CDiv(1000, 1000) == 1 && CRem(1000, 1000) == 0;
    assert [CharOf(1 + '0' as int)] + ['0'] == "10";
  }

  /** The six places above the thousands write nothing for 1000. */
  lemma ThousandSkips()
    ensures DownAsWritten(1000, 1_000_000_000, 2, false) == DownAsWritten(1000, 1000, 2, false)
  {
    assert Pow(10, 5) == 100_000;
    SkipPlaces(1000, 10_000, 5, 2);
    SkipZeros(1000, 10_000, 2);
  }

  /** No place from d up writes anything for a number below d. */
  lemma {:induction false} SkipPlaces(num: nat, d: nat, j: nat, room: nat)
    requires num < d && room > 0
    ensures DownAsWritten(num, d * Pow(10, j), room, false) == DownAsWritten(num, d, room, false)
    decreases j
  {
    if j > 0 {
      TenfoldPlace(d, j);
      SkipZeros(num, d * Pow(10, j), room);
      SkipPlaces(num, d, j - 1, room);
    }
  }

  /** The place above `d * 10^(j-1)` is ten times it. */
  lemma TenfoldPlace(d: nat, j: nat)
    requires j > 0
    ensures d <= d * Pow(10, j - 1) <= d * Pow(10, j)
    ensures d * Pow(10, j) / 10 == d * Pow(10, j - 1)
  {
    var below := d * Pow(10, j - 1);
    assert d * Pow(10, j) == below * 10;
    MulMonotone(1, Pow(10, j - 1), d);
    MulMonotone(1, 10, below);
    DivModUnique(below * 10, 10, below, 0);
  }

  /** A zero digit after the first one is written, and the room is then full. */
  lemma LastZero()
    ensures DownAsWritten(0, 100, 1, true) == (['0'], 0)
  {
    assert DownAsWritten(0, 10, 0, true) == ([], 0);
    assert CDiv(0, 100) == 0 && CRem(0, 100) == 0;
    assert [CharOf(0 + '0' as int)] + [] == ['0'];
  }

  lemma ThousandText()
    ensures Decimal(1000) == "1000"
  {
    assert Decimal(1) == "1";
    assert Decimal(10) == "10";
    assert Decimal(100) == "100";
  }

  /** Places above a number write nothing until the first digit above zero. */
  lemma SkipZeros(num: nat, div: nat, room: nat)
    requires num < div && room > 0
    ensures DownAsWritten(num, div, room, false) == DownAsWritten(num, div / 10, room, false)
  {
    DivModUnique(num, div, 0, num);
  }

  /**
   * A number that is not positive has no digit above zero in any place,
   * so nothing is written and what remains of it is not positive.
   */
  lemma {:induction false} NothingPositive(num: int, div: nat, room: nat)
    requires num <= 0
    ensures DownAsWritten(num, div, room, false).0 == [] && DownAsWritten(num, div, room, false).1 <= 0
    decreases div
  {
    if room > 0 && div > 0 {
      var rest := CRem(num, div);
      NonPositiveParts(num, div);
      NothingPositive(rest, div / 10, room);
      var next := DownAsWritten(rest, div / 10, room, false);
      assert DownAsWritten(num, div, room, false).0 == next.0;
      assert DownAsWritten(num, div, room, false).1 == next.1;
    }
  }

  /** C's quotient and remainder of a number that is not positive are not positive. */
  lemma NonPositiveParts(num: int, div: nat)
    requires num <= 0 && div > 0
    ensures CDiv(num, div) <= 0 && CRem(num, div) <= 0
  {
    if num == 0 {
      DivModUnique(0, div, 0, 0);
    } else {
      var a: nat := -num;
      assert a / div >= 0;
    }
  }

  /**
   * A negative number in a room of one character: the '-' fills the room,
   * the '0' for no digit goes one past it and is then marked, so two
   * characters are written where the corrected field has one.
   */
  lemma NegativeOverrun()
    ensures LeftAsWritten(true, 5, -1, 1) == "-#"
    ensures |LeftAsWritten(true, 5, -1, 1)| > 1
    ensures IntText(-5, -1, '\0', 1) == "#"
  {
    assert SignedDecimal(-5) == "-5";
  }

  /**
   * The least 32-bit value stays negative after the C negation, every
   * digit of the top-down loop is then negative and none is written: the
   * field reads "-0", where the corrected field is the full text.
   */
  lemma LeastIntAsZero()
    ensures NegateAsWritten(-0x8000_0000) == -0x8000_0000
    ensures LeftAsWritten(true, NegateAsWritten(-0x8000_0000), -1, 12) == "-0"
    ensures IntText(-0x8000_0000, -1, '\0', 12) == SignedDecimal(-0x8000_0000)
    ensures |SignedDecimal(-0x8000_0000)| == 11
  {
    assert 0x8000_0000 % 0x1_0000_0000 == 0x8000_0000;
    LeastIntWritten();
    LeastIntText();
  }

  /** No digit of the least value is written: only the sign and the '0' for no digit. */
  lemma LeastIntWritten()
    ensures LeftAsWritten(true, -0x8000_0000, -1, 12) == "-0"
  {
    NothingPositive(-0x8000_0000, 1_000_000_000, 11);
  }

  /** The corrected field holds the ten digits of the least value's magnitude behind the sign. */
  lemma LeastIntText()
    ensures IntText(-0x8000_0000, -1, '\0', 12) == SignedDecimal(-0x8000_0000)
    ensures |SignedDecimal(-0x8000_0000)| == 11
  {
    PowTen();
    NumeralLength(0x8000_0000, 10, 10);
    NumeralLength(0x8000_0000, 10, 9);
    var s := SignedDecimal(-0x8000_0000);
    Unmarked(-0x8000_0000);
    LeftShape(s, -1, 12);
  }
  // ---------------------------------------------------------------------
  // The right-justified branch as written

  /**
   * The bottom-up loop of the right-justified branch as written, with
   * `room` characters left: the digits it writes, in the order they stand
   * in the field, and the value of `num` when it stops. It runs only while
   * `num` is above zero.
   */
  function UpAsWritten(num: int, room: nat): (r: (seq<char>, int))
    ensures |r.0| <= room
    ensures r.0 == [] <==> room == 0 || num <= 0
    decreases room
  {
    if room == 0 || num <= 0 then ([], num)
    else
      var next := UpAsWritten(CDiv(num, 10), room - 1);
      (next.0 + [CharOf(CRem(num, 10) + '0' as int)], next.1)
  }

  /**
   * The right-justified branch of `libMU_int_to_str` as written, in a
   * field of w characters, for the `num` that remains once the sign is
   * taken off: the digits at the end, then the '0' fill with the sign over
   * a leading '0', or the '-' and the spaces; the first character is
   * marked when digits are left over or the sign found no place.
   */
  function RightAsWritten(sign: bool, num: int, w: nat, zeroFill: bool): (r: seq<char>)
    requires w >= 1
    ensures |r| == w
    ensures sign ==> '-' in r || r[0] == ErrorChar
  {
    var up := if num == 0 then ("0", 0) else UpAsWritten(num, w);
    var rest := w - |up.0|;
    var placed := if zeroFill then
                    var z := Repeat('0', rest) + up.0;
                    if sign && z[0] == '0' then (z[0 := '-'], false) else (z, sign)
                  else if rest > 0 && sign then (Repeat(' ', rest - 1) + "-" + up.0, false)
                  else (Repeat(' ', rest) + up.0, sign);
    if up.1 > 0 || placed.1 then placed.0[0 := ErrorChar] else placed.0
  }

  /**
   * A number still negative after the negation has no digit written by
   * the bottom-up loop: the field is the sign over a leading '0' of the
   * '0' fill, or the '-' right-aligned behind spaces, and is not marked.
   */
  lemma SignOnly(num: int, w: nat)
    requires num < 0 && w >= 1
    ensures RightAsWritten(true, num, w, true) == ['-'] + Repeat('0', w - 1)
    ensures RightAsWritten(true, num, w, false) == Repeat(' ', w - 1) + ['-']
  {
    assert UpAsWritten(num, w) == ([], num);
    var z := Repeat('0', w);
    assert z[0 := '-'] == ['-'] + Repeat('0', w - 1);
    assert Repeat(' ', w - 1) + "-" + [] == Repeat(' ', w - 1) + ['-'];
  }

  /**
   * The least value right-justified in a field of five: as written no
   * digit is written, so the field reads "-0000" with '0' fill and
   * "    -" with ' ' fill, and neither is marked; the corrected fields are
   * marked, the signed text being eleven characters long.
   */
  lemma LeastIntRight()
    ensures RightAsWritten(true, NegateAsWritten(-0x8000_0000), 5, true) == "-0000"
    ensures RightAsWritten(true, NegateAsWritten(-0x8000_0000), 5, false) == "    -"
    ensures ErrorChar in IntText(-0x8000_0000, 5, '0', 5)
    ensures ErrorChar in IntText(-0x8000_0000, 5, ' ', 5)
  {
    LeastNegation();
    LeastRightTexts();
    LeastIntMarked();
  }

  /** The C negation leaves the least 32-bit value as it is. */
  lemma LeastNegation()
    ensures NegateAsWritten(-0x8000_0000) == -0x8000_0000
  {
    assert 0x8000_0000 % 0x1_0000_0000 == 0x8000_0000;
  }

  /** The right-justified fields of five as written for the least value. */
  lemma LeastRightTexts()
    ensures RightAsWritten(true, -0x8000_0000, 5, true) == "-0000"
    ensures RightAsWritten(true, -0x8000_0000, 5, false) == "    -"
  {
    SignOnly(-0x8000_0000, 5);
    assert Repeat('0', 4) == "0000";
    assert Repeat(' ', 4) == "    ";
  }

  /** The corrected right-justified fields of five for the least value carry the mark. */
  lemma LeastIntMarked()
    ensures ErrorChar in IntText(-0x8000_0000, 5, '0', 5)
    ensures ErrorChar in IntText(-0x8000_0000, 5, ' ', 5)
  {
    LeastIntText();
    IntShape(-0x8000_0000, 5, '0', 5);
    IntShape(-0x8000_0000, 5, ' ', 5);
  }

}
