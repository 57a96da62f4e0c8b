/**
 * The number formatters behind `libMU_vsnprintf`: `libMU_uint_to_str`,
 * `libMU_int_to_str` and `libMU_uint_to_hex`. Each writes into a field of
 * `size` characters of `buf` starting at `at` and returns the index after
 * the last character it wrote.
 *
 * Without a justification character, or without a width, a decimal
 * number is written left to right from the divisor `10^9` down and padded
 * with spaces up to the width. Otherwise exactly `min(width, size)`
 * characters are written right-aligned, from the last digit backwards,
 * and the rest of the field is filled. A number that does not fit is
 * marked with `LIBMU_SNPRINTF_ERROR_CHAR`.
 */
module NumberText {
  import opened Ints
  import opened Numerals
  import Parse

  /** `LIBMU_SNPRINTF_ERROR_CHAR`. */
  const ErrorChar: char := '#'

  function Repeat(c: char, n: nat): (s: seq<char>)
    ensures |s| == n && forall k :: 0 <= k < n ==> s[k] == c
  {
    if n == 0 then [] else Repeat(c, n - 1) + [c]
  }

  /** The spaces a left-justified text gets: up to the width, within the room left. */
  function Pad(width: int, room: nat): nat
  {
    if width <= 0 then 0 else if width < room then width else room
  }

  /**
   * A left-justified text in a field of `size` characters: the whole text
   * and its padding when it fits, otherwise as much as fits with the last
   * character replaced by the mark.
   */
  function LeftText(s: seq<char>, width: int, size: nat): seq<char>
    requires size >= 1
  {
    if |s| <= size then s + Repeat(' ', Pad(width - |s|, size - |s|))
    else s[..size - 1] + [ErrorChar]
  }

  /** The text in a field of exactly w characters: filled on the left when it fits, otherwise its last w characters. */
  function Filled(s: seq<char>, w: nat, fill: char): (t: seq<char>)
    ensures |t| == w
  {
    if |s| <= w then Repeat(fill, w - |s|) + s else s[|s| - w..]
  }

  /**
   * A right-justified text in a field of exactly w characters: filled on
   * the left when it fits, otherwise its last characters behind the mark.
   */
  function RightText(s: seq<char>, w: nat, fill: char): seq<char>
    requires w >= 1
  {
    if |s| <= w then Filled(s, w, fill) else Filled(s, w, fill)[0 := ErrorChar]
  }

  /** `libMU_uint_to_str` takes any justification other than ' ' and '0' as ' '. */
  function Justify(c: char): char
  {
    if c == ' ' || c == '0' then c else ' '
  }

  /** The field `libMU_uint_to_str` writes when there is room for at least one character. */
  function UintText(num: nat, width: int, justify: char, size: nat): seq<char>
    requires size >= 1 && width != 0
  {
    if justify == '\0' || width < 0 then LeftText(Decimal(num), width, size)
    else RightText(Decimal(num), Min(width, size), Justify(justify))
  }

  /** Zero fill goes between the sign and the digits. */
  function ZeroFilled(x: int, w: nat): seq<char>
    requires w >= 1
  {
    var s := SignedDecimal(x);
    if |s| <= w then Sign(x) + Repeat('0', w - |s|) + Decimal(Abs(x)) else [ErrorChar] + s[|s| - w + 1..]
  }

  /** The field `libMU_int_to_str` writes when there is room for at least one character. */
  function IntText(x: int, width: int, justify: char, size: nat): seq<char>
    requires size >= 1 && width != 0
  {
    if justify == '\0' || width < 0 then LeftText(SignedDecimal(x), width, size)
    else if justify == '0' then ZeroFilled(x, Min(width, size))
    else RightText(SignedDecimal(x), Min(width, size), ' ')
  }

  /** The field width of `libMU_uint_to_hex`: eight digits when no width is given, never more than the room. */
  function HexWidth(width: int, size: nat): nat
  {
    if width < 0 then Min(8, size) else Min(width, size)
  }

  /** The field `libMU_uint_to_hex` writes: right-aligned, '0' fill by default, the high digits cut off. */
  function HexText(num: nat, width: int, fill: char, size: nat): seq<char>
    requires size >= 1 && width != 0
  {
    Filled(Hex(num), HexWidth(width, size), if fill == '\0' then '0' else fill)
  }

  // ---------------------------------------------------------------------
  // The formatters

  /** `libMU_uint_to_str` on a field of `size` characters from `at`. */
  method UintToStr(buf: array<char>, at: nat, size: int, num: u32, width: int, justify: char) returns (end: nat)
    requires width != 0 && at <= buf.Length && (size <= 0 || at + size <= buf.Length)
    modifies buf
    ensures size <= 0 ==> end == at
    ensures size > 0 ==> at <= end <= at + size && buf[at..end] == UintText(num, width, justify, size)
    ensures end <= buf.Length && buf[..at] == old(buf[..at]) && buf[end..] == old(buf[end..])
  {
    if size <= 0 {
      return at;
    }
    var fill := justify;
    if fill != '\0' && fill != ' ' && fill != '0' {
      fill := ' ';
    }
    if fill == '\0' || width < 0 {
      PowTen();
      end := WriteLeft(buf, at, size, false, num, width);
      assert "" + Decimal(num) == Decimal(num);
      return;
    }
    var w := if width > size then size else width;
    end := at + w;
    MarkedDigits(buf, at, end, num, fill);
    assert Min(width, size) == w && Justify(justify) == fill;
  }

  /** The right-justified branch of `libMU_uint_to_str`: the digits, the fill, and the mark on the first character when the number did not fit. */
  method MarkedDigits(buf: array<char>, lo: nat, hi: nat, num: nat, fill: char)
    requires lo < hi <= buf.Length
    modifies buf
    ensures buf[lo..hi] == RightText(Decimal(num), hi - lo, fill)
    ensures buf[..lo] == old(buf[..lo]) && buf[hi..] == old(buf[hi..])
  {
    var rest := RightDigits(buf, lo, hi, num, 10, fill);
    ghost var before := buf[..];
    if rest > 0 {
      buf[lo] := ErrorChar;
      assert buf[lo..hi] == before[lo..hi][0 := ErrorChar];
    }
  }

  /** `libMU_int_to_str` on a field of `size` characters from `at`, with the magnitude of a negative number taken unsigned. */
  method IntToStr(buf: array<char>, at: nat, size: int, num: i32, width: int, justify: char) returns (end: nat)
    requires width != 0 && at <= buf.Length && (size <= 0 || at + size <= buf.Length)
    modifies buf
    ensures size <= 0 ==> end == at
    ensures size > 0 ==> at <= end <= at + size && buf[at..end] == IntText(num, width, justify, size)
    ensures end <= buf.Length && buf[..at] == old(buf[..at]) && buf[end..] == old(buf[end..])
  {
    if size <= 0 {
      return at;
    }
    if justify == '\0' || width < 0 {
      end := LeftSigned(buf, at, size, num, width);
      return;
    }
    var w := if width > size then size else width;
    end := at + w;
    RightSigned(buf, at, end, num, justify);
    assert Min(width, size) == w;
  }

  /** The left-justified branch of `libMU_int_to_str`: the sign, then the magnitude. */
  method LeftSigned(buf: array<char>, at: nat, size: nat, num: i32, width: int) returns (end: nat)
    requires 1 <= size && at + size <= buf.Length
    modifies buf
    ensures at <= end <= at + size && buf[at..end] == LeftText(SignedDecimal(num), width, size)
    ensures buf[..at] == old(buf[..at]) && buf[end..] == old(buf[end..])
  {
    var sign := num < 0;
    var mag: nat := Abs(num);
    assert mag < Pow(10, 10) by {
      PowTen();
    }
    assert (if sign then "-" else "") + Decimal(mag) == SignedDecimal(num);
    end := WriteLeft(buf, at, size, sign, mag, width);
  }

  /** The right-justified branches of `libMU_int_to_str`: zero-filled or space-filled. */
  method RightSigned(buf: array<char>, lo: nat, hi: nat, num: int, justify: char)
    requires lo < hi <= buf.Length
    modifies buf
    ensures buf[lo..hi] == if justify == '0' then ZeroFilled(num, hi - lo) else RightText(SignedDecimal(num), hi - lo, ' ')
    ensures buf[..lo] == old(buf[..lo]) && buf[hi..] == old(buf[hi..])
  {
    if justify == '0' {
      ZeroDigits(buf, lo, hi, num);
    } else {
      SignedDigits(buf, lo, hi, num);
    }
  }

  /**
   * The zero-filled branch of `libMU_int_to_str`: digits and zeros, the
   * first zero replaced by the sign, and the mark on the first character
   * when digits were left over or no zero took the sign.
   */
  method ZeroDigits(buf: array<char>, lo: nat, hi: nat, num: int)
    requires lo < hi <= buf.Length
    modifies buf
    ensures buf[lo..hi] == ZeroFilled(num, hi - lo)
    ensures buf[..lo] == old(buf[..lo]) && buf[hi..] == old(buf[hi..])
  {
    var sign := num < 0;
    var rest := RightDigits(buf, lo, hi, Abs(num), 10, '0');
    ghost var zeroed := buf[lo..hi];
    if sign && buf[lo] == '0' {
      buf[lo] := '-';
      sign := false;
    }
    if rest > 0 || sign {
      buf[lo] := ErrorChar;
    }
    ZeroField(num, hi - lo, zeroed, rest, buf[lo..hi]);
  }

  /**
   * The space-filled branch of `libMU_int_to_str`: the sign before the
   * digits when there is room for it, spaces before that, and the mark on
   * the first character when digits or the sign were left over.
   */
  method SignedDigits(buf: array<char>, lo: nat, hi: nat, num: int)
    requires lo < hi <= buf.Length
    modifies buf
    ensures buf[lo..hi] == RightText(SignedDecimal(num), hi - lo, ' ')
    ensures buf[..lo] == old(buf[..lo]) && buf[hi..] == old(buf[hi..])
  {
    ghost var b0 := buf[..];
    var p, over := SignBeforeDigits(buf, lo, hi, num);
    ghost var b1 := buf[..];
    FillBack(buf, lo, p, ' ');
    ghost var b2 := buf[..];
    if over {
      buf[lo] := ErrorChar;
    }
    SignedField(b0, b1, b2, buf[..], lo, p, hi, over, SignedDecimal(num));
  }

  /** The signed digits behind the spaces, marked when something was left over, make up `RightText`, and nothing outside the field changed. */
  lemma SignedField(b0: seq<char>, b1: seq<char>, b2: seq<char>, b3: seq<char>, lo: nat, p: nat, hi: nat, over: bool, s: seq<char>)
    requires lo <= p < hi <= |b0| == |b1| && hi - p <= |s|
    requires b1[p..hi] == s[|s| - (hi - p)..]
    requires !over ==> |s| == hi - p
    requires over ==> p == lo && |s| > hi - lo
    requires b1[..lo] == b0[..lo] && b1[hi..] == b0[hi..]
    requires b2 == b1[..lo] + Repeat(' ', p - lo) + b1[p..]
    requires b3 == if over then b2[lo := ErrorChar] else b2
    ensures b3[lo..hi] == RightText(s, hi - lo, ' ')
    ensures b3[..lo] == b0[..lo] && b3[hi..] == b0[hi..]
  {
    Spaced(b0, b1, b2, lo, p, hi, s);
    var before := b2[lo..hi];
    if over {
      Mark(b2, b3, lo, lo, hi, ErrorChar);
      RightField(before, b3[lo..hi], 0, false, s, ' ');
    } else {
      RightField(before, b3[lo..hi], p - lo, true, s, ' ');
    }
  }

  /** Spaces written over [lo, p) before the tail of s in [p, hi): the field holds both, and nothing outside it changed. */
  lemma Spaced(b0: seq<char>, b1: seq<char>, b2: seq<char>, lo: nat, p: nat, hi: nat, s: seq<char>)
    requires lo <= p < hi <= |b0| == |b1| && hi - p <= |s|
    requires b1[p..hi] == s[|s| - (hi - p)..]
    requires b1[..lo] == b0[..lo] && b1[hi..] == b0[hi..]
    requires b2 == b1[..lo] + Repeat(' ', p - lo) + b1[p..]
    ensures |b2| == |b0| && b2[lo..hi] == Repeat(' ', p - lo) + s[|s| - (hi - p)..]
    ensures b2[..lo] == b0[..lo] && b2[hi..] == b0[hi..]
  {
    Splice(b2, b1, lo, Repeat(' ', p - lo), p);
    SameSuffix(b2, b1, p, hi);
    Join(b2, lo, p, hi);
  }

  /**
   * The backward digit loop of `libMU_int_to_str` and the '-' written
   * before the digits when there is room left: the end of the signed text
   * from `p` to `hi`; `over` when digits or the sign were left over.
   */
  method SignBeforeDigits(buf: array<char>, lo: nat, hi: nat, num: int) returns (p: nat, over: bool)
    requires lo < hi <= buf.Length
    modifies buf
    ensures lo <= p < hi && hi - p <= |SignedDecimal(num)|
    ensures buf[p..hi] == SignedDecimal(num)[|SignedDecimal(num)| - (hi - p)..]
    ensures !over ==> |SignedDecimal(num)| == hi - p
    ensures over ==> p == lo && |SignedDecimal(num)| > hi - lo
    ensures buf[..lo] == old(buf[..lo]) && buf[hi..] == old(buf[hi..])
  {
    var sign := num < 0;
    var rest;
    ghost var b0 := buf[..];
    p, rest := PutNumber(buf, lo, hi, Abs(num), 10);
    ghost var b1, p1 := buf[..], p;
    if p > lo && sign {
      buf[p - 1] := '-';
      p := p - 1;
      sign := false;
    }
    over := rest > 0 || sign;
    SignedTail(b0, b1, buf[..], lo, p1, p, hi, rest, over, num);
  }

  /** The '-' written before digits that fit leaves the whole signed numeral; otherwise the digits are the end of it. */
  lemma SignedTail(b0: seq<char>, b1: seq<char>, b2: seq<char>, lo: nat, p1: nat, p: nat, hi: nat, rest: nat, over: bool, num: int)
    requires lo <= p1 < hi <= |b0| == |b1|
    requires rest == 0 ==> hi - p1 == |Decimal(Abs(num))|
    requires rest > 0 ==> p1 == lo && |Decimal(Abs(num))| > hi - lo
    requires b1[p1..hi] == Decimal(Abs(num))[|Decimal(Abs(num))| - (hi - p1)..]
    requires b1[..p1] == b0[..p1] && b1[hi..] == b0[hi..]
    requires p == if p1 > lo && num < 0 then p1 - 1 else p1
    requires b2 == if p1 > lo && num < 0 then b1[p1 - 1 := '-'] else b1
    requires over == (rest > 0 || (num < 0 && p1 == lo))
    ensures lo <= p < hi && hi - p <= |SignedDecimal(num)|
    ensures b2[p..hi] == SignedDecimal(num)[|SignedDecimal(num)| - (hi - p)..]
    ensures !over ==> |SignedDecimal(num)| == hi - p
    ensures over ==> p == lo && |SignedDecimal(num)| > hi - lo
    ensures b2[..lo] == b0[..lo] && b2[hi..] == b0[hi..]
  {
    var s, d := SignedDecimal(num), Decimal(Abs(num));
    SamePrefix(b1, b0, lo, p1);
    if num < 0 {
      assert s == ['-'] + d;
    }
    if p1 > lo && num < 0 {
      Mark(b1, b2, p, p, hi, '-');
      SamePrefix(b2, b1, lo, p);
      assert b1[p..hi] == [b1[p]] + b1[p1..hi];
    }
  }

  /** `libMU_uint_to_hex` on a field of `size` characters from `at`. */
  method UintToHex(buf: array<char>, at: nat, size: int, num: u32, width: int, fill: char) returns (end: nat)
    requires width != 0 && at <= buf.Length && (size <= 0 || at + size <= buf.Length)
    modifies buf
    ensures size <= 0 ==> end == at
    ensures size > 0 ==> at <= end <= at + size && buf[at..end] == HexText(num, width, fill, size)
    ensures end <= buf.Length && buf[..at] == old(buf[..at]) && buf[end..] == old(buf[end..])
  {
    if size <= 0 {
      return at;
    }
    var w := if width < 0 then 8 else width;
    var f := if fill == '\0' then '0' else fill;
    if w > size {
      w := size;
    }
    end := at + w;
    var _ := RightDigits(buf, at, end, num, 16, f);
    assert HexWidth(width, size) == w;
  }

  // ---------------------------------------------------------------------
  // The loops the formatters share

  /**
   * The left-justified branch of `libMU_uint_to_str` and `libMU_int_to_str`:
   * the sign, the digits from the divisor `10^9` down while there is room,
   * a '0' for zero when there is room for it, spaces up to the width, and
   * the mark on the last character when digits were left over.
   */
  method WriteLeft(buf: array<char>, at: nat, size: nat, sign: bool, mag: nat, width: int) returns (end: nat)
    requires 1 <= size && at + size <= buf.Length && mag < Pow(10, 10) && (sign ==> mag > 0)
    modifies buf
    ensures at <= end <= at + size
    ensures buf[at..end] == LeftText((if sign then "-" else "") + Decimal(mag), width, size)
    ensures buf[..at] == old(buf[..at]) && buf[end..] == old(buf[end..])
  {
    ghost var b0 := buf[..];
    var pos, done := LeftDigits(buf, at, at + size, sign, mag);
    ghost var b1, digitsEnd := buf[..], pos;
    pos := PadSpaces(buf, pos, at + size, width - (pos - at));
    ghost var b2 := buf[..];
    if !done {
      buf[pos - 1] := ErrorChar;
    }
    end := pos;
    LeftAssembled(b0, b1, b2, buf[..], at, digitsEnd, end, (if sign then "-" else "") + Decimal(mag), width, size, done);
  }

  /** The start of the text, the spaces after it and the mark make up `LeftText`, and nothing outside the field changed. */
  lemma LeftAssembled(b0: seq<char>, b1: seq<char>, b2: seq<char>, b3: seq<char>, at: nat, digitsEnd: nat, end: nat,
                      s: seq<char>, width: int, size: nat, done: bool)
    requires 1 <= size && at <= digitsEnd <= at + size <= |b0| == |b1| == |b2| && digitsEnd - at <= |s|
    requires b1[at..digitsEnd] == s[..digitsEnd - at]
    requires done ==> digitsEnd - at == |s|
    requires !done ==> digitsEnd == at + size && |s| > size
    requires b1[..at] == b0[..at] && b1[digitsEnd..] == b0[digitsEnd..]
    requires end == digitsEnd + Pad(width - (digitsEnd - at), at + size - digitsEnd)
    requires b2[digitsEnd..end] == Repeat(' ', end - digitsEnd)
    requires b2[..digitsEnd] == b1[..digitsEnd] && b2[end..] == b1[end..]
    requires b3 == if done then b2 else b2[end - 1 := ErrorChar]
    ensures at <= end <= at + size
    ensures b3[at..end] == LeftText(s, width, size)
    ensures b3[..at] == b0[..at] && b3[end..] == b0[end..]
  {
    SamePrefix(b2, b1, at, digitsEnd);
    SameSuffix(b1, b0, digitsEnd, end);
    Join(b2, at, digitsEnd, end);
    if !done {
      Mark(b2, b3, at, end - 1, end, ErrorChar);
    }
    LeftField(b2[at..end], b3[at..end], s, digitsEnd - at, end - digitsEnd, width, size, done);
  }

  /**
   * The sign, the top-down digits and the '0' for zero of the
   * left-justified branch: the start of the signed numeral, as much of it
   * as fits before `e`; `done` when every place was visited.
   */
  method LeftDigits(buf: array<char>, at: nat, e: nat, sign: bool, mag: nat) returns (pos: nat, done: bool)
    requires at < e <= buf.Length && mag < Pow(10, 10) && (sign ==> mag > 0)
    modifies buf
    ensures at <= pos <= e && pos - at <= |(if sign then "-" else "") + Decimal(mag)|
    ensures buf[at..pos] == ((if sign then "-" else "") + Decimal(mag))[..pos - at]
    ensures done ==> pos - at == |(if sign then "-" else "") + Decimal(mag)|
    ensures !done ==> pos == e && |(if sign then "-" else "") + Decimal(mag)| > e - at
    ensures buf[..at] == old(buf[..at]) && buf[pos..] == old(buf[pos..])
  {
    ghost var b0 := buf[..];
    pos := at;
    if sign {
      buf[pos] := '-';
      pos := pos + 1;
    }
    ghost var b1 := buf[..];
    var first;
    var from := pos;
    pos, first, done := TopDown(buf, pos, e, mag);
    ghost var b2, p2 := buf[..], pos;
    if !first && pos < e {
      buf[pos] := '0';
      pos := pos + 1;
    }
    LeftDigitsField(b0, b1, b2, buf[..], at, from, p2, pos, e, first, done, sign, mag);
  }

  /** The sign, the digits of the top-down loop and the '0' for zero are the start of the signed numeral. */
  lemma LeftDigitsField(b0: seq<char>, b1: seq<char>, b2: seq<char>, b3: seq<char>, at: nat, from: nat, p2: nat, pos: nat, e: nat,
                        first: bool, done: bool, sign: bool, mag: nat)
    requires at < e <= |b0| && (sign ==> mag > 0)
    requires from == at + (if sign then 1 else 0) && from <= e
    requires b1 == if sign then b0[at := '-'] else b0
    requires from <= p2 <= e && (first <==> p2 > from) && p2 - from <= |Decimal(mag)| && |b2| == |b1|
    requires b2[from..p2] == Decimal(mag)[..p2 - from]
    requires done ==> p2 - from == (if mag > 0 then |Decimal(mag)| else 0)
    requires !done ==> p2 == e && |Decimal(mag)| > e - from
    requires b2[..from] == b1[..from] && b2[p2..] == b1[p2..]
    requires pos == if !first && p2 < e then p2 + 1 else p2
    requires b3 == if !first && p2 < e then b2[p2 := '0'] else b2
    ensures at <= pos <= e && pos - at <= |(if sign then "-" else "") + Decimal(mag)|
    ensures b3[at..pos] == ((if sign then "-" else "") + Decimal(mag))[..pos - at]
    ensures done ==> pos - at == |(if sign then "-" else "") + Decimal(mag)|
    ensures !done ==> pos == e && |(if sign then "-" else "") + Decimal(mag)| > e - at
    ensures b3[..at] == b0[..at] && b3[pos..] == b0[pos..]
  {
    var sg: seq<char> := if sign then "-" else "";
    var d := Decimal(mag);
    if sign {
      Mark(b0, b1, at, at, from, '-');
    }
    assert b1[at..from] == sg && b1[..at] == b0[..at] && b1[from..] == b0[from..];
    SamePrefix(b2, b1, at, from);
    SameSuffix(b1, b0, from, p2);
    Join(b2, at, from, p2);
    if !first && p2 < e {
      Mark(b2, b3, at, p2, p2 + 1, '0');
      SameSuffix(b2, b0, p2, p2 + 1);
      assert d == "0";
    }
    assert (sg + d)[..pos - at] == sg + d[..pos - from];
  }

  /**
   * The top-down digit loop, `while (buf < end && div > 0)`, from the
   * divisor `10^9`: the leading digits of mag from `from` on, as many as
   * fit before `e`, leading zeros skipped. `first` tells whether a digit
   * was written; `done` whether every place was visited.
   */
  method TopDown(buf: array<char>, from: nat, e: nat, mag: nat) returns (pos: nat, first: bool, done: bool)
    requires from <= e <= buf.Length && mag < Pow(10, 10)
    modifies buf
    ensures from <= pos <= e && (first <==> pos > from) && pos - from <= |Decimal(mag)|
    ensures buf[from..pos] == Decimal(mag)[..pos - from]
    ensures done ==> pos - from == (if mag > 0 then |Decimal(mag)| else 0)
    ensures !done ==> pos == e && |Decimal(mag)| > e - from
    ensures buf[..from] == old(buf[..from]) && buf[pos..] == old(buf[pos..])
  {
    PowTen();
    var div: nat := 1_000_000_000;
    var n := mag;
    first := false;
    ghost var k: nat := 10;
    ghost var top: nat := 0;
    DivModUnique(mag, Pow(10, 10), 0, mag);
    pos := from;
    ghost var entry := buf[..];
    while pos < e && div > 0
      invariant k <= 10 && div == (if k == 0 then 0 else Pow(10, k - 1))
      invariant n == mag % Pow(10, k) && top == mag / Pow(10, k)
      invariant first <==> top > 0
      invariant from <= pos <= e && pos == from + |Shown(top)|
      invariant buf[from..pos] == Shown(top)
      invariant buf.Length == |entry| && buf[..from] == entry[..from] && buf[pos..] == entry[pos..]
      decreases k
    {
      var dig := n / div;
      DigitSplit(mag, k, n, dig, div / 10);
      n := n - div * dig;
      div := div / 10;
      k := k - 1;
      ghost var top0 := top;
      top := 10 * top + dig;
      if dig > 0 {
        first := true;
      }
      ShownStep(top0, dig, top);
      if first {
        ghost var b := buf[..];
        pos := AppendChar(buf, from, pos, DigitChar(dig));
        Advance(buf[..], b, entry, from, pos - 1, pos);
      }
    }
    done := div == 0;
    TopDownDone(mag, k, top, pos - from, e - from);
  }

  /** One character more at the end of the slice that starts at `from`; nothing else changes. */
  method AppendChar(buf: array<char>, from: nat, pos: nat, c: char) returns (pos': nat)
    requires from <= pos < buf.Length
    modifies buf
    ensures pos' == pos + 1 && buf[from..pos'] == old(buf[from..pos]) + [c]
    ensures buf[..from] == old(buf[..from]) && buf[pos'..] == old(buf[pos'..])
  {
    ghost var b := buf[..];
    buf[pos] := c;
    pos' := pos + 1;
    Append(b, b, buf[..], from, pos, c);
  }

  /** `while (buf < end && width > 0)`: spaces from `pos` up to the width, within the room before `e`. */
  method PadSpaces(buf: array<char>, pos: nat, e: nat, w: int) returns (pos': nat)
    requires pos <= e <= buf.Length
    modifies buf
    ensures pos' == pos + Pad(w, e - pos)
    ensures buf[pos..pos'] == Repeat(' ', pos' - pos)
    ensures buf[..pos] == old(buf[..pos]) && buf[pos'..] == old(buf[pos'..])
  {
    pos' := pos;
    var left := w;
    while pos' < e && left > 0
      invariant pos <= pos' <= e && left == w - (pos' - pos) && (if w > 0 then left >= 0 else pos' == pos)
      invariant buf[pos..pos'] == Repeat(' ', pos' - pos)
      invariant buf[..pos] == old(buf[..pos]) && buf[pos'..] == old(buf[pos'..])
    {
      ghost var written := buf[pos..pos'];
      buf[pos'] := ' ';
      pos', left := pos' + 1, left - 1;
      assert buf[pos..pos'] == written + [' '];
    }
  }

  /** The digits the top-down loop has written once the places above the remaining ones stand for `top`: none while that is zero. */
  ghost function Shown(top: nat): seq<char>
  {
    if top > 0 then Decimal(top) else []
  }

  /**
   * The arithmetic of one pass of the top-down loop, `dig = num / div;
   * num -= div * dig; div /= 10`, with k places left: the digit is below
   * ten, the remainder keeps the last k - 1 places, and the places above
   * them gain the digit.
   */
  lemma DigitSplit(mag: nat, k: nat, n: int, dig: int, div': int)
    requires k >= 1 && n == mag % Pow(10, k) && dig == n / Pow(10, k - 1) && div' == Pow(10, k - 1) / 10
    ensures 0 <= dig < 10 && n - Pow(10, k - 1) * dig == mag % Pow(10, k - 1)
    ensures mag / Pow(10, k - 1) == 10 * (mag / Pow(10, k)) + dig
    ensures div' == if k == 1 then 0 else Pow(10, k - 2)
  {
    var p := Pow(10, k - 1);
    assert Pow(10, k) == 10 * p;
    var q := mag / (10 * p);
    QuotientBelow(n, p, 10);
    var r := n % p;
    assert mag == (10 * q + dig) * p + r by {
      assert mag == q * (10 * p) + n;
      assert n == dig * p + r;
    }
    DivModUnique(mag, p, 10 * q + dig, r);
    if k >= 2 {
      assert p == 10 * Pow(10, k - 2);
    }
  }

  /** One pass of the top-down loop: the places seen so far gain the digit, which is shown once a nonzero digit was seen. */
  lemma ShownStep(top0: nat, dig: nat, top: nat)
    requires dig < 10 && top == 10 * top0 + dig
    ensures top > 0 <==> top0 > 0 || dig > 0
    ensures Shown(top) == Shown(top0) + (if top > 0 then [DigitChar(dig)] else [])
  {
    if top > 0 {
      DecimalSnoc(top, top0, dig);
    }
  }

  /** Appending a digit: the numeral of `10 * q + dig` is that of q, unless q is zero, followed by the digit. */
  lemma DecimalSnoc(t: nat, q: nat, dig: nat)
    requires dig < 10 && t == 10 * q + dig && t > 0
    ensures Decimal(t) == (if q > 0 then Decimal(q) else []) + [DigitChar(dig)]
  {
    if t >= 10 {
      DivModUnique(t, 10, q, dig);
    }
  }

  /**
   * When the top-down loop stops, the digits shown are the start of the
   * numeral: all of it when every place was visited, otherwise the room
   * is full and the numeral is longer.
   */
  lemma TopDownDone(mag: nat, k: nat, top: nat, written: nat, room: nat)
    requires top == mag / Pow(10, k) && written == |Shown(top)| <= room
    requires k == 0 || written == room
    ensures written <= |Decimal(mag)| && Shown(top) == Decimal(mag)[..written]
    ensures k == 0 ==> written == (if mag > 0 then |Decimal(mag)| else 0)
    ensures k > 0 ==> |Decimal(mag)| > room
  {
    if top > 0 {
      NumeralTop(mag, 10, k);
    }
  }

  /** The start of the text and the padding of the left-justified branch, marked when digits were left over, make up `LeftText`. */
  lemma LeftField(before: seq<char>, a: seq<char>, s: seq<char>, n: nat, m: nat, width: int, size: nat, done: bool)
    requires 1 <= size && n <= |s| && n + m <= size
    requires before == s[..n] + Repeat(' ', m)
    requires done ==> n == |s| && m == Pad(width - |s|, size - |s|)
    requires !done ==> m == 0 && n == size && |s| > size
    requires a == if done then before else before[|before| - 1 := ErrorChar]
    ensures a == LeftText(s, width, size)
  {
    if !done {
      assert a[..size - 1] == s[..size - 1];
    }
  }

  /**
   * The backward digit loop and the fill before it: the numeral of `num`
   * right-aligned in the field from `lo` to `hi`; `rest`, what is left of
   * the number, is nonzero when the numeral did not fit.
   */
  method RightDigits(buf: array<char>, lo: nat, hi: nat, num: nat, base: nat, fill: char) returns (rest: nat)
    requires 2 <= base <= 16 && lo < hi <= buf.Length
    modifies buf
    ensures buf[lo..hi] == Filled(Numeral(num, base), hi - lo, fill)
    ensures rest > 0 <==> |Numeral(num, base)| > hi - lo
    ensures buf[..lo] == old(buf[..lo]) && buf[hi..] == old(buf[hi..])
  {
    ghost var b0 := buf[..];
    var p;
    p, rest := PutNumber(buf, lo, hi, num, base);
    ghost var b1 := buf[..];
    FillBack(buf, lo, p, fill);
    RightDigitsField(b0, b1, buf[..], lo, p, hi, rest, Numeral(num, base), fill);
  }

  /** The digits of the backward loop behind the fill make up the `Filled` field, and nothing outside it changed. */
  lemma RightDigitsField(b0: seq<char>, b1: seq<char>, b2: seq<char>, lo: nat, p: nat, hi: nat, rest: nat, N: seq<char>, fill: char)
    requires lo <= p < hi <= |b0| == |b1| == |b2| && hi - p <= |N|
    requires rest == 0 ==> hi - p == |N|
    requires rest > 0 ==> p == lo && |N| > hi - lo
    requires b1[p..hi] == N[|N| - (hi - p)..]
    requires b1[..p] == b0[..p] && b1[hi..] == b0[hi..]
    requires b2 == b1[..lo] + Repeat(fill, p - lo) + b1[p..]
    ensures b2[lo..hi] == Filled(N, hi - lo, fill)
    ensures b2[..lo] == b0[..lo] && b2[hi..] == b0[hi..]
  {
    Splice(b2, b1, lo, Repeat(fill, p - lo), p);
    SameSuffix(b2, b1, p, hi);
    Join(b2, lo, p, hi);
    SamePrefix(b1, b0, lo, p);
    FilledField(b2[lo..hi], p - lo, rest == 0, N, fill);
  }

  /**
   * The backward digit loop, `while (width > 0 && num > 0)`, for a
   * nonzero number, and the single '0' written for zero: the last digits
   * of the numeral end at `hi`; `rest` is what is left of the number.
   */
  method PutNumber(buf: array<char>, lo: nat, hi: nat, num: nat, base: nat) returns (p: nat, rest: nat)
    requires 2 <= base <= 16 && lo < hi <= buf.Length
    modifies buf
    ensures lo <= p < hi
    ensures rest == 0 ==> hi - p == |Numeral(num, base)|
    ensures rest > 0 ==> p == lo && |Numeral(num, base)| > hi - lo
    ensures buf[p..hi] == Numeral(num, base)[|Numeral(num, base)| - (hi - p)..]
    ensures buf[..p] == old(buf[..p]) && buf[hi..] == old(buf[hi..])
  {
    if num == 0 {
      buf[hi - 1] := '0';
      return hi - 1, 0;
    }
    ghost var N := Numeral(num, base);
    p, rest := hi, num;
    while p > lo && rest > 0
      invariant lo <= p <= hi && (p < hi || rest > 0)
      invariant Written(N, rest, base, hi - p)
      invariant buf[p..hi] == N[|N| - (hi - p)..]
      invariant buf[..p] == old(buf[..p]) && buf[hi..] == old(buf[hi..])
    {
      p, rest := PutDigit(buf, p, hi, rest, base, N);
    }
  }

  /** After the last w digits of the numeral N are written, x is the number the digits before them stand for. */
  ghost predicate Written(N: seq<char>, x: nat, base: nat, w: nat)
    requires 2 <= base <= 16
  {
    if x > 0 then w < |N| && Numeral(x, base) == N[..|N| - w] else w == |N|
  }

  /** One pass of the backward loop: the digit written before `p` is the next numeral digit from the right. */
  method PutDigit(buf: array<char>, p: nat, hi: nat, x: nat, base: nat, ghost N: seq<char>) returns (p': nat, x': nat)
    requires 2 <= base <= 16 && 0 < p <= hi <= buf.Length && x > 0
    requires Written(N, x, base, hi - p) && buf[p..hi] == N[|N| - (hi - p)..]
    modifies buf
    ensures p' == p - 1 && x' == x / base
    ensures Written(N, x', base, hi - p') && buf[p'..hi] == N[|N| - (hi - p')..]
    ensures buf[..p'] == old(buf[..p']) && buf[hi..] == old(buf[hi..])
  {
    ghost var before := buf[..];
    buf[p - 1] := DigitChar(x % base);
    p', x' := p - 1, x / base;
    BackStep(N, x, hi - p, base, x');
    assert buf[p'..hi] == [buf[p']] + before[p..hi];
  }

  /** Dividing by the base drops the last digit of the numeral. */
  lemma BackStep(N: seq<char>, x: nat, written: nat, base: nat, x': nat)
    requires 2 <= base <= 16 && x > 0 && written < |N| && Numeral(x, base) == N[..|N| - written]
    requires x' == x / base
    ensures N[|N| - written - 1] == DigitChar(x % base)
    ensures N[|N| - (written + 1)..] == [N[|N| - written - 1]] + N[|N| - written..]
    ensures Written(N, x', base, written + 1)
  {
    NumeralLast(x, base);
    if x >= base {
      assert Numeral(x, base) == Numeral(x', base) + [DigitChar(x % base)];
      assert N[..|N| - (written + 1)] == N[..|N| - written][..|N| - written - 1];
    }
  }

  /** `while (width > 0) { buf[0] = c; buf--; }`: the characters before `p`, down to `lo`, become c. */
  method FillBack(buf: array<char>, lo: nat, p: nat, c: char)
    requires lo <= p <= buf.Length
    modifies buf
    ensures buf[..] == old(buf[..])[..lo] + Repeat(c, p - lo) + old(buf[..])[p..]
  {
    var q := p;
    while q > lo
      invariant lo <= q <= p
      invariant buf[..] == old(buf[..])[..q] + Repeat(c, p - q) + old(buf[..])[p..]
    {
      ghost var cur := buf[..];
      buf[q - 1] := c;
      q := q - 1;
      FillStep(old(buf[..]), cur, q, p, c, buf[..]);
    }
  }

  /** One pass of the fill loop: the fill grows by one character to the left. */
  lemma FillStep(o: seq<char>, cur: seq<char>, q: nat, p: nat, c: char, after: seq<char>)
    requires q < p <= |o| && cur == o[..q + 1] + Repeat(c, p - q - 1) + o[p..]
    requires after == cur[q := c]
    ensures after == o[..q] + Repeat(c, p - q) + o[p..]
  {
    assert Repeat(c, p - q) == [c] + Repeat(c, p - q - 1);
    assert o[..q + 1] == o[..q] + [o[q]];
  }

  /** A field filled on the left of a text that fits, or marked in front of the end of one that does not, is `RightText`. */
  lemma RightField(before: seq<char>, a: seq<char>, m: nat, fits: bool, s: seq<char>, fill: char)
    requires m < |before| && |before| - m <= |s|
    requires before == Repeat(fill, m) + s[|s| - (|before| - m)..]
    requires fits ==> |s| == |before| - m
    requires !fits ==> m == 0 && |s| > |before|
    requires a == if fits then before else before[0 := ErrorChar]
    ensures |a| >= 1 && a == RightText(s, |a|, fill)
  {
    FilledField(before, m, fits, s, fill);
  }

  /**
   * The zero-filled field of `libMU_int_to_str`: the first character of
   * the digits and zeros becomes the sign when it is a zero, and the mark
   * when digits were left over or the sign found no zero to replace.
   */
  lemma ZeroField(x: int, w: nat, z: seq<char>, rest: nat, final: seq<char>)
    requires w >= 1
    requires z == Filled(Decimal(Abs(x)), w, '0') && (rest > 0 <==> |Decimal(Abs(x))| > w)
    requires final == z[0 := if rest > 0 || (x < 0 && z[0] != '0') then ErrorChar else if x < 0 then '-' else z[0]]
    ensures final == ZeroFilled(x, w)
  {
    var d := Decimal(Abs(x));
    if x < 0 {
      NumeralLeading(Abs(x), 10);
    }
    var t := ZeroFilled(x, w);
    assert |final| == |t|;
    forall i | 0 <= i < w
      ensures final[i] == t[i]
    {
    }
  }

  /** A text filled on the left when it fits, and cut to its last characters when it does not. */
  lemma FilledField(a: seq<char>, m: nat, fits: bool, h: seq<char>, fill: char)
    requires m < |a| && |a| - m <= |h|
    requires a == Repeat(fill, m) + h[|h| - (|a| - m)..]
    requires fits ==> |h| == |a| - m
    requires !fits ==> m == 0 && |h| > |a|
    ensures a == Filled(h, |a|, fill)
  {
  }

  // ---------------------------------------------------------------------
  // Slices of a buffer written in parts

  /** A sequence made of a prefix of o, then t, then a suffix of o, in slices. */
  lemma Splice(b: seq<char>, o: seq<char>, lo: nat, t: seq<char>, hi: nat)
    requires lo + |t| == hi <= |o| && b == o[..lo] + t + o[hi..]
    ensures |b| == |o| && b[lo..hi] == t && b[..lo] == o[..lo] && b[hi..] == o[hi..]
  {
  }

  /** Agreeing up to j, two sequences agree up to any i below it. */
  lemma SamePrefix(a: seq<char>, b: seq<char>, i: nat, j: nat)
    requires i <= j <= |a| && j <= |b| && a[..j] == b[..j]
    ensures a[..i] == b[..i] && a[i..j] == b[i..j]
  {
    assert a[..i] == a[..j][..i];
    assert b[..i] == b[..j][..i];
    assert a[i..j] == a[..j][i..];
    assert b[i..j] == b[..j][i..];
  }

  /** Agreeing from i on, two sequences agree on every slice from i and from any j above it. */
  lemma SameSuffix(a: seq<char>, b: seq<char>, i: nat, j: nat)
    requires i <= j <= |a| && |a| == |b| && a[i..] == b[i..]
    ensures a[j..] == b[j..] && a[i..j] == b[i..j]
  {
    assert a[j..] == a[i..][j - i..];
    assert b[j..] == b[i..][j - i..];
    assert a[i..j] == a[i..][..j - i];
    assert b[i..j] == b[i..][..j - i];
  }

  /** A slice is the two slices it splits into. */
  lemma Join(a: seq<char>, i: nat, j: nat, k: nat)
    requires i <= j <= k <= |a|
    ensures a[i..k] == a[i..j] + a[j..k]
  {
  }

  /** Writing c at i changes only that character of a slice around it. */
  lemma Mark(b: seq<char>, b': seq<char>, lo: nat, i: nat, hi: nat, c: char)
    requires lo <= i < hi <= |b| && b' == b[i := c]
    ensures b'[lo..hi] == b[lo..hi][i - lo := c] && b'[..lo] == b[..lo] && b'[hi..] == b[hi..]
  {
  }

  /** The parts outside [from, j) agree with o when those outside [from, i) did before and only [i, j) changed. */
  lemma Advance(b': seq<char>, b: seq<char>, o: seq<char>, from: nat, i: nat, j: nat)
    requires from <= i <= j <= |b| == |o| == |b'|
    requires b[..from] == o[..from] && b[i..] == o[i..]
    requires b'[..from] == b[..from] && b'[j..] == b[j..]
    ensures b'[..from] == o[..from] && b'[j..] == o[j..]
  {
    assert b[j..] == b[i..][j - i..];
    assert o[j..] == o[i..][j - i..];
  }

  /** Writing c at pos extends the slice that ends there, and the parts outside it still agree with o. */
  lemma Append(o: seq<char>, b: seq<char>, b': seq<char>, from: nat, pos: nat, c: char)
    requires from <= pos < |b| == |o| && b[..from] == o[..from] && b[pos..] == o[pos..]
    requires b' == b[pos := c]
    ensures b'[from..pos + 1] == b[from..pos] + [c]
    ensures b'[..from] == o[..from] && b'[pos + 1..] == o[pos + 1..]
  {
    SameSuffix(b, o, pos, pos + 1);
  }
}
