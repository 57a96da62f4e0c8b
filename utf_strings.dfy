/**
 * The four string converters. Each reads a 0-terminated source up to its
 * terminator (or its first character that does not convert) and either
 * counts the units the result needs (no destination) or stores whole
 * characters while they fit in `max_chars - 1` places and then a 0.
 *
 * A destination is an `array?` (null for counting); the source demands an
 * array of at least `max_chars` elements, and `max_chars` at least 1 for the
 * terminator. The source tests `dest == NULL` inside its loop; the test
 * never changes during the loop, so here it is taken once, before a counting
 * loop or a storing loop that each take the same steps as the original.
 *
 * For each converter there is the whole conversion (every character up to
 * the stop), the count the source returns without a destination, and the
 * units it stores with `room` places: whole characters while they fit.
 */
module UtfStrings {
  import opened Ints
  import opened Utf8
  import opened Utf16

  /** What is left of `all` after `n` elements starts with `w`: `w` sits at `n`. */
  lemma DropChunk<T>(all: seq<T>, n: nat, w: seq<T>, rest: seq<T>)
    requires n <= |all| && all[n..] == w + rest
    ensures n + |w| <= |all| && all[n + |w|..] == rest
    ensures forall j :: n <= j < n + |w| ==> all[j] == w[j - n]
  {
    assert all[n + |w|..] == all[n..][|w|..];
    forall j | n <= j < n + |w| ensures all[j] == w[j - n] {
      assert all[j] == all[n..][j - n];
    }
  }

  // ----- UTF-8 to UTF-32 -----

  /** The code points of a UTF-8 string up to its terminator or its first invalid character. */
  function Chars32(src: seq<u8>, i: nat): seq<u32>
    requires i <= |src|
    decreases |src| - i
  {
    if At(src, i) == 0 then []
    else
      var d := Utf8Char(src, i);
      if d.len == 0 then [] else [d.value] + Chars32(src, i + d.len)
  }

  /** `utf8_to_utf32_string`: the number of characters, or the characters that fit and a 0. */
  method Utf8ToUtf32String(dest: array?<u32>, maxChars: u32, src: seq<u8>) returns (n: nat)
    requires dest != null ==> 1 <= maxChars <= dest.Length
    modifies dest
    ensures dest == null ==> n == |Chars32(src, 0)|
    ensures dest != null ==> n == Min(|Chars32(src, 0)|, maxChars - 1)
    ensures dest != null ==> dest[..n] == Chars32(src, 0)[..n] && dest[n] == 0
    ensures dest != null ==> forall j :: n < j < dest.Length ==> dest[j] == old(dest[j])
  {
    if dest == null {
      n := Utf8ToUtf32Count(src);
    } else {
      n := Utf8ToUtf32Store(dest, maxChars, src);
    }
  }

  method Utf8ToUtf32Count(src: seq<u8>) returns (n: nat)
    ensures n == |Chars32(src, 0)|
  {
    var i := 0;
    n := 0;
    while At(src, i) != 0
      invariant i <= |src|
      invariant n + |Chars32(src, i)| == |Chars32(src, 0)|
      decreases |src| - i
    {
      var d := Utf8Char(src, i);
      if d.len == 0 {
        break;
      }
      i := i + d.len;
      n := n + 1;
    }
  }

  method Utf8ToUtf32Store(dest: array<u32>, maxChars: u32, src: seq<u8>) returns (n: nat)
    requires 1 <= maxChars <= dest.Length
    modifies dest
    ensures n == Min(|Chars32(src, 0)|, maxChars - 1)
    ensures dest[..n] == Chars32(src, 0)[..n] && dest[n] == 0
    ensures forall j :: n < j < dest.Length ==> dest[j] == old(dest[j])
  {
    var i := 0;
    n := 0;
    ghost var all := Chars32(src, 0);
    ghost var orig := dest[..];
    while At(src, i) != 0
      invariant i <= |src| && n <= maxChars - 1 && n <= |all|
      invariant Chars32(src, i) == all[n..]
      invariant forall j :: 0 <= j < dest.Length ==> dest[j] == if j < n then all[j] else orig[j]
      decreases |src| - i
    {
      var d := Utf8Char(src, i);
      if d.len == 0 {
        break;
      }
      DropChunk(all, n, [d.value], Chars32(src, i + d.len));
      i := i + d.len;
      if n >= maxChars - 1 {
        break;
      }
      dest[n] := d.value;
      n := n + 1;
    }
    dest[n] := 0;
    assert dest[..n] == all[..n];
  }

  // ----- UTF-8 to UTF-16 -----

  /** The UTF-16 units of a UTF-8 string, up to its terminator, an invalid character or one beyond U+10FFFF. */
  function Units16(src: seq<u8>, i: nat): seq<u16>
    requires i <= |src|
    decreases |src| - i
  {
    if At(src, i) == 0 then []
    else
      var d := Utf8Char(src, i);
      if d.len == 0 || d.value > 0x10_FFFF then []
      else UnitsOf(d.value) + Units16(src, i + d.len)
  }

  /** The count `utf8_to_utf16_string` returns without a destination: one unit per character, two above the basic plane. */
  function Utf16Count(src: seq<u8>, i: nat): nat
    requires i <= |src|
    decreases |src| - i
  {
    if At(src, i) == 0 then 0
    else
      var d := Utf8Char(src, i);
      if d.len == 0 || d.value > 0x10_FFFF then 0
      else 1 + (if d.value > 0xFFFF then 1 else 0) + Utf16Count(src, i + d.len)
  }

  /** The count is the number of units of the conversion. */
  lemma {:induction false} Utf16CountIsSize(src: seq<u8>, i: nat)
    requires i <= |src|
    ensures Utf16Count(src, i) == |Units16(src, i)|
    decreases |src| - i
  {
    if At(src, i) != 0 {
      var d := Utf8Char(src, i);
      if d.len != 0 && d.value <= 0x10_FFFF {
        Utf16CountIsSize(src, i + d.len);
      }
    }
  }

  /** The units stored with `room` places left: whole characters while they fit. */
  function Stored16(src: seq<u8>, i: nat, room: nat): (r: seq<u16>)
    requires i <= |src|
    ensures |r| <= room
    decreases |src| - i
  {
    if At(src, i) == 0 then []
    else
      var d := Utf8Char(src, i);
      if d.len == 0 || d.value > 0x10_FFFF then []
      else
        var w := UnitsOf(d.value);
        if |w| > room then [] else w + Stored16(src, i + d.len, room - |w|)
  }

  /** What is stored is the start of the conversion. */
  lemma {:induction false} Stored16Prefix(src: seq<u8>, i: nat, room: nat)
    requires i <= |src|
    ensures Stored16(src, i, room) <= Units16(src, i)
    decreases |src| - i
  {
    if At(src, i) != 0 {
      var d := Utf8Char(src, i);
      if d.len != 0 && d.value <= 0x10_FFFF {
        var w := UnitsOf(d.value);
        if |w| <= room {
          var i', room' := i + d.len, room - |w|;
          Stored16Prefix(src, i', room');
          PrefixAppend(w, Stored16(src, i', room'), Units16(src, i'));
        }
      }
    }
  }

  /** When the whole conversion fits, all of it is stored. */
  lemma {:induction false} Stored16All(src: seq<u8>, i: nat, room: nat)
    requires i <= |src| && |Units16(src, i)| <= room
    ensures Stored16(src, i, room) == Units16(src, i)
    decreases |src| - i
  {
    if At(src, i) != 0 {
      var d := Utf8Char(src, i);
      if d.len != 0 && d.value <= 0x10_FFFF {
        Stored16All(src, i + d.len, room - |UnitsOf(d.value)|);
      }
    }
  }

  /** A prefix stays one behind the same first elements. */
  lemma PrefixAppend<T>(w: seq<T>, a: seq<T>, b: seq<T>)
    requires a <= b
    ensures w + a <= w + b
  {
    assert w + a == (w + b)[..|w + a|];
  }

  /**
   * The units the loop of `utf8_to_utf16_string` as written stores with
   * `room` places left: a pair is refused when fewer than two places are
   * left, a single unit never is.
   */
  function Utf16AsWritten(src: seq<u8>, i: nat, room: int): (r: seq<u16>)
    requires i <= |src|
    ensures |r| <= 2 * (|src| - i)
    ensures room <= 1 ==> |r| <= |src| - i
    decreases |src| - i
  {
    if At(src, i) == 0 then []
    else
      var d := Utf8Char(src, i);
      if d.len == 0 || d.value > 0x10_FFFF then []
      else
        var w := UnitsOf(d.value);
        if |w| == 2 && room <= 1 then []
        else w + Utf16AsWritten(src, i + d.len, room - |w|)
  }

  /** With `max_chars == 1` (room for the terminator only), "ab" still gets both units stored, past the end of the array. */
  lemma Utf16Overflow()
    ensures |Utf16AsWritten([0x61, 0x62], 0, 0)| == 2
  {
    var s: seq<u8> := [0x61, 0x62];
    assert Utf8Char(s, 0).len == 1 && Utf8Char(s, 1).len == 1;
    assert Utf16AsWritten(s, 2, -2) == [];
    assert Utf16AsWritten(s, 1, -1) == [0x62];
  }

  /** When the whole text fits, the loop as written and the corrected one store the same units: all of them. */
  lemma {:induction false} Utf16AsWrittenWhenRoom(src: seq<u8>, i: nat, room: nat)
    requires i <= |src| && Utf16Count(src, i) <= room
    ensures Utf16AsWritten(src, i, room) == Units16(src, i) == Stored16(src, i, room)
    decreases |src| - i
  {
    Utf16CountIsSize(src, i);
    Stored16All(src, i, room);
    if At(src, i) != 0 {
      var d := Utf8Char(src, i);
      if d.len != 0 && d.value <= 0x10_FFFF {
        Utf16AsWrittenWhenRoom(src, i + d.len, room - |UnitsOf(d.value)|);
      }
    }
  }

  /** The step of the storing loop: the next character, when it fits, is the next units of `want`. */
  lemma {:induction false} Stored16Next(src: seq<u8>, i: nat, n: nat, room: nat, want: seq<u16>, i': nat, n': nat)
    requires i <= |src| && n <= room && n <= |want| && Stored16(src, i, room - n) == want[n..]
    requires At(src, i) != 0 && Utf8Char(src, i).len != 0 && Utf8Char(src, i).value <= 0x10_FFFF
    requires i' == i + Utf8Char(src, i).len && n' == n + |UnitsOf(Utf8Char(src, i).value)| && n' <= room
    ensures i' <= |src| && n' <= |want|
    ensures Stored16(src, i', room - n') == want[n'..]
    ensures forall j :: n <= j < n' ==> want[j] == UnitsOf(Utf8Char(src, i).value)[j - n]
  {
    var d := Utf8Char(src, i);
    DropChunk(want, n, UnitsOf(d.value), Stored16(src, i', room - n'));
  }

  /**
   * `utf8_to_utf16_string`: the number of units, or the characters that
   * fit and a 0, with a single unit refused like a pair when it does not fit
   * (see `Utf16AsWritten`).
   */
  method Utf8ToUtf16String(dest: array?<u16>, maxChars: u32, src: seq<u8>) returns (n: nat)
    requires dest != null ==> 1 <= maxChars <= dest.Length
    modifies dest
    ensures dest == null ==> n == Utf16Count(src, 0)
    ensures dest != null ==> n < maxChars && dest[..n] == Stored16(src, 0, maxChars - 1) && dest[n] == 0
    ensures dest != null ==> forall j :: n < j < dest.Length ==> dest[j] == old(dest[j])
  {
    if dest == null {
      n := Utf8ToUtf16Count(src);
    } else {
      n := Utf8ToUtf16Store(dest, maxChars, src);
    }
  }

  method Utf8ToUtf16Count(src: seq<u8>) returns (n: nat)
    ensures n == Utf16Count(src, 0)
  {
    var i := 0;
    n := 0;
    while At(src, i) != 0
      invariant i <= |src|
      invariant n + Utf16Count(src, i) == Utf16Count(src, 0)
      decreases |src| - i
    {
      var d := Utf8Char(src, i);
      if d.len == 0 || d.value > 0x10_FFFF {
        break;
      }
      i := i + d.len;
      n := n + 1 + (if d.value > 0xFFFF then 1 else 0);
    }
  }

  method Utf8ToUtf16Store(dest: array<u16>, maxChars: u32, src: seq<u8>) returns (n: nat)
    requires 1 <= maxChars <= dest.Length
    modifies dest
    ensures n < maxChars && dest[..n] == Stored16(src, 0, maxChars - 1) && dest[n] == 0
    ensures forall j :: n < j < dest.Length ==> dest[j] == old(dest[j])
  {
    var i := 0;
    n := 0;
    ghost var room: nat := maxChars - 1;
    ghost var want := Stored16(src, 0, room);
    ghost var orig := dest[..];
    while At(src, i) != 0
      invariant i <= |src| && n <= room && n <= |want|
      invariant Stored16(src, i, room - n) == want[n..]
      invariant forall j :: 0 <= j < dest.Length ==> dest[j] == if j < n then want[j] else orig[j]
      decreases |src| - i
    {
      var d := Utf8Char(src, i);
      if d.len == 0 || d.value > 0x10_FFFF {
        break;
      }
      var w := Utf32ToUtf16(d.value);
      if w.extra != 0 && n + 1 >= maxChars - 1 {
        break;
      }
      if w.extra == 0 && n >= maxChars - 1 {
        break;
      }
      ghost var i0, n0 := i, n;
      i := i + d.len;
      dest[n] := w.first;
      n := n + 1;
      if w.extra != 0 {
        dest[n] := w.extra;
        n := n + 1;
      }
      Stored16Next(src, i0, n0, room, want, i, n);
    }
    dest[n] := 0;
    assert dest[..n] == want;
  }

  // ----- to UTF-8 -----

  /**
   * The `switch` that stores one character: continuation bytes from the
   * last one back, six bits each, then the lead.
   */
  method PutUtf8(dest: array<u8>, at: nat, u: u32)
    requires at + EncLength(u) <= dest.Length
    modifies dest
    ensures forall j :: at <= j < at + EncLength(u) ==> dest[j] == Encode(u)[j - at]
    ensures forall j :: 0 <= j < dest.Length && !(at <= j < at + EncLength(u)) ==> dest[j] == old(dest[j])
  {
    var len := EncLength(u);
    var uc: nat := u;
    var k := len - 1;
    ghost var e := Encode(u);
    ghost var orig := dest[..];
    while k > 0
      invariant 0 <= k < len
      invariant uc == Shift(u, len - 1 - k)
      invariant forall j :: at + k < j < at + len ==> dest[j] == e[j - at]
      invariant forall j :: 0 <= j < dest.Length && !(at + k < j < at + len) ==> dest[j] == orig[j]
    {
      TailDigit(u, len - 1, k - 1);
      assert e[k] == Tail(u, len - 1)[k - 1];
      dest[at + k] := 0x80 + uc % 64;
      ShiftStep(u, len - 1 - k);
      uc := uc / 64;
      k := k - 1;
    }
    ShiftBound(u);
    if len > 1 {
      dest[at] := LeadMask[len] + uc;
    } else {
      dest[at] := u;
    }
  }

  /** Shifting six bits more is dividing by 64. */
  lemma {:induction false} ShiftStep(u: nat, k: nat)
    ensures Shift(u, k) / 64 == Shift(u, k + 1)
  {
    if k > 0 {
      ShiftStep(u / 64, k - 1);
    }
  }

  /** The unit at `k` of a UTF-32 string, 0 past the end. */
  function At32(txt: seq<u32>, k: nat): u32
  {
    if k < |txt| then txt[k] else 0
  }

  /** The UTF-8 bytes of a UTF-32 string up to its terminator. */
  function Bytes8From32(src: seq<u32>, k: nat): seq<u8>
    requires k <= |src|
    decreases |src| - k
  {
    if At32(src, k) == 0 then [] else Encode(src[k]) + Bytes8From32(src, k + 1)
  }

  /** The count `utf32_to_utf8_string` returns without a destination: the sum of the byte counts. */
  function Utf8Count32(src: seq<u32>, k: nat): nat
    requires k <= |src|
    decreases |src| - k
  {
    if At32(src, k) == 0 then 0 else EncLength(src[k]) + Utf8Count32(src, k + 1)
  }

  lemma {:induction false} Utf8Count32IsSize(src: seq<u32>, k: nat)
    requires k <= |src|
    ensures Utf8Count32(src, k) == |Bytes8From32(src, k)|
    decreases |src| - k
  {
    if At32(src, k) != 0 {
      Utf8Count32IsSize(src, k + 1);
    }
  }

  /** The bytes stored with `room` places left: whole characters while they fit. */
  function Stored8From32(src: seq<u32>, k: nat, room: nat): (r: seq<u8>)
    requires k <= |src|
    ensures |r| <= room
    decreases |src| - k
  {
    if At32(src, k) == 0 || EncLength(src[k]) > room then []
    else Encode(src[k]) + Stored8From32(src, k + 1, room - EncLength(src[k]))
  }

  /** What is stored is the start of the conversion. */
  lemma {:induction false} Stored8From32Prefix(src: seq<u32>, k: nat, room: nat)
    requires k <= |src|
    ensures Stored8From32(src, k, room) <= Bytes8From32(src, k)
    decreases |src| - k
  {
    if At32(src, k) != 0 && EncLength(src[k]) <= room {
      var room' := room - EncLength(src[k]);
      Stored8From32Prefix(src, k + 1, room');
      PrefixAppend(Encode(src[k]), Stored8From32(src, k + 1, room'), Bytes8From32(src, k + 1));
    }
  }

  /** When the whole conversion fits, all of it is stored. */
  lemma {:induction false} Stored8From32All(src: seq<u32>, k: nat, room: nat)
    requires k <= |src| && |Bytes8From32(src, k)| <= room
    ensures Stored8From32(src, k, room) == Bytes8From32(src, k)
    decreases |src| - k
  {
    if At32(src, k) != 0 {
      Stored8From32All(src, k + 1, room - EncLength(src[k]));
    }
  }

  /** The step of the storing loop: the next character, when it fits, is the next bytes of `want`. */
  lemma {:induction false} Stored8From32Next(src: seq<u32>, k: nat, n: nat, room: nat, want: seq<u8>, n': nat)
    requires k < |src| && n <= room && n <= |want| && Stored8From32(src, k, room - n) == want[n..]
    requires At32(src, k) != 0 && n' == n + EncLength(src[k]) && n' <= room
    ensures n' <= |want|
    ensures Stored8From32(src, k + 1, room - n') == want[n'..]
    ensures forall j :: n <= j < n' ==> want[j] == Encode(src[k])[j - n]
  {
    DropChunk(want, n, Encode(src[k]), Stored8From32(src, k + 1, room - n'));
  }

  /** `utf32_to_utf8_string`: the number of bytes, or the characters that fit and a 0. */
  method Utf32ToUtf8String(dest: array?<u8>, maxChars: u32, src: seq<u32>) returns (n: nat)
    requires dest != null ==> 1 <= maxChars <= dest.Length
    modifies dest
    ensures dest == null ==> n == Utf8Count32(src, 0)
    ensures dest != null ==> n < maxChars && dest[..n] == Stored8From32(src, 0, maxChars - 1) && dest[n] == 0
    ensures dest != null ==> forall j :: n < j < dest.Length ==> dest[j] == old(dest[j])
  {
    if dest == null {
      n := Utf32ToUtf8Count(src);
    } else {
      n := Utf32ToUtf8Store(dest, maxChars, src);
    }
  }

  method Utf32ToUtf8Count(src: seq<u32>) returns (n: nat)
    ensures n == Utf8Count32(src, 0)
  {
    var k := 0;
    n := 0;
    while At32(src, k) != 0
      invariant k <= |src|
      invariant n + Utf8Count32(src, k) == Utf8Count32(src, 0)
      decreases |src| - k
    {
      n := n + EncLength(src[k]);
      k := k + 1;
    }
  }

  /** The fit test `(num_chars + len) > max_chars` is the loop's guard here. */
  method Utf32ToUtf8Store(dest: array<u8>, maxChars: u32, src: seq<u32>) returns (n: nat)
    requires 1 <= maxChars <= dest.Length
    modifies dest
    ensures n < maxChars && dest[..n] == Stored8From32(src, 0, maxChars - 1) && dest[n] == 0
    ensures forall j :: n < j < dest.Length ==> dest[j] == old(dest[j])
  {
    var k := 0;
    n := 0;
    ghost var room: nat := maxChars - 1;
    ghost var want := Stored8From32(src, 0, room);
    ghost var orig := dest[..];
    while At32(src, k) != 0 && n + EncLength(src[k]) <= maxChars - 1
      invariant k <= |src| && n <= room && n <= |want|
      invariant Stored8From32(src, k, room - n) == want[n..]
      invariant forall j :: 0 <= j < dest.Length ==> dest[j] == if j < n then want[j] else orig[j]
      decreases |src| - k
    {
      var uc := src[k];
      PutUtf8(dest, n, uc);
      ghost var n0 := n;
      n := n + EncLength(uc);
      Stored8From32Next(src, k, n0, room, want, n);
      k := k + 1;
    }
    dest[n] := 0;
    assert dest[..n] == want;
  }

  // ----- UTF-16 to UTF-8 -----

  /** The UTF-8 bytes of a UTF-16 string (read with the exact surrogate test) up to its terminator. */
  function Bytes8From16(src: seq<u16>, i: nat): seq<u8>
    requires i <= |src|
    decreases |src| - i
  {
    if At16(src, i) == 0 then []
    else
      var d := Utf16Char(src, i);
      Encode(d.value) + Bytes8From16(src, i + d.len)
  }

  /** The count `utf16_to_utf8_string` returns without a destination. */
  function Utf8Count16(src: seq<u16>, i: nat): nat
    requires i <= |src|
    decreases |src| - i
  {
    if At16(src, i) == 0 then 0
    else
      var d := Utf16Char(src, i);
      EncLength(d.value) + Utf8Count16(src, i + d.len)
  }

  lemma {:induction false} Utf8Count16IsSize(src: seq<u16>, i: nat)
    requires i <= |src|
    ensures Utf8Count16(src, i) == |Bytes8From16(src, i)|
    decreases |src| - i
  {
    if At16(src, i) != 0 {
      var d := Utf16Char(src, i);
      Utf8Count16IsSize(src, i + d.len);
      assert Bytes8From16(src, i) == Encode(d.value) + Bytes8From16(src, i + d.len);
    }
  }

  /** The bytes stored with `room` places left: whole characters while they fit. */
  function Stored8From16(src: seq<u16>, i: nat, room: nat): (r: seq<u8>)
    requires i <= |src|
    ensures |r| <= room
    decreases |src| - i
  {
    if At16(src, i) == 0 then []
    else
      var d := Utf16Char(src, i);
      if EncLength(d.value) > room then []
      else Encode(d.value) + Stored8From16(src, i + d.len, room - EncLength(d.value))
  }

  /** What is stored is the start of the conversion. */
  lemma {:induction false} Stored8From16Prefix(src: seq<u16>, i: nat, room: nat)
    requires i <= |src|
    ensures Stored8From16(src, i, room) <= Bytes8From16(src, i)
    decreases |src| - i
  {
    if At16(src, i) != 0 {
      var d := Utf16Char(src, i);
      if EncLength(d.value) <= room {
        var i', room' := i + d.len, room - EncLength(d.value);
        Stored8From16Prefix(src, i', room');
        PrefixAppend(Encode(d.value), Stored8From16(src, i', room'), Bytes8From16(src, i'));
      }
    }
  }

  /** When the whole conversion fits, all of it is stored. */
  lemma {:induction false} Stored8From16All(src: seq<u16>, i: nat, room: nat)
    requires i <= |src| && |Bytes8From16(src, i)| <= room
    ensures Stored8From16(src, i, room) == Bytes8From16(src, i)
    decreases |src| - i
  {
    if At16(src, i) != 0 {
      var d := Utf16Char(src, i);
      Stored8From16All(src, i + d.len, room - EncLength(d.value));
    }
  }

  /**
   * With the first `n` bytes of `want` stored and the rest of `want` still
   * to come from position `i`, the next character, when it fits, is the
   * next bytes of `want`, and the rest comes from the position after it.
   */
  lemma {:induction false} Stored8From16Next(src: seq<u16>, i: nat, n: nat, room: nat, want: seq<u8>, i': nat, n': nat)
    requires i <= |src| && n <= room && n <= |want| && Stored8From16(src, i, room - n) == want[n..]
    requires At16(src, i) != 0 && n + EncLength(Utf16Char(src, i).value) <= room
    requires i' == i + Utf16Char(src, i).len && n' == n + EncLength(Utf16Char(src, i).value)
    ensures i' <= |src| && n' <= |want| && n' <= room
    ensures Stored8From16(src, i', room - n') == want[n'..]
    ensures forall j :: n <= j < n' ==> want[j] == Encode(Utf16Char(src, i).value)[j - n]
  {
    var d := Utf16Char(src, i);
    DropChunk(want, n, Encode(d.value), Stored8From16(src, i', room - n'));
  }

  /**
   * `utf16_to_utf8_string`: the number of bytes, or the characters that fit
   * and a 0; surrogates are matched exactly (see `Utf16CharAsWritten`).
   */
  method Utf16ToUtf8String(dest: array?<u8>, maxChars: u32, src: seq<u16>) returns (n: nat)
    requires dest != null ==> 1 <= maxChars <= dest.Length
    modifies dest
    ensures dest == null ==> n == Utf8Count16(src, 0)
    ensures dest != null ==> n < maxChars && dest[..n] == Stored8From16(src, 0, maxChars - 1) && dest[n] == 0
    ensures dest != null ==> forall j :: n < j < dest.Length ==> dest[j] == old(dest[j])
  {
    if dest == null {
      n := Utf16ToUtf8Count(src);
    } else {
      n := Utf16ToUtf8Store(dest, maxChars, src);
    }
  }

  method Utf16ToUtf8Count(src: seq<u16>) returns (n: nat)
    ensures n == Utf8Count16(src, 0)
  {
    var i := 0;
    n := 0;
    while At16(src, i) != 0
      invariant i <= |src|
      invariant n + Utf8Count16(src, i) == Utf8Count16(src, 0)
      decreases |src| - i
    {
      var d := Utf16Char(src, i);
      i := i + d.len;
      n := n + EncLength(d.value);
    }
  }

  /** The fit test `(num_chars + len) > max_chars` is the loop's guard here. */
  method Utf16ToUtf8Store(dest: array<u8>, maxChars: u32, src: seq<u16>) returns (n: nat)
    requires 1 <= maxChars <= dest.Length
    modifies dest
    ensures n < maxChars && dest[..n] == Stored8From16(src, 0, maxChars - 1) && dest[n] == 0
    ensures forall j :: n < j < dest.Length ==> dest[j] == old(dest[j])
  {
    var i := 0;
    n := 0;
    ghost var room: nat := maxChars - 1;
    ghost var want := Stored8From16(src, 0, room);
    ghost var orig := dest[..];
    while At16(src, i) != 0 && n + EncLength(Utf16Char(src, i).value) <= maxChars - 1
      invariant i <= |src| && n <= room && n <= |want|
      invariant Stored8From16(src, i, room - n) == want[n..]
      invariant forall j :: 0 <= j < dest.Length ==> dest[j] == if j < n then want[j] else orig[j]
      decreases |src| - i
    {
      var d := Utf16Char(src, i);
      var uc := d.value;
      var len := EncLength(uc);
      PutUtf8(dest, n, uc);
      ghost var i0, n0 := i, n;
      i := i + d.len;
      n := n + len;
      Stored8From16Next(src, i0, n0, room, want, i, n);
    }
    dest[n] := 0;
    assert dest[..n] == want;
  }
}
