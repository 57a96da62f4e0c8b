/**
 * UTF-8 at the level of one character: the length announced by a lead
 * byte, the check of a character's continuation bytes, the decoder (which
 * still accepts the 5- and 6-byte forms that RFC 3629 removed) and the
 * encoder used by the string converters.
 *
 * A C string is a sequence of bytes read through a pointer; here it is a
 * `seq<u8>` and a position. Memory past the end of the sequence reads as the
 * terminating 0: a check or a decode that looks past the terminator fails
 * on the terminator itself, so the result never depends on what follows.
 */
module Utf8 {
  import opened Ints

  /** The byte at `i`, with 0 past the end. */
  function At(txt: seq<u8>, i: nat): u8
  {
    if i < |txt| then txt[i] else 0
  }

  /** `(b & 0xC0) == 0x80`: a continuation byte 10xxxxxx. */
  predicate IsCont(b: u8)
  {
    0x80 <= b < 0xC0
  }

  /** The length a lead byte announces, restricted to the 4-byte forms of RFC 3629; 0 for a continuation or a 5/6-byte lead. */
  function GetLength(b0: u8): (n: nat)
    ensures n <= 4
    ensures n == 0 <==> IsCont(b0) || b0 >= 0xF8
  {
    if b0 < 0x80 then 1
    else if b0 < 0xC0 then 0
    else if b0 < 0xE0 then 2
    else if b0 < 0xF0 then 3
    else if b0 < 0xF8 then 4
    else 0
  }

  /**
   * `len` when the character at `i` has the continuation bytes its length
   * needs, else 0. The 2-byte case is kept as written: it succeeds when the
   * second byte is NOT a continuation byte.
   */
  function CheckChar(txt: seq<u8>, i: nat, len: int): (r: nat)
    ensures r == 0 || r == len
    ensures len == 1 ==> r == 1
    ensures len == 2 ==> (r == 2 <==> !IsCont(At(txt, i + 1)))
    ensures len == 3 || len == 4 ==> (r == len <==> forall j :: i < j < i + len ==> IsCont(At(txt, j)))
    ensures !(1 <= len <= 4) ==> r == 0
  {
    if len == 1 then 1
    else if len == 2 then (if !IsCont(At(txt, i + 1)) then 2 else 0)
    else if len == 3 then
      (if IsCont(At(txt, i + 1)) && IsCont(At(txt, i + 2)) then 3 else 0)
    else if len == 4 then
      (if IsCont(At(txt, i + 1)) && IsCont(At(txt, i + 2)) && IsCont(At(txt, i + 3)) then 4 else 0)
    else 0
  }

  // ----- the decoder -----

  function Pow64(k: nat): (p: nat)
    ensures p >= 1
  {
    if k == 0 then 1 else 64 * Pow64(k - 1)
  }

  lemma Pow64Values()
    ensures Pow64(1) == 0x40 && Pow64(2) == 0x1000 && Pow64(3) == 0x4_0000
    ensures Pow64(4) == 0x100_0000 && Pow64(5) == 0x4000_0000
  {
  }

  /** The lead byte classes the decoder knows, including the 5- and 6-byte forms; 0 for anything else. */
  function LeadLength(b0: u8): (n: nat)
    ensures n <= 6
  {
    if b0 < 0x80 then 1
    else if b0 < 0xC0 then 0
    else if b0 < 0xE0 then 2
    else if b0 < 0xF0 then 3
    else if b0 < 0xF8 then 4
    else if b0 < 0xFC then 5
    else if b0 < 0xFE then 6
    else 0
  }

  /** The length marker of an `n`-byte lead (`0x3F00 >> n` cut to a byte). */
  const LeadMask: seq<u8> := [0, 0, 0xC0, 0xE0, 0xF0, 0xF8, 0xFC]

  /** The `k` bytes from `j` are all continuation bytes. */
  predicate ContsFrom(txt: seq<u8>, j: nat, k: nat)
  {
    k == 0 || (ContsFrom(txt, j, k - 1) && IsCont(At(txt, j + k - 1)))
  }

  /** `top` followed by the six payload bits of each of the `k` bytes from `j`, most significant first. */
  function Payload(txt: seq<u8>, j: nat, k: nat, top: nat): nat
  {
    if k == 0 then top else Payload(txt, j, k - 1, top) * 64 + At(txt, j + k - 1) % 64
  }

  lemma {:induction false} PayloadBelow(txt: seq<u8>, j: nat, k: nat, top: nat, b: nat)
    requires top < b
    ensures Payload(txt, j, k, top) < b * Pow64(k)
  {
    if k > 0 {
      var p := Pow64(k - 1);
      PayloadBelow(txt, j, k - 1, top, b);
      MulMonotone(Payload(txt, j, k - 1, top), b * p - 1, 64);
      Times64(b, p);
    }
  }

  const Invalid: u32 := 0xFFFF_FFFF

  /** A decoded character and the number of bytes it took; `len == 0` on error. */
  datatype Decoded = Decoded(value: u32, len: nat)

  /**
   * `utf8_to_utf32_char`: the lead's payload bits followed by six bits of
   * each continuation byte (the shifts and ORs of the source, whose fields
   * never overlap); `(uint32_t)-1` and length 0 on a bad lead or a missing
   * continuation byte.
   */
  function Utf8Char(txt: seq<u8>, i: nat): (d: Decoded)
    ensures d.len <= 6
    ensures d.len == 0 <==> d.value == Invalid
    ensures d.len != 0 ==> d.value < 0x8000_0000 && d.len == LeadLength(At(txt, i))
    ensures d.len != 0 && At(txt, i) != 0 ==> i + d.len <= |txt|
  {
    var b0 := At(txt, i);
    var n := LeadLength(b0);
    if n == 0 then Decoded(Invalid, 0)
    else if n == 1 then Decoded(b0, 1)
    else
      if !ContsFrom(txt, i + 1, n - 1) then Decoded(Invalid, 0)
      else
        LeadPayloadBound(b0, n, txt, i + 1);
        Decoded(Payload(txt, i + 1, n - 1, b0 - LeadMask[n]), n)
  }

  /** An `n`-byte character carries at most 5n + 1 bits, so at most 31. */
  lemma LeadPayloadBound(b0: u8, n: nat, txt: seq<u8>, j: nat)
    requires 2 <= n <= 6 && LeadLength(b0) == n
    ensures 0 <= b0 - LeadMask[n] && Payload(txt, j, n - 1, b0 - LeadMask[n]) < 0x8000_0000
  {
    Pow64Values();
    PayloadBelow(txt, j, n - 1, b0 - LeadMask[n], [0, 0, 32, 16, 8, 4, 2][n]);
  }

  /** The decoder agrees with `GetLength` on every length RFC 3629 allows. */
  lemma DecodedLengthAgrees(txt: seq<u8>, i: nat)
    ensures var d := Utf8Char(txt, i); d.len != 0 && d.len <= 4 ==> d.len == GetLength(At(txt, i))
    ensures var d := Utf8Char(txt, i); d.len >= 5 ==> GetLength(At(txt, i)) == 0
  {
  }

  // ----- the encoder -----

  /**
   * The byte count the string converters use: one more byte past 0x7F,
   * 0x3FF, 0xFFFF, 0x1FFFFF and 0x3FFFFFF. The second threshold is 0x3FF as
   * written (RFC 3629 has 0x7FF), so U+0400..U+07FF take three bytes, an
   * overlong form that still decodes to the same value.
   */
  function EncLength(u: u32): (n: nat)
    ensures 1 <= n <= 6
    ensures u <= 0x7F <==> n == 1
  {
    1 + (if u > 0x7F then 1 else 0) + (if u > 0x3FF then 1 else 0) + (if u > 0xFFFF then 1 else 0)
      + (if u > 0x1F_FFFF then 1 else 0) + (if u > 0x3FF_FFFF then 1 else 0)
  }

  /** `u >> 6k`. */
  function Shift(u: nat, k: nat): nat
  {
    if k == 0 then u else Shift(u / 64, k - 1)
  }

  /** The `k` continuation bytes holding the low `6k` bits of `u`, the last byte lowest. */
  function Tail(u: nat, k: nat): (t: seq<u8>)
    ensures |t| == k
  {
    if k == 0 then [] else Tail(u / 64, k - 1) + [0x80 + u % 64]
  }

  /** Continuation byte `j` of `Tail(u, m)` holds bits `6(m-1-j)` and up of `u`. */
  lemma {:induction false} TailDigit(u: nat, m: nat, j: nat)
    requires j < m
    ensures Tail(u, m)[j] == 0x80 + Shift(u, m - 1 - j) % 64
  {
    if j < m - 1 {
      TailDigit(u / 64, m - 1, j);
    }
  }

  /** Bytes that spell `Tail(u, k)` pass the continuation check and fold back onto the shifted top to `u`. */
  lemma {:induction false} TailRead(txt: seq<u8>, j: nat, u: nat, k: nat)
    requires forall m :: 0 <= m < k ==> At(txt, j + m) == Tail(u, k)[m]
    ensures ContsFrom(txt, j, k) && Payload(txt, j, k, Shift(u, k)) == u
  {
    if k > 0 {
      var t, t' := Tail(u, k), Tail(u / 64, k - 1);
      forall m | 0 <= m < k - 1 ensures At(txt, j + m) == t'[m] {
        assert t[m] == t'[m];
      }
      TailRead(txt, j, u / 64, k - 1);
      assert At(txt, j + k - 1) == t[k - 1] == 0x80 + u % 64;
      ContPayload(u % 64);
    }
  }

  /** The payload of a continuation byte is the six bits it was made from. */
  lemma ContPayload(x: nat)
    requires x < 64
    ensures (0x80 + x) % 64 == x
  {
    DivModUnique(0x80 + x, 64, 2, x);
  }

  lemma Times64(b: nat, p: nat)
    ensures b * (64 * p) == (b * p) * 64
  {
  }

  lemma {:induction false} ShiftBelow(u: nat, k: nat, b: nat)
    requires u < b * Pow64(k)
    ensures Shift(u, k) < b
  {
    if k > 0 {
      var p := Pow64(k - 1);
      assert u < (b * p) * 64;
      assert u / 64 < b * p;
      ShiftBelow(u / 64, k - 1, b);
    }
  }

  /** How large the shifted top of `u` can be for its length. */
  lemma ShiftBound(u: u32)
    ensures var n := EncLength(u); n >= 2 ==> Shift(u, n - 1) < [0, 0, 16, 16, 8, 4, 4][n]
    ensures EncLength(u) == 6 && u < 0x8000_0000 ==> Shift(u, 5) < 2
  {
    Pow64Values();
    var n := EncLength(u);
    if n == 2 { ShiftBelow(u, 1, 16); }
    else if n == 3 { ShiftBelow(u, 2, 16); }
    else if n == 4 { ShiftBelow(u, 3, 8); }
    else if n == 5 { ShiftBelow(u, 4, 4); }
    else if n == 6 {
      ShiftBelow(u, 5, 4);
      if u < 0x8000_0000 { ShiftBelow(u, 5, 2); }
    }
  }

  /**
   * The bytes `utf32_to_utf8_string` writes for one character: the lead is
   * `mask | (u >> 6(n-1))` (the shifted value never reaches the mask bits),
   * then the continuation bytes `0x80 | (u >> 6j & 0x3F)`.
   */
  function Encode(u: u32): (b: seq<u8>)
    ensures |b| == EncLength(u)
  {
    var n := EncLength(u);
    if n == 1 then [u]
    else
      ShiftBound(u);
      [LeadMask[n] + Shift(u, n - 1)] + Tail(u, n - 1)
  }

  /** Every code point below 2^31 decodes back from its encoding, whatever follows it. */
  lemma {:induction false} Utf8RoundTrip(u: u32, rest: seq<u8>)
    requires u < 0x8000_0000
    ensures Utf8Char(Encode(u) + rest, 0) == Decoded(u, EncLength(u))
  {
    var n := EncLength(u);
    var e := Encode(u);
    var txt := e + rest;
    if n >= 2 {
      assert At(txt, 0) == e[0];
      LeadOfEncode(u);
      var t := Tail(u, n - 1);
      forall m | 0 <= m < n - 1 ensures At(txt, 1 + m) == t[m] {
        assert txt[1 + m] == e[1 + m];
      }
      TailRead(txt, 1, u, n - 1);
    }
  }

  /** The decoder reads the lead byte of an encoding as announcing the encoding's length. */
  lemma LeadOfEncode(u: u32)
    requires u < 0x8000_0000 && EncLength(u) >= 2
    ensures LeadLength(Encode(u)[0]) == EncLength(u)
  {
    ShiftBound(u);
  }

  /** The lead byte of an encoding announces its length, up to the 4-byte forms. */
  lemma LeadAnnouncesLength(u: u32)
    requires u <= 0x1F_FFFF
    ensures GetLength(Encode(u)[0]) == EncLength(u)
  {
    ShiftBound(u);
  }

  // ----- checking a buffer and a string -----

  /**
   * Where the check of a `len`-byte buffer ends, from position `i`: at the
   * end of the buffer, at a 0 byte, or before a character cut by the end of
   * the buffer; 0 as soon as a character fails its check.
   */
  function ScanBuffer(txt: seq<u8>, i: nat): (r: nat)
    requires i <= |txt|
    ensures r == 0 || i <= r <= |txt|
    ensures r != 0 ==> r == |txt| || txt[r] == 0 || r + GetLength(txt[r]) > |txt|
    decreases |txt| - i
  {
    if i == |txt| || txt[i] == 0 then i
    else
      var len := GetLength(txt[i]);
      if i + len > |txt| then i
      else
        var c := CheckChar(txt, i, len);
        if c == 0 then 0 else ScanBuffer(txt, i + c)
  }

  /** `utf8_check_buffer`: 0 for invalid data, otherwise the number of bytes checked. */
  method CheckBuffer(txt: seq<u8>) returns (r: nat)
    ensures r == ScanBuffer(txt, 0)
  {
    var charLen := 1;
    var i := 0;
    while charLen > 0 && i < |txt| && txt[i] != 0
      invariant i <= |txt|
      invariant charLen > 0 ==> ScanBuffer(txt, i) == ScanBuffer(txt, 0)
      invariant charLen == 0 ==> ScanBuffer(txt, 0) == 0
      decreases |txt| - i + charLen
    {
      charLen := GetLength(txt[i]);
      if i + charLen > |txt| {
        break;
      }
      charLen := CheckChar(txt, i, charLen);
      i := i + charLen;
    }
    if charLen == 0 {
      return 0;
    }
    return i;
  }

  /**
   * Whether the string from `i` on passes the check up to its terminating 0.
   * A 2-byte lead followed by the terminator passes (the inverted check),
   * and the scan goes on after the terminator; past the end of the sequence
   * it reads zeros.
   */
  function ScanString(txt: seq<u8>, i: nat): (ok: bool)
    decreases if i <= |txt| then |txt| - i else 0
  {
    if At(txt, i) == 0 then true
    else
      var c := CheckChar(txt, i, GetLength(At(txt, i)));
      c != 0 && ScanString(txt, i + c)
  }

  /** `utf8_check_string`: 1 when the string passes, 0 otherwise. */
  method CheckString(txt: seq<u8>) returns (r: nat)
    ensures r == 1 <==> ScanString(txt, 0)
    ensures r == 0 <==> !ScanString(txt, 0)
  {
    var charLen := 1;
    var i := 0;
    while charLen > 0 && At(txt, i) != 0
      invariant charLen > 0 ==> ScanString(txt, i) == ScanString(txt, 0)
      invariant charLen == 0 ==> !ScanString(txt, 0)
      decreases if i <= |txt| then |txt| - i else 0, charLen
    {
      charLen := CheckChar(txt, i, GetLength(At(txt, i)));
      i := i + charLen;
    }
    if charLen == 0 {
      return 0;
    }
    return 1;
  }

  /** One character of one, three or four bytes passes both checks. */
  lemma EncodingAccepted(u: u32)
    requires 0 < u <= 0x7F || 0x400 <= u <= 0x1F_FFFF
    ensures ScanBuffer(Encode(u), 0) == EncLength(u)
    ensures ScanString(Encode(u), 0)
  {
    var e := Encode(u);
    var n := EncLength(u);
    LeadAnnouncesLength(u);
    assert forall j :: 0 < j < n ==> IsCont(At(e, j)) by {
      forall j | 0 < j < n ensures IsCont(At(e, j)) {
        TailDigit(u, n - 1, j - 1);
        assert e[j] == Tail(u, n - 1)[j - 1];
      }
    }
    assert CheckChar(e, 0, n) == n;
    assert ScanBuffer(e, n) == n;
    assert At(e, n) == 0;
  }

  /** A correct two-byte character fails both checks, because of the inverted test of its second byte. */
  lemma TwoByteRejected(u: u32)
    requires 0x80 <= u <= 0x3FF
    ensures ScanBuffer(Encode(u), 0) == 0
    ensures !ScanString(Encode(u), 0)
  {
    var e := Encode(u);
    LeadAnnouncesLength(u);
    assert e[1..][0] == e[1];
    assert CheckChar(e, 0, 2) == 0;
  }

  /** A two-byte lead followed by a 0 passes, and the buffer check goes on past the 0. */
  lemma NulAfterLeadPasses()
    ensures ScanBuffer([0xC3, 0x00, 0x41], 0) == 3
    ensures ScanString([0xC3, 0x00, 0x41], 0)
  {
    var t: seq<u8> := [0xC3, 0x00, 0x41];
    assert CheckChar(t, 0, 2) == 2;
    assert ScanBuffer(t, 2) == 3;
    assert At(t, 2) == 0x41 && At(t, 3) == 0;
    assert ScanString(t, 2);
  }
}
