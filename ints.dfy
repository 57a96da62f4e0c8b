/**
 * Machine integer ranges and the C conversions the firmware relies on:
 * unsigned wrap-around, two's complement reinterpretation and division
 * that truncates toward zero.
 */
module Ints {

  type u8 = x: int | 0 <= x < 0x100
  type u16 = x: int | 0 <= x < 0x1_0000
  type u32 = x: int | 0 <= x < 0x1_0000_0000
  type u64 = x: int | 0 <= x < 0x1_0000_0000_0000_0000
  type i32 = x: int | -0x8000_0000 <= x < 0x8000_0000
  type i64 = x: int | -0x8000_0000_0000_0000 <= x < 0x8000_0000_0000_0000

  const U32Max: u32 := 0xFFFF_FFFF

  datatype Option<T> = None | Some(value: T)

  /** A small number as a byte. */
  function Byte(x: nat): (b: bv8)
    requires x < 0x100
    ensures b as int == x
  {
    ByteValue(x);
    x as bv8
  }

  lemma ByteValue(x: nat)
    requires x < 0x100
    ensures (x as bv8) as int == x
  {
    if x < 0x10 {} else if x < 0x40 {} else if x < 0x80 {} else if x < 0xC0 {} else {}
  }

  /** Unsigned 32-bit wrap-around: the result is congruent to x modulo 2^32. */
  function Wrap32(x: int): (r: u32)
    ensures (x - r) % 0x1_0000_0000 == 0
    ensures 0 <= x < 0x1_0000_0000 ==> r == x
  {
    x % 0x1_0000_0000
  }

  /** Unsigned 64-bit wrap-around. */
  function Wrap64(x: int): (r: u64)
    ensures (x - r) % 0x1_0000_0000_0000_0000 == 0
    ensures 0 <= x < 0x1_0000_0000_0000_0000 ==> r == x
  {
    x % 0x1_0000_0000_0000_0000
  }

  /** The int32 value whose two's complement bit pattern is x modulo 2^32. */
  function ToInt32(x: int): (r: i32)
    ensures (x - r) % 0x1_0000_0000 == 0
    ensures -0x8000_0000 <= x < 0x8000_0000 ==> r == x
  {
    var w := x % 0x1_0000_0000;
    if w < 0x8000_0000 then w else w - 0x1_0000_0000
  }

  /** The int64 value whose two's complement bit pattern is x modulo 2^64. */
  function ToInt64(x: int): (r: i64)
    ensures (x - r) % 0x1_0000_0000_0000_0000 == 0
    ensures -0x8000_0000_0000_0000 <= x < 0x8000_0000_0000_0000 ==> r == x
  {
    var w := x % 0x1_0000_0000_0000_0000;
    if w < 0x8000_0000_0000_0000 then w else w - 0x1_0000_0000_0000_0000
  }

  /** C's `/`: the quotient truncated toward zero. */
  function CDiv(a: int, b: int): (q: int)
    requires b != 0
    ensures q * b + CRem(a, b) == a
    ensures 0 <= a && 0 < b ==> q == a / b
  {
    if (a >= 0) == (b > 0) then Abs(a) / Abs(b) else -(Abs(a) / Abs(b))
  }

  /** C's `%`: the remainder takes the sign of the dividend. */
  function CRem(a: int, b: int): (r: int)
    requires b != 0
    ensures Abs(r) < Abs(b)
    ensures a >= 0 ==> r >= 0
    ensures a < 0 ==> r <= 0
  {
    if a >= 0 then Abs(a) % Abs(b) else -(Abs(a) % Abs(b))
  }

  function Abs(x: int): nat { if x < 0 then -x else x }

  function Min(a: int, b: int): int { if a < b then a else b }

  /** Multiplication by a non-negative factor preserves order. */
  lemma MulMonotone(x: int, y: int, u: nat)
    requires x <= y
    ensures x * u <= y * u
  {
    assert y * u - x * u == (y - x) * u;
  }

  /** Quotient and remainder are determined by any decomposition `a == q * u + r` with `0 <= r < u`. */
  lemma DivModUnique(a: int, u: int, q: int, r: int)
    requires u > 0 && a == q * u + r && 0 <= r < u
    ensures a / u == q && a % u == r
  {
    var q0, r0 := a / u, a % u;
    assert (q - q0) * u == r0 - r;
    if q > q0 {
      MulMonotone(1, q - q0, u);
    } else if q < q0 {
      MulMonotone(1, q0 - q, u);
    }
  }
}
