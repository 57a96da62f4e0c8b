/**
 * The bitwise operators of C on unsigned 32-bit values, defined bit by bit
 * on integers: `&`, `|`, `^`, `~`, `<<` and `>>`. The bits of x are the
 * digits of x in base 2, least significant first.
 */
module Bits {
  import opened Ints

  function Pow2(n: nat): (r: nat)
    ensures r > 0
  {
    if n == 0 then 1 else 2 * Pow2(n - 1)
  }

  lemma {:induction false} Pow2Add(a: nat, b: nat)
    ensures Pow2(a + b) == Pow2(a) * Pow2(b)
  {
    if a > 0 {
      Pow2Add(a - 1, b);
      assert Pow2(a + b) == 2 * (Pow2(a - 1) * Pow2(b));
    }
  }

  lemma Pow2Values()
    ensures Pow2(6) == 64 && Pow2(8) == 0x100 && Pow2(16) == 0x1_0000
    ensures Pow2(31) == 0x8000_0000 && Pow2(32) == 0x1_0000_0000
  {
    assert Pow2(8) == 0x100;
    Pow2Add(8, 8);
    Pow2Add(16, 16);
    assert Pow2(32) == 2 * Pow2(31);
  }

  datatype BitOp = AndOp | OrOp | XorOp

  /** The operator on one pair of bits. */
  function Bit(op: BitOp, p: nat, q: nat): (r: nat)
    requires p < 2 && q < 2
    ensures r < 2
  {
    match op
    case AndOp => if p == 1 && q == 1 then 1 else 0
    case OrOp => if p == 1 || q == 1 then 1 else 0
    case XorOp => if p != q then 1 else 0
  }

  /** The operator applied to the n lowest bits of x and y. */
  function Bitwise(op: BitOp, x: nat, y: nat, n: nat): (r: nat)
    decreases n
  {
    if n == 0 then 0 else 2 * Bitwise(op, x / 2, y / 2, n - 1) + Bit(op, x % 2, y % 2)
  }

  /** The n lowest bits of x, each inverted. */
  function Complement(x: nat, n: nat): (r: nat)
    decreases n
  {
    if n == 0 then 0 else 2 * Complement(x / 2, n - 1) + (1 - x % 2)
  }

  lemma {:induction false} BitwiseBound(op: BitOp, x: nat, y: nat, n: nat)
    ensures Bitwise(op, x, y, n) < Pow2(n)
    decreases n
  {
    if n > 0 { BitwiseBound(op, x / 2, y / 2, n - 1); }
  }

  lemma {:induction false} ComplementBound(x: nat, n: nat)
    ensures Complement(x, n) < Pow2(n)
    decreases n
  {
    if n > 0 { ComplementBound(x / 2, n - 1); }
  }

  /** `x & y`. */
  function And(x: u32, y: u32): u32
  {
    BitwiseBound(AndOp, x, y, 32); Pow2Values();
    Bitwise(AndOp, x, y, 32)
  }

  /** `x | y`. */
  function Or(x: u32, y: u32): u32
  {
    BitwiseBound(OrOp, x, y, 32); Pow2Values();
    Bitwise(OrOp, x, y, 32)
  }

  /** `x ^ y`. */
  function Xor(x: u32, y: u32): u32
  {
    BitwiseBound(XorOp, x, y, 32); Pow2Values();
    Bitwise(XorOp, x, y, 32)
  }

  /** `~x`. */
  function Not(x: u32): u32
  {
    ComplementBound(x, 32); Pow2Values();
    Complement(x, 32)
  }

  /** `x + y` on unsigned 32-bit values: the carry out of bit 31 is lost. */
  function Add(x: u32, y: u32): u32
  {
    if x + y < 0x1_0000_0000 then x + y else x + y - 0x1_0000_0000
  }

  /** `x - y` on unsigned 32-bit values: a borrow wraps round. */
  function Sub(x: u32, y: u32): u32
  {
    if y <= x then x - y else x - y + 0x1_0000_0000
  }

  /** 32-bit addition is addition modulo `2^32`. */
  lemma AddIsMod(x: u32, y: u32)
    ensures Add(x, y) == (x + y) % 0x1_0000_0000
  {
    if x + y < 0x1_0000_0000 {
      DivModUnique(x + y, 0x1_0000_0000, 0, x + y);
    } else {
      DivModUnique(x + y, 0x1_0000_0000, 1, x + y - 0x1_0000_0000);
    }
  }

  /** `v << 1`: the top bit is lost. */
  function Double(v: u32): u32
  {
    if v < 0x8000_0000 then 2 * v else 2 * v - 0x1_0000_0000
  }

  /** `x << s`, one bit at a time. */
  function Shl(x: u32, s: nat): u32
    decreases s
  {
    if s == 0 then x else Double(Shl(x, s - 1))
  }

  /** `x >> s`, one bit at a time. */
  function Shr(x: u32, s: nat): u32
    decreases s
  {
    if s == 0 then x else Shr(x, s - 1) / 2
  }

  /** A left shift by s is multiplication by `2^s`, truncated to 32 bits. */
  lemma {:induction false} ShlMul(x: u32, s: nat)
    ensures Shl(x, s) == x * Pow2(s) % 0x1_0000_0000
    decreases s
  {
    if s > 0 {
      ShlMul(x, s - 1);
      var a := x * Pow2(s - 1);
      assert x * Pow2(s) == a * 2;
      AddIsMod(Shl(x, s - 1), Shl(x, s - 1));
      DoubleMod(a, 0x1_0000_0000);
    }
  }

  /** Doubling commutes with taking the remainder. */
  lemma DoubleMod(a: nat, w: nat)
    requires w > 0
    ensures a % w * 2 % w == a * 2 % w
  {
    var q, r := a / w, a % w;
    var q2, r2 := r * 2 / w, r * 2 % w;
    assert a * 2 == (2 * q + q2) * w + r2 by {
      assert a == q * w + r;
      assert r * 2 == q2 * w + r2;
    }
    DivModUnique(a * 2, w, 2 * q + q2, r2);
  }

  /** What survives a left shift: the `32 - s` low bits of x, moved up by s. */
  lemma ShlValue(x: u32, s: nat)
    requires s <= 32
    ensures Shl(x, s) == x % Pow2(32 - s) * Pow2(s)
  {
    ShlMul(x, s);
    WordSplit(s);
    ScaledMod(x, Pow2(32 - s), Pow2(s), 0x1_0000_0000);
  }

  /** With `m * p == w`, scaling by p and reducing modulo w keeps the remainder modulo m, scaled. */
  lemma ScaledMod(x: nat, m: nat, p: nat, w: nat)
    requires m > 0 && p > 0 && m * p == w
    ensures x * p % w == x % m * p
  {
    ScaledBelow(x, m, p);
    MulSplit(x, m, p);
    DivModUnique(x * p, w, x / m, x % m * p);
  }

  /** Scaling the division of x by m: `x * p == x / m * (m * p) + x % m * p`. */
  lemma MulSplit(x: nat, m: nat, p: nat)
    requires m > 0
    ensures x * p == x / m * (m * p) + x % m * p
  {
    var q, r := x / m, x % m;
    assert x * p == (q * m + r) * p;
    assert (q * m + r) * p == q * (m * p) + r * p;
  }

  /** A right shift by s is division by `2^s`. */
  lemma {:induction false} ShrValue(x: u32, s: nat)
    ensures Shr(x, s) == x / Pow2(s)
    decreases s
  {
    if s > 0 {
      ShrValue(x, s - 1);
      DivDiv(x, Pow2(s - 1), 2);
    }
  }

  /** Dividing by a and then by b is dividing by `a * b`. */
  lemma DivDiv(x: nat, a: nat, b: nat)
    requires a > 0 && b > 0
    ensures x / a / b == x / (a * b)
  {
    var q, r := x / (a * b), x % (a * b);
    assert x == (q * b + r / a) * a + r % a by {
      assert x == q * (a * b) + r;
      assert r == r / a * a + r % a;
    }
    DivModUnique(x, a, q * b + r / a, r % a);
    QuotientBound(r, a, b);
    DivModUnique(x / a, b, q, r / a);
  }

  /** The remainder modulo m of the remainder modulo `2 * m`. */
  lemma ModMod(x: nat, m: nat)
    requires m > 0
    ensures x % (2 * m) % m == x % m
    ensures x % (2 * m) / m < 2
    ensures x % (2 * m) == x % (2 * m) / m * m + x % m
  {
    var q, r := x / (2 * m), x % (2 * m);
    QuotientBound(r, m, 2);
    assert x == (2 * q + r / m) * m + r % m by {
      assert x == q * (2 * m) + r;
      assert r == r / m * m + r % m;
    }
    DivModUnique(x, m, 2 * q + r / m, r % m);
  }

  /** `2^(32 - s) * 2^s` is the word size. */
  lemma WordSplit(s: nat)
    requires s <= 32
    ensures Pow2(32 - s) * Pow2(s) == 0x1_0000_0000
  {
    Pow2Values();
    Pow2Add(32 - s, s);
  }

  /** A remainder modulo m, scaled by p, stays below `m * p`. */
  lemma ScaledBelow(t: nat, m: nat, p: nat)
    requires m > 0 && p > 0
    ensures t % m * p + p <= m * p
  {
    var r := t % m;
    MulMonotone(r + 1, m, p);
    assert (r + 1) * p == r * p + p;
  }

  /** A quotient of naturals is a natural. */
  lemma QuotientNat(x: nat, d: nat)
    requires d > 0
    ensures 0 <= x / d
  {
  }

  /** A multiple of p leaves no remainder. */
  lemma MultipleMod(y: nat, p: nat)
    requires p > 0
    ensures y * p % p == 0
  {
    DivModUnique(y * p, p, y, 0);
  }

  /** Below `m * p`, the quotient by m is below p. */
  lemma QuotientBound(t: nat, m: nat, p: nat)
    requires m > 0 && t < m * p
    ensures t / m < p
  {
    if t / m >= p {
      MulMonotone(p, t / m, m);
    }
  }

  /** Both halves of a bitwise result after one bit is taken off. */
  lemma Halves(op: BitOp, x: nat, y: nat, n: nat)
    requires n > 0
    ensures Bitwise(op, x, y, n) / 2 == Bitwise(op, x / 2, y / 2, n - 1)
    ensures Bitwise(op, x, y, n) % 2 == Bit(op, x % 2, y % 2)
  {
    DivModUnique(Bitwise(op, x, y, n), 2, Bitwise(op, x / 2, y / 2, n - 1), Bit(op, x % 2, y % 2));
  }

  lemma ComplementHalves(x: nat, n: nat)
    requires n > 0
    ensures Complement(x, n) / 2 == Complement(x / 2, n - 1)
    ensures Complement(x, n) % 2 == 1 - x % 2
  {
    DivModUnique(Complement(x, n), 2, Complement(x / 2, n - 1), 1 - x % 2);
  }

  /** A value below `2^n` is determined by its lowest bit and the rest. */
  lemma HalveBound(x: nat, n: nat)
    requires n > 0 && x < Pow2(n)
    ensures x / 2 < Pow2(n - 1)
  {
  }

  /** Masking with `2^k - 1` keeps the k lowest bits: `x & (2^k - 1) == x % 2^k`. */
  lemma {:induction false} LowMask(x: nat, k: nat, n: nat)
    requires k <= n
    ensures Bitwise(AndOp, x, Pow2(k) - 1, n) == x % Pow2(k)
    decreases n
  {
    if k == 0 {
      NoMask(x, n);
    } else {
      LowMask(x / 2, k - 1, n - 1);
      LowMaskStep(x, k, n);
    }
  }

  /** A mask of no bits keeps nothing. */
  lemma NoMask(x: nat, n: nat)
    ensures Bitwise(AndOp, x, Pow2(0) - 1, n) == x % Pow2(0)
  {
    ZeroMask(x, n);
    DivModUnique(x, 1, x, 0);
  }

  /** One step of `LowMask`: the lowest bit is kept, the rest is the mask one bit shorter on `x / 2`. */
  lemma LowMaskStep(x: nat, k: nat, n: nat)
    requires 0 < k <= n
    requires Bitwise(AndOp, x / 2, Pow2(k - 1) - 1, n - 1) == x / 2 % Pow2(k - 1)
    ensures Bitwise(AndOp, x, Pow2(k) - 1, n) == x % Pow2(k)
  {
    var m := Pow2(k - 1) - 1;
    assert Pow2(k) - 1 == 2 * m + 1;
    DivModUnique(Pow2(k) - 1, 2, m, 1);
    ModSplit(x, k);
    assert Bit(AndOp, x % 2, 1) == x % 2;
  }

  /** The k lowest bits of x are its lowest bit below the k - 1 lowest bits of `x / 2`. */
  lemma ModSplit(x: nat, k: nat)
    requires k > 0
    ensures x % Pow2(k) == 2 * (x / 2 % Pow2(k - 1)) + x % 2
  {
    var p := Pow2(k - 1);
    var h := x / 2;
    assert h == h / p * p + h % p;
    assert x == h / p * (2 * p) + (2 * (h % p) + x % 2);
    DivModUnique(x, 2 * p, h / p, 2 * (h % p) + x % 2);
  }

  lemma {:induction false} ZeroMask(x: nat, n: nat)
    ensures Bitwise(AndOp, x, 0, n) == 0
    decreases n
  {
    if n > 0 {
      ZeroMask(x / 2, n - 1);
    }
  }

  /**
   * `x | y` is `x + y` when the bits do not overlap: x a multiple of `2^k`
   * and y below it.
   */
  lemma {:induction false} OrDisjoint(x: nat, y: nat, k: nat, n: nat)
    requires k <= n && x < Pow2(n) && x % Pow2(k) == 0 && y < Pow2(k)
    ensures Bitwise(OrOp, x, y, n) == x + y
    decreases n
  {
    if n == 0 {
    } else if k == 0 {
      OrZero(x, n);
    } else {
      HalveBound(x, n);
      var p := Pow2(k - 1);
      DivModUnique(x, 2, x / Pow2(k) * p, 0);
      DivModUnique(x / 2, p, x / Pow2(k), 0);
      OrDisjoint(x / 2, y / 2, k - 1, n - 1);
    }
  }

  /** `OrDisjoint` on whole words: `x | y == x + y` when x is a multiple of `2^k` and y is below it. */
  lemma OrWord(x: u32, y: u32, k: nat)
    requires k <= 32 && x % Pow2(k) == 0 && y < Pow2(k)
    ensures Or(x, y) == x + y
  {
    Pow2Values();
    OrDisjoint(x, y, k, 32);
  }

  lemma {:induction false} OrZero(x: nat, n: nat)
    requires x < Pow2(n)
    ensures Bitwise(OrOp, x, 0, n) == x
    decreases n
  {
    if n > 0 {
      HalveBound(x, n);
      OrZero(x / 2, n - 1);
    }
  }
}
