/**
 * The pseudo-random generator of the board: a 64-byte entropy pool filled
 * one byte at a time, a seed taken from the MD4 compression function of
 * that pool (RFC 1320, section 3.4), and a 32-bit linear congruential
 * generator stepped from the seed.
 */
module Random {
  import opened Ints
  import opened Bits

  const PoolSize: nat := 64

  /** A word of the 16-word MD4 block. */
  type WordIndex = k: nat | k < 16

  // ---------------------------------------------------------------------
  // Reference: the three rounds of MD4 as RFC 1320 tabulates them.
  // ---------------------------------------------------------------------

  /** The auxiliary functions of section 3.4 of RFC 1320: select, majority and parity. */
  function F(x: u32, y: u32, z: u32): u32 { Or(And(x, y), And(Not(x), z)) }
  function G(x: u32, y: u32, z: u32): u32 { Or(Or(And(x, y), And(x, z)), And(y, z)) }
  function H(x: u32, y: u32, z: u32): u32 { Xor(Xor(x, y), z) }

  /** The circular left shift by one bit: the top bit comes round to the bottom. */
  function RotateOnce(u: u32): u32
  {
    if u < 0x8000_0000 then 2 * u else 2 * u - 0xFFFF_FFFF
  }

  /** The rotation by one bit is the low 31 bits doubled plus the top bit. */
  lemma RotateOnceValue(u: u32)
    ensures RotateOnce(u) == u % 0x8000_0000 * 2 + u / 0x8000_0000
  {
    if u < 0x8000_0000 {
      DivModUnique(u, 0x8000_0000, 0, u);
    } else {
      DivModUnique(u, 0x8000_0000, 1, u - 0x8000_0000);
    }
  }

  /** `t <<< s`, the circular left shift by s bit positions. */
  function Rotate(t: u32, s: nat): u32
    decreases s
  {
    if s == 0 then t else RotateOnce(Rotate(t, s - 1))
  }

  /** A rotation by s moves the low `32 - s` bits up by s and brings the top s bits round to the bottom. */
  lemma {:induction false} RotateValue(t: u32, s: nat)
    requires s < 32
    ensures Rotate(t, s) == t % Pow2(32 - s) * Pow2(s) + t / Pow2(32 - s)
    decreases s
  {
    if s == 0 {
      Pow2Values();
      DivModUnique(t, 0x1_0000_0000, 0, t);
    } else {
      RotateValue(t, s - 1);
      Pow2Values();
      Pow2Add(32 - s, s - 1);
      assert Pow2(33 - s) == 2 * Pow2(32 - s);
      RotateStep(t, Rotate(t, s - 1), Pow2(32 - s), Pow2(s - 1), Pow2(s));
    }
  }

  /**
   * One more rotation step in closed form: with `m * p1 == 2^31`, rotating
   * `t % 2m * p1 + t / 2m` by one bit gives `t % m * 2p1 + t / m`.
   */
  lemma RotateStep(t: u32, u: u32, m: nat, p1: nat, p: nat)
    requires m > 0 && p1 > 0 && m * p1 == 0x8000_0000 && p == 2 * p1
    requires u == t % (2 * m) * p1 + t / (2 * m)
    ensures RotateOnce(u) == t % m * p + t / m
  {
    var q, l := t / (2 * m), t % m;
    QuotientNat(t, 2 * m);
    ModMod(t, m);
    var b := t % (2 * m) / m;
    QuotientBound(t, 2 * m, p1);
    ScaledBelow(t, m, p1);
    TopBit(u, t % (2 * m), b, m, l, p1, q);
    TopBitOfQuotient(t, m, q, b, l);
    RotateOnceValue(u);
    DoubleScale(l, p1, p);
  }

  lemma DoubleScale(l: nat, p1: nat, p: nat)
    requires p == 2 * p1
    ensures l * p == l * p1 * 2
  {
  }

  /** The split of u at bit 31: the bit b on top and `l * p1 + q` below. */
  lemma TopBit(u: nat, r: nat, b: nat, m: nat, l: nat, p1: nat, q: nat)
    requires m * p1 == 0x8000_0000 && r == b * m + l && u == r * p1 + q
    requires l * p1 + p1 <= m * p1 && q < p1
    ensures u / 0x8000_0000 == b && u % 0x8000_0000 == l * p1 + q
  {
    assert r * p1 == b * (m * p1) + l * p1;
    DivModUnique(u, 0x8000_0000, b, l * p1 + q);
  }

  /** Dividing by m rather than 2m doubles the quotient and adds the bit of the remainder. */
  lemma TopBitOfQuotient(t: nat, m: nat, q: nat, b: nat, l: nat)
    requires m > 0 && q == t / (2 * m) && t % (2 * m) == b * m + l && l < m
    ensures t / m == 2 * q + b
  {
    assert t == q * (2 * m) + t % (2 * m);
    assert t == (2 * q + b) * m + l;
    DivModUnique(t, m, 2 * q + b, l);
  }

  /** The two parts of a rotation occupy disjoint bits of one word. */
  lemma RotateBound(t: u32, s: nat)
    requires s < 32
    ensures t % Pow2(32 - s) * Pow2(s) < 0x1_0000_0000 && t % Pow2(32 - s) * Pow2(s) % Pow2(s) == 0
    ensures t / Pow2(32 - s) < Pow2(s)
  {
    WordSplit(s);
    var p, m := Pow2(s), Pow2(32 - s);
    ScaledBelow(t, m, p);
    MultipleMod(t % m, p);
    QuotientBound(t, m, p);
  }

  /** The operation `[abcd k s]` of round 1: `a = (a + F(b, c, d) + X[k]) <<< s`. */
  function OpF(a: u32, b: u32, c: u32, d: u32, w: u32, s: nat): u32
  {
    Rotate(Add(Add(a, F(b, c, d)), w), s)
  }

  /** The operation of round 2: `a = (a + G(b, c, d) + X[k] + 5A827999) <<< s`. */
  function OpG(a: u32, b: u32, c: u32, d: u32, w: u32, s: nat): u32
  {
    Rotate(Add(Add(Add(a, G(b, c, d)), w), 0x5a827999), s)
  }

  /** The operation of round 3: `a = (a + H(b, c, d) + X[k] + 6ED9EBA1) <<< s`. */
  function OpH(a: u32, b: u32, c: u32, d: u32, w: u32, s: nat): u32
  {
    Rotate(Add(Add(Add(a, H(b, c, d)), w), 0x6ed9eba1), s)
  }

  /** The word offsets of the four lines of round 3. */
  function Round3Offset(m: nat): nat
    requires m < 4
  {
    if m == 0 then 0 else if m == 1 then 2 else if m == 2 then 1 else 3
  }

  /**
   * The block word k that the operation at position pos of line m of a
   * round adds: in order in round 1, by columns of the 4 x 4 block in
   * round 2, and in the order 0, 8, 4, 12 from the line's offset in round 3.
   */
  function Word(round: nat, m: nat, pos: nat): WordIndex
    requires round < 3 && m < 4 && pos < 4
  {
    if round == 0 then 4 * m + pos
    else if round == 1 then m + 4 * pos
    else Round3Offset(m) + (if pos == 0 then 0 else if pos == 1 then 8 else if pos == 2 then 4 else 12)
  }

  /** The words the lines take are the three tables of section 3.4 of RFC 1320. */
  lemma WordTables(m: nat, pos: nat)
    requires m < 4 && pos < 4
    ensures Word(0, m, pos) == 4 * m + pos
    ensures Word(1, m, pos) == [0, 4, 8, 12, 1, 5, 9, 13, 2, 6, 10, 14, 3, 7, 11, 15][4 * m + pos]
    ensures Word(2, m, pos) == [0, 8, 4, 12, 2, 10, 6, 14, 1, 9, 5, 13, 3, 11, 7, 15][4 * m + pos]
  {
    if m == 0 {} else if m == 1 {} else if m == 2 {} else {}
  }

  /** The chaining registers A, B, C, D. */
  datatype Regs = Regs(a: u32, b: u32, c: u32, d: u32)

  /** The initial value of section 3.3 of RFC 1320. */
  const InitialRegs := Regs(0x67452301, 0xefcdab89, 0x98badcfe, 0x10325476)

  /**
   * The registers after round 1 has taken the first n words (n a multiple
   * of 4): each line `[ABCD k 3] [DABC k+1 7] [CDAB k+2 11] [BCDA k+3 19]`
   * takes the next four.
   */
  function Round1(x: seq<u32>, n: nat): Regs
    requires |x| == 16 && n <= 16
  {
    if n < 4 then InitialRegs
    else
      var r := Round1(x, n - 4);
      var a := OpF(r.a, r.b, r.c, r.d, x[n - 4], 3);
      var d := OpF(r.d, a, r.b, r.c, x[n - 3], 7);
      var c := OpF(r.c, d, a, r.b, x[n - 2], 11);
      var b := OpF(r.b, c, d, a, x[n - 1], 19);
      Regs(a, b, c, d)
  }

  /** The registers after round 1 and the first k lines of round 2, rotations 3, 5, 9, 13. */
  function Round2(x: seq<u32>, k: nat): Regs
    requires |x| == 16 && k <= 4
  {
    if k == 0 then Round1(x, 16)
    else
      var r, m := Round2(x, k - 1), k - 1;
      var a := OpG(r.a, r.b, r.c, r.d, x[Word(1, m, 0)], 3);
      var d := OpG(r.d, a, r.b, r.c, x[Word(1, m, 1)], 5);
      var c := OpG(r.c, d, a, r.b, x[Word(1, m, 2)], 9);
      var b := OpG(r.b, c, d, a, x[Word(1, m, 3)], 13);
      Regs(a, b, c, d)
  }

  /** The registers after rounds 1 and 2 and the first k lines of round 3, rotations 3, 9, 11, 15. */
  function Round3(x: seq<u32>, k: nat): Regs
    requires |x| == 16 && k <= 4
  {
    if k == 0 then Round2(x, 4)
    else
      var r, m := Round3(x, k - 1), k - 1;
      var a := OpH(r.a, r.b, r.c, r.d, x[Word(2, m, 0)], 3);
      var d := OpH(r.d, a, r.b, r.c, x[Word(2, m, 1)], 9);
      var c := OpH(r.c, d, a, r.b, x[Word(2, m, 2)], 11);
      var b := OpH(r.b, c, d, a, x[Word(2, m, 3)], 15);
      Regs(a, b, c, d)
  }

  /**
   * The third round's index update, `if (idx == 2) idx -= 3; idx += 2;` on
   * unsigned values, steps through the offsets 0, 2, 1, 3 and then leaves 5.
   */
  lemma NextOffset(m: nat, idx: u32)
    requires m < 4 && idx as int == Round3Offset(m)
    ensures var next := Add(if idx == 2 then Sub(idx, 3) else idx, 2);
      (m + 1 < 4 ==> next as int == Round3Offset(m + 1)) && (m + 1 == 4 <==> next == 5)
  {
  }

  /** The first word of the MD4 chaining value after one block, `A + AA`. */
  function Md4FirstWord(x: seq<u32>): u32
    requires |x| == 16
  {
    Add(Round3(x, 4).a, InitialRegs.a)
  }

  /** The pool read as sixteen little-endian 32-bit words, as the target's memory lays them out. */
  function Words(pool: seq<u8>): (x: seq<u32>)
    requires |pool| == PoolSize
    ensures |x| == 16
  {
    seq(16, k requires 0 <= k < 16 =>
      pool[4 * k] as int + pool[4 * k + 1] as int * 0x100 + pool[4 * k + 2] as int * 0x1_0000
        + pool[4 * k + 3] as int * 0x100_0000)
  }

  /** Word k has byte `4k` of the pool in its low byte and byte `4k + 3` in its high byte. */
  lemma WordBytes(pool: seq<u8>, k: nat)
    requires |pool| == PoolSize && k < 16
    ensures Words(pool)[k] % 0x100 == pool[4 * k]
    ensures Words(pool)[k] / 0x100_0000 == pool[4 * k + 3]
  {
    var w := Words(pool)[k];
    var b0, b1, b2, b3 := pool[4 * k] as int, pool[4 * k + 1] as int, pool[4 * k + 2] as int, pool[4 * k + 3] as int;
    assert w == b0 + (b1 + b2 * 0x100 + b3 * 0x1_0000) * 0x100;
    DivModUnique(w, 0x100, b1 + b2 * 0x100 + b3 * 0x1_0000, b0);
    assert w == b3 * 0x100_0000 + (b0 + b1 * 0x100 + b2 * 0x1_0000);
    DivModUnique(w, 0x100_0000, b3, b0 + b1 * 0x100 + b2 * 0x1_0000);
  }

  // ---------------------------------------------------------------------
  // The firmware's macros.
  // ---------------------------------------------------------------------

  /** `(t << s) | (t >> (32 - s))`. */
  function Rotl(t: u32, s: nat): u32
    requires 0 < s < 32
  {
    Or(Shl(t, s), Shr(t, 32 - s))
  }

  /** `ulTemp` of macro `F`, with the select written `d ^ (b & (c ^ d))`. */
  function TempF(a: u32, b: u32, c: u32, d: u32, w: u32): u32
  {
    Add(Add(a, Xor(d, And(b, Xor(c, d)))), w)
  }

  /** `ulTemp` of macro `G`. */
  function TempG(a: u32, b: u32, c: u32, d: u32, w: u32): u32
  {
    Add(Add(Add(a, Or(Or(And(b, c), And(b, d)), And(c, d))), w), 0x5a827999)
  }

  /** `ulTemp` of macro `H`. */
  function TempH(a: u32, b: u32, c: u32, d: u32, w: u32): u32
  {
    Add(Add(Add(a, Xor(Xor(b, c), d)), w), 0x6ed9eba1)
  }

  /** Macro `F`: the new value of its first argument. */
  function MacroF(a: u32, b: u32, c: u32, d: u32, w: u32, s: nat): u32
    requires 0 < s < 32
  {
    Rotl(TempF(a, b, c, d, w), s)
  }

  /** Macro `G`. */
  function MacroG(a: u32, b: u32, c: u32, d: u32, w: u32, s: nat): u32
    requires 0 < s < 32
  {
    Rotl(TempG(a, b, c, d, w), s)
  }

  /** Macro `H`. */
  function MacroH(a: u32, b: u32, c: u32, d: u32, w: u32, s: nat): u32
    requires 0 < s < 32
  {
    Rotl(TempH(a, b, c, d, w), s)
  }

  /** The shift-or of the macros is the circular shift. */
  lemma RotlIsRotate(t: u32, s: nat)
    requires 0 < s < 32
    ensures Rotl(t, s) == Rotate(t, s)
  {
    var m, p := Pow2(32 - s), Pow2(s);
    ShlValue(t, s);
    ShrValue(t, 32 - s);
    RotateValue(t, s);
    RotateBound(t, s);
    QuotientNat(t, m);
    var lo, hi := Shl(t, s), Shr(t, 32 - s);
    assert lo == t % m * p && hi == t / m;
    OrWord(lo, hi, s);
  }

  /** `d ^ (b & (c ^ d))` is F, the bitwise select. */
  lemma SelectIsF(b: u32, c: u32, d: u32)
    ensures Xor(d, And(b, Xor(c, d))) == F(b, c, d)
  {
    SelectBits(b, c, d, 32);
  }

  /** The select identity on the n lowest bits, one bit at a time. */
  lemma {:induction false} SelectBits(b: nat, c: nat, d: nat, n: nat)
    ensures Bitwise(XorOp, d, Bitwise(AndOp, b, Bitwise(XorOp, c, d, n), n), n)
         == Bitwise(OrOp, Bitwise(AndOp, b, c, n), Bitwise(AndOp, Complement(b, n), d, n), n)
    decreases n
  {
    if n > 0 {
      Halves(XorOp, c, d, n);
      Halves(AndOp, b, Bitwise(XorOp, c, d, n), n);
      Halves(AndOp, b, c, n);
      ComplementHalves(b, n);
      Halves(AndOp, Complement(b, n), d, n);
      SelectBits(b / 2, c / 2, d / 2, n - 1);
    }
  }

  /** Macro `F` is the round-1 operation of RFC 1320. */
  lemma MacroFIsOp(a: u32, b: u32, c: u32, d: u32, w: u32, s: nat)
    requires 0 < s < 32
    ensures MacroF(a, b, c, d, w, s) == OpF(a, b, c, d, w, s)
  {
    SelectIsF(b, c, d);
    RotlIsRotate(TempF(a, b, c, d, w), s);
  }

  /** Macro `G` is the round-2 operation. */
  lemma MacroGIsOp(a: u32, b: u32, c: u32, d: u32, w: u32, s: nat)
    requires 0 < s < 32
    ensures MacroG(a, b, c, d, w, s) == OpG(a, b, c, d, w, s)
  {
    RotlIsRotate(TempG(a, b, c, d, w), s);
  }

  /** Macro `H` is the round-3 operation. */
  lemma MacroHIsOp(a: u32, b: u32, c: u32, d: u32, w: u32, s: nat)
    requires 0 < s < 32
    ensures MacroH(a, b, c, d, w, s) == OpH(a, b, c, d, w, s)
  {
    RotlIsRotate(TempH(a, b, c, d, w), s);
  }

  /** One use of macro `F` in the firmware's first loop. */
  method StepF(a: u32, b: u32, c: u32, d: u32, w: u32, s: nat) returns (r: u32)
    requires 0 < s < 32
    ensures r == OpF(a, b, c, d, w, s)
  {
    r := MacroF(a, b, c, d, w, s);
    MacroFIsOp(a, b, c, d, w, s);
  }

  /** One use of macro `G` in the second loop. */
  method StepG(a: u32, b: u32, c: u32, d: u32, w: u32, s: nat) returns (r: u32)
    requires 0 < s < 32
    ensures r == OpG(a, b, c, d, w, s)
  {
    r := MacroG(a, b, c, d, w, s);
    MacroGIsOp(a, b, c, d, w, s);
  }

  /** One use of macro `H` in the third loop. */
  method StepH(a: u32, b: u32, c: u32, d: u32, w: u32, s: nat) returns (r: u32)
    requires 0 < s < 32
    ensures r == OpH(a, b, c, d, w, s)
  {
    r := MacroH(a, b, c, d, w, s);
    MacroHIsOp(a, b, c, d, w, s);
  }

  /** Four round-1 operations on words n to n + 3 advance `Round1` by one line. */
  lemma Round1Step(x: seq<u32>, n: nat, r: Regs, a: u32, b: u32, c: u32, d: u32)
    requires |x| == 16 && n + 4 <= 16 && r == Round1(x, n)
    requires a == OpF(r.a, r.b, r.c, r.d, x[n], 3)
    requires d == OpF(r.d, a, r.b, r.c, x[n + 1], 7)
    requires c == OpF(r.c, d, a, r.b, x[n + 2], 11)
    requires b == OpF(r.b, c, d, a, x[n + 3], 19)
    ensures Round1(x, n + 4) == Regs(a, b, c, d)
  {
    assert n + 4 - 4 == n;
  }

  /** Four round-2 operations on column k advance `Round2` by one line. */
  lemma Round2Step(x: seq<u32>, k: nat, r: Regs, a: u32, b: u32, c: u32, d: u32)
    requires |x| == 16 && k < 4 && r == Round2(x, k)
    requires a == OpG(r.a, r.b, r.c, r.d, x[k], 3)
    requires d == OpG(r.d, a, r.b, r.c, x[k + 4], 5)
    requires c == OpG(r.c, d, a, r.b, x[k + 8], 9)
    requires b == OpG(r.b, c, d, a, x[k + 12], 13)
    ensures Round2(x, k + 1) == Regs(a, b, c, d)
  {
    assert k + 1 - 1 == k;
  }

  /** Four round-3 operations from offset o advance `Round3` by one line. */
  lemma Round3Step(x: seq<u32>, k: nat, o: nat, r: Regs, a: u32, b: u32, c: u32, d: u32)
    requires |x| == 16 && k < 4 && o == Round3Offset(k) && r == Round3(x, k)
    requires a == OpH(r.a, r.b, r.c, r.d, x[o], 3)
    requires d == OpH(r.d, a, r.b, r.c, x[o + 8], 9)
    requires c == OpH(r.c, d, a, r.b, x[o + 4], 11)
    requires b == OpH(r.b, c, d, a, x[o + 12], 15)
    ensures Round3(x, k + 1) == Regs(a, b, c, d)
  {
    assert k + 1 - 1 == k;
  }

  // ---------------------------------------------------------------------
  // The linear congruential generator.
  // ---------------------------------------------------------------------

  const LcgMul: nat := 1664525
  const LcgInc: nat := 1013904223
  /** The inverse of `LcgMul` modulo 2^32. */
  const LcgMulInverse: nat := 0xfee058c5

  /** `seed * 1664525u + 1013904223u` in 32-bit arithmetic; multiplier and increment are both odd, so the lowest bit of successive values alternates. */
  function Lcg(seed: u32): (r: u32)
    ensures r % 2 != seed % 2
  {
    StepParity(seed);
    Wrap32(seed * LcgMul + LcgInc)
  }

  /** Both constants are odd, so a step flips the lowest bit, and the wrap to 32 bits keeps it. */
  lemma StepParity(seed: u32)
    ensures Wrap32(seed * LcgMul + LcgInc) % 2 != seed % 2
  {
    var u := seed * LcgMul + LcgInc;
    var k := seed * 832262 + 506952111;
    assert u == 2 * k + seed + 1;
    var h := seed / 2;
    assert seed == 2 * h + seed % 2;
    if seed % 2 == 0 {
      DivModUnique(u, 2, k + h, 1);
    } else {
      DivModUnique(u, 2, k + h + 1, 0);
    }
    WrapParity(u);
  }

  /** The step that `Lcg` undoes. */
  function LcgBack(seed: u32): u32
  {
    Wrap32((seed + 0x1_0000_0000 - LcgInc) * LcgMulInverse)
  }

  lemma AddMultiple(a: int, j: int)
    ensures (a + j * 0x1_0000_0000) % 0x1_0000_0000 == a % 0x1_0000_0000
  {
    var q, r := a / 0x1_0000_0000, a % 0x1_0000_0000;
    assert a + j * 0x1_0000_0000 == (q + j) * 0x1_0000_0000 + r;
    DivModUnique(a + j * 0x1_0000_0000, 0x1_0000_0000, q + j, r);
  }

  /** Stepping back after a step returns the seed: no two seeds have the same successor. */
  lemma LcgBackLcg(seed: u32)
    ensures LcgBack(Lcg(seed)) == seed
  {
    var u := seed * LcgMul + LcgInc;
    var j := 1 - u / 0x1_0000_0000;
    assert Lcg(seed) + 0x1_0000_0000 - LcgInc == seed * LcgMul + j * 0x1_0000_0000;
    var p := seed * LcgMul + j * 0x1_0000_0000;
    assert p * LcgMulInverse == seed + (seed * 1657219 + j * LcgMulInverse) * 0x1_0000_0000 by {
      assert LcgMul * LcgMulInverse == 1 + 1657219 * 0x1_0000_0000;
      assert p * LcgMulInverse == seed * (LcgMul * LcgMulInverse) + (j * LcgMulInverse) * 0x1_0000_0000;
    }
    AddMultiple(seed, seed * 1657219 + j * LcgMulInverse);
  }

  /** Every 32-bit value is the successor of some seed: the generator permutes the 2^32 states. */
  lemma LcgLcgBack(seed: u32)
    ensures Lcg(LcgBack(seed)) == seed
  {
    var v := (seed + 0x1_0000_0000 - LcgInc) * LcgMulInverse;
    var j := -(v / 0x1_0000_0000);
    assert LcgBack(seed) == v + j * 0x1_0000_0000;
    assert LcgBack(seed) * LcgMul + LcgInc
      == seed + ((seed + 0x1_0000_0000 - LcgInc) * 1657219 + j * LcgMul + 1) * 0x1_0000_0000 by {
      assert LcgMul * LcgMulInverse == 1 + 1657219 * 0x1_0000_0000;
      assert v * LcgMul == (seed + 0x1_0000_0000 - LcgInc) * (LcgMul * LcgMulInverse);
      assert (v + j * 0x1_0000_0000) * LcgMul == v * LcgMul + (j * LcgMul) * 0x1_0000_0000;
    }
    AddMultiple(seed, (seed + 0x1_0000_0000 - LcgInc) * 1657219 + j * LcgMul + 1);
  }

  /** The wrap to 32 bits keeps the lowest bit. */
  lemma WrapParity(u: nat)
    ensures Wrap32(u) % 2 == u % 2
  {
    var q, r := u / 0x1_0000_0000, u % 0x1_0000_0000;
    assert Wrap32(u) == r;
    assert u == (q * 0x8000_0000 + r / 2) * 2 + r % 2;
    DivModUnique(u, 2, q * 0x8000_0000 + r / 2, r % 2);
  }

  /** `(i + 1) & 63` for a pool index is the next index modulo the pool size. */
  lemma MaskIsMod(i: u32)
    requires i < PoolSize
    ensures And(i + 1, 63) == (i + 1) % PoolSize
  {
    Pow2Values();
    LowMask(i + 1, 6, 32);
  }

  /** A multiple of 4 below 16 leaves room for four more words. */
  lemma NextQuad(i: nat)
    requires i < 16 && i % 4 == 0
    ensures i <= 12 && (i + 4) % 4 == 0
  {
  }

  /** One pass of the firmware's first loop: the four `F` macros on words idx to idx + 3. */
  method LineF(x: seq<u32>, idx: u32, a0: u32, b0: u32, c0: u32, d0: u32)
    returns (a: u32, b: u32, c: u32, d: u32)
    requires |x| == 16 && idx < 13
    requires Regs(a0, b0, c0, d0) == Round1(x, idx as int)
    ensures Regs(a, b, c, d) == Round1(x, idx as int + 4)
  {
    a := StepF(a0, b0, c0, d0, x[idx + 0], 3);
    d := StepF(d0, a, b0, c0, x[idx + 1], 7);
    c := StepF(c0, d, a, b0, x[idx + 2], 11);
    b := StepF(b0, c, d, a, x[idx + 3], 19);
    Round1Step(x, idx as int, Regs(a0, b0, c0, d0), a, b, c, d);
  }

  /** The first loop of `libMU_Random_Initialize`: round 1 over words 0 to 15, four at a time. */
  method RoundF(x: seq<u32>, r0: Regs) returns (r: Regs)
    requires |x| == 16 && r0 == Round1(x, 0)
    ensures r == Round1(x, 16)
  {
    var a, b, c, d := r0.a, r0.b, r0.c, r0.d;
    var idx: u32 := 0;
    while idx < 16
      invariant idx <= 16 && idx % 4 == 0
      invariant Regs(a, b, c, d) == Round1(x, idx as int)
    {
      NextQuad(idx);
      a, b, c, d := LineF(x, idx, a, b, c, d);
      idx := idx + 4;
    }
    assert idx == 16;
    r := Regs(a, b, c, d);
  }

  /** One pass of the second loop: the four `G` macros on column idx of the block. */
  method LineG(x: seq<u32>, idx: u32, a0: u32, b0: u32, c0: u32, d0: u32)
    returns (a: u32, b: u32, c: u32, d: u32)
    requires |x| == 16 && idx < 4
    requires Regs(a0, b0, c0, d0) == Round2(x, idx as int)
    ensures Regs(a, b, c, d) == Round2(x, idx as int + 1)
  {
    a := StepG(a0, b0, c0, d0, x[idx + 0], 3);
    d := StepG(d0, a, b0, c0, x[idx + 4], 5);
    c := StepG(c0, d, a, b0, x[idx + 8], 9);
    b := StepG(b0, c, d, a, x[idx + 12], 13);
    Round2Step(x, idx as int, Regs(a0, b0, c0, d0), a, b, c, d);
  }

  /** The second loop: round 2, one column of the 4 x 4 word matrix per pass. */
  method RoundG(x: seq<u32>, r0: Regs) returns (r: Regs)
    requires |x| == 16 && r0 == Round1(x, 16)
    ensures r == Round2(x, 4)
  {
    var a, b, c, d := r0.a, r0.b, r0.c, r0.d;
    var idx: u32 := 0;
    while idx < 4
      invariant idx <= 4
      invariant Regs(a, b, c, d) == Round2(x, idx as int)
    {
      a, b, c, d := LineG(x, idx, a, b, c, d);
      idx := idx + 1;
    }
    r := Regs(a, b, c, d);
  }

  /** One pass of the third loop: the four `H` macros on words idx, idx + 8, idx + 4, idx + 12. */
  method LineH(x: seq<u32>, idx: u32, ghost k: nat, a0: u32, b0: u32, c0: u32, d0: u32)
    returns (a: u32, b: u32, c: u32, d: u32)
    requires |x| == 16 && k < 4 && idx as int == Round3Offset(k)
    requires Regs(a0, b0, c0, d0) == Round3(x, k)
    ensures Regs(a, b, c, d) == Round3(x, k + 1)
  {
    a := StepH(a0, b0, c0, d0, x[idx + 0], 3);
    d := StepH(d0, a, b0, c0, x[idx + 8], 9);
    c := StepH(c0, d, a, b0, x[idx + 4], 11);
    b := StepH(b0, c, d, a, x[idx + 12], 15);
    Round3Step(x, k, idx as int, Regs(a0, b0, c0, d0), a, b, c, d);
  }

  /**
   * The third loop: round 3, visiting the word offsets 0, 2, 1, 3; the
   * index goes from 2 to 1 by an unsigned wrap (`- 3`, then `+ 2`), and
   * the loop ends when it reaches 5.
   */
  method RoundH(x: seq<u32>, r0: Regs) returns (r: Regs)
    requires |x| == 16 && r0 == Round2(x, 4)
    ensures r == Round3(x, 4)
  {
    var a, b, c, d := r0.a, r0.b, r0.c, r0.d;
    var idx: u32 := 0;
    ghost var k: nat := 0;
    while idx < 4
      invariant k <= 4
      invariant k < 4 ==> idx as int == Round3Offset(k)
      invariant k == 4 <==> idx == 5
      invariant Regs(a, b, c, d) == Round3(x, k)
      decreases 4 - k
    {
      NextOffset(k, idx);
      a, b, c, d := LineH(x, idx, k, a, b, c, d);
      if idx == 2 {
        idx := Sub(idx, 3);
      }
      idx := Add(idx, 2);
      k := k + 1;
    }
    assert k == 4;
    r := Regs(a, b, c, d);
  }

  /** The three loops of `libMU_Random_Initialize` and its final addition, `A + 0x67452301`. */
  method Md4Seed(x: seq<u32>) returns (seed: u32)
    requires |x| == 16
    ensures seed == Md4FirstWord(x)
  {
    var r := RoundF(x, Regs(0x67452301, 0xefcdab89, 0x98badcfe, 0x10325476));
    r := RoundG(x, r);
    r := RoundH(x, r);
    seed := Add(r.a, 0x67452301);
  }

  /** The generator's three statics: the entropy pool, its write index and the seed. */
  class Generator {
    var pool: array<u8>
    var index: u32
    var seed: u32

    ghost predicate Valid()
      reads this
    {
      pool.Length == PoolSize && index < 64
    }

    /** Static storage starts zeroed. */
    constructor ()
      ensures Valid() && fresh(pool)
      ensures pool[..] == seq(PoolSize, _ => 0) && index == 0 && seed == 0
    {
      pool := new u8[PoolSize](_ => 0);
      index := 0;
      seed := 0;
    }

    /** `libMU_Random_AddEntropy`: stores the byte at the write index and advances it cyclically. */
    method AddEntropy(entropy: u8)
      requires Valid()
      modifies this, pool
      ensures Valid() && pool == old(pool) && seed == old(seed)
      ensures pool[..] == old(pool[..])[old(index) := entropy]
      ensures index == (old(index) + 1) % PoolSize
    {
      var next := And(index + 1, 63);
      MaskIsMod(index);
      pool[index] := entropy;
      index := next;
    }

    /**
     * `libMU_Random_Initialize`: runs the three MD4 rounds over the pool
     * and keeps `A + 0x67452301` as the seed.
     */
    method Initialize()
      requires Valid()
      modifies this
      ensures Valid() && pool == old(pool) && index == old(index)
      ensures seed == Md4FirstWord(Words(pool[..]))
    {
      seed := Md4Seed(Words(pool[..]));
    }

    /** `libMU_Random_GetValue`: one step of the generator; the new seed is returned. */
    method GetValue() returns (r: u32)
      modifies this
      ensures seed == Lcg(old(seed)) && r == seed
      ensures pool == old(pool) && index == old(index)
    {
      seed := Wrap32(seed * 1664525 + 1013904223);
      r := seed;
    }
  }
}
