/**
 * `libMU_atoi`, `libMU_atoul`, `libMU_atoll` and `libMU_atoull`: spaces
 * and tabs are skipped, the signed forms take one '-', and the decimal
 * digits that follow are accumulated in the result's own width until the
 * first character that is not a digit.
 */
module Parse {
  import opened Ints
  import opened Numerals

  const Two32: nat := 0x1_0000_0000
  const Two64: nat := 0x1_0000_0000_0000_0000

  /** The character at `i`, with the terminating NUL past the end. */
  function At(s: seq<char>, i: nat): char
  {
    if i < |s| then s[i] else '\0'
  }

  predicate IsBlank(c: char)
  {
    c == ' ' || c == '\t'
  }

  /** The index after the spaces and tabs from `i` on. */
  function SkipBlanks(s: seq<char>, i: nat): (j: nat)
    requires i <= |s|
    ensures i <= j <= |s| && !IsBlank(At(s, j))
    ensures forall k :: i <= k < j ==> IsBlank(s[k])
    decreases |s| - i
  {
    if IsBlank(At(s, i)) then SkipBlanks(s, i + 1) else i
  }

  /** The index after the run of decimal digits from `i` on. */
  function DigitsEnd(s: seq<char>, i: nat): (j: nat)
    requires i <= |s|
    ensures i <= j <= |s| && !IsDigit(At(s, j))
    ensures forall k :: i <= k < j ==> IsDigit(s[k])
    decreases |s| - i
  {
    if IsDigit(At(s, i)) then DigitsEnd(s, i + 1) else i
  }

  /** The number the digit run from `i` on stands for. */
  function Magnitude(s: seq<char>, i: nat): nat
    requires i <= |s|
  {
    var j := DigitsEnd(s, i);
    assert forall k :: 0 <= k < j - i ==> IsDigit(s[i..j][k]);
    Value(s[i..j])
  }

  /** The number `libMU_atoul` and `libMU_atoull` read, before it is reduced to their width. */
  function Unsigned(s: seq<char>): nat
  {
    Magnitude(s, SkipBlanks(s, 0))
  }

  /** The number `libMU_atoi` and `libMU_atoll` read, before it is reduced to their width. */
  function Signed(s: seq<char>): int
  {
    var b := SkipBlanks(s, 0);
    if At(s, b) == '-' then -(Magnitude(s, b + 1) as int) else Magnitude(s, b)
  }

  /** `libMU_atoul`: the digits accumulate modulo `2^32`. */
  method Atoul(buf: seq<char>) returns (num: u32)
    ensures num == Wrap32(Unsigned(buf))
  {
    var i := 0;
    while IsBlank(At(buf, i))
      invariant i <= |buf| && SkipBlanks(buf, i) == SkipBlanks(buf, 0)
      decreases |buf| - i
    {
      i := i + 1;
    }
    ghost var start := i;
    num := 0;
    while IsDigit(At(buf, i))
      invariant start <= i <= |buf| && DigitsEnd(buf, i) == DigitsEnd(buf, start)
      invariant num % Two32 == Value(buf[start..i]) % Two32
      decreases |buf| - i
    {
      ghost var num0 := num;
      num := Wrap32(num as int * 10);
      ghost var num1 := num;
      num := Wrap32(num + DigitValue(buf[i]));
      i := i + 1;
      ResidueWrap32(num0 as int * 10);
      ResidueWrap32(num1 + DigitValue(buf[i - 1]));
      AccumulateStep(buf, start, i, num0, num1, num, Two32);
    }
    assert buf[start..i] == buf[start..DigitsEnd(buf, start)];
  }

  /** `libMU_atoull`: the digits accumulate modulo `2^64`. */
  method Atoull(buf: seq<char>) returns (num: u64)
    ensures num == Wrap64(Unsigned(buf))
  {
    var i := 0;
    while IsBlank(At(buf, i))
      invariant i <= |buf| && SkipBlanks(buf, i) == SkipBlanks(buf, 0)
      decreases |buf| - i
    {
      i := i + 1;
    }
    ghost var start := i;
    num := 0;
    while IsDigit(At(buf, i))
      invariant start <= i <= |buf| && DigitsEnd(buf, i) == DigitsEnd(buf, start)
      invariant num % Two64 == Value(buf[start..i]) % Two64
      decreases |buf| - i
    {
      ghost var num0 := num;
      num := Wrap64(num as int * 10);
      ghost var num1 := num;
      num := Wrap64(num + DigitValue(buf[i]));
      i := i + 1;
      ResidueWrap64(num0 as int * 10);
      ResidueWrap64(num1 + DigitValue(buf[i - 1]));
      AccumulateStep(buf, start, i, num0, num1, num, Two64);
    }
    assert buf[start..i] == buf[start..DigitsEnd(buf, start)];
  }

  /**
   * `libMU_atoi`. Overflow of the signed accumulator is undefined in C;
   * it is taken to wrap in two's complement, as the target's arithmetic does.
   */
  method Atoi(buf: seq<char>) returns (r: i32)
    ensures r == ToInt32(Signed(buf))
  {
    var i := 0;
    while IsBlank(At(buf, i))
      invariant i <= |buf| && SkipBlanks(buf, i) == SkipBlanks(buf, 0)
      decreases |buf| - i
    {
      i := i + 1;
    }
    var sign := false;
    if At(buf, i) == '-' {
      sign := true;
      i := i + 1;
    }
    ghost var v := Magnitude(buf, i);
    assert Signed(buf) == if sign then -(v as int) else v;
    var num := Digits32(buf, i);
    if sign {
      r := ToInt32(-(num as int));
    } else {
      r := num;
    }
    SignedResult32(v, sign, num, r);
  }

  /** The digit loop of `libMU_atoi`: `num *= 10; num += digit` in 32-bit two's complement. */
  method Digits32(buf: seq<char>, start: nat) returns (num: i32)
    requires start <= |buf|
    ensures num % Two32 == Magnitude(buf, start) % Two32
  {
    var i := start;
    num := 0;
    while IsDigit(At(buf, i))
      invariant start <= i <= |buf| && DigitsEnd(buf, i) == DigitsEnd(buf, start)
      invariant num % Two32 == Value(buf[start..i]) % Two32
      decreases |buf| - i
    {
      ghost var num0 := num;
      num := ToInt32(num as int * 10);
      num := ToInt32(num + DigitValue(buf[i]));
      i := i + 1;
      SignedStep32(buf, start, i, num0, num);
    }
    assert buf[start..i] == buf[start..DigitsEnd(buf, start)];
  }

  /** `libMU_atoll`, with the same two's complement reading of overflow as `Atoi`. */
  method Atoll(buf: seq<char>) returns (r: i64)
    ensures r == ToInt64(Signed(buf))
  {
    var i := 0;
    while IsBlank(At(buf, i))
      invariant i <= |buf| && SkipBlanks(buf, i) == SkipBlanks(buf, 0)
      decreases |buf| - i
    {
      i := i + 1;
    }
    var sign := false;
    if At(buf, i) == '-' {
      sign := true;
      i := i + 1;
    }
    ghost var v := Magnitude(buf, i);
    assert Signed(buf) == if sign then -(v as int) else v;
    var num := Digits64(buf, i);
    if sign {
      r := ToInt64(-(num as int));
    } else {
      r := num;
    }
    SignedResult64(v, sign, num, r);
  }

  /** One digit of `Atoi`'s loop, through `num *= 10` and `num += digit` in 32-bit two's complement. */
  lemma SignedStep32(s: seq<char>, start: nat, i: nat, num0: i32, num: i32)
    requires start < i <= |s| && IsDigit(s[i - 1])
    requires forall k :: start <= k < i - 1 ==> IsDigit(s[k])
    requires num0 % Two32 == Value(s[start..i - 1]) % Two32
    requires num == ToInt32(ToInt32(num0 * 10) + DigitValue(s[i - 1]))
    ensures num % Two32 == Value(s[start..i]) % Two32
  {
    var num1 := ToInt32(num0 * 10);
    ResidueToInt32(num0 * 10);
    ResidueToInt32(num1 + DigitValue(s[i - 1]));
    AccumulateStep(s, start, i, num0, num1, num, Two32);
  }

  /** One digit of `Atoll`'s loop, in 64-bit two's complement. */
  lemma SignedStep64(s: seq<char>, start: nat, i: nat, num0: i64, num: i64)
    requires start < i <= |s| && IsDigit(s[i - 1])
    requires forall k :: start <= k < i - 1 ==> IsDigit(s[k])
    requires num0 % Two64 == Value(s[start..i - 1]) % Two64
    requires num == ToInt64(ToInt64(num0 * 10) + DigitValue(s[i - 1]))
    ensures num % Two64 == Value(s[start..i]) % Two64
  {
    var num1 := ToInt64(num0 * 10);
    ResidueToInt64(num0 * 10);
    ResidueToInt64(num1 + DigitValue(s[i - 1]));
    AccumulateStep(s, start, i, num0, num1, num, Two64);
  }

  /** `return sign ? -num : num` is the reinterpretation of the signed magnitude. */
  lemma SignedResult32(v: nat, sign: bool, num: i32, r: i32)
    requires num % Two32 == v % Two32
    requires r == if sign then ToInt32(-(num as int)) else num
    ensures r == ToInt32(if sign then -(v as int) else v)
  {
    if sign {
      NegateResidue(num, v, Two32);
      ResidueToInt32(-(num as int));
      SameResidue32(r, -(v as int));
    } else {
      SameResidue32(num, v);
    }
  }

  lemma SignedResult64(v: nat, sign: bool, num: i64, r: i64)
    requires num % Two64 == v % Two64
    requires r == if sign then ToInt64(-(num as int)) else num
    ensures r == ToInt64(if sign then -(v as int) else v)
  {
    if sign {
      NegateResidue(num, v, Two64);
      ResidueToInt64(-(num as int));
      SameResidue64(r, -(v as int));
    } else {
      SameResidue64(num, v);
    }
  }

  /** The digit loop of `libMU_atoll`: `num *= 10; num += digit` in 64-bit two's complement. */
  method Digits64(buf: seq<char>, start: nat) returns (num: i64)
    requires start <= |buf|
    ensures num % Two64 == Magnitude(buf, start) % Two64
  {
    var i := start;
    num := 0;
    while IsDigit(At(buf, i))
      invariant start <= i <= |buf| && DigitsEnd(buf, i) == DigitsEnd(buf, start)
      invariant num % Two64 == Value(buf[start..i]) % Two64
      decreases |buf| - i
    {
      ghost var num0 := num;
      num := ToInt64(num as int * 10);
      num := ToInt64(num + DigitValue(buf[i]));
      i := i + 1;
      SignedStep64(buf, start, i, num0, num);
    }
    assert buf[start..i] == buf[start..DigitsEnd(buf, start)];
  }

  /** Adding a multiple of m leaves the remainder modulo m alone. */
  lemma AddMultiple(a: int, q: int, m: int)
    requires m > 0
    ensures (a + q * m) % m == a % m
  {
    DivModUnique(a + q * m, m, a / m + q, a % m);
  }

  /** Congruence modulo m survives `x * 10 + d`. */
  lemma ScaleResidue(x: int, y: int, d: int, m: int)
    requires m > 0 && x % m == y % m
    ensures (x * 10 + d) % m == (y * 10 + d) % m
  {
    var r := x % m;
    assert x * 10 + d == (r * 10 + d) + (x / m * 10) * m;
    assert y * 10 + d == (r * 10 + d) + (y / m * 10) * m;
    AddMultiple(r * 10 + d, x / m * 10, m);
    AddMultiple(r * 10 + d, y / m * 10, m);
  }

  /** Congruence modulo m survives negation. */
  lemma NegateResidue(x: int, y: int, m: int)
    requires m > 0 && x % m == y % m
    ensures (-x) % m == (-y) % m
  {
    var r := x % m;
    assert -x == -r + (-(x / m)) * m;
    assert -y == -r + (-(y / m)) * m;
    AddMultiple(-r, -(x / m), m);
    AddMultiple(-r, -(y / m), m);
  }

  /** A 32-bit two's complement reinterpretation keeps the residue modulo `2^32`. */
  lemma ResidueToInt32(x: int)
    ensures ToInt32(x) % Two32 == x % Two32
  {
    var w := x % Two32;
    if w >= 0x8000_0000 {
      AddMultiple(w - Two32, 1, Two32);
    }
  }

  lemma ResidueToInt64(x: int)
    ensures ToInt64(x) % Two64 == x % Two64
  {
    var w := x % Two64;
    if w >= 0x8000_0000_0000_0000 {
      AddMultiple(w - Two64, 1, Two64);
    }
  }

  /** A 32-bit signed value is the reinterpretation of anything congruent to it. */
  lemma SameResidue32(r: i32, x: int)
    requires r % Two32 == x % Two32
    ensures r == ToInt32(x)
  {
    if r < 0 {
      AddMultiple(r, 1, Two32);
      DivModUnique(r + Two32, Two32, 0, r + Two32);
    } else {
      DivModUnique(r, Two32, 0, r);
    }
  }

  lemma SameResidue64(r: i64, x: int)
    requires r % Two64 == x % Two64
    ensures r == ToInt64(x)
  {
    if r < 0 {
      AddMultiple(r, 1, Two64);
      DivModUnique(r + Two64, Two64, 0, r + Two64);
    } else {
      DivModUnique(r, Two64, 0, r);
    }
  }

  /** Reducing modulo `2^32` keeps the residue. */
  lemma ResidueWrap32(x: int)
    ensures Wrap32(x) % Two32 == x % Two32
  {
    DivModUnique(Wrap32(x), Two32, 0, Wrap32(x));
  }

  lemma ResidueWrap64(x: int)
    ensures Wrap64(x) % Two64 == x % Two64
  {
    DivModUnique(Wrap64(x), Two64, 0, Wrap64(x));
  }

  /**
   * One digit of the accumulating loops: the accumulator, reduced modulo
   * the width after `num *= 10` (giving `num1`) and after `num += digit`,
   * stays congruent to the value of the digits read so far.
   */
  lemma AccumulateStep(s: seq<char>, start: nat, i: nat, num0: int, num1: int, num: int, m: int)
    requires m > 0 && start < i <= |s| && IsDigit(s[i - 1])
    requires forall k :: start <= k < i - 1 ==> IsDigit(s[k])
    requires num0 % m == Value(s[start..i - 1]) % m
    requires num1 % m == (num0 * 10) % m
    requires num % m == (num1 + DigitValue(s[i - 1])) % m
    ensures num % m == Value(s[start..i]) % m
  {
    var t := s[start..i];
    assert t[..|t| - 1] == s[start..i - 1];
    var v, d, x := Value(s[start..i - 1]), DigitValue(s[i - 1]), num0 * 10;
    assert Value(t) == v * 10 + d;
    assert x + d == (x % m + d) + x / m * m;
    assert num1 + d == (x % m + d) + num1 / m * m;
    AddMultiple(x % m + d, x / m, m);
    AddMultiple(x % m + d, num1 / m, m);
    ScaleResidue(num0, v, d, m);
  }

  /** Blanks up to index j, and none at j, are skipped to j. */
  lemma {:induction false} SkipTo(s: seq<char>, i: nat, j: nat)
    requires i <= j <= |s| && !IsBlank(At(s, j))
    requires forall k :: i <= k < j ==> IsBlank(s[k])
    ensures SkipBlanks(s, i) == j
    decreases j - i
  {
    if i < j {
      SkipTo(s, i + 1, j);
    }
  }

  /** Digits up to index j, and none at j, end the run at j. */
  lemma {:induction false} DigitsTo(s: seq<char>, i: nat, j: nat)
    requires i <= j <= |s| && !IsDigit(At(s, j))
    requires forall k :: i <= k < j ==> IsDigit(s[k])
    ensures DigitsEnd(s, i) == j
    decreases j - i
  {
    if i < j {
      DigitsTo(s, i + 1, j);
    }
  }

  /** The digits after leading blanks and an optional sign, up to a non-digit, are read as `Decimal(n)`. */
  lemma ReadsNumeral(s: seq<char>, at: nat, n: nat, tail: seq<char>)
    requires at <= |s| && s[at..] == Decimal(n) + tail
    requires tail == [] || !IsDigit(tail[0])
    ensures Magnitude(s, at) == n
  {
    var d := Decimal(n);
    DecimalValue(n);
    forall k | at <= k < at + |d|
      ensures IsDigit(s[k])
    {
      assert s[k] == s[at..][k - at];
    }
    if tail != [] {
      assert s[at + |d|] == s[at..][|d|];
    }
    DigitsTo(s, at, at + |d|);
    assert s[at..at + |d|] == s[at..][..|d|];
  }

  /** `libMU_atoul` reads back any numeral, after any blanks and before any non-digit. */
  lemma UnsignedRoundTrip(blanks: seq<char>, n: nat, tail: seq<char>)
    requires forall k :: 0 <= k < |blanks| ==> IsBlank(blanks[k])
    requires tail == [] || !IsDigit(tail[0])
    ensures Unsigned(blanks + Decimal(n) + tail) == n
    ensures n < Two32 ==> Wrap32(Unsigned(blanks + Decimal(n) + tail)) == n
  {
    var s := blanks + Decimal(n) + tail;
    assert s[|blanks|..] == Decimal(n) + tail;
    assert Decimal(n)[0] == s[|blanks|];
    DecimalValue(n);
    SkipTo(s, 0, |blanks|);
    ReadsNumeral(s, |blanks|, n, tail);
  }

  /** `libMU_atoi` reads back the signed decimal text of any 32-bit value. */
  lemma SignedRoundTrip(blanks: seq<char>, x: int, tail: seq<char>)
    requires forall k :: 0 <= k < |blanks| ==> IsBlank(blanks[k])
    requires tail == [] || !IsDigit(tail[0])
    ensures Signed(blanks + SignedDecimal(x) + tail) == x
    ensures -0x8000_0000 <= x < 0x8000_0000 ==> ToInt32(Signed(blanks + SignedDecimal(x) + tail)) == x
  {
    var s := blanks + SignedDecimal(x) + tail;
    var t := SignedDecimal(x);
    DecimalValue(Abs(x));
    assert s[|blanks|] == t[0];
    SkipTo(s, 0, |blanks|);
    if x < 0 {
      assert s[|blanks| + 1..] == Decimal(-x) + tail;
      ReadsNumeral(s, |blanks| + 1, -x, tail);
    } else {
      assert s[|blanks|..] == Decimal(x) + tail;
      ReadsNumeral(s, |blanks|, x, tail);
    }
  }
}
