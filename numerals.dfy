/**
 * Positional numerals: the digits of a natural number in base 10 or 16,
 * most significant first and without leading zeros, as the number
 * formatters of the standard library module write them, and the value
 * a run of decimal digits stands for, as its parsers read it.
 */
module Numerals {
  import opened Ints

  /** `b^k`. */
  function Pow(b: nat, k: nat): (p: nat)
    requires b >= 1
    ensures p >= 1
  {
    if k == 0 then 1 else MulMonotone(1, b, Pow(b, k - 1)); b * Pow(b, k - 1)
  }

  /** `dig + '0'` for a digit below ten, `dig + 'A' - 10` above. */
  function DigitChar(d: nat): char
    requires d < 16
  {
    if d < 10 then ('0' as int + d) as char else ('A' as int + d - 10) as char
  }

  predicate IsDigit(c: char)
  {
    '0' <= c <= '9'
  }

  /** The digits of n in the given base, most significant first; "0" for zero. */
  function Numeral(n: nat, base: nat): (s: seq<char>)
    requires 2 <= base <= 16
    ensures |s| >= 1
    decreases n
  {
    if n < base then [DigitChar(n)] else Numeral(n / base, base) + [DigitChar(n % base)]
  }

  function Decimal(n: nat): (s: seq<char>)
  {
    Numeral(n, 10)
  }

  /** The signed decimal text of x: a '-' before the magnitude of a negative number. */
  function SignedDecimal(x: int): seq<char>
  {
    Sign(x) + Decimal(Abs(x))
  }

  /** "-" before a negative number, nothing otherwise. */
  function Sign(x: int): seq<char>
  {
    if x < 0 then "-" else ""
  }

  /** Upper-case hexadecimal digits. */
  function Hex(n: nat): (s: seq<char>)
  {
    Numeral(n, 16)
  }

  /** Below `b * p` exactly when the quotient by b is below p. */
  lemma QuotientBelow(n: nat, b: nat, p: nat)
    requires b > 0
    ensures n / b < p <==> n < b * p
  {
    DivModUnique(n, b, n / b, n % b);
    if n / b < p {
      MulMonotone(n / b + 1, p, b);
    } else {
      MulMonotone(p, n / b, b);
    }
  }

  /** A numeral has at most k digits exactly when the number is below `base^k`. */
  lemma {:induction false} NumeralLength(n: nat, base: nat, k: nat)
    requires 2 <= base <= 16 && k >= 1
    ensures |Numeral(n, base)| <= k <==> n < Pow(base, k)
    decreases k
  {
    MulMonotone(1, Pow(base, k - 1), base);
    if n >= base && k > 1 {
      NumeralLength(n / base, base, k - 1);
      QuotientBelow(n, base, Pow(base, k - 1));
    }
  }

  /** A numeral of a positive number does not start with a zero. */
  lemma {:induction false} NumeralLeading(n: nat, base: nat)
    requires 2 <= base <= 16 && n > 0
    ensures Numeral(n, base)[0] != '0'
    decreases n
  {
    if n < base {
      DigitNotZero(n);
    } else {
      Shorter(n, base);
      NumeralLeading(n / base, base);
    }
  }

  /** Dividing a number of two or more digits by the base leaves a smaller positive number. */
  lemma Shorter(n: nat, base: nat)
    requires 2 <= base <= n
    ensures 0 < n / base < n
  {
    QuotientBelow(n, base, 1);
    DivModUnique(n, base, n / base, n % base);
  }

  /** Only the digit zero is written '0'. */
  lemma DigitNotZero(d: nat)
    requires 0 < d < 16
    ensures DigitChar(d) != '0'
  {
  }

  /** The last digit of a numeral is the remainder by the base. */
  lemma NumeralLast(n: nat, base: nat)
    requires 2 <= base <= 16
    ensures Numeral(n, base)[|Numeral(n, base)| - 1] == DigitChar(n % base)
  {
  }

  /** Dividing by `base^k` drops the last k digits of a numeral. */
  lemma {:induction false} NumeralTop(n: nat, base: nat, k: nat)
    requires 2 <= base <= 16 && n / Pow(base, k) > 0
    ensures |Numeral(n, base)| == |Numeral(n / Pow(base, k), base)| + k
    ensures Numeral(n, base)[..|Numeral(n / Pow(base, k), base)|] == Numeral(n / Pow(base, k), base)
    decreases k
  {
    if k > 0 {
      var p := Pow(base, k - 1);
      var m := n / p;
      DivDivision(n, p, base);
      assert m / base == n / Pow(base, k);
      assert m >= base by {
        QuotientBelow(m, base, 1);
      }
      NumeralTop(n, base, k - 1);
      var whole, mid, top := Numeral(n, base), Numeral(m, base), Numeral(m / base, base);
      assert mid == top + [DigitChar(m % base)];
      assert whole[..|mid|] == mid;
      assert whole[..|top|] == mid[..|top|];
    }
  }

  /** Dividing by p and then by b is dividing by `b * p`. */
  lemma DivDivision(n: nat, p: nat, b: nat)
    requires p > 0 && b > 0
    ensures n / p / b == n / (b * p)
  {
    var q, r := n / (b * p), n % (b * p);
    assert n == (q * b + r / p) * p + r % p by {
      assert n == q * (b * p) + r;
      assert r == r / p * p + r % p;
    }
    DivModUnique(n, p, q * b + r / p, r % p);
    QuotientBelow(r, p, b);
    DivModUnique(n / p, b, q, r / p);
  }

  /** The value of a decimal digit. */
  function DigitValue(c: char): (d: nat)
    requires IsDigit(c)
    ensures d < 10 && DigitChar(d) == c
  {
    c as int - '0' as int
  }

  /** The number a run of decimal digits stands for. */
  function Value(s: seq<char>): (v: nat)
    requires forall k :: 0 <= k < |s| ==> IsDigit(s[k])
    decreases |s|
  {
    if s == [] then 0 else Value(s[..|s| - 1]) * 10 + DigitValue(s[|s| - 1])
  }

  /** Reading a decimal numeral back gives the number it was written from. */
  lemma {:induction false} DecimalValue(n: nat)
    ensures forall k :: 0 <= k < |Decimal(n)| ==> IsDigit(Decimal(n)[k])
    ensures Value(Decimal(n)) == n
    decreases n
  {
    if n >= 10 {
      DecimalValue(n / 10);
      var s := Decimal(n);
      assert s[..|s| - 1] == Decimal(n / 10);
    }
  }

  /** `10^9`, the first divisor of the top-down digit loops, and `10^10`, above every 32-bit value. */
  lemma PowTen()
    ensures Pow(10, 9) == 1_000_000_000
    ensures Pow(10, 10) == 10_000_000_000
  {
    assert Pow(10, 3) == 1000;
    assert Pow(10, 6) == 1000 * 1000 by {
      assert Pow(10, 6) == 10 * (10 * (10 * Pow(10, 3)));
    }
    assert Pow(10, 9) == 1000 * Pow(10, 6) by {
      assert Pow(10, 9) == 10 * (10 * (10 * Pow(10, 6)));
    }
  }
}
