/**
 * Conversion of a reading of the internal temperature sensor (a 10-bit
 * A/D sample) to tenths of a degree Celsius, by the linear law of the
 * microcontroller datasheet: 147.5 C at a sample of 0, falling by 225 C
 * over the full scale of 1023.
 */
module Temperature {
  import opened Ints

  const FullScale: nat := 1023

  /**
   * The sample is reinterpreted as a signed `int`, scaled in 32-bit
   * arithmetic (the product wraps once it leaves the range of `int`) and
   * subtracted from 1475, with C division.
   */
  function Convert(value: u32): (r: int)
    ensures value <= FullScale ==> -775 <= r <= 1475
    ensures value <= FullScale ==> r == 1475 - value * 2250 / FullScale
  {
    var temp := ToInt32(value);
    1475 - CDiv(ToInt32(temp * 2250), FullScale as int)
  }

  lemma Endpoints()
    ensures Convert(0) == 1475
    ensures Convert(FullScale) == -775
  {
  }

  /** Outside the 10-bit range the 32-bit product wraps: a sample of 1000000 reads as 2000465. */
  lemma ConvertWraps()
    ensures Convert(1000000) == 2000465
    ensures 1000000 * 2250 >= 0x8000_0000
  {
    assert ToInt32(1000000 * 2250) == 2250000000 - 0x1_0000_0000;
  }

  /** A larger sample never reads as a higher temperature. */
  lemma ConvertNonIncreasing(a: u32, b: u32)
    requires a <= b <= FullScale
    ensures Convert(b) <= Convert(a)
  {
    MulMonotone(a, b, 2250);
    StepQuotient(a * 2250, b * 2250 - a * 2250, FullScale);
  }

  /** Each step of the sample lowers the reading by two or three tenths of a degree. */
  lemma ConvertStep(a: u32)
    requires a < FullScale
    ensures 2 <= Convert(a) - Convert(a + 1) <= 3
  {
    var x := a * 2250;
    assert (a + 1) * 2250 == x + 2250;
    StepQuotient(x, 2250, FullScale);
  }

  /** Adding k to the dividend raises the quotient by the whole part of k / d, or by one more. */
  lemma StepQuotient(x: nat, k: nat, d: nat)
    requires d > 0
    ensures k / d <= (x + k) / d - x / d <= k / d + 1
  {
    var q, r := x / d, x % d;
    var kq, kr := k / d, k % d;
    assert x + k == (q + kq) * d + (r + kr);
    if r + kr < d {
      DivModUnique(x + k, d, q + kq, r + kr);
    } else {
      assert x + k == (q + kq + 1) * d + (r + kr - d);
      DivModUnique(x + k, d, q + kq + 1, r + kr - d);
    }
  }
}
