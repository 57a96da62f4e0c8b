/**
 * Conversions between the free-running 64-bit tick counter of the board
 * (one tick per CPU clock at 50 MHz) and physical time units.
 * The tick period is computed at compile time with rounding to nearest.
 */
module Timer {
  import opened Ints

  const CpuFreq: nat := 50_000_000
  const NsPerSecond: nat := 1_000_000_000

  /** Nanoseconds per tick: `(10^9 + f/2) / f`, the period rounded to nearest. */
  const PeriodNs: nat := (NsPerSecond + CpuFreq / 2) / CpuFreq

  lemma PeriodIsTwenty()
    ensures PeriodNs == 20
    ensures PeriodNs * CpuFreq == NsPerSecond
  {
  }

  /** Elapsed ticks in nanoseconds: a 64-bit product truncated to 32 bits. */
  function ConvertToNs(t: u64): (r: u32)
    ensures (r - t * 20) % 0x1_0000_0000 == 0
    ensures t < 0x1_0000_0000 / 20 ==> r == t * 20
  {
    PeriodIsTwenty();
    NsWraps(t * 20);
    Wrap32(Wrap64(t * PeriodNs))
  }

  /** Truncating to 64 and then to 32 bits keeps the value modulo 2^32. */
  lemma NsWraps(x: nat)
    ensures (Wrap32(Wrap64(x)) - x) % 0x1_0000_0000 == 0
  {
    var w := Wrap64(x);
    var r := Wrap32(w);
    var q, p := x / 0x1_0000_0000_0000_0000, w / 0x1_0000_0000;
    assert w == x - q * 0x1_0000_0000_0000_0000;
    assert r == w - p * 0x1_0000_0000;
    assert r - x == -(q * 0x1_0000_0000 + p) * 0x1_0000_0000;
    DivModUnique(r - x, 0x1_0000_0000, -(q * 0x1_0000_0000 + p), 0);
  }

  /** Elapsed ticks in microseconds: the wrapped 64-bit product divided by 1000, truncated to 32 bits. */
  function ConvertToUs(t: u64): (r: u32)
    ensures t * 20 < 0x1_0000_0000_0000_0000 && t * 20 / 1000 < 0x1_0000_0000 ==> r == t / 50
  {
    Wrap32(Wrap64(t * PeriodNs) / 1000)
  }

  /** Elapsed ticks in milliseconds. */
  function ConvertToMs(t: u64): (r: u32)
    ensures t * 20 < 0x1_0000_0000_0000_0000 && t * 20 / 1_000_000 < 0x1_0000_0000 ==> r == t / 50_000
  {
    Wrap32(Wrap64(t * PeriodNs) / 1_000_000)
  }

  /** Microseconds as ticks: `time * 1000` in 64 bits, then divided by the period. */
  function ConvertFromUs(time: u64): (r: u64)
    ensures time * 1000 < 0x1_0000_0000_0000_0000 ==> r == time * 50
    ensures r <= 0x1_0000_0000_0000_0000 / 20
  {
    PeriodIsTwenty();
    ScaleDown(time, 1000, 50);
    Wrap64(time * 1000) / PeriodNs
  }

  /** Milliseconds as ticks. */
  function ConvertFromMs(time: u64): (r: u64)
    ensures time * 1_000_000 < 0x1_0000_0000_0000_0000 ==> r == time * 50_000
    ensures r <= 0x1_0000_0000_0000_0000 / 20
  {
    PeriodIsTwenty();
    ScaleDown(time, 1_000_000, 50_000);
    Wrap64(time * 1_000_000) / PeriodNs
  }

  /**
   * A 64-bit product `time * k` divided by the period: below 2^64 / 20,
   * and `time * m` when the product does not wrap.
   */
  lemma ScaleDown(time: nat, k: nat, m: nat)
    requires k == 20 * m
    ensures Wrap64(time * k) / 20 <= 0x1_0000_0000_0000_0000 / 20
    ensures time * k < 0x1_0000_0000_0000_0000 ==> Wrap64(time * k) / 20 == time * m
  {
    var w := Wrap64(time * k);
    DivMonotone(w, 0x1_0000_0000_0000_0000, 20);
    assert time * k == (time * m) * 20;
    if time * k < 0x1_0000_0000_0000_0000 {
      DivModUnique(w, 20, time * m, 0);
    }
  }

  /** Division by a positive constant preserves order. */
  lemma DivMonotone(a: nat, b: nat, d: nat)
    requires a <= b && d > 0
    ensures a / d <= b / d
  {
    if a / d > b / d {
      MulMonotone(b / d + 1, a / d, d);
    }
  }

  /** Converting a 32-bit count of microseconds to ticks and back is the identity. */
  lemma UsRoundTrip(us: u32)
    ensures ConvertToUs(ConvertFromUs(us)) == us
  {
    var t := ConvertFromUs(us);
    assert t == us * 50;
    assert t * 20 == us * 1000;
    assert t * 20 / 1000 == us;
  }

  /** Converting a 32-bit count of milliseconds to ticks and back is the identity. */
  lemma MsRoundTrip(ms: u32)
    ensures ConvertToMs(ConvertFromMs(ms)) == ms
  {
    var t := ConvertFromMs(ms);
    assert t == ms * 50_000;
    assert t * 20 == ms * 1_000_000;
    assert t * 20 / 1_000_000 == ms;
  }

  /** Conversions to coarser units never exceed the finer one they are derived from. */
  lemma CoarserIsSmaller(t: u64)
    requires t < 0x1_0000_0000 / 20
    ensures ConvertToMs(t) <= ConvertToUs(t) <= ConvertToNs(t)
  {
    assert ConvertToNs(t) == t * 20;
    assert ConvertToUs(t) == t * 20 / 1000;
    assert ConvertToMs(t) == t * 20 / 1_000_000;
  }
}
