/**
 * `libMU_Stats_uint32_t`: a running accumulator of 32-bit samples that keeps
 * their sum, the sum of their squares and their count in 64- and 32-bit
 * fields, restarting the sums from the newest sample whenever one of them
 * would overflow, and the largest and smallest sample seen since
 * initialisation.
 */
module Stats {
  import opened Ints

  const U64Limit: nat := 0x1_0000_0000_0000_0000

  /** The five fields of the accumulator, as values. */
  datatype Totals = Totals(sumsquare: u64, sum: u64, count: u32, max: u32, min: u32)

  /** The fields `libMU_Stats_Initialize` sets. */
  const Initial := Totals(0, 0, 0, 0, U32Max)

  /**
   * `value * (uint64_t)value`, by the odd-number recurrence, which keeps the
   * proofs about the accumulator linear; `SquareIsProduct` ties it to `v * v`.
   */
  function Square(v: nat): nat
  {
    if v == 0 then 0 else Square(v - 1) + 2 * v - 1
  }

  lemma {:induction false} SquareIsProduct(v: nat)
    ensures Square(v) == v * v
  {
    if v > 0 {
      SquareIsProduct(v - 1);
      assert (v - 1) * (v - 1) == v * v - 2 * v + 1;
    }
  }

  /** The square of a 32-bit value fits in 64 bits. */
  lemma SquareFits(v: u32)
    ensures Square(v) < U64Limit
  {
    SquareIsProduct(v);
    MulMonotone(v, U32Max, v);
    MulMonotone(v, U32Max, U32Max);
  }

  /**
   * `uint64_t` addition. The wrapped sum comes out below the first operand
   * exactly when the true sum does not fit, which is how `Update` detects
   * overflow.
   */
  function AddU64(a: u64, b: u64): (r: u64)
    ensures r == Wrap64(a + b)
    ensures r < a <==> a + b >= U64Limit
  {
    if a + b < U64Limit then a + b else a + b - U64Limit
  }

  /** Whether adding `value` to the sums or the count of `t` would overflow a field. */
  predicate Overflows(t: Totals, value: u32)
  {
    t.sumsquare + Square(value) >= U64Limit || t.sum + value >= U64Limit || t.count == U32Max
  }

  /**
   * What `libMU_Stats_Update` does to the fields: count the sample and add
   * it and its square to the sums, or restart them from this sample alone
   * when one of them would overflow; raise `max` and lower `min` to it.
   */
  function Step(t: Totals, value: u32): (r: Totals)
    ensures r.count >= 1 && r.min <= value <= r.max
  {
    SquareFits(value);
    var max := if value > t.max then value else t.max;
    var min := if value < t.min then value else t.min;
    if Overflows(t, value) then Totals(Square(value), value, 1, max, min)
    else Totals(t.sumsquare + Square(value), t.sum + value, t.count + 1, max, min)
  }

  /** The fields after initialisation and one `Update` per sample of `s`, in order. */
  function Run(s: seq<u32>): Totals
  {
    if s == [] then Initial else Step(Run(s[..|s| - 1]), s[|s| - 1])
  }

  /** The samples the sums cover after `Run(s)`: those since the last overflow reset. */
  function Window(s: seq<u32>): (w: seq<u32>)
    ensures |w| <= |s| && w == s[|s| - |w|..]
    ensures s != [] ==> w != []
  {
    if s == [] then []
    else
      var init, v := s[..|s| - 1], s[|s| - 1];
      if Overflows(Run(init), v) then [v] else Window(init) + [v]
  }

  /** Exact sum of the samples. */
  function Sum(s: seq<u32>): nat
  {
    if s == [] then 0 else Sum(s[..|s| - 1]) + s[|s| - 1]
  }

  /** Exact sum of the squared samples. */
  function SumSq(s: seq<u32>): nat
  {
    if s == [] then 0 else SumSq(s[..|s| - 1]) + Square(s[|s| - 1])
  }

  lemma {:induction false} SumSnoc(s: seq<u32>, v: u32)
    ensures Sum(s + [v]) == Sum(s) + v
    ensures SumSq(s + [v]) == SumSq(s) + Square(v)
  {
    assert (s + [v])[..|s|] == s;
  }

  /**
   * The overflow reset never lets a field wrap: after any sequence of
   * updates the sums and the count are the exact sum, sum of squares and
   * number of the samples since the last reset.
   */
  lemma {:induction false} RunIsExact(s: seq<u32>)
    ensures Run(s).sum == Sum(Window(s))
    ensures Run(s).sumsquare == SumSq(Window(s))
    ensures Run(s).count == |Window(s)|
  {
    if s != [] {
      var init, v := s[..|s| - 1], s[|s| - 1];
      RunIsExact(init);
      if Overflows(Run(init), v) {
        SumSnoc([], v);
      } else {
        SumSnoc(Window(init), v);
      }
    }
  }

  /** Every sample of `s` lies in `[lo, hi]`. */
  ghost predicate Bounded(s: seq<u32>, lo: int, hi: int)
  {
    forall i :: 0 <= i < |s| ==> lo <= s[i] <= hi
  }

  /**
   * `max` and `min` are the largest and the smallest sample since
   * initialisation, and keep their initial values 0 and `UINT32_MAX` while
   * there is none.
   */
  lemma {:induction false} RunExtremes(s: seq<u32>)
    ensures Bounded(s, Run(s).min, Run(s).max)
    ensures s == [] ==> Run(s).max == 0 && Run(s).min == U32Max
    ensures s != [] ==> Run(s).max in s && Run(s).min in s
  {
    if s != [] {
      var init, v := s[..|s| - 1], s[|s| - 1];
      RunExtremes(init);
      assert s == init + [v];
      if init == [] {
        assert s == [v];
      }
    }
  }

  /** The samples the sums cover lie between the extremes of all samples. */
  lemma {:induction false} WindowBounded(s: seq<u32>)
    ensures Bounded(Window(s), Run(s).min, Run(s).max)
  {
    RunExtremes(s);
    BoundedSuffix(s, |s| - |Window(s)|, Run(s).min, Run(s).max);
  }

  lemma {:induction false} BoundedSuffix(s: seq<u32>, k: nat, lo: int, hi: int)
    requires k <= |s| && Bounded(s, lo, hi)
    ensures Bounded(s[k..], lo, hi)
  {
    assert forall i :: 0 <= i < |s| - k ==> s[k..][i] == s[k + i];
  }

  /** The sum of samples bounded by `lo` and `hi` lies between `n * lo` and `n * hi`. */
  lemma {:induction false} SumBetween(s: seq<u32>, lo: int, hi: int)
    requires Bounded(s, lo, hi)
    ensures |s| * lo <= Sum(s) <= |s| * hi
  {
    if s != [] {
      var init := s[..|s| - 1];
      assert forall i :: 0 <= i < |init| ==> init[i] == s[i];
      SumBetween(init, lo, hi);
      assert |s| * lo == |init| * lo + lo;
      assert |s| * hi == |init| * hi + hi;
    }
  }

  /** `(sum + count/2) / count` is the mean rounded half up. */
  lemma RoundedMean(sum: nat, count: nat)
    requires count > 0
    ensures var q := (sum + count / 2) / count;
      q * count <= sum + count / 2 < q * count + count
  {
  }

  /** A strict inequality between multiples of a positive factor holds between the multiplicands. */
  lemma MulCancel(a: int, b: int, c: nat)
    requires c > 0 && a * c < b * c
    ensures a < b
  {
    if b <= a {
      MulMonotone(b, a, c);
    }
  }

  /** A rounded mean of values in `[lo, hi]` stays in `[lo, hi]`, and the sum it rounds cannot overflow. */
  lemma MeanWithin(sum: nat, count: nat, lo: nat, hi: nat)
    requires 0 < count <= U32Max && hi <= U32Max
    requires count * lo <= sum <= count * hi
    ensures sum + count / 2 < U64Limit
    ensures var q := (sum + count / 2) / count;
      lo <= q <= hi && q * count <= sum + count / 2 < q * count + count
  {
    var h := count / 2;
    var q := (sum + h) / count;
    RoundedMean(sum, count);
    MulMonotone(hi, U32Max, count);
    MulMonotone(count, U32Max, U32Max);
    assert sum + h < (hi + 1) * count;
    MulCancel(q, hi + 1, count);
    assert lo * count <= q * count + h < (q + 1) * count;
    MulCancel(lo, q + 1, count);
  }

  /**
   * The mean `GetMeanValue` computes from the fields is the mean of the
   * samples since the last reset, rounded half up; the 64-bit addition
   * cannot wrap and the result lies between the smallest and the largest
   * sample, so the cast to 32 bits loses nothing.
   */
  lemma {:induction false} MeanOfRun(s: seq<u32>)
    requires Run(s).count > 0
    ensures var t := Run(s);
      t.sum + t.count / 2 < U64Limit &&
      var q := (t.sum + t.count / 2) / t.count;
      t.min <= q <= t.max &&
      q * t.count <= Sum(Window(s)) + t.count / 2 < q * t.count + t.count
  {
    RunIsExact(s);
    WindowBounded(s);
    MeanOfTotals(Run(s), Window(s));
  }

  /** The rounded mean of fields that hold the exact sum and count of samples between `min` and `max`. */
  lemma {:induction false} MeanOfTotals(t: Totals, w: seq<u32>)
    requires t.count > 0 && t.sum == Sum(w) && t.count == |w| && Bounded(w, t.min, t.max)
    ensures t.sum + t.count / 2 < U64Limit &&
      var q := (t.sum + t.count / 2) / t.count;
      t.min <= q <= t.max &&
      q * t.count <= Sum(w) + t.count / 2 < q * t.count + t.count
  {
    SumBetween(w, t.min, t.max);
    MeanWithin(t.sum, t.count, t.min, t.max);
  }

  class Accumulator {
    var sumsquare: u64
    var sum: u64
    var count: u32
    var max: u32
    var min: u32
    /** Every sample given to `Update` since initialisation. */
    ghost var samples: seq<u32>

    function Fields(): Totals
      reads this
    {
      Totals(sumsquare, sum, count, max, min)
    }

    ghost predicate Valid()
      reads this
    {
      Fields() == Run(samples)
    }

    /** `libMU_Stats_Initialize`: no samples, sums 0, `max` 0 and `min` `UINT32_MAX`. */
    constructor Initialize()
      ensures Valid() && samples == []
      ensures sumsquare == 0 && sum == 0 && count == 0 && max == 0 && min == U32Max
    {
      sumsquare, sum, count, max, min := 0, 0, 0, 0, U32Max;
      samples := [];
    }

    /** `libMU_Stats_Update`: records one sample. */
    method Update(value: u32)
      requires Valid()
      modifies this
      ensures Valid() && samples == old(samples) + [value]
      ensures Fields() == Step(old(Fields()), value)
    {
      SquareFits(value);
      var tmp: u64 := Square(value);
      var tmpSumsq := AddU64(sumsquare, tmp);
      var tmpSum := AddU64(sum, value);
      count := if count == U32Max then 0 else count + 1;
      if tmpSumsq < sumsquare || tmpSum < sum || count == 0 {
        sumsquare, sum, count := tmp, value, 1;
      } else {
        sumsquare, sum := tmpSumsq, tmpSum;
      }
      if value > max { max := value; }
      if value < min { min := value; }
      assert (samples + [value])[..|samples|] == samples;
      samples := samples + [value];
    }

    /** `libMU_Stats_GetMaxValue`: the largest sample seen, 0 before the first. */
    function GetMaxValue(): (r: u32)
      reads this
      requires Valid()
      ensures forall i :: 0 <= i < |samples| ==> samples[i] <= r
      ensures samples != [] ==> r in samples
      ensures samples == [] ==> r == 0
    {
      RunExtremes(samples);
      max
    }

    /** `libMU_Stats_GetMinValue`: the smallest sample seen, `UINT32_MAX` before the first. */
    function GetMinValue(): (r: u32)
      reads this
      requires Valid()
      ensures forall i :: 0 <= i < |samples| ==> r <= samples[i]
      ensures samples != [] ==> r in samples
      ensures samples == [] ==> r == U32Max
    {
      RunExtremes(samples);
      min
    }

    /**
     * `libMU_Stats_GetMeanValue`: `(sum + count/2) / count`, computed in 64
     * bits and cast to 32; `MeanOfRun` shows neither step wraps. A zero
     * count is a division by zero in C.
     */
    function GetMeanValue(): (r: u32)
      reads this
      requires Valid() && count > 0
      ensures r * count <= Sum(Window(samples)) + count / 2 < r * count + count
      ensures min <= r <= max
    {
      MeanOfRun(samples);
      (sum + count / 2) / count
    }
  }
}
