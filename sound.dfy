/**
 * Sound output: the volume, given in dB, is turned into a PWM duty cycle by
 * piecewise-linear interpolation in two tables (dB to power, power to duty
 * cycle), and a song is a pointer to a score of notes with its length.
 * Playing the score (a FreeRTOS task driving the PWM) is not part of this model.
 */
module Sound {
  import opened Ints

  /** The source's table size: the last index is `n = |table| - 1` and `delta = valMax / n`. */
  predicate Defined(valMax: u32, table: Option<seq<u32>>)
  {
    table.Some? && |table.value| >= 1 ==>
      |table.value| < 0x1_0000_0000 && |table.value| >= 2 && valMax / (|table.value| - 1) > 0
  }

  /**
   * Piecewise-linear interpolation of `val` in `table`, whose entries are
   * evenly spread over 0..valMax. The difference of neighbouring entries is an
   * unsigned 32-bit subtraction, the product with the remainder is exact in
   * 64 bits, the quotient is rounded to nearest and the final sum is
   * truncated to 32 bits.
   */
  function Interpolate(val: u32, valMax: u32, table: Option<seq<u32>>): (r: u32)
    requires Defined(valMax, table)
    ensures table.None? || |table.value| == 0 ==> r == 0
    ensures table.Some? && |table.value| >= 2 && val / (valMax / (|table.value| - 1)) >= |table.value| - 1 ==>
      r == table.value[|table.value| - 1]
  {
    if table.None? || |table.value| < 1 then 0
    else
      var t := table.value;
      var n := |t| - 1;
      var delta := valMax / n;
      var idx := val / delta;
      if idx >= n then t[n]
      else
        var rem := val - idx * delta;
        var diff := Wrap32(t[idx + 1] as int - t[idx] as int);
        Wrap32(Rounded(diff, rem, delta) + t[idx])
  }

  /** At a grid point the result is the table entry itself. */
  lemma InterpolateGrid(val: u32, valMax: u32, t: seq<u32>)
    requires Defined(valMax, Some(t)) && |t| >= 2
    requires val % (valMax / (|t| - 1)) == 0 && val / (valMax / (|t| - 1)) < |t| - 1
    ensures Interpolate(val, valMax, Some(t)) == t[val / (valMax / (|t| - 1))]
  {
    var delta := valMax / (|t| - 1);
    var idx := val / delta;
    assert val == idx * delta + val % delta;
    assert val - idx * delta == 0;
  }

  /** Between grid points of a non-decreasing stretch the result lies between the two neighbours. */
  lemma InterpolateBetween(val: u32, valMax: u32, t: seq<u32>)
    requires Defined(valMax, Some(t)) && |t| >= 2
    requires val / (valMax / (|t| - 1)) < |t| - 1
    requires t[val / (valMax / (|t| - 1))] <= t[val / (valMax / (|t| - 1)) + 1]
    ensures t[val / (valMax / (|t| - 1))] <= Interpolate(val, valMax, Some(t)) <= t[val / (valMax / (|t| - 1)) + 1]
  {
    var delta := valMax / (|t| - 1);
    var idx := val / delta;
    var rem := val - idx * delta;
    var diff := t[idx + 1] as int - t[idx] as int;
    assert Wrap32(diff) == diff;
    assert Rounded(diff, rem, delta) <= diff;
  }

  /** `d * rem / delta` rounded to nearest: zero at `rem == 0`, never beyond `d` while `rem < delta`. */
  function Rounded(d: nat, rem: nat, delta: nat): (q: nat)
    requires rem < delta
    ensures rem == 0 ==> q == 0
    ensures q <= d
  {
    RoundedBound(d, rem, delta);
    (d * rem + delta / 2) / delta
  }

  lemma RoundedBound(d: nat, rem: nat, delta: nat)
    requires rem < delta
    ensures rem == 0 ==> (d * rem + delta / 2) / delta == 0
    ensures (d * rem + delta / 2) / delta <= d
  {
    var x := d * rem + delta / 2;
    if rem == 0 {
      assert x == delta / 2;
      DivModUnique(x, delta, 0, delta / 2);
    } else {
      MulMonotone(rem, delta - 1, d);
      assert (delta - 1) * d == delta * d - d;
      assert (d + 1) * delta == delta * d + delta;
      QuotientBelow(x, d + 1, delta);
    }
  }

  /** A dividend below `k * delta` has a quotient below `k`. */
  lemma QuotientBelow(x: nat, k: nat, delta: nat)
    requires delta > 0 && x < k * delta
    ensures x / delta < k
  {
    var q := x / delta;
    assert q * delta <= x;
    if q >= k {
      MulMonotone(k, q, delta);
      assert false;
    }
  }

  /** Every entry of a table is reached from the first one by non-decreasing steps. */
  predicate NonDecreasing(t: seq<u32>)
  {
    forall i :: 0 <= i < |t| - 1 ==> t[i] <= t[i + 1]
  }

  /** In a non-decreasing table no entry exceeds the last one. */
  lemma {:induction false} AtMostLast(t: seq<u32>, i: nat)
    requires NonDecreasing(t) && i < |t|
    ensures t[i] <= t[|t| - 1]
    decreases |t| - i
  {
    if i < |t| - 1 {
      AtMostLast(t, i + 1);
    }
  }

  /** For a non-decreasing table every result lies between the first and the last entry. */
  lemma InterpolateWithin(val: u32, valMax: u32, t: seq<u32>)
    requires Defined(valMax, Some(t)) && |t| >= 2 && NonDecreasing(t)
    ensures Interpolate(val, valMax, Some(t)) <= t[|t| - 1]
  {
    var delta := valMax / (|t| - 1);
    var idx := val / delta;
    if idx < |t| - 1 {
      InterpolateBetween(val, valMax, t);
      AtMostLast(t, idx + 1);
    }
  }

  /** Power, in steps of 10 dB from 0 to 100 dB. */
  const VolumeToPower: seq<u32> := [
    100, 316, 1000, 3162, 10000, 31623, 100000, 316228, 1000000, 3162278, 10000000]

  /** Duty cycle for evenly spread power values, from d = acos(1 - 2p) / 2 pi. */
  const PowerToDutyCycle: seq<u32> := [
    0, 71783147, 102416382, 126591656, 147583618,
    166666667, 184505060, 201506658, 217952892, 234057860,
    250000000,
    265942140, 282047108, 298493342, 315494940, 333333333,
    352416382, 373408345, 397583618, 428216853, 500000000]

  const MaxDutyCycle: u32 := 500000000

  lemma DutyTableSorted()
    ensures NonDecreasing(PowerToDutyCycle)
  {
  }

  /** The duty cycle set for a volume in dB: silent at 0, full at 100 dB and above, never beyond the maximum. */
  function DutyCycleFor(volume: u32): (d: u32)
    ensures volume == 0 ==> d == 0
    ensures volume >= 100 ==> d == MaxDutyCycle
    ensures d <= MaxDutyCycle
  {
    if volume == 0 then 0
    else
      var power := Interpolate(volume, 100, Some(VolumeToPower));
      FullPower(volume);
      DutyTableSorted();
      InterpolateWithin(power, 10000000, PowerToDutyCycle);
      Interpolate(power, 10000000, Some(PowerToDutyCycle))
  }

  /** From 100 dB on, the power table saturates at its last entry, which maps to the last duty cycle. */
  lemma FullPower(volume: u32)
    ensures volume >= 100 ==> Interpolate(volume, 100, Some(VolumeToPower)) == 10000000
    ensures Interpolate(10000000, 10000000, Some(PowerToDutyCycle)) == MaxDutyCycle
  {
    assert |VolumeToPower| == 11 && 100 / 10 == 10 && (volume >= 100 ==> volume / 10 >= 10);
    assert |PowerToDutyCycle| == 21 && 10000000 / 20 == 500000 && 10000000 / 500000 == 20;
  }

  datatype Note = Note(frequency: nat, time: u32)

  /** The sound settings kept between calls. */
  class Player {
    var dutyCycle: u32
    var playing: bool
    var repeat: u32
    var song: Option<seq<Note>>
    var numNotes: u32

    /** A score is either absent with no notes or present with some. */
    predicate Valid()
      reads this
    {
      song.None? <==> numNotes == 0
    }

    /** The variables as initialization sets them (the PWM and the player task are left out). */
    constructor ()
      ensures Valid()
      ensures dutyCycle == 25 && !playing && repeat == 0 && song.None? && numNotes == 0
    {
      dutyCycle := 25;
      playing := false;
      repeat := 0;
      song := None;
      numNotes := 0;
    }

    method SetVolume(volume: u32)
      modifies this
      ensures dutyCycle == DutyCycleFor(volume)
      ensures playing == old(playing) && repeat == old(repeat) && song == old(song) && numNotes == old(numNotes)
    {
      if volume == 0 {
        dutyCycle := 0;
        return;
      }
      var power := Interpolate(volume, 100, Some(VolumeToPower));
      dutyCycle := Interpolate(power, 10000000, Some(PowerToDutyCycle));
    }

    method SetSong(notes: Option<seq<Note>>, count: u32)
      modifies this
      ensures Valid()
      ensures notes.None? || count == 0 ==> song.None? && numNotes == 0
      ensures notes.Some? && count != 0 ==> song == notes && numNotes == count
      ensures dutyCycle == old(dutyCycle) && playing == old(playing) && repeat == old(repeat)
    {
      if notes.None? || count == 0 {
        song, numNotes := None, 0;
      } else {
        song, numNotes := notes, count;
      }
    }
  }
}
