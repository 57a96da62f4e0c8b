/**
 * Edge detection over a saved bit mask, shared by the push buttons and the
 * general purpose inputs: a call compares the live reading of the asked
 * bits with the state saved at the previous call, reports the bits that
 * changed one way, and saves the reading of the asked bits.
 */
module Edges {
  /** The bits of the mask that the reading shows set: nothing outside the mask. */
  function Status(reading: bv32, button: bv32): (r: bv32)
    ensures r & !button == 0
  {
    reading & button
  }

  /** The saved state after a call: bits inside the mask follow the reading. */
  function Update(state: bv32, reading: bv32, button: bv32): (s: bv32)
    ensures s & button == Status(reading, button)
  {
    (state & !button) | (reading & button)
  }

  /** Bits of the mask set now that were clear at the last call (a press, a rising edge). */
  function Rising(state: bv32, reading: bv32, button: bv32): (r: bv32)
    ensures r == reading & button & !state
  {
    var prev := state & button;
    var now := reading & button;
    now & !prev
  }

  /** Bits of the mask set at the last call that are clear now (a release, a falling edge). */
  function Falling(state: bv32, reading: bv32, button: bv32): (r: bv32)
    ensures r == state & button & !reading
  {
    var prev := state & button;
    var now := reading & button;
    !now & prev
  }

  /** A call leaves the saved state outside the mask unchanged. */
  lemma UpdateKeepsOthers(state: bv32, reading: bv32, button: bv32)
    ensures Update(state, reading, button) & !button == state & !button
  {
  }

  /** Asking again with the same reading reports no new press. */
  lemma SecondPressQuiet(state: bv32, reading: bv32, button: bv32)
    ensures Rising(Update(state, reading, button), reading, button) == 0
  {
  }

  /** Asking again with the same reading reports no new release. */
  lemma SecondReleaseQuiet(state: bv32, reading: bv32, button: bv32)
    ensures Falling(Update(state, reading, button), reading, button) == 0
  {
  }

  /** A bit never shows a press and a release on the same call. */
  lemma EdgesDisjoint(state: bv32, reading: bv32, button: bv32)
    ensures Rising(state, reading, button) & Falling(state, reading, button) == 0
  {
  }

  /** The edges reported are exactly the bits of the mask whose state changed. */
  lemma EdgesAreChanges(state: bv32, reading: bv32, button: bv32)
    ensures Rising(state, reading, button) | Falling(state, reading, button) == (state ^ reading) & button
  {
  }
}
