/**
 * The five push buttons of the board. A reading is a bit mask with one bit
 * per button (1 = pressed); it comes from the hardware and is a parameter
 * here. `Pressed` and `Depressed` detect edges against the last reading
 * saved for the asked buttons.
 */
module Buttons {
  import opened Edges

  const Up: bv32 := 0x01
  const Down: bv32 := 0x02
  const Left: bv32 := 0x04
  const Right: bv32 := 0x08
  const Select: bv32 := 0x10
  const All: bv32 := 0x1F

  /** The state of the buttons saved between calls. */
  class Panel {
    var state: bv32

    /** Initialization clears the saved state. */
    constructor ()
      ensures state == 0
    {
      state := 0;
    }

    method Pressed(reading: bv32, button: bv32) returns (r: bv32)
      modifies this
      ensures r == Rising(old(state), reading, button)
      ensures state == Update(old(state), reading, button)
    {
      r := Rising(state, reading, button);
      state := Update(state, reading, button);
    }

    method Depressed(reading: bv32, button: bv32) returns (r: bv32)
      modifies this
      ensures r == Falling(old(state), reading, button)
      ensures state == Update(old(state), reading, button)
    {
      r := Falling(state, reading, button);
      state := Update(state, reading, button);
    }
  }
}
