# libMU core in Dafny

A model of the board-support library libMU of the GLaDOS-Sensoring firmware.
It covers the parts of the library whose behaviour is fixed by bytes, words
and buffers rather than by hardware:

- **The 3GPP TS 27.010 basic-option multiplexer** (`libMU/ts27010/ts27010.c`):
  - the CRC-8 frame check sequence of section 5.2.1.6 (`crc8.dfy`);
  - the frame layout, the command frames of `PrepareCMD` and the segmented data frames of `Send` (`ts27010_frames.dfy`);
  - the byte-at-a-time receiver `BasicRxStateMachine` and the control handler `ManageMuxLowLevel`, first as a pure value model (`mux_model.dfy`);
  - then as a `Multiplexer` class whose methods change the channel table, the receiver statics, the counters and the ISR transmit FIFO in place, each proved against the value model (`ts27010.dfy`).
- **The ring buffers** the multiplexer and the serial driver use:
  - the byte/element FIFO `libMU_FIFO_t` over the caller's memory block (`fifo.dfy`);
  - the 32-slot transmit descriptor queue `libMU_BufferQueue_t` (`buffer_queue.dfy`).
- **The UTF-8/UTF-16/UTF-32 converters** of `libMU/utf/utf.c`: one character at a time (`utf8.dfy`, `utf16.dfy`) and the four string converters (`utf_strings.dfy`).
- **The integer parts of `libMU/stdlib/stdlib.c`:**
  - the `atoi` family (`parse.dfy`);
  - the number formatters (`number_text.dfy`) and what their fields promise, with the C branches as written beside them (`number_fields.dfy`);
  - `libMU_vsnprintf` with integer, string and character conversions (`printf.dfy`).
- **The statistics accumulator** (`stats.dfy`).
- **The random generator** (`random.dfy`): the entropy pool, the MD4-based seed, and the linear congruential step.
- **The memory-image and viewport helpers of the display** (`display.dfy`).
- **Small conversions:** the timer unit conversions (`timer.dfy`), the temperature sensor law (`temperature.dfy`) and IPv4 packing (`internet.dfy`).
- **The sound helpers:** volume-table interpolation and song selection (`sound.dfy`).
- **Edge detection** for buttons and GPIO (`edges.dfy`, `buttons.dfy`, `gpio.dfy`).
- **The PLC variable windows** (`plc.dfy`).

Machine integers are unbounded in Dafny, so wrap-around, truncating
division and two's complement reinterpretation are written out (`ints.dfy`, `bits.dfy`).
Hardware readings, the serial driver and the FreeRTOS primitives enter
only as parameters or as a log of the calls handed to them.

## Model

| member | source | states |
|---|---|---|
| Temperature.Convert | libMU/temperature/temperature.c:23-28 | for a sample within the 10-bit scale the result is `1475 - value * 2250 / 1023` tenths of a degree, between -775 and 1475 |
| Temperature.ConvertWraps | libMU/temperature/temperature.c:25-26 | the sample is reinterpreted as a 32-bit `int` and the product by 2250 wraps in 32 bits: a sample of 1000000 reads 2000465 |
| Temperature.Endpoints | libMU/temperature/temperature.c:26 | a sample of 0 reads 147.5 C and the full-scale sample 1023 reads -77.5 C |
| Temperature.ConvertNonIncreasing | libMU/temperature/temperature.c:26 | a larger sample never reads as a higher temperature |
| Temperature.ConvertStep | libMU/temperature/temperature.c:26 | neighbouring samples differ by 0.2 or 0.3 C |
| Timer.PeriodIsTwenty | libMU/timer.h:21-26 | the rounded tick period is 20 ns and exactly one second's worth of ticks at 50 MHz |
| Timer.ConvertToNs | libMU/timer.h:111-115 | the nanoseconds equal `ticks * 20` modulo 2^32, and exactly that when the product fits 32 bits |
| Timer.ConvertToUs | libMU/timer.h:122-126 | without wrap-around the microseconds are `ticks / 50` |
| Timer.ConvertToMs | libMU/timer.h:133-137 | without wrap-around the milliseconds are `ticks / 50000` |
| Timer.ConvertFromUs | libMU/timer.h:144-148 | `us * 50` ticks when `us * 1000` fits 64 bits; never more than 2^64 / 20 |
| Timer.ConvertFromMs | libMU/timer.h:155-159 | `ms * 50000` ticks when `ms * 10^6` fits 64 bits; never more than 2^64 / 20 |
| Timer.UsRoundTrip | libMU/timer.h:122-148 | a 32-bit count of microseconds converted to ticks and back is unchanged |
| Timer.MsRoundTrip | libMU/timer.h:133-159 | a 32-bit count of milliseconds converted to ticks and back is unchanged |
| Timer.CoarserIsSmaller | libMU/timer.h:111-137 | below the 32-bit wrap, milliseconds <= microseconds <= nanoseconds for the same ticks |
| Edges.Status | libMU/buttons.h:64-67 | the status reports no bit outside the asked mask |
| Edges.Update | libMU/buttons.h:79-82 | after a call the saved bits inside the mask are the reading's |
| Edges.Rising | libMU/buttons.h:79-83 | the press report is the asked bits set now and clear in the saved state |
| Edges.Falling | libMU/buttons.h:96-100 | the release report is the asked bits set in the saved state and clear now |
| Edges.UpdateKeepsOthers | libMU/buttons.h:82 | a call leaves the saved bits outside the mask unchanged |
| Edges.SecondPressQuiet | libMU/buttons.h:77-84 | asking again with the same reading reports no press |
| Edges.SecondReleaseQuiet | libMU/buttons.h:94-101 | asking again with the same reading reports no release |
| Edges.EdgesDisjoint | libMU/buttons.h:77-101 | no bit is reported pressed and released by the same state and reading |
| Edges.EdgesAreChanges | libMU/buttons.h:77-101 | presses and releases together are exactly the asked bits whose state changed |
| Buttons.Panel.constructor | libMU/buttons.h:41-44 | the saved button state starts cleared |
| Buttons.Panel.Pressed | libMU/buttons.h:77-84 | returns the rising edges of the asked buttons and saves their reading |
| Buttons.Panel.Depressed | libMU/buttons.h:94-101 | returns the falling edges of the asked buttons and saves their reading |
| Gpio.Id | libMU/gpio.h:19-21 | a pin identifier carries the single-pin mask `1 << bit` and its port number |
| Gpio.WholePort | libMU/gpio.h:19-22 | a port identifier carries every one of the 28 pin bits and its port number |
| Gpio.BitMask | libMU/gpio.h:171-174 | the mask of an identifier has nothing in the port bits |
| Gpio.PortOf | libMU/gpio.h:193 | the port number of an identifier is below 16 |
| Gpio.GetStatus | libMU/gpio.h:181-184 | the pin status is the port reading restricted to the identifier's pins |
| Gpio.PortStatus.constructor | libMU/gpio.h:116-119 | one saved status word per port, all cleared |
| Gpio.PortStatus.RisingEdge | libMU/gpio.h:191-198 | returns the rising edges of the named pins and updates only that port's saved word |
| Gpio.PortStatus.FallingEdge | libMU/gpio.h:205-212 | returns the falling edges of the named pins and updates only that port's saved word |
| Gpio.PinEdge | libMU/gpio.h:191-198 | an edge query on a single-pin identifier reports that pin or nothing |
| Internet.Initialize | libMU/internet.h:168-177 | the packed address fits 32 bits and holds the first octet in its low byte |
| Internet.Octet | libMU/internet.h:180-194 | octet k of an address is a byte; the fourth is the top byte |
| Internet.OctetsOfInitialize | libMU/internet.h:168-194 | the four octets read back from a packed address are the ones packed |
| Internet.InitializeOfOctets | libMU/internet.h:168-194 | packing the four octets of any address gives that address back |
| Sound.Interpolate | libMU/sound/sound.c:69-95 | no table gives 0; a value at or past the last grid point gives the last entry |
| Sound.InterpolateGrid | libMU/sound/sound.c:78-87 | at a grid point the result is that table entry |
| Sound.InterpolateBetween | libMU/sound/sound.c:81-87 | on a rising stretch of the table the result lies between the two neighbouring entries |
| Sound.Rounded | libMU/sound/sound.c:83-86 | the rounded share of a difference is 0 at a grid point and never more than the whole difference |
| Sound.InterpolateWithin | libMU/sound/sound.c:69-95 | for a non-decreasing table no result exceeds the last entry |
| Sound.DutyTableSorted | libMU/sound/sound.c:124-130 | the power-to-duty-cycle table is non-decreasing |
| Sound.DutyCycleFor | libMU/sound/sound.c:102-145 | volume 0 is silent, 100 dB and above is the full 50 % duty cycle, and no volume goes beyond it |
| Sound.FullPower | libMU/sound/sound.c:106-142 | from 100 dB on the power table saturates, and full power maps to the largest duty cycle |
| Sound.Player.constructor | libMU/sound/sound.c:46-67 | initialization sets duty cycle 25, not playing, no repeats, no score |
| Sound.Player.SetVolume | libMU/sound/sound.c:102-145 | the duty cycle becomes the one the two tables give for the volume; nothing else changes |
| Sound.Player.SetSong | libMU/sound/sound.c:152-159 | a missing score or zero notes clears the score; otherwise the score and count are stored; nothing else changes |
| Plc.Be16 | libMU/plc.h:78 | two bytes, the high byte first (`htons` on the little-endian target) |
| Plc.Be32 | libMU/plc.h:99-100 | four bytes: the high half in network order, then the low half |
| Plc.FromBe16 | libMU/plc.h:158 | the value whose high and low bytes are the two bytes read (`ntohs`) |
| Plc.FromBe32 | libMU/plc.h:178-179 | the value whose high half is the first two bytes and low half the last two |
| Plc.Be16RoundTrip | libMU/plc.h:78-158 | a 16-bit value written in network order reads back unchanged |
| Plc.Be16Injective | libMU/plc.h:78-158 | any two bytes are the network order of the value read from them |
| Plc.Be32RoundTrip | libMU/plc.h:99-100 | a 32-bit value written in network order reads back unchanged |
| Plc.Be32Injective | libMU/plc.h:99-100 | any four bytes are the network order of the value read from them |
| Plc.Splice | libMU/plc.h:55-56 | writing into the window replaces exactly the bytes at the offset and keeps the rest |
| Plc.SendGuardsAgree | libMU/plc.h:52-54 | while the end of the variable fits in an `int`, the guard as written is the intended "variable inside the window" |
| Plc.SendGuardWraps | libMU/plc.h:52-54 | the guard as written accepts a byte at address 2^31 - 1 for a one-byte window at 0 |
| Plc.ReadDoubleAsWritten | libMU/plc.h:173-183 | as written, the first big-endian half lands in the low half of the result |
| Plc.DoubleHalvesSwapped | libMU/plc.h:92-104 | reading back a double word sent by `Send_MD` with `Receive_MD` as written swaps its halves |
| Plc.DoubleSwapExample | libMU/plc.h:92-183 | 0x00010002 sent reads back as 0x00020001 |
| Plc.Transfer.constructor | libMU/plc.h:23 | a record holds its first address, bit number and bytes |
| Plc.Transfer.SendByte | libMU/plc.h:50-60 | status 0 and the byte stored at its offset exactly when it lies inside the window; otherwise status 1 and nothing changes |
| Plc.Transfer.SendWord | libMU/plc.h:72-82 | status 0 and the word stored big-endian at its offset exactly when it fits the window; otherwise status 1 and nothing changes |
| Plc.Transfer.SendDouble | libMU/plc.h:92-104 | status 0 and the double word stored big-endian at its offset exactly when it fits the window; otherwise status 1 and nothing changes |
| Plc.Transfer.ReceiveBit | libMU/plc.h:115-124 | succeeds exactly for the record's bit and address with data, delivering the first byte; otherwise status 1 and the value untouched |
| Plc.Transfer.ReceiveByte | libMU/plc.h:135-143 | succeeds exactly when the record is the one-byte variable at the address, delivering its byte |
| Plc.Transfer.ReceiveWord | libMU/plc.h:154-162 | succeeds exactly when the record is the two-byte variable at the address, delivering the value the bytes encode |
| Plc.Transfer.ReceiveDouble | libMU/plc.h:173-183 | succeeds exactly when the record is the four-byte variable at the address, delivering the value the bytes encode in network order |
| Plc.WordRoundTrip | libMU/plc.h:72-162 | a word sent at the first address of a one-word record, which leaves the record's bytes as the word spliced in at offset 0, is received back unchanged |
| Plc.DoubleRoundTrip | libMU/plc.h:92-183 | a double word sent at the first address of a four-byte record, which leaves the bytes as the double word spliced in at offset 0, is received back unchanged by the corrected receive |
| Plc.SendReceiveWord | libMU/plc.h:72-162 | `Send_MW` then `Receive_MW` at the first address of a one-word record both succeed and the word comes back |
| Plc.SendReceiveDouble | libMU/plc.h:92-183 | `Send_MD` then the corrected `Receive_MD` at the first address of a double-word record both succeed and the double word comes back |
| Plc.SpliceWhole | libMU/plc.h:55 | sending at the record's first address a value of its size fills the whole record |
| Display.SetLow | libMU/display/display.c:84-89 | the byte keeps its high nibble and takes the new low nibble |
| Display.SetHigh | libMU/display/display.c:91-95 | the byte keeps its low nibble and takes the new high nibble |
| Display.Paint | libMU/display/display.c:84-95 | an odd pixel sets the low nibble to the intensity's low four bits, an even pixel the high nibble; the other nibble is kept |
| Display.MemoryImage.constructor | libMU/display/display.c:61-72 | an image starts with no buffer and size zero |
| Display.MemoryImage.Initialize | libMU/display/display.c:61-72 | an even width of 1..128 pixels and a height of 1..96 are stored (width in bytes, size, end of buffer); any other size changes nothing |
| Display.MemoryImage.DrawPixel | libMU/display/display.c:81-96 | exactly the byte of the pixel changes, painted with the intensity |
| Display.GetPosition | libMU/display/display.c:105-112 | the position of pixel (x, y) is the byte `y * width + x / 2` of its image, at column x |
| Display.MoveLeft | libMU/display/display.c:134-139 | the column decreases by one and the byte offset follows the column's pair |
| Display.MoveRight | libMU/display/display.c:145-150 | the column increases by one and the byte offset follows the column's pair |
| Display.MoveUp | libMU/display/display.c:156-161 | the byte offset moves back one image row |
| Display.MoveDown | libMU/display/display.c:167-174 | the byte offset moves on one image row |
| Display.MovesFollowPixels | libMU/display/display.c:105-174 | each move gives the position of the neighbouring pixel |
| Display.DrawAt | libMU/display/display.c:118-128 | a position outside the image's bytes changes nothing; inside, exactly that byte is painted |
| Display.Clamp | libMU/display/display.c:480-481 | a value inside the bounds is kept, one outside is moved to the nearer bound |
| Display.Viewport.constructor | libMU/display/display.c:412-418 | cursor at (0, 0), colour 15, and the initial viewport ranges |
| Display.Viewport.SetMinMaxRow | libMU/display/display.c:430-440 | the clamped rows are stored, with result 1, exactly when the comparison as written accepts them; otherwise result 0 and nothing changes |
| Display.Viewport.SetMinMaxCol | libMU/display/display.c:451-461 | the clamped columns are stored, with result 1, exactly when the comparison as written accepts them; otherwise result 0 and nothing changes |
| Display.Viewport.ResetViewport | libMU/display/display.c:466-472 | the viewport becomes the whole screen and the cursor is kept |
| Display.Viewport.SetLine | libMU/display/display.c:478-483 | the row becomes the requested one clamped into the viewport |
| Display.Viewport.SetPosition | libMU/display/display.c:490-498 | row and column become the requested ones clamped into the viewport |
| Display.Viewport.SetColor | libMU/display/display.c:504-507 | the colour kept is the low byte of the given `int` |
| Display.LowByte | libMU/display/display.c:506 | the low byte of a two's complement `int` is its remainder modulo 256 |
| Display.FullHeightRefused | libMU/display/display.c:436 | as written, the whole screen height is refused as a row range |
| Display.InvertedRowsAccepted | libMU/display/display.c:436 | as written, an inverted row range is accepted |
| Stats.SquareIsProduct | libMU/stats/stats.c:25 | the squared sample the accumulator adds is `value * value` |
| Stats.SquareFits | libMU/stats/stats.c:25 | the square of a 32-bit sample fits the 64-bit product |
| Stats.AddU64 | libMU/stats/stats.c:26-29 | the 64-bit sum wraps modulo 2^64, and comes out below the old field exactly when the true sum does not fit |
| Stats.Step | libMU/stats/stats.c:23-39 | after an update the count is at least one and the sample lies between the minimum and the maximum |
| Stats.Window | libMU/stats/stats.c:29-33 | the samples the sums cover are a non-empty suffix of all samples once there is one |
| Stats.RunIsExact | libMU/stats/stats.c:23-39 | the reset on overflow means no field ever wraps: sum, sum of squares and count are exact over the samples since the last reset |
| Stats.RunExtremes | libMU/stats/stats.c:37-38 | max and min are the largest and smallest sample since initialization, and 0 and `UINT32_MAX` before any |
| Stats.WindowBounded | libMU/stats/stats.c:29-38 | the samples the sums cover lie between min and max |
| Stats.SumBetween | libMU/stats.h:77-81 | n samples between lo and hi sum to between `n * lo` and `n * hi` |
| Stats.RoundedMean | libMU/stats.h:80 | `(sum + count/2) / count` is the mean rounded half up |
| Stats.MeanWithin | libMU/stats.h:79-80 | the rounded mean of samples in [lo, hi] stays in [lo, hi], and the 64-bit addition cannot wrap |
| Stats.MeanOfRun | libMU/stats.h:77-81 | after any updates the computed mean is the rounded mean of the samples since the last reset, between min and max |
| Stats.MeanOfTotals | libMU/stats.h:77-81 | the rounded mean of exact fields lies between min and max and cannot overflow |
| Stats.Accumulator.Initialize | libMU/stats.h:33-40 | no samples; sums and count 0, max 0, min `UINT32_MAX` |
| Stats.Accumulator.Update | libMU/stats/stats.c:23-39 | the fields become the step of the old ones with the sample, keeping them equal to the run of all samples so far |
| Stats.Accumulator.GetMaxValue | libMU/stats.h:57-60 | no sample exceeds the result, which is one of the samples, or 0 before any |
| Stats.Accumulator.GetMinValue | libMU/stats.h:67-70 | no sample is below the result, which is one of the samples, or `UINT32_MAX` before any |
| Stats.Accumulator.GetMeanValue | libMU/stats.h:77-81 | the mean of the samples since the last reset, rounded half up, between min and max |
| Random.WordTables | libMU/random/random.c:76-102 | the block words the three loops take are the word orders of the three rounds of MD4 (section 3.4 of RFC 1320) |
| Random.NextOffset | libMU/random/random.c:92-102 | the third loop's unsigned index update visits the offsets 0, 2, 1, 3 and then leaves the loop at 5 |
| Random.Words | libMU/random/random.c:18-37 | the 64-byte pool is read as sixteen words |
| Random.WordBytes | libMU/random/random.c:37 | word k holds pool byte 4k in its low byte and byte 4k + 3 in its high byte (little-endian target) |
| Random.RotlIsRotate | libMU/random/random.c:44 | the macros' shift-or is the circular left shift of MD4 |
| Random.SelectIsF | libMU/random/random.c:43 | `d ^ (b & (c ^ d))` is the select function F of MD4 |
| Random.MacroFIsOp | libMU/random/random.c:42-45 | macro F computes the round-1 operation of MD4 |
| Random.MacroGIsOp | libMU/random/random.c:47-51 | macro G computes the round-2 operation of MD4 |
| Random.MacroHIsOp | libMU/random/random.c:53-56 | macro H computes the round-3 operation of MD4 |
| Random.StepF | libMU/random/random.c:42-45 | one use of macro F gives the round-1 operation's new register |
| Random.StepG | libMU/random/random.c:47-51 | one use of macro G gives the round-2 operation's new register |
| Random.StepH | libMU/random/random.c:53-56 | one use of macro H gives the round-3 operation's new register |
| Random.Round1Step | libMU/random/random.c:78-81 | four F operations on the next four words advance round 1 by one line |
| Random.Round2Step | libMU/random/random.c:86-89 | four G operations on one column advance round 2 by one line |
| Random.Round3Step | libMU/random/random.c:94-97 | four H operations from one offset advance round 3 by one line |
| Random.LineF | libMU/random/random.c:78-81 | one pass of the first loop takes round 1 from word idx to idx + 4 |
| Random.RoundF | libMU/random/random.c:76-82 | the first loop computes round 1 of MD4 over the pool |
| Random.LineG | libMU/random/random.c:86-89 | one pass of the second loop takes round 2 one column further |
| Random.RoundG | libMU/random/random.c:84-90 | the second loop computes round 2 of MD4 |
| Random.LineH | libMU/random/random.c:94-97 | one pass of the third loop takes round 3 one line further |
| Random.RoundH | libMU/random/random.c:92-102 | the third loop, with its unsigned index trick, computes round 3 of MD4 |
| Random.Md4Seed | libMU/random/random.c:65-105 | the seed is the first word of the MD4 chaining value after one block, `A + 0x67452301` |
| Random.LcgBackLcg | libMU/random/random.c:117 | stepping back undoes a step: no two seeds have the same successor |
| Random.LcgLcgBack | libMU/random/random.c:117 | every 32-bit value is the successor of a seed: the step permutes the 2^32 states |
| Random.Lcg | libMU/random/random.c:117 | one step `seed * 1664525u + 1013904223u` modulo 2^32; its lowest bit differs from the seed's, so the lowest bit of successive values alternates |
| Random.MaskIsMod | libMU/random/random.c:39 | `(index + 1) & 63` is the next pool index modulo 64 |
| Random.Generator.constructor | libMU/random/random.c:18-35 | pool, index and seed start zeroed |
| Random.Generator.AddEntropy | libMU/random/random.c:32-40 | the byte is stored at the write index, which advances modulo 64; nothing else changes |
| Random.Generator.Initialize | libMU/random/random.c:65-105 | the seed becomes the MD4 first word of the pool; pool and index are kept |
| Random.Generator.GetValue | libMU/random/random.c:112-121 | the seed takes one generator step and the new seed is returned |
| Fifo.UsableBytes | libMU/FIFO/FIFO.c:24-42 | a block is accepted exactly when the unit is positive, the header fits and at least two whole elements remain after it; the usable bytes are a multiple of the unit that fits in the block with less than one unit wasted |
| Fifo.UsableBytesAsWritten | libMU/FIFO/FIFO.c:34 | with the 32-bit `unit_size<<1` the test agrees with the intended one for every unit below 2^31 |
| Fifo.ShiftWrapAcceptsOneElement | libMU/FIFO/FIFO.c:34 | a unit of 2^31 bytes in a block of 2^32 - 1 bytes is accepted as written although only one element fits |
| Fifo.Initialize | libMU/FIFO/FIFO.c:24-42 | NULL exactly for a NULL buffer or a rejected size; otherwise an empty FIFO over the caller's block with the usable size and zeroed indices |
| Fifo.Queue.constructor | libMU/FIFO/FIFO.c:35-40 | an empty ring over the block, indices and count zero |
| Fifo.Queue.Count | libMU/FIFO.h:50-53 | the count times the unit is the number of stored bytes |
| Fifo.Queue.IsEmpty | libMU/FIFO.h:60-63 | empty exactly when nothing is stored; otherwise at least one whole element is |
| Fifo.Queue.IsFull | libMU/FIFO.h:70-73 | full exactly when the stored bytes fill the storage |
| Fifo.Queue.Size | libMU/FIFO.h:79-82 | the capacity in elements, at least two, times the unit is the storage size |
| Fifo.Queue.SpaceLeft | libMU/FIFO.h:88-91 | capacity minus count, and that many units are free bytes |
| Fifo.Queue.PutChar | libMU/FIFO.h:100-106 | the byte is appended to the contents at the write index, which wraps at the size; the ring stays consistent |
| Fifo.Queue.GetChar | libMU/FIFO.h:115-122 | the oldest byte is returned and removed; the read index wraps at the size |
| Fifo.Queue.PutData | libMU/FIFO.h:130-136 | a whole element is appended in one piece at the write index without touching stored bytes |
| Fifo.Queue.GetData | libMU/FIFO.h:144-150 | the oldest element is returned and removed |
| Fifo.Queue.Reset | libMU/FIFO.h:157-160 | the FIFO is emptied; storage and unit are kept |
| Fifo.Queue.TailFits | libMU/FIFO.h:132 | when not full, a whole element fits at the write index without wrapping |
| Fifo.Queue.HeadFits | libMU/FIFO.h:146 | a whole element can always be read at the read index without wrapping |
| BufferQueue.Mask | libMU/serial/BufferQueue.h:18-20 | masking an 8-bit index with `BUFFER_QUEUE_MASK` is reducing it modulo 32 |
| BufferQueue.Next | libMU/serial/BufferQueue.h:62 | the next index is the successor modulo 32 |
| BufferQueue.Queue.constructor | libMU/serial/BufferQueue.h:22-27 | an empty queue of 32 descriptor slots with zeroed count and indices |
| BufferQueue.Queue.Count | libMU/serial/BufferQueue.h:32 | the count is the number of queued descriptors |
| BufferQueue.Queue.IsEmpty | libMU/serial/BufferQueue.h:37 | empty exactly when nothing is queued |
| BufferQueue.Queue.IsFull | libMU/serial/BufferQueue.h:42 | full exactly when 32 descriptors are queued |
| BufferQueue.Queue.Size | libMU/serial/BufferQueue.h:47 | the capacity is 32 |
| BufferQueue.Queue.SpaceLeft | libMU/serial/BufferQueue.h:52 | free slots plus queued descriptors make the capacity |
| BufferQueue.Queue.Put | libMU/serial/BufferQueue.h:59-63 | the descriptor is appended at the write slot and only that slot changes; the write index advances modulo 32 |
| BufferQueue.Queue.Get | libMU/serial/BufferQueue.h:70-74 | the oldest descriptor is returned and removed; the read index advances modulo 32 |
| BufferQueue.Queue.Reset | libMU/serial/BufferQueue.h:80 | the queue is emptied |
| Crc8.EntryIsReflected | libMU/ts27010/ts27010.c:110-130 | every one of the 256 table entries is its index run through eight shifts of the reflected CRC-8 register for polynomial 0x07 |
| Crc8.UpdateIsTableStep | libMU/ts27010/ts27010.c:486 | the table lookup `CRCtable[FCS ^ b]` is one reflected CRC step over the byte |
| Crc8.TableStep | libMU/ts27010/ts27010.c:486 | the lookup the code executes equals the CRC step |
| Crc8.FoldAppend | libMU/ts27010/ts27010.c:485-487 | the FCS register over a concatenation continues from the register over the first part |
| Crc8.FoldSnoc | libMU/ts27010/ts27010.c:485-487 | one more byte is one more table step |
| Crc8.FoldSingle | libMU/ts27010/ts27010.c:486 | a one-byte message is one table step from the seed |
| Crc8.ResidueOnlyFromComplement | libMU/ts27010/ts27010.c:504-505 | the register reaches 0xCF after the FCS byte exactly when that byte is the ones complement of the register before it |
| Crc8.FcsCalculate | libMU/ts27010/ts27010.c:482-489 | the result is the complemented register over the message from seed 0xFF, and folding it in reaches the residue 0xCF |
| Crc8.FcsCheck | libMU/ts27010/ts27010.c:498-506 | accepts exactly when the register after the FCS byte is 0xCF, which is exactly when the byte is the calculated FCS |
| Crc8.CheckAcceptsCalculated | libMU/ts27010/ts27010.c:482-506 | every message passes the check with the FCS calculated for it |
| MuxFrames.ExtensionBit | libMU/ts27010/ts27010.c:598 | the EA bit of a byte is the parity of the number it holds, and its upper seven bits are half of it |
| MuxFrames.LenField | libMU/ts27010/ts27010.c:390-401 | the length field is two bytes for blocks above 0x7F and one byte otherwise |
| MuxFrames.LenFieldDecodes | libMU/ts27010/ts27010.c:390-401 | for every length below 2^15 the field's EA bit says whether a second byte follows and the two parts give the length back |
| MuxFrames.CommandFrame | libMU/ts27010/ts27010.c:515-525 | five bytes: flag, address with EA set, command, FCS, flag |
| MuxFrames.CommandFrameChecks | libMU/ts27010/ts27010.c:520-522 | the FCS of a command frame passes the FCS check over address and command |
| MuxFrames.DataFrame | libMU/ts27010/ts27010.c:380-408 | a data frame is `frame_len` bytes: flag, address, UI or UIH control, length, payload, FCS, flag |
| MuxFrames.FrameLenMonotone | libMU/ts27010/ts27010.c:368-369 | a shorter block never needs a longer frame, so the space the code waits for always suffices |
| MuxFrames.Blocks | libMU/ts27010/ts27010.c:374-376 | the data is cut into non-empty blocks of `mtu` bytes, the last one possibly shorter |
| MuxFrames.BlocksFlatten | libMU/ts27010/ts27010.c:374-406 | the blocks, concatenated, are the data: nothing lost, duplicated or reordered |
| MuxFrames.FramesAreBlocks | libMU/ts27010/ts27010.c:374-417 | what `Send` writes is the data frames of the blocks, in order |
| MuxFrames.FrameCountIsBlocks | libMU/ts27010/ts27010.c:374-417 | one frame goes out per block |
| MuxFrames.SendPass | libMU/ts27010/ts27010.c:375-376 | one pass never raises `block_len`, and `len` drops by the new `block_len` |
| MuxFrames.ZeroMtuNeverFinishes | libMU/ts27010/ts27010.c:367-376 | with an MTU of 0 every pass leaves `len` unchanged, counts nothing as sent and emits an empty frame, so the loop never ends |
| MuxFrames.PassesSendAll | libMU/ts27010/ts27010.c:374-420 | with a positive MTU the loop ends after one pass per block, every byte counted as sent, the payloads being the blocks |
| MuxFrames.Empties | libMU/ts27010/ts27010.c:402-406 | the payloads of frames sent with a zero block length are all empty |
| MuxModel.Index | libMU/ts27010/ts27010.c:599-600 | `dlci >> 2` always names one of the 64 channels |
| MuxModel.DeliverTakesPrefix | libMU/ts27010/ts27010.c:658-661 | the queue takes the bytes that fit, in order, and every other byte is counted lost, with 32-bit wrap-around |
| MuxModel.DeliverTo | libMU/ts27010/ts27010.c:656-661 | delivery changes only the target channel's queue and the lost counter |
| MuxModel.Manage | libMU/ts27010/ts27010.c:527-565 | control commands keep the 64-channel table and the decoder |
| MuxModel.ManageEffects | libMU/ts27010/ts27010.c:527-565 | SABM connects and answers UA with P/F; DISC disconnects and answers UA when connected, DM otherwise, and on channel 0 restores the serial handler; UA and DM, with or without P/F, are counted; nothing else changes |
| MuxModel.ManageIgnoresDataFrames | libMU/ts27010/ts27010.c:561-563 | a UI or UIH control byte is not a command the handler acts on |
| MuxModel.OnAddress | libMU/ts27010/ts27010.c:595-607 | the address state keeps the receiver invariant |
| MuxModel.OnExtAddress | libMU/ts27010/ts27010.c:608-613 | the extended-address state keeps the receiver invariant |
| MuxModel.OnCommand | libMU/ts27010/ts27010.c:614-620 | the command state keeps the receiver invariant |
| MuxModel.OnLength | libMU/ts27010/ts27010.c:621-631 | the length state keeps the receiver invariant, a live destination never exceeding 128 bytes |
| MuxModel.OnLengthExt | libMU/ts27010/ts27010.c:632-638 | the extended-length state keeps the receiver invariant |
| MuxModel.OnPayload | libMU/ts27010/ts27010.c:639-648 | the data state keeps the receiver invariant: stored bytes stay inside `fsm_data` |
| MuxModel.OnChecksum | libMU/ts27010/ts27010.c:649-652 | the FCS state keeps the receiver invariant |
| MuxModel.FrameEnd | libMU/ts27010/ts27010.c:655-666 | a closing flag delivers or runs a command without touching the decoder, keeping every live destination backed by a queue |
| MuxModel.OnFlag | libMU/ts27010/ts27010.c:653-670 | the flag state keeps the receiver invariant |
| MuxModel.Step | libMU/ts27010/ts27010.c:592-672 | one byte of the state machine keeps the receiver invariant |
| MuxModel.StepIsDecoderStep | libMU/ts27010/ts27010.c:594-652 | before the closing flag a byte changes the receiver statics only |
| MuxModel.StepsAppend | libMU/ts27010/ts27010.c:677-684 | feeding two runs of bytes is feeding their concatenation |
| MuxModel.LengthFieldRoundTrip | libMU/ts27010/ts27010.c:621-638 | the LEN and LEN_EXT states read back every length field `Send` writes below 2^15, dropping the destination above 128 bytes, and change nothing outside the decoder |
| MuxModel.CommandFrameReachesManage | libMU/ts27010/ts27010.c:592-670 | a flag and a command frame with the correct FCS run the control-command handler once for that address and command and return to waiting for an address |
| MuxModel.StaleLengthSkipsManage | libMU/ts27010/ts27010.c:614-667 | a command frame after a data frame keeps the old non-zero `packet_size`, so on a connected channel it redelivers the stale bytes instead of running the command |
| MuxModel.ChecksumMismatchDiscards | libMU/ts27010/ts27010.c:650 | an FCS that does not complement the register drops the frame |
| MuxModel.DiscardedFrameChangesNothing | libMU/ts27010/ts27010.c:621-670 | once a data frame is dropped no byte up to the closing flag changes any queue, counter, reply or serial call |
| MuxModel.PayloadCollect | libMU/ts27010/ts27010.c:639-648 | the payload bytes land in `fsm_data` in order and enter the FCS only when `ui_enabled` |
| MuxModel.SkipPayload | libMU/ts27010/ts27010.c:640-647 | the payload of a dropped frame is counted but not stored |
| MuxModel.DataHead | libMU/ts27010/ts27010.c:595-620 | flag, address and control byte set up the decoder for the channel |
| MuxModel.DataFront | libMU/ts27010/ts27010.c:595-648 | every byte of a frame up to its FCS leaves the payload in `fsm_data` and the FCS register over the covered bytes |
| MuxModel.DataTail | libMU/ts27010/ts27010.c:649-667 | the right FCS and the closing flag deliver the payload to the channel's queue |
| MuxModel.DataFrameDelivered | libMU/ts27010/ts27010.c:592-672 | a data frame as `Send` writes it, with 1 to 128 bytes on a connected channel with a queue, hands the whole payload to that queue |
| MuxModel.SendAddressIsRawDlci | libMU/ts27010/ts27010.c:595-607 | the raw DLCI `Send` writes as the address is read back as channel `dlci / 4` when odd and as an extended address when even |
| MuxModel.OnFlagAsWritten | libMU/ts27010/ts27010.c:653-661 | the delivery loop reads past the 128-byte `fsm_data` exactly when a connected frame with a live destination counted more than 128 bytes; otherwise it agrees with the bounded step |
| MuxModel.OverReadStart | libMU/ts27010/ts27010.c:585-590 | a well-formed multiplexer waiting for an address with channel 1 connected |
| MuxModel.OversizeFrameDropped | libMU/ts27010/ts27010.c:621-670 | a frame announcing more than 128 bytes is dropped whatever its FCS, but leaves `packet_size` and `number_received` at the announced length |
| MuxModel.DroppedTail | libMU/ts27010/ts27010.c:649-670 | the FCS and flag of a dropped data frame change only the decoder |
| MuxModel.OverReadReachable | libMU/ts27010/ts27010.c:585-670 | an oversize frame followed by a command frame on the same connected channel makes the delivery loop read past `fsm_data` |
| Ts27010.PrepareCmd | libMU/ts27010/ts27010.c:515-525 | the FIFO gains exactly the five-byte command frame for `dlci \| EA` and the call returns 5 |
| Ts27010.PushAll | libMU/ts27010/ts27010.c:380-408 | successive `PutChar` calls append the bytes in order |
| Ts27010.Push | libMU/FIFO.h:100-106 | one `PutChar` appends the byte and uses one free place |
| Ts27010.PutHeader | libMU/ts27010/ts27010.c:380-389 | flag, address and UI/UIH control are appended and the FCS register holds the CRC over address and control |
| Ts27010.PutLength | libMU/ts27010/ts27010.c:390-401 | the length field is appended and folded into the FCS |
| Ts27010.PutPayload | libMU/ts27010/ts27010.c:402-406 | the block is appended and enters the FCS only when `ui_enabled` |
| Ts27010.PayloadStep | libMU/ts27010/ts27010.c:403-405 | one payload byte extends both the FIFO contents and, with `ui_enabled`, the FCS |
| Ts27010.PutTrailer | libMU/ts27010/ts27010.c:407-408 | the complemented FCS and the closing flag are appended |
| Ts27010.PutFrame | libMU/ts27010/ts27010.c:380-408 | exactly one data frame of the block is appended |
| Ts27010.AwaitSpace | libMU/ts27010/ts27010.c:378 | the wait ends with room for the frame; what the driver took is the front of the old contents |
| Ts27010.SendFrames | libMU/ts27010/ts27010.c:372-417 | every byte is counted as sent; the wire followed by the FIFO is the old FIFO followed by the frames of every block; one hand-off per frame |
| Ts27010.SendNext | libMU/ts27010/ts27010.c:375-416 | one pass moves the next block's frame from the frames still to write into the FIFO |
| Ts27010.SendBlock | libMU/ts27010/ts27010.c:378-408 | one pass waits for room and appends the block's frame |
| Ts27010.FrameCountStep | libMU/ts27010/ts27010.c:374-376 | each pass accounts for one frame |
| Ts27010.ManageKeepsWellFormed | libMU/ts27010/ts27010.c:527-565 | control commands keep the receiver invariant |
| Ts27010.ManageIgnores | libMU/ts27010/ts27010.c:561-563 | any other control byte changes nothing |
| Ts27010.ShiftHalves | libMU/ts27010/ts27010.c:623 | `c >> 1` is the byte's value halved |
| Ts27010.OrIsAdd | libMU/ts27010/ts27010.c:634 | with a low part below 128 the OR in LEN_EXT is an addition of `c * 128` |
| Ts27010.Multiplexer.constructor | libMU/ts27010/ts27010.c:585-590 | the zero-initialised channel table and receiver statics, with an empty ISR FIFO |
| Ts27010.Multiplexer.Connected | libMU/ts27010/ts27010.c:318-321 | the channel's connected flag |
| Ts27010.Multiplexer.Send | libMU/ts27010/ts27010.c:360-421 | returns 0 and writes nothing unless the channel is one of the 64, connected, has a queue and a positive MTU whose frame fits the FIFO; otherwise writes the frames of every MTU-sized block with the raw DLCI as address, hands each to the driver (high priority for DLCI 0), starts sending and returns the length |
| Ts27010.Multiplexer.Transmit | libMU/ts27010/ts27010.c:371-420 | the accepted case of `Send`: frames, hand-offs and the returned length |
| Ts27010.Multiplexer.GetQueue | libMU/ts27010/ts27010.c:691-695 | no queue above channel 63, otherwise the channel's queue |
| Ts27010.Multiplexer.ManageMuxLowLevel | libMU/ts27010/ts27010.c:527-565 | the table, counters, ISR FIFO and driver requests change exactly as the value model of control commands says |
| Ts27010.Multiplexer.CountUa | libMU/ts27010/ts27010.c:553-556 | the UA counter advances, wrapping at 8 bits |
| Ts27010.Multiplexer.CountDm | libMU/ts27010/ts27010.c:557-560 | the DM counter advances, wrapping at 8 bits |
| Ts27010.Multiplexer.Disconnect | libMU/ts27010/ts27010.c:531-546 | the DISC case as the value model gives it |
| Ts27010.Multiplexer.Establish | libMU/ts27010/ts27010.c:547-552 | the SABM case as the value model gives it |
| Ts27010.Multiplexer.Reply | libMU/ts27010/ts27010.c:534-550 | a reply frame is appended to the ISR FIFO |
| Ts27010.Multiplexer.BasicRxStateMachine | libMU/ts27010/ts27010.c:592-672 | one received byte moves the multiplexer exactly as the value model's `Step` |
| Ts27010.Multiplexer.DecodeByte | libMU/ts27010/ts27010.c:594-652 | the states before the flag change the receiver statics as `DecoderStep` and nothing else |
| Ts27010.Multiplexer.AddressByte | libMU/ts27010/ts27010.c:595-607 | the WAITING_ADDRESS state as the value model gives it |
| Ts27010.Multiplexer.ExtAddressByte | libMU/ts27010/ts27010.c:608-613 | the EXTADDRESS state as the value model gives it |
| Ts27010.Multiplexer.CommandByte | libMU/ts27010/ts27010.c:614-620 | the CMD state as the value model gives it |
| Ts27010.Multiplexer.LengthByte | libMU/ts27010/ts27010.c:621-631 | the LEN state as the value model gives it |
| Ts27010.Multiplexer.LengthExtByte | libMU/ts27010/ts27010.c:632-638 | the LEN_EXT state as the value model gives it |
| Ts27010.Multiplexer.JoinLength | libMU/ts27010/ts27010.c:634 | the 16-bit OR adds the high byte times 128 |
| Ts27010.Multiplexer.PayloadByte | libMU/ts27010/ts27010.c:639-648 | the DATA state as the value model gives it |
| Ts27010.Multiplexer.ChecksumByte | libMU/ts27010/ts27010.c:649-652 | the FCS state as the value model gives it |
| Ts27010.Multiplexer.FlagByte | libMU/ts27010/ts27010.c:653-670 | the FLAG_EXPECTED state as the value model gives it |
| Ts27010.Multiplexer.EndFrame | libMU/ts27010/ts27010.c:655-666 | delivery or control command as the value model gives it |
| Ts27010.Multiplexer.DeliverFrame | libMU/ts27010/ts27010.c:656-661 | the received bytes, at most 128, go to the channel's queue as `DeliverTo` says |
| Utf8.GetLength | libMU/utf/utf.c:19-40 | at most 4, and 0 exactly for a continuation byte or a 5/6-byte lead |
| Utf8.CheckChar | libMU/utf/utf.c:49-72 | either 0 or `len`; 1 always passes; 3 and 4 pass exactly when the following bytes are continuation bytes; 2 passes exactly when the second byte is NOT one, as written; other lengths fail |
| Utf8.Utf8Char | libMU/utf/utf.c:119-163 | length 0 exactly with the invalid value; otherwise the length the lead announces, a value below 2^31, inside the string when the lead is not its terminator |
| Utf8.PayloadBelow | libMU/utf/utf.c:130-160 | the shifted fields of the decoder never reach past the bits the lead leaves free |
| Utf8.LeadPayloadBound | libMU/utf/utf.c:159-160 | an `n`-byte character carries at most 31 bits, so the result fits in 32 bits |
| Utf8.DecodedLengthAgrees | libMU/utf/utf.c:19-40 | the decoder and the length function agree on the lengths RFC 3629 allows; the 5/6-byte forms have length 0 there |
| Utf8.EncLength | libMU/utf/utf.c:297 | between 1 and 6 bytes, one exactly up to 0x7F |
| Utf8.Encode | libMU/utf/utf.c:354-366 | the bytes written are as many as the counted length |
| Utf8.TailDigit | libMU/utf/utf.c:355-359 | each continuation byte holds `0x80` plus six bits of the value, the last byte the lowest |
| Utf8.TailRead | libMU/utf/utf.c:136-160 | continuation bytes written by the encoder pass the decoder's checks and fold back to the value |
| Utf8.ShiftBound | libMU/utf/utf.c:360-362 | the shifted top of a value never reaches the lead's marker bits |
| Utf8.Utf8RoundTrip | libMU/utf/utf.c:119-163 | every code point below 2^31 decodes back from its encoding, whatever follows |
| Utf8.LeadOfEncode | libMU/utf/utf.c:126-153 | the decoder reads the encoder's lead byte as announcing the encoding's length |
| Utf8.LeadAnnouncesLength | libMU/utf/utf.c:19-40 | the length function agrees with the encoder up to the 4-byte forms |
| Utf8.ScanBuffer | libMU/utf/utf.c:86-93 | the check stops at the end, at a 0 byte or before a character the end cuts, unless it fails (0) |
| Utf8.CheckBuffer | libMU/utf/utf.c:83-94 | the loop computes the scan: 0 for invalid data, otherwise the bytes checked |
| Utf8.CheckString | libMU/utf/utf.c:102-111 | 1 exactly when every character up to the terminator passes, 0 otherwise |
| Utf8.EncodingAccepted | libMU/utf/utf.c:49-111 | every one-, three- and four-byte encoding passes both checks |
| Utf8.TwoByteRejected | libMU/utf/utf.c:53 | every correct two-byte character fails both checks, because the second byte's test is inverted |
| Utf8.NulAfterLeadPasses | libMU/utf/utf.c:53 | a two-byte lead followed by the terminator passes, and the buffer check goes on past the 0 |
| Utf16.PairValue | libMU/utf/utf.c:174-176 | a surrogate pair gives a code point above the basic plane, up to U+10FFFF |
| Utf16.Utf16CharAsWritten | libMU/utf/utf.c:171-180 | one or two units are taken |
| Utf16.Utf16Char | libMU/utf/utf.c:171-180 | two units exactly for a high then a low surrogate, giving a point above the basic plane; otherwise the unit itself; never past the terminator |
| Utf16.MaskRanges | libMU/utf/utf.c:173 | the written mask 0xDC00 accepts the surrogate ranges and the same ranges 0x2000 higher |
| Utf16.MasksAgree | libMU/utf/utf.c:173 | below 0xF800 the written and the exact tests decode alike |
| Utf16.PrivateUseReadAsPair | libMU/utf/utf.c:173 | U+F800 U+FC00, two basic-plane characters, are read as written as the single pair U+10000 |
| Utf16.Utf32ToUtf16 | libMU/utf/utf.c:188-205 | a basic-plane point is one unit; beyond U+10FFFF gives 0 and 0xFFFF; in between a high and a low surrogate |
| Utf16.UnitsOf | libMU/utf/utf.c:232-237 | two units above the basic plane, one otherwise |
| Utf16.Utf16RoundTrip | libMU/utf/utf.c:171-205 | every point outside the surrogate range decodes back from its units, whatever follows |
| UtfStrings.DropChunk | libMU/utf/utf.c:226 | advancing past a character's units leaves the rest of the text |
| UtfStrings.Utf8ToUtf32String | libMU/utf/utf.c:255-274 | without a destination the number of characters up to the terminator or first invalid one; with one, as many of them as fit in `max_chars - 1`, then a 0, and nothing else touched |
| UtfStrings.Utf8ToUtf32Count | libMU/utf/utf.c:259-266 | the counting loop returns the number of characters |
| UtfStrings.Utf8ToUtf32Store | libMU/utf/utf.c:259-272 | the storing loop stores the first characters that fit and a 0 |
| UtfStrings.Utf16CountIsSize | libMU/utf/utf.c:229 | the count is the number of UTF-16 units of the conversion |
| UtfStrings.Stored16 | libMU/utf/utf.c:232-237 | never more units than places |
| UtfStrings.Stored16Prefix | libMU/utf/utf.c:232-237 | what is stored is the start of the conversion |
| UtfStrings.Stored16All | libMU/utf/utf.c:232-237 | when the whole conversion fits, all of it is stored |
| UtfStrings.Stored16Next | libMU/utf/utf.c:232-237 | one character that fits is the next units stored |
| UtfStrings.Utf16Overflow | libMU/utf/utf.c:233 | with room for the terminator only, "ab" still has both units stored as written, past the array |
| UtfStrings.Utf16AsWritten | libMU/utf/utf.c:221-237 | the units the store loop of `utf8_to_utf16_string` writes as written: at most two per byte read, and at most one per byte when fewer than two places are left at the start, because a pair is then always refused while a single unit never is |
| UtfStrings.Utf16AsWrittenWhenRoom | libMU/utf/utf.c:233 | when the whole text fits, the loop as written and the corrected one store the same units |
| UtfStrings.Utf8ToUtf16String | libMU/utf/utf.c:218-242 | without a destination the unit count; with one, the whole characters that fit below `max_chars`, then a 0, nothing else touched |
| UtfStrings.Utf8ToUtf16Count | libMU/utf/utf.c:222-229 | the counting loop returns the unit count |
| UtfStrings.Utf8ToUtf16Store | libMU/utf/utf.c:222-240 | the storing loop stores the whole characters that fit and a 0 |
| UtfStrings.PutUtf8 | libMU/utf/utf.c:354-366 | the character's encoding is written at the position and nothing else changes |
| UtfStrings.ShiftStep | libMU/utf/utf.c:355-359 | `uc >>= 6` moves to the next six bits |
| UtfStrings.Utf8Count32IsSize | libMU/utf/utf.c:346-349 | the count is the number of bytes of the conversion |
| UtfStrings.Stored8From32 | libMU/utf/utf.c:352 | never more bytes than places |
| UtfStrings.Stored8From32Prefix | libMU/utf/utf.c:352-370 | what is stored is the start of the conversion |
| UtfStrings.Stored8From32All | libMU/utf/utf.c:352-370 | when the whole conversion fits, all of it is stored |
| UtfStrings.Stored8From32Next | libMU/utf/utf.c:352-370 | one character that fits is the next bytes stored |
| UtfStrings.Utf32ToUtf8String | libMU/utf/utf.c:338-375 | without a destination the byte count; with one, the whole characters that fit below `max_chars`, then a 0, nothing else touched |
| UtfStrings.Utf32ToUtf8Count | libMU/utf/utf.c:342-349 | the counting loop returns the byte count |
| UtfStrings.Utf32ToUtf8Store | libMU/utf/utf.c:342-373 | the storing loop stores the whole characters that fit and a 0 |
| UtfStrings.Utf8Count16IsSize | libMU/utf/utf.c:297-300 | the count is the number of bytes of the conversion |
| UtfStrings.Stored8From16 | libMU/utf/utf.c:303 | never more bytes than places |
| UtfStrings.Stored8From16Prefix | libMU/utf/utf.c:303-321 | what is stored is the start of the conversion |
| UtfStrings.Stored8From16All | libMU/utf/utf.c:303-321 | when the whole conversion fits, all of it is stored |
| UtfStrings.Stored8From16Next | libMU/utf/utf.c:303-321 | one character that fits is the next bytes stored |
| UtfStrings.Utf16ToUtf8String | libMU/utf/utf.c:287-325 | without a destination the byte count; with one, the whole characters that fit below `max_chars`, then a 0, nothing else touched |
| UtfStrings.Utf16ToUtf8Count | libMU/utf/utf.c:291-300 | the counting loop returns the byte count |
| UtfStrings.Utf16ToUtf8Store | libMU/utf/utf.c:291-323 | the storing loop stores the whole characters that fit and a 0 |
| Parse.SkipBlanks | libMU/stdlib/stdlib.c:562 | the index reached has no blank, and every character skipped is a space or a tab |
| Parse.DigitsEnd | libMU/stdlib/stdlib.c:564 | the run stops at the first non-digit and covers only digits |
| Parse.Atoul | libMU/stdlib/stdlib.c:578-586 | the result is the number the digits after the blanks stand for, modulo 2^32 |
| Parse.Atoull | libMU/stdlib/stdlib.c:615-623 | the result is the number the digits after the blanks stand for, modulo 2^64 |
| Parse.Atoi | libMU/stdlib/stdlib.c:559-569 | the result is the signed number read (one optional '-'), reinterpreted in 32-bit two's complement |
| Parse.Atoll | libMU/stdlib/stdlib.c:596-606 | the result is the signed number read, reinterpreted in 64-bit two's complement |
| Parse.Digits32 | libMU/stdlib/stdlib.c:564-566 | the 32-bit accumulator is congruent modulo 2^32 to the number the digits stand for |
| Parse.Digits64 | libMU/stdlib/stdlib.c:601-603 | the 64-bit accumulator is congruent modulo 2^64 to the number the digits stand for |
| Parse.SignedStep32 | libMU/stdlib/stdlib.c:565 | one digit through `num *= 10; num += digit` in 32 bits keeps the congruence |
| Parse.SignedStep64 | libMU/stdlib/stdlib.c:602 | one digit in 64 bits keeps the congruence |
| Parse.SignedResult32 | libMU/stdlib/stdlib.c:567-568 | `sign ? -num : num` is the 32-bit reinterpretation of the signed value |
| Parse.SignedResult64 | libMU/stdlib/stdlib.c:604-605 | `sign ? -num : num` is the 64-bit reinterpretation of the signed value |
| Parse.AccumulateStep | libMU/stdlib/stdlib.c:583 | one digit of the accumulating loop keeps the accumulator congruent to the digits read |
| Parse.SkipTo | libMU/stdlib/stdlib.c:562 | blanks up to a non-blank are skipped exactly to it |
| Parse.DigitsTo | libMU/stdlib/stdlib.c:564 | digits up to a non-digit end the run exactly there |
| Parse.ReadsNumeral | libMU/stdlib/stdlib.c:564-566 | a decimal numeral followed by a non-digit is read back as its number |
| Parse.UnsignedRoundTrip | libMU/stdlib/stdlib.c:578-586 | any numeral after blanks and before a non-digit is read back, exactly so below 2^32 |
| Parse.SignedRoundTrip | libMU/stdlib/stdlib.c:559-569 | the signed decimal text of any number is read back, exactly so for every 32-bit value |
| Numerals.Pow | libMU/stdlib/stdlib.c:207 | powers are positive |
| Numerals.Numeral | libMU/stdlib/stdlib.c:209-218 | a numeral has at least one digit |
| Numerals.NumeralLength | libMU/stdlib/stdlib.c:207-215 | a numeral has at most k digits exactly when the number is below base^k |
| Numerals.NumeralLeading | libMU/stdlib/stdlib.c:211-212 | a positive number's numeral does not start with 0 |
| Numerals.NumeralLast | libMU/stdlib/stdlib.c:233-234 | the last digit is the remainder by the base |
| Numerals.NumeralTop | libMU/stdlib/stdlib.c:210 | dividing by base^k drops the last k digits |
| Numerals.DivDivision | libMU/stdlib/stdlib.c:210 | dividing by p and then by b is dividing by b·p |
| Numerals.QuotientBelow | libMU/stdlib/stdlib.c:210 | the quotient by b is below p exactly when the number is below b·p |
| Numerals.DigitValue | libMU/stdlib/stdlib.c:565 | `c - '0'` is below ten and is the digit written `c` |
| Numerals.DecimalValue | libMU/stdlib/stdlib.c:564-566 | reading a decimal numeral back gives its number |
| Numerals.PowTen | libMU/stdlib/stdlib.c:207 | the first divisor is 10^9, and 10^10 exceeds every 32-bit value |
| NumberText.UintToStr | libMU/stdlib/stdlib.c:198-244 | nothing is written when there is no room; otherwise the characters written from `at` are exactly `UintText` of the number (left text or right field per the normalised justification) and nothing outside them changes; this is the corrected field, where the C text differs when the digits cut off are zeros (see Findings) |
| NumberText.WriteLeft | libMU/stdlib/stdlib.c:206-226 | the left-justified branch writes the corrected `LeftText` of the (signed) numeral: as much of it as fits, spaces up to the width, the mark on the last character when digits were left over |
| NumberText.LeftDigits | libMU/stdlib/stdlib.c:254-269 | the sign, the top-down digits and the '0' for zero are the start of the signed numeral, all of it exactly when every place was visited; the corrected loop writes the '0' only when there is room for it |
| NumberText.TopDown | libMU/stdlib/stdlib.c:207-215 | the top-down loop from 10^9 writes the leading digits of the number with leading zeros skipped, as many as fit; a full room means the numeral is longer |
| NumberText.PadSpaces | libMU/stdlib/stdlib.c:219-221 | spaces are written up to the width within the room, and nothing else changes |
| NumberText.MarkedDigits | libMU/stdlib/stdlib.c:227-243 | the right-justified field holds the fill and then the digits (`RightText`), with the mark on its first character when the number did not fit |
| NumberText.RightDigits | libMU/stdlib/stdlib.c:228-239 | the backward digit loop and the fill leave the numeral right-aligned in the field, cut to its last digits; what remains of the number is nonzero exactly when the numeral is longer than the field |
| NumberText.PutNumber | libMU/stdlib/stdlib.c:229-236 | the digits written end at the field's end and are the last digits of the numeral (all of them when nothing remains) |
| NumberText.PutDigit | libMU/stdlib/stdlib.c:232-235 | one pass writes the next numeral digit from the right and divides the number by the base |
| NumberText.FillBack | libMU/stdlib/stdlib.c:237-239 | the characters before the digits, down to the field start, become the fill and nothing else changes |
| NumberText.IntToStr | libMU/stdlib/stdlib.c:246-307 | nothing is written when there is no room; otherwise the characters written are exactly `IntText` of the signed number and nothing outside them changes; at INT_MIN this is the corrected field, where the C text differs in both branches (see Findings) |
| NumberText.LeftSigned | libMU/stdlib/stdlib.c:254-277 | the left-justified branch writes `LeftText` of the signed decimal text |
| NumberText.RightSigned | libMU/stdlib/stdlib.c:278-306 | the right-justified branch writes the zero-filled field for '0' and the space-filled `RightText` of the signed text otherwise |
| NumberText.ZeroDigits | libMU/stdlib/stdlib.c:288-294 | the zero-filled field is `ZeroFilled`: the digits behind zeros, the first zero replaced by '-', and the mark when digits were left over or no zero took the sign |
| NumberText.SignedDigits | libMU/stdlib/stdlib.c:295-305 | the space-filled field is `RightText` of the signed text: the sign before the digits when there is room, the mark when the digits or the sign were left over |
| NumberText.SignBeforeDigits | libMU/stdlib/stdlib.c:283-298 | the characters written are the end of the signed numeral; the flag is set exactly when part of it, digits or sign, did not fit |
| NumberText.UintToHex | libMU/stdlib/stdlib.c:309-332 | nothing is written when there is no room; otherwise the characters written are `HexText`: width 8 by default, '0' as the default fill, the last hexadecimal digits right-aligned, no mark |
| NumberFields.LeftShape | libMU/stdlib/stdlib.c:206-226 | a left-justified field is the text padded to the width within the room, and carries the mark exactly when the text is longer than the room |
| NumberFields.RightShape | libMU/stdlib/stdlib.c:227-243 | a right-justified field has exactly its width, carries the mark exactly when the text is longer than the width, and otherwise is the fill followed by the text |
| NumberFields.UintShape | libMU/stdlib/stdlib.c:198-244 | the field of `libMU_uint_to_str` has the width promised and is marked exactly when the digits do not fit in the room |
| NumberFields.IntShape | libMU/stdlib/stdlib.c:246-307 | the field of `libMU_int_to_str` has the width promised and is marked exactly when the signed text does not fit in the room |
| NumberFields.UintRoundTrip | libMU/stdlib/stdlib.c:578-586 | `libMU_atoul` reads back the unsigned number written by `libMU_uint_to_str` whenever it fits, for every justification |
| NumberFields.IntRoundTrip | libMU/stdlib/stdlib.c:559-569 | `libMU_atoi` reads back the signed number written by `libMU_int_to_str` whenever it fits, for every justification |
| NumberFields.HexWhole | libMU/stdlib/stdlib.c:309-332 | without a width and with room for eight characters, all the hexadecimal digits of a 32-bit value appear behind the fill in a field of eight |
| NumberFields.LeadingZeros | libMU/stdlib/stdlib.c:564 | zeros before a digit run do not change the value the parsers read |
| NumberFields.TrailingZerosUnflagged | libMU/stdlib/stdlib.c:222-224 | as written, 1000 in a room of two is "10" with no mark (the remaining `num` is zero), where the corrected field is "1#" |
| NumberFields.NegativeOverrun | libMU/stdlib/stdlib.c:257-269 | as written, a negative number in a room of one writes two characters ("-#"): the '0' for no digit goes one past the room |
| NumberFields.NegateAsWritten | libMU/stdlib/stdlib.c:251-253 | `num = -num` on a 32-bit int as written: the negation for every value but `INT_MIN`, which stays `INT_MIN` |
| NumberFields.DownAsWritten | libMU/stdlib/stdlib.c:260-266 | the top-down loop of the left branch as written: digits from the first non-zero one, never more than the room left, and what remains of `num` when the room or the divisor runs out |
| NumberFields.LeftFinish | libMU/stdlib/stdlib.c:267-275 | what the left branch writes after that loop: the '0' for no digit written without a room check, spaces only while there is room, so the field passes the size only by that '0', and the mark on the last character exactly when `num > 0` remains, the start untouched otherwise |
| NumberFields.LeftAsWritten | libMU/stdlib/stdlib.c:254-277 | the left branch as written: the '-' first for a negative number, and a field that passes the size only when the sign leaves no room and the '0' for no digit is still written (size 1) |
| NumberFields.RightAsWritten | libMU/stdlib/stdlib.c:278-306 | the right branch of `libMU_int_to_str` as written: exactly w characters, and a negative number keeps its '-' somewhere in the field or has its first character marked |
| NumberFields.DownWrites | libMU/stdlib/stdlib.c:260-266 | with room for what the remaining places still need, the top-down loop as written completes the numeral from the digits already shown and leaves nothing of the number over |
| NumberFields.TopDigits | libMU/stdlib/stdlib.c:255-266 | from the divisor 10^9, the top-down loop writes the numeral of any number below 10^10 that fits in the room, nothing for zero, and leaves nothing over |
| NumberFields.LeftFinishFits | libMU/stdlib/stdlib.c:267-275 | after a loop that left nothing over, the '0' for no digit, the padding and the absent mark give the corrected left-justified field |
| NumberFields.LeftAsWrittenFits | libMU/stdlib/stdlib.c:254-275 | for a number below 10^10 whose sign and digits fit in the room, the left-justified branch as written equals the corrected field |
| NumberFields.LeftAsWrittenAgrees | libMU/stdlib/stdlib.c:251-275 | for every int except INT_MIN whose signed text fits, the left-justified branch as written, after `num = -num`, is the corrected `IntText` field |
| NumberFields.SignOnly | libMU/stdlib/stdlib.c:278-306 | a number still negative after the negation gets no digit from the bottom-up loop: the field is '-' then zeros with '0' fill, spaces then '-' otherwise, with no mark |
| NumberFields.LeastNegation | libMU/stdlib/stdlib.c:252 | `num = -num` in 32-bit arithmetic leaves INT_MIN unchanged |
| NumberFields.UpAsWritten | libMU/stdlib/stdlib.c:283-286 | the bottom-up digit loop as written writes at most the field's width and writes nothing exactly when the room is empty or `num` is not above zero |
| NumberFields.LeastIntRight | libMU/stdlib/stdlib.c:251-306 | as written, INT_MIN right-justified in a field of five reads "-0000" with '0' fill and "    -" with ' ' fill, unmarked, where the corrected fields carry the mark |
| NumberFields.LeastIntAsZero | libMU/stdlib/stdlib.c:251-266 | as written, INT_MIN stays negative after `num = -num`, no digit is written and the field reads "-0", where the corrected field is the full eleven-character text |
| Printf.Vsnprintf | libMU/stdlib/stdlib.c:71-192 | nothing is written and 0 is returned for a missing buffer, a size below one or a missing format; otherwise the buffer holds the rendered text, with numbers in the corrected fields (at most size - 1 characters), followed by a NUL, the length of that text is returned, and nothing after the NUL changes |
| Printf.Format | libMU/stdlib/stdlib.c:77-188 | the formatting loop writes exactly the rendering of the format within the room and leaves the rest of the buffer alone |
| Printf.OnePass | libMU/stdlib/stdlib.c:77-188 | one pass of the loop writes the start of the remaining rendering and moves past at least one format character; after an unknown conversion nothing remains to write |
| Printf.WriteLiteral | libMU/stdlib/stdlib.c:78-86 | a plain character is copied and `%%` writes one '%', one character of the rendering |
| Printf.ReadSpec | libMU/stdlib/stdlib.c:88-109 | the fill, width and precision are read as `ParseSpec` defines them: fill ' ' or '0' with repeats skipped, width from a digit 1-9 on or -1, precision after '.' or -1 |
| Printf.ParseSpec | libMU/stdlib/stdlib.c:88-109 | the conversion character lies after the directive's start, the width is -1 or at least one, the precision at least -1 |
| Printf.SkipRun | libMU/stdlib/stdlib.c:89-92 | the loop stops at the end of the run of fill characters |
| Printf.ReadNumber | libMU/stdlib/stdlib.c:95-106 | the digits read accumulate the value of the decimal run, and reading stops at its end |
| Printf.Width | libMU/stdlib/stdlib.c:95-100 | a width read from a digit 1-9 on is at least one and is the value of the digit run |
| Printf.WriteConversion | libMU/stdlib/stdlib.c:111-187 | the switch writes the start of the remaining rendering; an unknown conversion ends it |
| Printf.WriteArg | libMU/stdlib/stdlib.c:113-158 | a known conversion writes the text `ArgText` defines for its argument, within the room |
| Printf.WriteNumber | libMU/stdlib/stdlib.c:133-152 | `%i`/`%d`, `%u` and `%x`/`%X` write the corrected `IntText`, `UintText` and `HexText` of the argument in the room left |
| Printf.WriteStr | libMU/stdlib/stdlib.c:113-132 | `%s` writes the fill, the shown part of the string and the trailing spaces as `StrText` defines them, within the room |
| Printf.StrLayout | libMU/stdlib/stdlib.c:115-130 | no more of the string than its length before the NUL is shown and the three parts fit in the room |
| Printf.Shown | libMU/stdlib/stdlib.c:116-118 | the part of the string shown is no longer than the string and, when a width is given, no longer than the width |
| Printf.StrWidth | libMU/stdlib/stdlib.c:113-132 | `%Ns` with N > 0 writes exactly N characters clipped to the room: the fill before the shown string, or spaces after it without a fill |
| Printf.PutStr | libMU/stdlib/stdlib.c:119-130 | the `memset`, `memcpy`, `memset` sequence leaves fill, string prefix and spaces in that order |
| Printf.FillChars | libMU/stdlib/stdlib.c:122 | `memset` writes k copies of the character and nothing else changes |
| Printf.CopyChars | libMU/stdlib/stdlib.c:125 | `memcpy` writes the first k characters of the string and nothing else changes |
| Printf.WriteError | libMU/stdlib/stdlib.c:181-187 | an unknown conversion writes the width (or three) error characters, clipped to the room |
| Printf.UnknownStops | libMU/stdlib/stdlib.c:177-187 | the rendering at an unknown conversion is its error characters and nothing after them |
| Printf.Strlen | libMU/stdlib/stdlib.c:116 | the length is the position of the first NUL, or the whole string when there is none |
| Printf.PlainText | libMU/stdlib/stdlib.c:77-86 | a format without directives is copied with `%%` read as '%', as far as the room goes, and takes no argument |
| Printf.Lone | libMU/stdlib/stdlib.c:112-158 | a format that is one bare directive writes what its conversion writes for the argument |
| Printf.IntReadsBack | libMU/stdlib/stdlib.c:133-139 | `%d` with room for eleven characters writes the number, in the corrected field, so that `libMU_atoi` reads it back |
| Printf.UintReadsBack | libMU/stdlib/stdlib.c:140-145 | `%u` with room for ten characters writes the number so that `libMU_atoul` reads it back |
| Printf.Render | libMU/stdlib/stdlib.c:77-188 | the rendering of a format, with numbers in the corrected fields, never needs more than the room the loop has (`buf < end`) |
| Printf.ArgText | libMU/stdlib/stdlib.c:113-158 | the text of a known conversion with an argument of its kind, numbers in the corrected fields, fits in the room left |

## Left out

- Hardware and operating system: the FreeRTOS tasks, queues, ticks and timeouts, and UART register access are not modelled. This covers `libMU_TS27010_MuxManager`, `SendATcmd`, `Connect`, `GetLine`, `GetData`, `ConnectionTest`, `Initialize`, the register loop of `RxHandlerBasic` and the serial driver. The calls the multiplexer hands to the serial driver are kept as a log of values; a reception queue is a bounded sequence of bytes.
- Busy-waiting for FIFO room in `libMU_TS27010_Send` is modelled by the driver draining bytes from the front of the FIFO (`Ts27010.AwaitSpace`); how long that takes is not modelled.
- Floating point: `libMU_double_to_str`, `libMU_double_to_exp_str`, `frexp10`, the `%f`/`%g` conversions of `LIBMU_SNPRINTF_USE_FLOAT`, and `GetVariance`/`GetStdDev` of the statistics.
- `libMU_snprintf` (libMU/stdlib/stdlib.c:51-60) makes the same checks as `libMU_vsnprintf` and passes its arguments on, so it is `Printf.Vsnprintf` with the variadic arguments given as a sequence; `va_list` itself is not modelled.
- The PWM hardware and the player task of the sound module, the OLED driver, and the display's printf and drawing routines are not modelled.
- Printf.Vsnprintf: requires every argument to have the kind its conversion reads and to be there (C leaves a mismatch undefined). Widths and precisions so large that the C `int` accumulator overflows are not modelled. The format is the text before its first NUL.
- Printf.Vsnprintf, Printf.WriteNumber, Printf.ArgText, Printf.Render and Printf.IntReadsBack: `%d`/`%i` and `%u` are rendered with the corrected fields of the number formatters (the stdlib.c:206-224, 257-274, 251-266 and 251-306 Findings), not with `libMU_int_to_str`/`libMU_uint_to_str` as written. So the model does not capture three differences in the C output. First, `snprintf(buf, 2, "%d", -5)` writes "-#", puts its NUL at `buf[2]` past the array, and returns 2, the size. Second, `%d` of INT_MIN prints "-0", which `libMU_atoi` reads as 0. Third, `%u` of 1000 with two places left prints "10" with no mark.
- Ts27010.Multiplexer.Send: a `dlci` outside 0..63 returns 0. The C code indexes `libMU_TS27010_DLCInfo[dlci]` before its range check (libMU/ts27010/ts27010.c:364-365), which reads outside the table.
- Ts27010.Multiplexer.BasicRxStateMachine, Ts27010.Multiplexer.ManageMuxLowLevel, Ts27010.Multiplexer.FlagByte, Ts27010.Multiplexer.EndFrame, Ts27010.Multiplexer.Establish, Ts27010.Multiplexer.Disconnect, Ts27010.Multiplexer.Reply and Ts27010.PrepareCmd: require room for a 5-byte command frame in the FIFO. `libMU_FIFO_PutChar` does not check for room, and an overfull FIFO corrupts itself.
- Fifo.Queue.PutChar, Fifo.Queue.PutData, Fifo.Queue.GetChar and Fifo.Queue.GetData: require a FIFO that is not full (for a put) or not empty (for a get); the C functions state that they do not check. The byte functions are used on FIFOs of 1-byte units only.
- BufferQueue.Queue.Put and BufferQueue.Queue.Get: require a queue that is not full or not empty, for the same reason as the FIFO.
- Display.MemoryImage.DrawPixel: requires a pixel inside the image, because the C bounds check is commented out (libMU/display/display.c:81) and a pixel outside writes outside the buffer.
- Display.MemoryImage.Initialize and Fifo.Initialize: require the caller's block to be as large as the sizes passed in.
- Sound.Interpolate: requires `val_max / (table_size - 1)` to be nonzero for a table of at least one entry. The C code divides by it unchecked (libMU/sound/sound.c:77-78).
- Stats.Accumulator.GetMeanValue: requires at least one sample; the C code divides by `count`.
- Gpio.Id, Gpio.WholePort, Gpio.PortStatus.RisingEdge and Gpio.PortStatus.FallingEdge: require a port below `GPIO_PORTS` (7). The C code indexes `libMU_GPIO_PortStatus` unchecked.
- UtfStrings.Utf8ToUtf32String, UtfStrings.Utf8ToUtf16String, UtfStrings.Utf32ToUtf8String and UtfStrings.Utf16ToUtf8String: with a destination, require `max_chars` of at least 1 and an array of that many elements. With `max_chars == 0`, the C `max_chars--` wraps and the destination is unbounded.
- The entropy sources that feed `libMU_Random_AddEntropy` are parameters.
- The 5-bit reading of `GetFullStatus` is a parameter to the button functions, and so is the live port reading to the GPIO functions.

## Findings

| source | as written | input that shows it | evidently intended | confidence | as-written member | corrected member |
|---|---|---|---|---|---|---|
| libMU/ts27010/ts27010.c:655-661 | the delivery loop at the closing flag reads `fsm_data[i]` for every `i < number_received`; a command frame does not reset `packet_size` or `number_received` | a UI frame on channel 1 announcing 129 bytes (dropped), then a SABM frame on the same channel: the loop reads `fsm_data[128]`, past the 128-byte array | deliver at most the 128 bytes that were stored | not executed | MuxModel.OverReadReachable | MuxModel.FrameEnd |
| libMU/ts27010/ts27010.c:367-378 | a channel whose MTU is 0 passes every check, and `block_len = 0` never lowers `len` | `Send` with `mtu == 0` and any non-empty data: the loop runs forever, queueing an empty frame per pass | refuse a zero MTU and return 0 | not executed | MuxFrames.ZeroMtuNeverFinishes | Ts27010.Multiplexer.Send |
| libMU/FIFO/FIFO.c:34 | the two-element test compares with `unit_size << 1` in 32 bits | `size = 0xFFFFFFFF`, `unit_size = 0x80000000`: the shift gives 0 and a FIFO of one element is accepted | reject blocks with room for fewer than two elements | not executed | Fifo.ShiftWrapAcceptsOneElement | Fifo.UsableBytes |
| libMU/plc.h:50-60 | the window test computes `address + sizeof(...)` in `int` | a window of one byte at 0 and `address = INT_MAX`: the end wraps negative and the byte is written far outside the window | write only when the whole variable lies inside the window | not executed | Plc.SendGuardWraps | Plc.Transfer.SendByte |
| libMU/plc.h:173-183 | `Receive_MD` stores the first big-endian half in `val[0]`, the low half on the little-endian target | a double word sent by `Send_MD` and received back: its two 16-bit halves come back swapped | the first half is the high half, as `Send_MD` wrote it | not executed | Plc.DoubleHalvesSwapped | Plc.DoubleRoundTrip |
| libMU/utf/utf.c:173 | surrogates are tested with the mask `0xDC00`, which leaves bit 13 out | the units U+F800 U+FC00 (two private-use characters) are read as the pair U+10000 | test with the mask `0xFC00` | not executed | Utf16.PrivateUseReadAsPair | Utf16.Utf16RoundTrip |
| libMU/utf/utf.c:221-237 | only a surrogate pair is checked against the room left; a single unit is stored whatever the room | `max_chars == 1` and the text "ab": both units are stored, past the end of the destination | store a unit only while one place is left for it and the terminator | not executed | UtfStrings.Utf16Overflow | UtfStrings.Stored16Prefix |
| libMU/stdlib/stdlib.c:206-224 | the mark of a number that does not fit depends on `num > 0` after the loop, and the digits cut off may all be zeros | 1000 left-justified in a field of two characters is written "10", with no mark | mark the field whenever digits were left over: "1#" | not executed | NumberFields.TrailingZerosUnflagged | NumberFields.UintShape |
| libMU/stdlib/stdlib.c:257-274 | the '0' for no digit is written even when the '-' has filled the room | -5 left-justified with room for one character: "-" then '0' one past the room, marked, two characters written | write nothing past the room; the field is "#" | not executed | NumberFields.NegativeOverrun | NumberFields.IntShape |
| libMU/stdlib/stdlib.c:251-266 | `num = -num` on `INT_MIN` leaves it negative, so every digit of the top-down loop is negative and none is written | `INT_MIN` left-justified in a field of twelve: "-0" | negate in unsigned arithmetic and write "-2147483648" | not executed | NumberFields.LeastIntAsZero | NumberFields.IntRoundTrip |
| libMU/stdlib/stdlib.c:251-306 | after the same `num = -num`, the bottom-up loop of the right-justified branch does not run for `INT_MIN`, the sign is placed and no mark is set | `INT_MIN` right-justified in a field of five: "-0000" with '0' fill, "    -" with ' ' fill | mark the field that cannot hold the eleven characters of "-2147483648" | not executed | NumberFields.LeastIntRight | NumberFields.IntShape |
