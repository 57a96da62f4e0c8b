/**
 * The OLED display helpers that do not touch the hardware: memory images
 * packing two 4-bit grey pixels per byte (the even pixel in the high
 * nibble), pixel positions that walk over such an image, and the text
 * viewport and cursor used by the display's printf.
 */
module Display {
  import opened Ints

  const ResX: int := 128
  const ResY: int := 96
  const CharWidth: int := 6
  const CharHeight: int := 8

  /** A byte with its low nibble replaced by `v`. */
  function SetLow(b: u8, v: int): (r: u8)
    requires 0 <= v < 16
    ensures r / 16 == b / 16 && r % 16 == v
  {
    DivModUnique(b / 16 * 16 + v, 16, b / 16, v);
    b / 16 * 16 + v
  }

  /** A byte with its high nibble replaced by `v`. */
  function SetHigh(b: u8, v: int): (r: u8)
    requires 0 <= v < 16
    ensures r / 16 == v && r % 16 == b % 16
  {
    DivModUnique(v * 16 + b % 16, 16, v, b % 16);
    v * 16 + b % 16
  }

  /**
   * The byte holding pixel `x` after drawing it with `intensity`: an odd `x`
   * is the low nibble, an even one the high nibble. The intensity is cut to
   * four bits (`& 0xF`, which on a two's complement `int` is the Euclidean
   * remainder).
   */
  function Paint(b: u8, x: int, intensity: int): (r: u8)
    ensures x % 2 == 1 ==> r / 16 == b / 16 && r % 16 == intensity % 16
    ensures x % 2 == 0 ==> r / 16 == intensity % 16 && r % 16 == b % 16
  {
    if x % 2 == 1 then SetLow(b, intensity % 16) else SetHigh(b, intensity % 16)
  }

  /** A memory image: `width` is in bytes (half the pixels), `end` is an offset from the start of the buffer. */
  class MemoryImage {
    var buffer: array?<u8>
    var width: u16
    var height: u16
    var size: u32
    var end: nat

    /** The end lies inside the buffer, and at its start when there is none. */
    predicate Valid()
      reads this
    {
      (buffer == null ==> end == 0) && (buffer != null ==> end <= buffer.Length)
    }

    constructor ()
      ensures Valid() && buffer == null && width == 0 && height == 0 && size == 0
    {
      buffer, width, height, size, end := null, 0, 0, 0, 0;
    }

    /**
     * Accepts an even width of 1 to 128 pixels and a height of 1 to 96; any
     * other size leaves the image as it was. The buffer must hold the image.
     */
    method Initialize(buf: array?<u8>, w: i32, h: i32)
      requires buf != null && 1 <= w <= ResX && 1 <= h <= ResY && w % 2 == 0 ==> w / 2 * h <= buf.Length
      requires Valid()
      modifies this
      ensures Valid()
      ensures !(1 <= w <= ResX && 1 <= h <= ResY && w % 2 == 0) ==>
        buffer == old(buffer) && width == old(width) && height == old(height) && size == old(size) && end == old(end)
      ensures 1 <= w <= ResX && 1 <= h <= ResY && w % 2 == 0 ==>
        buffer == buf && width == w / 2 && height == h && size == w / 2 * h &&
        end == (if buf == null then 0 else size)
    {
      if w < 1 || w > ResX || h < 1 || h > ResY || w % 2 == 1 {
        return;
      }
      var half := w / 2;
      ProductBound(half, h);
      buffer := buf;
      width := half;
      height := h;
      size := half * h;
      if buf == null {
        end := 0;
      } else {
        end := size;
      }
    }

    /** The byte of pixel (x, y); negative `x` shifts arithmetically, which is floor division. */
    function Index(x: int, y: int): int
      reads this
    {
      y * width + x / 2
    }

    /** Sets one pixel. Nothing is checked: the pixel must lie inside the buffer. */
    method DrawPixel(x: int, y: int, intensity: int)
      requires buffer != null && 0 <= Index(x, y) < buffer.Length
      modifies buffer
      ensures buffer[..] == old(buffer[..])[Index(x, y) := Paint(old(buffer[Index(x, y)]), x, intensity)]
    {
      var i := y * width + x / 2;
      buffer[i] := Paint(buffer[i], x, intensity);
    }
  }

  /** An image of at most 64 bytes by 96 rows fits the 32-bit size. */
  lemma ProductBound(a: int, b: int)
    requires 0 <= a <= 64 && 0 <= b <= 96
    ensures 0 <= a * b <= 64 * 96
  {
    MulMonotone(a, 64, b);
  }

  /** A pixel position: the byte offset `pos` from the start of the image and the column `x`. */
  datatype Position = Position(pos: int, x: int, mi: MemoryImage)

  /** The position of pixel (x, y). */
  function GetPosition(mi: MemoryImage, x: int, y: int): (p: Position)
    reads mi
    ensures p.mi == mi && p.x == x && p.pos == mi.Index(x, y)
  {
    Position(y * mi.width + x / 2, x, mi)
  }

  /** The byte pointer moves back only when leaving the high (even) nibble. */
  function MoveLeft(p: Position): (r: Position)
    ensures r.x == p.x - 1 && r.mi == p.mi
    ensures r.pos - r.x / 2 == p.pos - p.x / 2
  {
    var pos := if p.x % 2 == 0 then p.pos - 1 else p.pos;
    Position(pos, p.x - 1, p.mi)
  }

  /** The byte pointer moves on only when leaving the low (odd) nibble. */
  function MoveRight(p: Position): (r: Position)
    ensures r.x == p.x + 1 && r.mi == p.mi
    ensures r.pos - r.x / 2 == p.pos - p.x / 2
  {
    var pos := if p.x % 2 == 1 then p.pos + 1 else p.pos;
    Position(pos, p.x + 1, p.mi)
  }

  function MoveUp(p: Position): (r: Position)
    reads p.mi
    ensures r.x == p.x && r.mi == p.mi && r.pos + p.mi.width == p.pos
  {
    Position(p.pos - p.mi.width, p.x, p.mi)
  }

  function MoveDown(p: Position): (r: Position)
    reads p.mi
    ensures r.x == p.x && r.mi == p.mi && r.pos - p.mi.width == p.pos
  {
    Position(p.pos + p.mi.width, p.x, p.mi)
  }

  /** Moving a position is the same as asking for the position of the neighbouring pixel. */
  lemma MovesFollowPixels(mi: MemoryImage, x: int, y: int)
    ensures MoveLeft(GetPosition(mi, x, y)) == GetPosition(mi, x - 1, y)
    ensures MoveRight(GetPosition(mi, x, y)) == GetPosition(mi, x + 1, y)
    ensures MoveUp(GetPosition(mi, x, y)) == GetPosition(mi, x, y - 1)
    ensures MoveDown(GetPosition(mi, x, y)) == GetPosition(mi, x, y + 1)
  {
    assert (y - 1) * mi.width == y * mi.width - mi.width;
    assert (y + 1) * mi.width == y * mi.width + mi.width;
  }

  /**
   * Draws at a position only when it lies in [buffer, end); the even pixel
   * is written as `intensity << 4` stored in a byte, which keeps the same
   * four bits as `(intensity & 0xF) << 4`.
   */
  method DrawAt(p: Position, intensity: int)
    requires p.mi.Valid()
    modifies p.mi.buffer
    ensures !(0 <= p.pos < p.mi.end) ==> p.mi.buffer == null || p.mi.buffer[..] == old(p.mi.buffer[..])
    ensures 0 <= p.pos < p.mi.end ==> (p.mi.buffer != null &&
      p.mi.buffer[..] == old(p.mi.buffer[..])[p.pos := Paint(old(p.mi.buffer[p.pos]), p.x, intensity)])
  {
    if p.pos < 0 || p.pos >= p.mi.end {
      return;
    }
    var buf := p.mi.buffer;
    buf[p.pos] := Paint(buf[p.pos], p.x, intensity);
  }

  /** `v` moved into [lo, hi]: below `lo` gives `lo`, above `hi` gives `hi`. */
  function Clamp(v: int, lo: int, hi: int): (r: int)
    ensures lo <= hi ==> lo <= r <= hi
    ensures lo <= v <= hi ==> r == v
    ensures r == v || r == lo || r == hi
  {
    if v < lo then lo else if v > hi then hi else v
  }

  /**
   * The test of `SetMinMaxRow`/`SetMinMaxCol` as written: a span is taken
   * only when it is SHORTER than one character (less than 7 rows or 5
   * columns), so a viewport with room for a line is refused and an
   * inverted one is taken.
   */
  predicate SpanAccepted(lo: int, hi: int, minSize: int)
  {
    hi - lo + 1 < minSize
  }

  /** The cursor and viewport used when printing text. */
  class Viewport {
    var row: u16
    var col: u16
    var rowMin: u16
    var rowMax: u16
    var colMin: u16
    var colMax: u16
    var color: u8

    constructor ()
      ensures row == 0 && col == 0 && color == 15
      ensures rowMin == 0 && rowMax == ResY - CharHeight + 1
      ensures colMin == 0 && colMax == ResX - CharWidth + 1
    {
      row, col, color := 0, 0, 15;
      rowMin, rowMax := 0, ResY - CharHeight + 1;
      colMin, colMax := 0, ResX - CharWidth + 1;
    }

    method SetMinMaxRow(lo: i32, hi: i32) returns (ok: int)
      modifies this
      ensures var a, b := Clamp(lo, 0, ResY - 1), Clamp(hi, 0, ResY - 1);
        (ok == 1 <==> SpanAccepted(a, b, CharHeight - 1)) && (ok == 0 || ok == 1) &&
        (ok == 1 ==> rowMin == a && rowMax == b) &&
        (ok == 0 ==> rowMin == old(rowMin) && rowMax == old(rowMax))
      ensures row == old(row) && col == old(col) && colMin == old(colMin) && colMax == old(colMax) && color == old(color)
    {
      var a, b := Clamp(lo, 0, ResY - 1), Clamp(hi, 0, ResY - 1);
      if b - a + 1 >= CharHeight - 1 {
        return 0;
      }
      rowMin, rowMax := a, b;
      return 1;
    }

    method SetMinMaxCol(lo: i32, hi: i32) returns (ok: int)
      modifies this
      ensures var a, b := Clamp(lo, 0, ResX - 1), Clamp(hi, 0, ResX - 1);
        (ok == 1 <==> SpanAccepted(a, b, CharWidth - 1)) && (ok == 0 || ok == 1) &&
        (ok == 1 ==> colMin == a && colMax == b) &&
        (ok == 0 ==> colMin == old(colMin) && colMax == old(colMax))
      ensures row == old(row) && col == old(col) && rowMin == old(rowMin) && rowMax == old(rowMax) && color == old(color)
    {
      var a, b := Clamp(lo, 0, ResX - 1), Clamp(hi, 0, ResX - 1);
      if b - a + 1 >= CharWidth - 1 {
        return 0;
      }
      colMin, colMax := a, b;
      return 1;
    }

    method ResetViewport()
      modifies this
      ensures rowMin == 0 && rowMax == ResY - 1 && colMin == 0 && colMax == ResX - 1
      ensures row == old(row) && col == old(col) && color == old(color)
    {
      rowMin, rowMax := 0, ResY - 1;
      colMin, colMax := 0, ResX - 1;
    }

    method SetLine(r: i32)
      modifies this
      ensures row == Clamp(r, rowMin, rowMax)
      ensures rowMin <= rowMax ==> rowMin <= row <= rowMax
      ensures col == old(col) && rowMin == old(rowMin) && rowMax == old(rowMax)
      ensures colMin == old(colMin) && colMax == old(colMax) && color == old(color)
    {
      row := Clamp(r, rowMin, rowMax);
    }

    method SetPosition(r: i32, c: i32)
      modifies this
      ensures row == Clamp(r, rowMin, rowMax) && col == Clamp(c, colMin, colMax)
      ensures rowMin == old(rowMin) && rowMax == old(rowMax)
      ensures colMin == old(colMin) && colMax == old(colMax) && color == old(color)
    {
      row := Clamp(r, rowMin, rowMax);
      col := Clamp(c, colMin, colMax);
    }

    /** The colour is kept as its low byte (`(uint8_t)color`). */
    method SetColor(c: i32)
      modifies this
      ensures color == Wrap32(c) % 0x100
      ensures row == old(row) && col == old(col) && rowMin == old(rowMin) && rowMax == old(rowMax)
      ensures colMin == old(colMin) && colMax == old(colMax)
    {
      color := c % 0x100;
      LowByte(c);
    }
  }

  /** The low byte of a two's complement `int` is its Euclidean remainder modulo 256. */
  lemma LowByte(c: int)
    ensures Wrap32(c) % 0x100 == c % 0x100
  {
    var q, r := c / 0x1_0000_0000, c % 0x1_0000_0000;
    assert Wrap32(c) == r;
    var q2, r2 := r / 0x100, r % 0x100;
    assert c == (q * 0x100_0000 + q2) * 0x100 + r2;
    DivModUnique(c, 0x100, q * 0x100_0000 + q2, r2);
  }

  /** As written, the full screen height (room for many lines) is refused as a viewport. */
  lemma FullHeightRefused()
    ensures !SpanAccepted(Clamp(0, 0, ResY - 1), Clamp(ResY - 1, 0, ResY - 1), CharHeight - 1)
  {
  }

  /** As written, an inverted pair of rows is accepted as a viewport. */
  lemma InvertedRowsAccepted()
    ensures SpanAccepted(Clamp(50, 0, ResY - 1), Clamp(10, 0, ResY - 1), CharHeight - 1)
  {
  }
}
