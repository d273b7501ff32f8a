/** The driver's framebuffer `buf`: eight bytes, one per row, with column c of
    a row under mask `0x80 >> c`. This module holds the edits the driver makes
    to it, independently of what is then sent to the chip. */
module Framebuffer {
  import opened Bits

  /** `bytearray(8)`: exactly eight row bytes. */
  type Frame = f: seq<Byte> | |f| == 8 witness [0, 0, 0, 0, 0, 0, 0, 0]

  /** Whether the LED at (row, column) is lit in `f`. */
  predicate Pixel(f: Frame, row: int, column: int)
    requires 0 <= row < 8 && 0 <= column < 8
  {
    Has(f[row], column)
  }

  /** The frame with every LED off. */
  function Blank(): (f: Frame)
    ensures forall r, c :: 0 <= r < 8 && 0 <= c < 8 ==> !Pixel(f, r, c)
  {
    seq(8, r => 0)
  }

  /** Two frames showing the same pixels are the same frame. */
  lemma PixelsDetermineFrame(f: Frame, g: Frame)
    requires forall r, c :: 0 <= r < 8 && 0 <= c < 8 ==> (Pixel(f, r, c) <==> Pixel(g, r, c))
    ensures f == g
  {
    forall r | 0 <= r < 8
      ensures f[r] == g[r]
    {
      forall c | 0 <= c < 8
        ensures Has(f[r], c) <==> Has(g[r], c)
      {
        assert Pixel(f, r, c) <==> Pixel(g, r, c);
      }
      BitsDetermineByte(f[r], g[r]);
    }
  }

  // ---------------------------------------------------------------------------
  // Single-pixel edits (`set_pixel`, `clear_pixel`)
  // ---------------------------------------------------------------------------

  /** `buf[row] |= 0x80 >> column`. */
  function WithPixel(f: Frame, row: int, column: int): (g: Frame)
    requires 0 <= row < 8 && 0 <= column < 8
    ensures Pixel(g, row, column)
    ensures forall c :: 0 <= c < 8 && c != column ==> (Pixel(g, row, c) <==> Pixel(f, row, c))
    ensures forall r :: 0 <= r < 8 && r != row ==> g[r] == f[r]
  {
    f[row := f[row] | Mask(column)]
  }

  /** `buf[row] &= ~(0x80 >> column)`. Python's `~` gives a negative number,
      and `&` with it keeps every other bit of the non-negative row byte, which
      is the byte complement `!` here. */
  function WithoutPixel(f: Frame, row: int, column: int): (g: Frame)
    requires 0 <= row < 8 && 0 <= column < 8
    ensures !Pixel(g, row, column)
    ensures forall c :: 0 <= c < 8 && c != column ==> (Pixel(g, row, c) <==> Pixel(f, row, c))
    ensures forall r :: 0 <= r < 8 && r != row ==> g[r] == f[r]
  {
    f[row := f[row] & !Mask(column)]
  }

  /** Lighting a pixel twice is lighting it once. */
  lemma WithPixelIdempotent(f: Frame, row: int, column: int)
    requires 0 <= row < 8 && 0 <= column < 8
    ensures WithPixel(WithPixel(f, row, column), row, column) == WithPixel(f, row, column)
  {
  }

  /** Clearing a pixel that was just lit restores a frame where it was dark,
      and lighting one that was just cleared restores a frame where it was lit. */
  lemma PixelEditsUndo(f: Frame, row: int, column: int)
    requires 0 <= row < 8 && 0 <= column < 8
    ensures !Pixel(f, row, column) ==> WithoutPixel(WithPixel(f, row, column), row, column) == f
    ensures Pixel(f, row, column) ==> WithPixel(WithoutPixel(f, row, column), row, column) == f
  {
    if !Pixel(f, row, column) {
      assert WithoutPixel(WithPixel(f, row, column), row, column)[row] == f[row];
    } else {
      assert WithPixel(WithoutPixel(f, row, column), row, column)[row] == f[row];
    }
  }

  // ---------------------------------------------------------------------------
  // Column edits (`_clear_column`, `_set_column`)
  // ---------------------------------------------------------------------------

  /** The frame with column `column` dark and everything else as in `f`. */
  function ColumnCleared(f: Frame, column: int): (g: Frame)
    requires 0 <= column < 8
    ensures forall r :: 0 <= r < 8 ==> !Pixel(g, r, column)
    ensures forall r, c :: 0 <= r < 8 && 0 <= c < 8 && c != column ==> (Pixel(g, r, c) <==> Pixel(f, r, c))
  {
    var g: Frame := seq(8, r requires 0 <= r < 8 => f[r] & !Mask(column));
    assert forall r, c :: 0 <= r < 8 && 0 <= c < 8 ==> (Has(g[r], c) <==> Has(f[r], c) && c != column) by {
      forall r, c | 0 <= r < 8 && 0 <= c < 8
        ensures Has(g[r], c) <==> Has(f[r], c) && c != column
      {
        HasAndNotMask(f[r], c, column);
      }
    }
    g
  }

  /** The frame whose column `column` shows `b`, top row as the most significant
      bit, and which is otherwise `f`. */
  function ColumnWritten(f: Frame, column: int, b: Byte): (g: Frame)
    requires 0 <= column < 8
    ensures forall r :: 0 <= r < 8 ==> (Pixel(g, r, column) <==> Has(b, r))
    ensures forall r, c :: 0 <= r < 8 && 0 <= c < 8 && c != column ==> (Pixel(g, r, c) <==> Pixel(f, r, c))
  {
    seq(8, r requires 0 <= r < 8 => (f[r] & !Mask(column)) | (if Has(b, r) then Mask(column) else 0))
  }

  /** `_clear_column`: walks the rows with mask `0x80 >> column`, flipping the
      bit off with `^=` where it is set. */
  method ClearColumn(buf: Frame, column: int) returns (out: Frame)
    requires 0 <= column < 8
    ensures out == ColumnCleared(buf, column)
  {
    out := buf;
    var mask: Byte := 0x80 >> column;
    MaskIsShift(column);
    var row := 0;
    while row < 8
      invariant 0 <= row <= 8
      invariant forall r :: 0 <= r < row ==> out[r] == buf[r] & !mask
      invariant forall r :: row <= r < 8 ==> out[r] == buf[r]
    {
      if out[row] & mask != 0 {
        out := out[row := out[row] ^ mask];
      }
      row := row + 1;
    }
    assert forall r :: 0 <= r < 8 ==> out[r] == ColumnCleared(buf, column)[r];
  }

  /** The bit of row `row` of a column byte, moved right by `shift = column -
      row` places, lands on column `column`. */
  lemma ShiftRightOntoColumn(b: Byte, mask: Byte, row: int, column: int, shift: int)
    requires 0 <= row <= column < 8 && mask == Mask(row) && shift == column - row
    ensures (b & mask) >> shift == if Has(b, row) then Mask(column) else 0
  {
  }

  /** The same bit moved left by `-shift = row - column` places lands there too,
      losing nothing off the top of the byte. */
  lemma ShiftLeftOntoColumn(b: Byte, mask: Byte, row: int, column: int, shift: int)
    requires 0 <= column < row < 8 && mask == Mask(row) && shift == column - row
    ensures ((b & mask) << -shift) >> -shift == b & mask
    ensures (b & mask) << -shift == if Has(b, row) then Mask(column) else 0
  {
  }

  /** The body of one pass of the `_set_column` loop: with `mask` at row
      `row`'s bit, the masked bit of `byte` is shifted by `shift = column - row`,
      right when that is non-negative and left by `abs(shift)` otherwise. The
      result is the column's bit when row `row` of the column byte is set. In
      Python the left shift cannot overflow; here no set bit leaves the byte. */
  method MoveOntoColumn(byte: Byte, mask: Byte, row: int, column: int) returns (moved: Byte)
    requires 0 <= row < 8 && 0 <= column < 8
    requires mask == Mask(row)
    ensures moved == if Has(byte, row) then Mask(column) else 0
  {
    var shift := column - row;
    if shift >= 0 {
      ShiftRightOntoColumn(byte, mask, row, column, shift);
      moved := (byte & mask) >> shift;
    } else {
      ShiftLeftOntoColumn(byte, mask, row, column, shift);
      moved := (byte & mask) << -shift;
    }
  }

  /** Row r of a written column is the cleared row with the column's bit for
      row r put back. */
  lemma WrittenRow(f: Frame, column: int, b: Byte, r: int)
    requires 0 <= column < 8 && 0 <= r < 8
    ensures ColumnWritten(f, column, b)[r] == ColumnCleared(f, column)[r] | (if Has(b, r) then Mask(column) else 0)
  {
  }

  /** Part way through the `_set_column` loop: the rows above `row` hold what
      `ColumnWritten` puts there, the rest are still only cleared. */
  ghost predicate WrittenAbove(buf: Frame, column: int, byte: Byte, out: Frame, row: int)
    requires 0 <= column < 8 && 0 <= row <= 8
  {
    (forall r :: 0 <= r < row ==> out[r] == ColumnWritten(buf, column, byte)[r]) &&
    (forall r :: row <= r < 8 ==> out[r] == ColumnCleared(buf, column)[r])
  }

  /** Or-ing row `row`'s moved bit into that row advances the loop by a row. */
  lemma WrittenStep(buf: Frame, column: int, byte: Byte, out: Frame, row: int, moved: Byte)
    requires 0 <= column < 8 && 0 <= row < 8
    requires WrittenAbove(buf, column, byte, out, row)
    requires moved == if Has(byte, row) then Mask(column) else 0
    ensures WrittenAbove(buf, column, byte, out[row := out[row] | moved], row + 1)
  {
    WrittenRow(buf, column, byte, row);
  }

  /** `_set_column`: clears the column, returns at once when `byte` is zero,
      and otherwise walks the rows with a mask that starts at `0x80` and moves
      right one place per row, or-ing the masked bit of `byte`, shifted by
      `column - row`, into the row. */
  method SetColumn(buf: Frame, column: int, byte: Byte) returns (out: Frame)
    requires 0 <= column < 8
    ensures out == ColumnWritten(buf, column, byte)
  {
    out := ClearColumn(buf, column);
    if byte == 0 {
      ZeroColumnIsCleared(buf, column);
      return;
    }
    var mask: Byte := 0x80;
    var row := 0;
    while row < 8
      invariant 0 <= row <= 8
      invariant row < 8 ==> mask == Mask(row)
      invariant WrittenAbove(buf, column, byte, out, row)
    {
      var moved := MoveOntoColumn(byte, mask, row, column);
      WrittenStep(buf, column, byte, out, row, moved);
      out := out[row := out[row] | moved];
      MaskStep(row);
      mask := mask >> 1;
      row := row + 1;
    }
    assert forall r :: 0 <= r < 8 ==> out[r] == ColumnWritten(buf, column, byte)[r];
  }

  // ---------------------------------------------------------------------------
  // Clearing the whole buffer (`clear`)
  // ---------------------------------------------------------------------------

  /** `clear`'s loop: each of the eight rows set to zero. */
  method ClearAll(buf: Frame) returns (out: Frame)
    ensures out == Blank()
  {
    out := buf;
    var i := 0;
    while i < 8
      invariant 0 <= i <= 8
      invariant forall r :: 0 <= r < i ==> out[r] == 0
    {
      out := out[i := 0];
      i := i + 1;
    }
    assert forall r :: 0 <= r < 8 ==> out[r] == Blank()[r];
  }

  // ---------------------------------------------------------------------------
  // Reading a column back
  // ---------------------------------------------------------------------------

  /** The column `column` of the first n rows as a byte, row r under `Mask(r)`. */
  function ColumnBits(f: Frame, column: int, n: nat): (b: Byte)
    requires 0 <= column < 8 && n <= 8
    ensures forall r :: 0 <= r < 8 ==> (Has(b, r) <==> r < n && Pixel(f, r, column))
  {
    if n == 0 then 0
    else
      var upper := ColumnBits(f, column, n - 1);
      var last: Byte := if Pixel(f, n - 1, column) then Mask(n - 1) else 0;
      assert forall r :: 0 <= r < 8 ==> (Has(upper | last, r) <==> r < n && Pixel(f, r, column)) by {
        forall r | 0 <= r < 8
          ensures Has(upper | last, r) <==> r < n && Pixel(f, r, column)
        {
          HasOr(upper, last, r);
          if Pixel(f, n - 1, column) {
            HasMask(r, n - 1);
          }
        }
      }
      upper | last
  }

  /** Column `column` read top to bottom as one byte, top row as the most
      significant bit: the inverse of what `_set_column` writes. */
  function ReadColumn(f: Frame, column: int): (b: Byte)
    requires 0 <= column < 8
    ensures forall r :: 0 <= r < 8 ==> (Has(b, r) <==> Pixel(f, r, column))
  {
    ColumnBits(f, column, 8)
  }

  /** Writing a column and reading it back gives the written byte. */
  lemma ColumnRoundTrip(f: Frame, column: int, b: Byte)
    requires 0 <= column < 8
    ensures ReadColumn(ColumnWritten(f, column, b), column) == b
  {
    BitsDetermineByte(ReadColumn(ColumnWritten(f, column, b), column), b);
  }

  /** Writing back the column just read changes nothing. */
  lemma ColumnWriteBack(f: Frame, column: int)
    requires 0 <= column < 8
    ensures ColumnWritten(f, column, ReadColumn(f, column)) == f
  {
    PixelsDetermineFrame(ColumnWritten(f, column, ReadColumn(f, column)), f);
  }

  /** Writing the zero byte into a column is clearing it. */
  lemma ZeroColumnIsCleared(f: Frame, column: int)
    requires 0 <= column < 8
    ensures ColumnWritten(f, column, 0) == ColumnCleared(f, column)
  {
    PixelsDetermineFrame(ColumnWritten(f, column, 0), ColumnCleared(f, column));
  }

  /** Writing `0xFF` into a column lights it in every row. */
  lemma FullColumnIsLit(f: Frame, column: int)
    requires 0 <= column < 8
    ensures forall r :: 0 <= r < 8 ==> Pixel(ColumnWritten(f, column, 0xFF), r, column)
  {
  }
}
