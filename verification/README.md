# Matrix8x8 — a Dafny model of an HT16K33 8×8 LED matrix driver

The driver (`Matrix8x8` in `matrix8x8.py`) keeps an eight-byte framebuffer
`buf`, one byte per row, with column `c` of a row under mask `0x80 >> c`. Each
public operation edits the framebuffer and then pushes either the one changed
row or the whole buffer to the HT16K33 over I2C. Every framebuffer byte sent
passes through `rotate_right`, a one-bit cyclic rotation that matches the chip's
bit order. The rest go out as they are: the command bytes for the oscillator,
power, blink and dimming, the row address of a row write, and the zero bytes at
the even indices of the full-buffer write.

The model is split into four modules:

- `Bits` (`bits.dfy`): bytes as `bv8`, the pixel mask `Mask(i) = 0x80 >> i`, and
  `rotate_right` with its period and inverse.
- `Framebuffer` (`framebuffer.dfy`): the eight-row `Frame` and the edits made to
  it. Pixel set and clear are pure functions. `_clear_column`, `_set_column` and
  `clear`'s zeroing loop are literal loops, each proved equal to an independent
  closed form. `ReadColumn` reads a column back, top row as the most
  significant bit.
- `Ht16k33` (`ht16k33.dfy`): the command bytes, `row_addr`, the two-byte row
  payload and the sixteen-byte full-buffer payload (built by `_send_buf`'s
  literal loop). It also holds a small model of the chip's display RAM, so that
  the payloads have a meaning: a write whose first byte is an address below
  0x10 stores the following bytes from that address on, and `Shown` decodes the
  RAM back into a frame.
- `Matrix8x8` (`matrix8x8.dfy`): the driver state
  `Matrix(buf, isOn, blinking, sent)`, one transition per public operation, and
  construction. The datatype's fields come from the source as follows:
  - `buf` is the `bytearray(8)` of matrix8x8.py:28;
  - `isOn` is `is_on`, set at matrix8x8.py:96 and 104;
  - `blinking` is `_blinking`, set at matrix8x8.py:26 and 121.

  `sent` stands for the I2C transport: it is the list of payloads handed to
  `send`, oldest first, and `_send` appends to it.

  Each operation's contract says:
  - how the state changes;
  - exactly which payload is appended;
  - that display RAM keeps holding the framebuffer, which the matrix lights
    while the display is on. `KeepsSync` says this for row and command
    operations. `Mirrored` says that full-buffer operations leave the buffer in
    display RAM whatever it held before.

The source performs no validation, so its callers' obligations are
preconditions: row and column in 0..7, brightness in 0..15, blink mode in
0..3, bytes in 0..255 (the `Byte` type), and a bitmap of exactly eight bytes.

## Model

| member | source | states |
|---|---|---|
| Bits.RotateRight | matrix8x8.py:184-193 | the result is `(b & 0xFF) >> 1` or-ed with `(b & 1) << 7`: the lowest bit of `b` becomes the top bit and every other bit moves one place down |
| Bits.RotateTimesIsRotation | matrix8x8.py:184-193 | applying `rotate_right` n times (n ≤ 8) rotates the byte right by n places |
| Bits.RotatePeriod | matrix8x8.py:184-193 | applying `rotate_right` eight times gives back `b & 0xFF` |
| Bits.RotateRightBijective | matrix8x8.py:184-193 | `rotate_right` is a bijection on bytes: the left rotation undoes it on both sides, and two bytes with equal rotations are equal |
| Bits.RotateExamples | matrix8x8.py:184-193 | `rotate_right(0x01) == 0x80`, `rotate_right(0x80) == 0x40`, `rotate_right(0xFF) == 0xFF` |
| Bits.MaskIsShift | matrix8x8.py:71 | the pixel mask used throughout the model is `0x80 >> i` |
| Framebuffer.Blank | matrix8x8.py:28 | the zeroed `bytearray(8)` has every pixel dark |
| Framebuffer.WithPixel | matrix8x8.py:173 | or-ing `0x80 >> column` into `buf[row]` lights that pixel, keeps every other bit of the row and leaves all other rows untouched |
| Framebuffer.WithoutPixel | matrix8x8.py:180 | `buf[row] &= ~(0x80 >> column)` darkens that pixel, keeps every other bit of the row and leaves all other rows untouched |
| Framebuffer.WithPixelIdempotent | matrix8x8.py:173 | lighting the same pixel twice is the same as lighting it once |
| Framebuffer.PixelEditsUndo | matrix8x8.py:169-181 | clearing a pixel just lit, or lighting one just cleared, restores the original frame |
| Framebuffer.ColumnCleared | matrix8x8.py:67-74 | the cleared frame has the column dark in every row and every other pixel unchanged |
| Framebuffer.ClearColumn | matrix8x8.py:67-74 | the `_clear_column` loop (`^=` where the masked bit is set) yields exactly `ColumnCleared` |
| Framebuffer.ColumnWritten | matrix8x8.py:76-90 | in the written frame, the pixel at (r, column) is lit iff bit `0x80 >> r` of the byte is set, and every other pixel is unchanged |
| Framebuffer.MoveOntoColumn | matrix8x8.py:85-89 | shifting the masked bit by the signed `shift = column - row` (right, or left by `abs(shift)`) puts row `row`'s bit of the byte exactly on the column's mask and loses no bit |
| Framebuffer.SetColumn | matrix8x8.py:76-90 | the `_set_column` code (clear, early return on zero, loop with a mask starting at 0x80 and moving right each row) yields exactly `ColumnWritten` |
| Framebuffer.ClearAll | matrix8x8.py:138-139 | the loop zeroing the eight rows yields the blank frame |
| Framebuffer.ReadColumn | matrix8x8.py:76-90 | reading a column back, top row as the most significant bit: bit `0x80 >> r` of the result is set iff pixel (r, column) is lit |
| Framebuffer.ColumnRoundTrip | matrix8x8.py:76-90 | writing a byte into a column and reading the column back gives the byte |
| Framebuffer.ColumnWriteBack | matrix8x8.py:76-90 | writing back the column just read leaves the frame unchanged |
| Framebuffer.ZeroColumnIsCleared | matrix8x8.py:80-82 | writing the zero byte into a column is the same as clearing it |
| Framebuffer.FullColumnIsLit | matrix8x8.py:76-90 | writing 0xFF into a column lights it in every row |
| Ht16k33.OscillatorOn | matrix8x8.py:36-37 | `0x21` is the system setup command (high nibble 0x2) with the oscillator bit (bit 0) set |
| Ht16k33.DisplayOff | matrix8x8.py:105 | `0x80` is a display setup command, the register `on` writes, with the display bit and both blink bits clear |
| Ht16k33.DisplayOn | matrix8x8.py:97 | 0x81 or-ed with `blinking << 1` is a display-on command from which the blink mode can be read back in bits 1-2 |
| Ht16k33.Dimming | matrix8x8.py:111 | 0xE0 or-ed with `value` is a dimming command whose low nibble is the brightness |
| Ht16k33.RowAddr | matrix8x8.py:16 | `row_addr[row]` is `2 * row` |
| Ht16k33.RowData | matrix8x8.py:53 | the row payload has two bytes: the address `2 * row`, then a byte that rotates back to `buf[row]` |
| Ht16k33.FrameData | matrix8x8.py:60-64 | the full payload has 16 bytes, zero at every even index, and row r's rotated byte at index 2r + 1 |
| Ht16k33.BufferData | matrix8x8.py:60-64 | `_send_buf`'s loop (index starting at 1, step 2) yields exactly `FrameData` |
| Ht16k33.RowWriteStoresRow | matrix8x8.py:49-54 | after a row payload, display RAM holds that row of the buffer and every other row as before |
| Ht16k33.FrameWriteStoresFrame | matrix8x8.py:56-65 | after a full-buffer payload, display RAM holds the buffer, whatever it held before |
| Ht16k33.CommandsKeepRam | matrix8x8.py:92-111 | the oscillator, display on/off and dimming commands leave display RAM alone |
| Matrix8x8.Send | matrix8x8.py:43-47 | `_send` appends exactly one payload to the transport log and changes nothing else |
| Matrix8x8.SendRow | matrix8x8.py:49-54 | `_send_row` appends the row payload; afterwards display RAM holds that row and keeps the others |
| Matrix8x8.SendBuf | matrix8x8.py:56-65 | `_send_buf` appends the 16-byte payload; afterwards display RAM holds the whole buffer |
| Matrix8x8.On | matrix8x8.py:92-97 | sets `is_on`, appends the one-byte display-on command, 0x81 or-ed with `blinking << 1`, changes no pixel |
| Matrix8x8.Off | matrix8x8.py:99-105 | clears `is_on`, appends `[0x80]`, changes no pixel |
| Matrix8x8.SetBrightness | matrix8x8.py:107-111 | appends the one-byte dimming command, 0xE0 or-ed with `value`, and changes nothing else |
| Matrix8x8.SetBlinking | matrix8x8.py:113-123 | stores the mode; appends exactly one display-on command with the new mode iff the display is on, and nothing otherwise |
| Matrix8x8.Set | matrix8x8.py:125-132 | the buffer becomes the bitmap, one 16-byte payload of it is appended, and display RAM holds it |
| Matrix8x8.Clear | matrix8x8.py:134-140 | every pixel is dark, one 16-byte payload of the blank frame is appended, and display RAM holds it |
| Matrix8x8.SetRow | matrix8x8.py:142-147 | row `row` becomes the byte and no other row changes; exactly `[2 * row, rotate_right(byte)]` is appended |
| Matrix8x8.ClearRow | matrix8x8.py:149-153 | row `row` becomes 0 and no other row changes; exactly `[2 * row, 0]` is appended |
| Matrix8x8.SetColumn | matrix8x8.py:155-160 | pixel (r, column) is lit iff bit `0x80 >> r` of the byte is set; every other pixel is kept; one 16-byte payload of the new buffer is appended, and display RAM holds it |
| Matrix8x8.ClearColumn | matrix8x8.py:162-167 | the column is dark in every row; every other pixel is kept; one 16-byte payload of the new buffer is appended, and display RAM holds it |
| Matrix8x8.SetPixel | matrix8x8.py:169-174 | only that pixel is lit, every other pixel is kept, and exactly one row payload, computed from the updated buffer, is appended |
| Matrix8x8.ClearPixel | matrix8x8.py:176-181 | only that pixel is darkened, every other pixel is kept, and exactly one row payload, computed from the updated buffer, is appended |
| Matrix8x8.Create | matrix8x8.py:18-41 | construction sends, in order, `[0x21]`, the dimming command for `brightness`, the blank 16-byte frame, then `[0x81]`; it ends with the display on, blink mode 0, a blank buffer, and display RAM holding it |

## Left out

- The `pyb` import and the choice between building an I2C bus and taking a
  ready one (matrix8x8.py:2, 30-34) are platform plumbing. The transport is the
  `sent` log.
- The device address `addr` (matrix8x8.py:27) is not recorded with each
  payload, because it never changes after construction.
- The I2C transfer itself (matrix8x8.py:43-47) is left out: bus behaviour,
  acknowledgements, timeouts and transport errors. Every send is appended to
  the log and nothing fails.
- Range checks are left out because the source has none. The preconditions
  exclude what the code would otherwise do with bad arguments:
  - a negative row indexes from the end of the buffer and of `row_addr`;
  - a row of 8 or more raises `IndexError` at `buf[row]` (matrix8x8.py:146,
    173, 180);
  - a column of 8 or more gives a zero mask;
  - a negative column raises in the shift;
  - a brightness above 15 or a blink mode above 3 spills into other command
    bits;
  - a byte outside 0..255 raises `ValueError` when stored into the bytearray
    (matrix8x8.py:131, 146); `set_column` only ever uses its low eight bits;
  - a bitmap longer than eight bytes raises `IndexError` in `_send_buf`
    (matrix8x8.py:63), after the buffer has already been replaced;
  - a bitmap shorter than eight bytes shortens the buffer, and later row
    operations on the missing rows raise `IndexError`.
- Bits.RotateRight: takes a byte rather than any Python integer. The `& 0xFF`
  step is kept, but on a byte it changes nothing. The driver only passes
  buffer bytes.
- Matrix8x8.Create: until `on()` runs, the object has no `is_on` attribute.
  The model starts it as `false`, and nothing reads it before `on()` sets it.
  Only the brightness argument is modelled, not the bus or the address. Its
  default of 15 (matrix8x8.py:18) is not a default in Dafny: a call with no
  arguments is `Create(15)`, which sends the dimming command `0xEF`.
- The brightness level is not part of the state, because the source does not
  store it. The meanings of the blink rates and brightness levels are hardware
  behaviour.
- `Shown` is the content of display RAM, not what is lit. It ignores the
  on/off flag, blinking and dimming. So `KeepsSync` and `Mirrored` hold while
  the display is off: a change made then is stored in RAM but not visible
  until `on()` (matrix8x8.py:101-102).
- The chip's bit order is assumed, not derived. `Shown` decodes each RAM byte
  with `RotateLeft`, the exact inverse of `rotate_right`. So the bit-order part of
  `RowWriteStoresRow`, `FrameWriteStoresFrame`, `KeepsSync` and `Mirrored` holds
  by definition. What those contracts establish is the addressing: a row write
  goes to address 2r, the full write puts row r at index 2r + 1 after the
  start-address byte, and the commands leave RAM alone.
- The display RAM model covers only what the driver's writes need. Wrap-around
  of the chip's address pointer past address 15 is not modelled: those bytes
  are dropped, and the driver never sends any.
- The 16-byte write puts row r at index 2r + 1, with zeros at even indices,
  because the loop starts at `i = 1` (matrix8x8.py:61).
  With the first byte read as the start address 0x00, this layout puts row r at
  display address 2r, the same address `row_addr` gives to the row write.
- Thread-safety is not modelled. The driver is single-threaded and has no
  locking.
