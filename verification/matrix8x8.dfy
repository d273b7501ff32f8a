/** The `Matrix8x8` driver: its state is the framebuffer `buf`, the `is_on`
    flag and the blink mode `_blinking`, plus `sent`, the list of payloads it
    has handed to the I2C transport, oldest first. Every operation is a
    transition from one state to the next; `_send` is an append to `sent`. */
module Matrix8x8 {
  import opened Bits
  import FB = Framebuffer
  import opened Ht16k33

  datatype Matrix = Matrix(buf: FB.Frame, isOn: bool, blinking: Byte, sent: seq<Payload>)

  /** `_send(data)`: hand one payload to the transport. */
  function Send(m: Matrix, data: Payload): (m': Matrix)
    ensures |m'.sent| == |m.sent| + 1 && m'.sent[..|m.sent|] == m.sent && m'.sent[|m.sent|] == data
    ensures m'.buf == m.buf && m'.isOn == m.isOn && m'.blinking == m.blinking
  {
    m.(sent := m.sent + [data])
  }

  // ---------------------------------------------------------------------------
  // The chip's view of the log
  // ---------------------------------------------------------------------------

  /** Display RAM after the chip has received `log`, starting from `ram`. */
  function Replay(ram: Ram, log: seq<Payload>): (after: Ram)
  {
    if |log| == 0 then ram else Write(Replay(ram, log[..|log| - 1]), log[|log| - 1])
  }

  /** Starting from display RAM `ram`, the payloads sent so far leave the
      framebuffer in display RAM (lit while the display is on). */
  predicate InSync(m: Matrix, ram: Ram)
  {
    Shown(Replay(ram, m.sent)) == m.buf
  }

  /** Whatever the display RAM held before the first payload, it now holds
      the framebuffer. */
  ghost predicate Mirrored(m: Matrix)
  {
    forall ram: Ram :: InSync(m, ram)
  }

  /** An operation that keeps display RAM holding the framebuffer. */
  ghost predicate KeepsSync(m: Matrix, m': Matrix)
  {
    forall ram: Ram :: InSync(m, ram) ==> InSync(m', ram)
  }

  lemma ReplayAppend(ram: Ram, log: seq<Payload>, data: Payload)
    ensures Replay(ram, log + [data]) == Write(Replay(ram, log), data)
  {
    assert (log + [data])[..|log|] == log;
  }

  /** A command byte changes neither the buffer nor display RAM. */
  lemma CommandKeepsSync(m: Matrix, m': Matrix, command: Byte)
    requires command >= 0x10
    requires m'.buf == m.buf && m'.sent == m.sent + [[command]]
    ensures KeepsSync(m, m')
  {
    forall ram: Ram | InSync(m, ram)
      ensures InSync(m', ram)
    {
      ReplayAppend(ram, m.sent, [command]);
    }
  }

  /** Editing one row and then sending it keeps the chip in step. */
  lemma RowEditKeepsSync(m: Matrix, m': Matrix, row: int)
    requires 0 <= row < 8
    requires forall r :: 0 <= r < 8 && r != row ==> m'.buf[r] == m.buf[r]
    requires m'.sent == m.sent + [RowData(m'.buf, row)]
    ensures KeepsSync(m, m')
  {
    forall ram: Ram | InSync(m, ram)
      ensures InSync(m', ram)
    {
      ReplayAppend(ram, m.sent, RowData(m'.buf, row));
      RowWriteStoresRow(Replay(ram, m.sent), m'.buf, row);
    }
  }

  // ---------------------------------------------------------------------------
  // Sending rows and the whole buffer
  // ---------------------------------------------------------------------------

  /** `_send_row(row)`: after it display RAM holds row `row` of the buffer,
      and every other row as before. */
  function SendRow(m: Matrix, row: int): (m': Matrix)
    requires 0 <= row < 8
    ensures m'.buf == m.buf && m'.isOn == m.isOn && m'.blinking == m.blinking
    ensures m'.sent == m.sent + [RowData(m.buf, row)]
    ensures forall ram: Ram :: Shown(Replay(ram, m'.sent)) == Shown(Replay(ram, m.sent))[row := m.buf[row]]
  {
    var m' := Send(m, RowData(m.buf, row));
    assert forall ram: Ram :: Shown(Replay(ram, m'.sent)) == Shown(Replay(ram, m.sent))[row := m.buf[row]] by {
      forall ram: Ram
        ensures Shown(Replay(ram, m'.sent)) == Shown(Replay(ram, m.sent))[row := m.buf[row]]
      {
        ReplayAppend(ram, m.sent, RowData(m.buf, row));
        RowWriteStoresRow(Replay(ram, m.sent), m.buf, row);
      }
    }
    m'
  }

  /** `_send_buf()`: after it display RAM holds the whole buffer, whatever it
      held before. */
  method SendBuf(m: Matrix) returns (m': Matrix)
    ensures m'.buf == m.buf && m'.isOn == m.isOn && m'.blinking == m.blinking
    ensures m'.sent == m.sent + [FrameData(m.buf)]
    ensures Mirrored(m')
  {
    var data := BufferData(m.buf);
    m' := Send(m, data);
    forall ram: Ram
      ensures InSync(m', ram)
    {
      ReplayAppend(ram, m.sent, data);
      FrameWriteStoresFrame(Replay(ram, m.sent), m.buf);
    }
  }

  // ---------------------------------------------------------------------------
  // Display control
  // ---------------------------------------------------------------------------

  /** `on()`: the display is on and the chip has been sent the display-on
      command carrying the current blink mode. */
  function On(m: Matrix): (m': Matrix)
    requires m.blinking <= 3
    ensures m'.isOn && m'.buf == m.buf && m'.blinking == m.blinking
    ensures m'.sent == m.sent + [[DisplayOn(m.blinking)]]
    ensures KeepsSync(m, m')
  {
    var m' := Send(m.(isOn := true), [DisplayOn(m.blinking)]);
    CommandKeepsSync(m, m', DisplayOn(m.blinking));
    m'
  }

  /** `off()`: the display is off and the chip has been sent 0x80; the
      buffer can still be changed while off. */
  function Off(m: Matrix): (m': Matrix)
    ensures !m'.isOn && m'.buf == m.buf && m'.blinking == m.blinking
    ensures m'.sent == m.sent + [[0x80]]
    ensures KeepsSync(m, m')
  {
    var m' := Send(m.(isOn := false), [DisplayOff()]);
    CommandKeepsSync(m, m', DisplayOff());
    m'
  }

  /** `set_brightness(value)`: sends the dimming command and changes nothing
      else (the level is not stored). */
  function SetBrightness(m: Matrix, value: Byte): (m': Matrix)
    requires value <= 15
    ensures m'.buf == m.buf && m'.isOn == m.isOn && m'.blinking == m.blinking
    ensures m'.sent == m.sent + [[0xE0 | value]]
    ensures KeepsSync(m, m')
  {
    var m' := Send(m, [Dimming(value)]);
    CommandKeepsSync(m, m', Dimming(value));
    m'
  }

  /** `set_blinking(mode)`: stores the mode; when the display is on it sends
      exactly one display-on command carrying the new mode, and when it is off
      it sends nothing. */
  function SetBlinking(m: Matrix, mode: Byte): (m': Matrix)
    requires mode <= 3
    ensures m'.blinking == mode && m'.buf == m.buf && m'.isOn == m.isOn
    ensures m.isOn ==> m'.sent == m.sent + [[0x81 | (mode << 1)]]
    ensures !m.isOn ==> m'.sent == m.sent
    ensures KeepsSync(m, m')
  {
    var stored := m.(blinking := mode);
    if stored.isOn then On(stored) else stored
  }

  // ---------------------------------------------------------------------------
  // Whole-buffer operations
  // ---------------------------------------------------------------------------

  /** `set(bitmap)`: the buffer becomes the bitmap, and display RAM holds it. */
  method Set(m: Matrix, bitmap: seq<Byte>) returns (m': Matrix)
    requires |bitmap| == 8
    ensures m'.buf == bitmap && m'.isOn == m.isOn && m'.blinking == m.blinking
    ensures m'.sent == m.sent + [FrameData(bitmap)]
    ensures Mirrored(m')
  {
    m' := SendBuf(m.(buf := bitmap));
  }

  /** `clear()`: every pixel dark, and display RAM holds the blank frame. */
  method Clear(m: Matrix) returns (m': Matrix)
    ensures forall r, c :: 0 <= r < 8 && 0 <= c < 8 ==> !FB.Pixel(m'.buf, r, c)
    ensures m'.buf == FB.Blank() && m'.isOn == m.isOn && m'.blinking == m.blinking
    ensures m'.sent == m.sent + [FrameData(FB.Blank())]
    ensures Mirrored(m')
  {
    var buf := FB.ClearAll(m.buf);
    m' := SendBuf(m.(buf := buf));
  }

  /** `set_column(column, byte)`: column `column` shows `byte` (top row as
      the most significant bit), every other pixel is kept, and the whole
      buffer is sent. */
  method SetColumn(m: Matrix, column: int, byte: Byte) returns (m': Matrix)
    requires 0 <= column < 8
    ensures forall r :: 0 <= r < 8 ==> (FB.Pixel(m'.buf, r, column) <==> Has(byte, r))
    ensures forall r, c :: 0 <= r < 8 && 0 <= c < 8 && c != column ==> (FB.Pixel(m'.buf, r, c) <==> FB.Pixel(m.buf, r, c))
    ensures m'.isOn == m.isOn && m'.blinking == m.blinking
    ensures m'.sent == m.sent + [FrameData(m'.buf)]
    ensures Mirrored(m')
  {
    var buf := FB.SetColumn(m.buf, column, byte);
    m' := SendBuf(m.(buf := buf));
  }

  /** `clear_column(column)`: column `column` goes dark, every other pixel is
      kept, and the whole buffer is sent. */
  method ClearColumn(m: Matrix, column: int) returns (m': Matrix)
    requires 0 <= column < 8
    ensures forall r :: 0 <= r < 8 ==> !FB.Pixel(m'.buf, r, column)
    ensures forall r, c :: 0 <= r < 8 && 0 <= c < 8 && c != column ==> (FB.Pixel(m'.buf, r, c) <==> FB.Pixel(m.buf, r, c))
    ensures m'.isOn == m.isOn && m'.blinking == m.blinking
    ensures m'.sent == m.sent + [FrameData(m'.buf)]
    ensures Mirrored(m')
  {
    var buf := FB.ClearColumn(m.buf, column);
    m' := SendBuf(m.(buf := buf));
  }

  // ---------------------------------------------------------------------------
  // Single-row operations
  // ---------------------------------------------------------------------------

  /** `set_row(row, byte)`: row `row` becomes `byte`, no other row changes,
      and only that row is sent, from the updated buffer. */
  function SetRow(m: Matrix, row: int, byte: Byte): (m': Matrix)
    requires 0 <= row < 8
    ensures m'.buf[row] == byte
    ensures forall r :: 0 <= r < 8 && r != row ==> m'.buf[r] == m.buf[r]
    ensures m'.isOn == m.isOn && m'.blinking == m.blinking
    ensures m'.sent == m.sent + [[2 * row as Byte, RotateRight(byte)]]
    ensures KeepsSync(m, m')
  {
    var m' := SendRow(m.(buf := m.buf[row := byte]), row);
    RowEditKeepsSync(m, m', row);
    m'
  }

  /** `clear_row(row)`: `set_row(row, 0)`. */
  function ClearRow(m: Matrix, row: int): (m': Matrix)
    requires 0 <= row < 8
    ensures m'.buf[row] == 0
    ensures forall r :: 0 <= r < 8 && r != row ==> m'.buf[r] == m.buf[r]
    ensures m'.isOn == m.isOn && m'.blinking == m.blinking
    ensures m'.sent == m.sent + [[2 * row as Byte, 0]]
    ensures KeepsSync(m, m')
  {
    SetRow(m, row, 0)
  }

  /** `set_pixel(row, column)`: lights that one LED, keeps every other one,
      and sends only its row, from the updated buffer. */
  function SetPixel(m: Matrix, row: int, column: int): (m': Matrix)
    requires 0 <= row < 8 && 0 <= column < 8
    ensures FB.Pixel(m'.buf, row, column)
    ensures forall r, c :: 0 <= r < 8 && 0 <= c < 8 && (r, c) != (row, column) ==> (FB.Pixel(m'.buf, r, c) <==> FB.Pixel(m.buf, r, c))
    ensures m'.isOn == m.isOn && m'.blinking == m.blinking
    ensures m'.sent == m.sent + [RowData(m'.buf, row)]
    ensures KeepsSync(m, m')
  {
    var m' := SendRow(m.(buf := FB.WithPixel(m.buf, row, column)), row);
    RowEditKeepsSync(m, m', row);
    m'
  }

  /** `clear_pixel(row, column)`: darkens that one LED, keeps every other
      one, and sends only its row, from the updated buffer. */
  function ClearPixel(m: Matrix, row: int, column: int): (m': Matrix)
    requires 0 <= row < 8 && 0 <= column < 8
    ensures !FB.Pixel(m'.buf, row, column)
    ensures forall r, c :: 0 <= r < 8 && 0 <= c < 8 && (r, c) != (row, column) ==> (FB.Pixel(m'.buf, r, c) <==> FB.Pixel(m.buf, r, c))
    ensures m'.isOn == m.isOn && m'.blinking == m.blinking
    ensures m'.sent == m.sent + [RowData(m'.buf, row)]
    ensures KeepsSync(m, m')
  {
    var m' := SendRow(m.(buf := FB.WithoutPixel(m.buf, row, column)), row);
    RowEditKeepsSync(m, m', row);
    m'
  }

  // ---------------------------------------------------------------------------
  // Construction
  // ---------------------------------------------------------------------------

  /** `Matrix8x8(brightness=...)`: starts with a zeroed buffer and blink mode
      0, then sends, in order, the oscillator-on command, the dimming command,
      the blank frame and the display-on command. Afterwards the display is on
      and display RAM holds the blank frame whatever it held before. */
  method Create(brightness: Byte) returns (m: Matrix)
    requires brightness <= 15
    ensures m.sent == [[0x21], [0xE0 | brightness], FrameData(FB.Blank()), [0x81]]
    ensures m.buf == FB.Blank() && m.isOn && m.blinking == 0
    ensures Mirrored(m)
  {
    m := Matrix(seq(8, i => 0), false, 0, []);
    m := Send(m, [OscillatorOn()]);
    m := SetBrightness(m, brightness);
    m := Clear(m);
    var cleared := m;
    m := On(m);
    assert forall ram: Ram :: InSync(cleared, ram);
  }
}
