/** The bytes the driver hands to the I2C transport for an HT16K33: command
    bytes, the two-byte row write and the sixteen-byte full-buffer write. The
    chip's display RAM is modelled only as far as these writes need: an I2C
    write whose first byte is below 0x10 sets the display data address, and the
    bytes after it are stored from that address upwards. */
module Ht16k33 {
  import opened Bits
  import opened Framebuffer

  /** A byte sequence handed to the transport in one `send`. */
  type Payload = seq<Byte>

  /** System setup command with the internal oscillator on (`_send(0x21)`):
      the system setup register is selected by the high nibble 0x2, and bit 0
      is the oscillator bit. */
  function OscillatorOn(): (command: Byte)
    ensures command & 0xF0 == 0x20
    ensures command & 0x01 == 0x01
  {
    0x21
  }

  /** Display setup command with the display off (`off` sends 0x80): the
      register of `DisplayOn`, with the display bit (bit 0) and the blink
      bits (1-2) clear. */
  function DisplayOff(): (command: Byte)
    ensures command & 0xF9 == 0x80
    ensures command & 0x01 == 0
    ensures (command >> 1) & 3 == 0
  {
    0x80
  }

  /** Display setup command with the display on and blink mode `blinking`
      (`0x81 | blinking << 1`, as `on` sends it). The mode sits in bits 1-2 and
      can be read back from the command. */
  function DisplayOn(blinking: Byte): (command: Byte)
    requires blinking <= 3
    ensures command & 0xF9 == 0x81
    ensures (command >> 1) & 3 == blinking
  {
    0x81 | (blinking << 1)
  }

  /** Dimming command for brightness `value` (`0xE0 | value`, as
      `set_brightness` sends it). The level sits in the low nibble. */
  function Dimming(value: Byte): (command: Byte)
    requires value <= 15
    ensures command & 0xF0 == 0xE0
    ensures command & 0x0F == value
  {
    0xE0 | value
  }

  /** `row_addr[row]`: the display RAM address of a matrix row. */
  function RowAddr(row: int): (address: Byte)
    requires 0 <= row < 8
    ensures address as int == 2 * row
  {
    [0x00, 0x02, 0x04, 0x06, 0x08, 0x0A, 0x0C, 0x0E][row]
  }

  /** `_send_row`'s payload: the row's address, then the row byte rotated right
      into the chip's bit order. */
  function RowData(buf: Frame, row: int): (data: Payload)
    requires 0 <= row < 8
    ensures |data| == 2 && data[0] as int == 2 * row
    ensures RotateLeft(data[1]) == buf[row]
  {
    RotateRightBijective(buf[row]);
    [RowAddr(row), RotateRight(buf[row])]
  }

  /** `_send_buf`'s payload: sixteen bytes, the rotated row r at index 2r + 1
      and zero at every even index. */
  function FrameData(buf: Frame): (data: Payload)
    ensures |data| == 16
    ensures forall i :: 0 <= i < 16 && i % 2 == 0 ==> data[i] == 0
    ensures forall r :: 0 <= r < 8 ==> RotateLeft(data[2 * r + 1]) == buf[r]
  {
    var data := seq(16, i requires 0 <= i < 16 => if i % 2 == 1 then RotateRight(buf[i / 2]) else 0);
    assert forall r :: 0 <= r < 8 ==> RotateLeft(data[2 * r + 1]) == buf[r] by {
      forall r | 0 <= r < 8
        ensures RotateLeft(data[2 * r + 1]) == buf[r]
      {
        assert (2 * r + 1) / 2 == r;
        RotateRightBijective(buf[r]);
      }
    }
    data
  }

  /** `_send_buf`'s loop: a zeroed 16-byte array filled from index 1 in steps
      of two, one rotated row per step. */
  method BufferData(buf: Frame) returns (data: Payload)
    ensures data == FrameData(buf)
  {
    data := seq(16, i => 0);
    var i := 1;
    var k := 0;
    while k < 8
      invariant 0 <= k <= 8 && i == 2 * k + 1
      invariant |data| == 16
      invariant forall j :: 0 <= j < 16 ==> data[j] == if j % 2 == 1 && j / 2 < k then RotateRight(buf[j / 2]) else 0
    {
      data := data[i := RotateRight(buf[k])];
      i := i + 2;
      k := k + 1;
    }
    assert forall j :: 0 <= j < 16 ==> data[j] == FrameData(buf)[j];
  }

  // ---------------------------------------------------------------------------
  // What display RAM holds
  // ---------------------------------------------------------------------------

  /** The chip's sixteen bytes of display RAM; row r of the matrix is at
      address 2r, in the rotated bit order. */
  type Ram = r: seq<Byte> | |r| == 16 witness seq(16, i => 0)

  /** `bytes` stored into display RAM from address `start` upwards; bytes that
      would land past address 15 are dropped. */
  function StoreFrom(ram: Ram, start: int, bytes: seq<Byte>): (after: Ram)
    requires 0 <= start < 16
    ensures forall a :: 0 <= a < 16 ==> after[a] == if start <= a < start + |bytes| then bytes[a - start] else ram[a]
  {
    seq(16, a requires 0 <= a < 16 => if start <= a < start + |bytes| then bytes[a - start] else ram[a])
  }

  /** The effect of one I2C write on display RAM. A write starting with an
      address byte below 0x10 stores the bytes after it from that address
      upwards; any other first byte is a command and leaves the RAM alone. */
  function Write(ram: Ram, data: Payload): (after: Ram)
    ensures |data| == 0 || data[0] >= 0x10 ==> after == ram
  {
    if |data| == 0 || data[0] >= 0x10 then ram
    else StoreFrom(ram, data[0] as int, data[1..])
  }

  /** The frame a RAM content holds: row r is RAM address 2r rotated back
      into the driver's bit order. The matrix lights this frame only while the
      display is on; the on/off state, blinking and dimming are not part of
      the RAM. */
  function Shown(ram: Ram): (shown: Frame)
  {
    seq(8, r requires 0 <= r < 8 => RotateLeft(ram[2 * r]))
  }

  /** A row write puts that row of the buffer into display RAM and leaves every
      other row as it was. */
  lemma RowWriteStoresRow(ram: Ram, buf: Frame, row: int)
    requires 0 <= row < 8
    ensures Shown(Write(ram, RowData(buf, row))) == Shown(ram)[row := buf[row]]
  {
    var after := Write(ram, RowData(buf, row));
    forall r | 0 <= r < 8
      ensures Shown(after)[r] == Shown(ram)[row := buf[row]][r]
    {
      assert after[2 * r] == if r == row then RowData(buf, row)[1] else ram[2 * r];
    }
  }

  /** A full-buffer write makes display RAM hold exactly the buffer, whatever the
      RAM held before. */
  lemma FrameWriteStoresFrame(ram: Ram, buf: Frame)
    ensures Shown(Write(ram, FrameData(buf))) == buf
  {
    var data := FrameData(buf);
    assert data[0] as int == 0;
    var after := StoreFrom(ram, 0, data[1..]);
    assert Write(ram, data) == after;
    forall r | 0 <= r < 8
      ensures Shown(after)[r] == buf[r]
    {
      assert after[2 * r] == data[2 * r + 1];
    }
  }

  /** Every command byte the driver sends leaves the display RAM alone. */
  lemma CommandsKeepRam(ram: Ram, blinking: Byte, value: Byte)
    requires blinking <= 3 && value <= 15
    ensures Write(ram, [OscillatorOn()]) == ram
    ensures Write(ram, [DisplayOff()]) == ram
    ensures Write(ram, [DisplayOn(blinking)]) == ram
    ensures Write(ram, [Dimming(value)]) == ram
  {
  }
}
