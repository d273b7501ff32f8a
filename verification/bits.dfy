/** Byte-level helpers of the driver: the single-bit masks it addresses pixels
    with, and the one-bit right rotation (`rotate_right`) that every framebuffer byte
    passes through on its way to the HT16K33. */
module Bits {

  /** A byte of the framebuffer or of an I2C payload. */
  type Byte = bv8

  /** `0x80 >> i`: the mask of the i-th bit counted from the most significant
      one. A framebuffer row keeps column i under `Mask(i)`, and a column byte
      keeps row i under `Mask(i)`. Spelled out case by case so that proofs do
      not have to reason about shifts by a variable amount; `MaskIsShift`
      states that it is the source's shift. */
  function Mask(i: int): (m: Byte)
    requires 0 <= i < 8
  {
    if i == 0 then 0x80
    else if i == 1 then 0x40
    else if i == 2 then 0x20
    else if i == 3 then 0x10
    else if i == 4 then 0x08
    else if i == 5 then 0x04
    else if i == 6 then 0x02
    else 0x01
  }

  /** `Mask(i)` is `0x80 >> i`. */
  lemma MaskIsShift(i: int)
    requires 0 <= i < 8
    ensures Mask(i) == (0x80 as Byte) >> i
  {
  }

  /** Whether bit `Mask(i)` of `b` is set. */
  predicate Has(b: Byte, i: int)
    requires 0 <= i < 8
  {
    b & Mask(i) != 0
  }

  /** `rotate_right`: masks its argument to a byte, then moves every bit one
      place towards the least significant end, the lowest bit wrapping round to
      the top. */
  function RotateRight(b: Byte): (r: Byte)
    ensures r == ((b & 0xFF) >> 1) | ((b & 1) << 7)
    ensures Has(r, 0) <==> b & 1 != 0
    ensures forall i :: 1 <= i < 8 ==> (Has(r, i) <==> Has(b, i - 1))
  {
    var byte := b & 0xFF;
    var bit := byte & 0x01;
    var shifted := byte >> 1;
    if bit != 0 then shifted | 0x80 else shifted
  }

  /** The inverse rotation, one bit towards the most significant end. */
  function RotateLeft(b: Byte): (r: Byte)
    ensures r & 1 != 0 <==> Has(b, 0)
    ensures forall i :: 0 <= i < 7 ==> (Has(r, i) <==> Has(b, i + 1))
  {
    (b << 1) | (b >> 7)
  }

  /** `rotate_right` applied n times. */
  function RotateTimes(n: nat, b: Byte): (r: Byte)
  {
    if n == 0 then b else RotateRight(RotateTimes(n - 1, b))
  }

  /** Up to a full turn, n rotations move every bit n places round the byte. */
  lemma {:induction false} RotateTimesIsRotation(n: nat, b: Byte)
    requires n <= 8
    ensures RotateTimes(n, b) == (b >> n) | (b << (8 - n))
  {
    if n > 0 {
      RotateTimesIsRotation(n - 1, b);
    }
  }

  /** Eight rotations give back the byte: `rotate_right` has period 8. */
  lemma RotatePeriod(b: Byte)
    ensures RotateTimes(8, b) == b & 0xFF
  {
    RotateTimesIsRotation(8, b);
  }

  /** `rotate_right` is a bijection on bytes: RotateLeft undoes it on both
      sides, so it is one-to-one and every byte is the rotation of another. */
  lemma RotateRightBijective(b: Byte)
    ensures RotateLeft(RotateRight(b)) == b
    ensures RotateRight(RotateLeft(b)) == b
    ensures forall c: Byte :: RotateRight(c) == RotateRight(b) ==> c == b
  {
    forall c: Byte | RotateRight(c) == RotateRight(b)
      ensures c == b
    {
      assert RotateLeft(RotateRight(c)) == c;
    }
  }

  /** Sample values of the rotation. */
  lemma RotateExamples()
    ensures RotateRight(0x01) == 0x80
    ensures RotateRight(0x80) == 0x40
    ensures RotateRight(0xFF) == 0xFF
  {
  }

  /** Shifting a mask right by one gives the next index's mask. */
  lemma MaskStep(i: int)
    requires 0 <= i < 8
    ensures i < 7 ==> Mask(i) >> 1 == Mask(i + 1)
  {
  }

  /** Bit i of a mask is set exactly for the mask's own index. */
  lemma HasMask(i: int, j: int)
    requires 0 <= i < 8 && 0 <= j < 8
    ensures Has(Mask(j), i) <==> i == j
  {
  }

  /** Bit i of `x | y` is set when it is set in either. */
  lemma HasOr(x: Byte, y: Byte, i: int)
    requires 0 <= i < 8
    ensures Has(x | y, i) <==> Has(x, i) || Has(y, i)
  {
  }

  /** Clearing mask j of `x` clears bit j and keeps every other bit. */
  lemma HasAndNotMask(x: Byte, i: int, j: int)
    requires 0 <= i < 8 && 0 <= j < 8
    ensures Has(x & !Mask(j), i) <==> Has(x, i) && i != j
  {
  }

  /** Agreeing on whether bit `Mask(i)` is set is agreeing on that bit. */
  lemma SameBit(x: Byte, y: Byte, i: int)
    requires 0 <= i < 8
    requires Has(x, i) <==> Has(y, i)
    ensures x & Mask(i) == y & Mask(i)
  {
  }

  /** Two bytes that agree on every bit are equal. */
  lemma BitsDetermineByte(x: Byte, y: Byte)
    requires forall i :: 0 <= i < 8 ==> (Has(x, i) <==> Has(y, i))
    ensures x == y
  {
    var d := x ^ y;
    forall i | 0 <= i < 8
      ensures d & Mask(i) == 0
    {
      SameBit(x, y, i);
    }
    assert d & Mask(0) == 0 && d & Mask(1) == 0 && d & Mask(2) == 0 && d & Mask(3) == 0;
    assert d & Mask(4) == 0 && d & Mask(5) == 0 && d & Mask(6) == 0 && d & Mask(7) == 0;
  }
}
