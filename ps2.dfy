/**
 * PS/2 mouse movement decoding, shared by both mouse drivers
 * (drivers/input/keyboard.c and mouse.c). A movement is a 9-bit two's
 * complement number: the byte of the packet is its low eight bits and
 * the sign bit travels in the packet's first byte (0x10 for X, 0x20 for Y).
 */
module Ps2 {
  import opened Machine

  /** The movement a packet byte and its sign bit stand for. */
  function Delta(b: u8, sign: bool): (r: int)
  {
    if sign then b - 256 else b
  }

  /** The 9-bit value is recovered exactly: it lies in [-256, 255], its low byte is the packet byte, and it is negative exactly when the sign bit is set. */
  lemma DeltaIsNineBit(b: u8, sign: bool)
    ensures -256 <= Delta(b, sign) <= 255
    ensures Wrap8(Delta(b, sign)) == b
    ensures Delta(b, sign) < 0 <==> sign
  {
  }

  /** Every 9-bit movement is produced by exactly one byte and sign. */
  lemma DeltaOnto(d: int)
    requires -256 <= d <= 255
    ensures Delta(Wrap8(d), d < 0) == d
  {
  }

  /**
   * drivers/input/keyboard.c as written: the byte is stored in an int8_t,
   * so it is already sign-extended from bit 7, and the sign bit then ORs
   * 0xFFFFFF00 into the int (which changes a negative value not at all and
   * a non-negative one by -256).
   */
  function DriverDeltaAsWritten(b: u8, sign: bool): (r: int)
  {
    var d := AsInt8(b);
    if sign && d >= 0 then d - 256 else d
  }

  /** A movement of +240 (byte 0xF0, sign bit clear) is read as -16. */
  lemma DriverDeltaMisreads()
    ensures DriverDeltaAsWritten(0xF0, false) == -16
    ensures Delta(0xF0, false) == 240
  {
  }

  /** The as-written decoding goes wrong exactly on a byte of 0x80 or more with the sign bit clear. */
  lemma DriverDeltaAgreement(b: u8, sign: bool)
    ensures DriverDeltaAsWritten(b, sign) == Delta(b, sign) <==> (b < 128 || sign)
  {
  }

  /**
   * mouse.c as written: the byte is stored in an int8_t (sign-extended from
   * bit 7) and the sign bit then subtracts 256 again.
   */
  function MouseDeltaAsWritten(b: u8, sign: bool): (r: int)
  {
    if sign then AsInt8(b) - 256 else AsInt8(b)
  }

  /** A movement of -1 (byte 0xFF, sign bit set) is read as -257, and +200 (0xC8, sign clear) as -56. */
  lemma MouseDeltaMisreads()
    ensures MouseDeltaAsWritten(0xFF, true) == -257 && Delta(0xFF, true) == -1
    ensures MouseDeltaAsWritten(0xC8, false) == -56 && Delta(0xC8, false) == 200
  {
  }

  /** The as-written decoding agrees with the intended one exactly for bytes below 0x80. */
  lemma MouseDeltaAgreement(b: u8, sign: bool)
    ensures MouseDeltaAsWritten(b, sign) == Delta(b, sign) <==> b < 128
  {
  }
}
