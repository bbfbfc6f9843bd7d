/** The published check values: the checksums of the digits 1 to 9. */
module CrcConformance {
  import opened CrcAlgorithm
  import Crc16
  import Crc32
  import Crc8

  const DIGITS: Message := [0x31, 0x32, 0x33, 0x34, 0x35, 0x36, 0x37, 0x38, 0x39]

  /** The registers that the digits run through. */
  const REGISTERS8: seq<bv8> := [0x00, 0x97, 0x72, 0xC0, 0xC2, 0xCB, 0xFD, 0x78, 0xC7, 0xF4]

  const REGISTERS16: seq<bv16> := [
    0xFFFF, 0xC782, 0x3DBA, 0x5BCE, 0x5349, 0x4560, 0x2EF4, 0x7718, 0xA12B, 0x29B1]

  const REGISTERS32: seq<bv32> := [
    0xFFFF_FFFF, 0x7C23_1048, 0xB0AC_BB32, 0x77B7_9C2D, 0x641C_1F5C,
    0x340A_C5E3, 0xF68D_2C9E, 0xAFFC_9660, 0x651F_2550, 0x340B_C6D9]

  lemma {:induction false} Digit8(k: nat)
    requires k < 9
    ensures Step(Crc8.ALGORITHM, REGISTERS8[k], DIGITS[k]) == REGISTERS8[k + 1]
  {
    EightRounds(Crc8.Bit, Crc8.Add(REGISTERS8[k], DIGITS[k]));
  }

  lemma {:induction false} Digit16(k: nat)
    requires k < 9
    ensures Step(Crc16.ALGORITHM, REGISTERS16[k], DIGITS[k]) == REGISTERS16[k + 1]
  {
    EightRounds(Crc16.Bit, Crc16.Add(REGISTERS16[k], Crc16.Place(DIGITS[k])));
  }

  lemma {:induction false} Next32(v: bv32, b: bv8, w: bv32)
    requires Crc32.Byte(Crc32.Add(v, Crc32.Place(b))) == w
    ensures Step(Crc32.ALGORITHM, v, b) == w
  {
    EightRounds(Crc32.Bit, Crc32.Add(v, Crc32.Place(b)));
  }

  lemma {:induction false} Digit32(k: nat)
    requires k < 9
    ensures Step(Crc32.ALGORITHM, REGISTERS32[k], DIGITS[k]) == REGISTERS32[k + 1]
  {
    match k
    case 0 => Next32(0xFFFF_FFFF, 0x31, 0x7C23_1048);
    case 1 => Next32(0x7C23_1048, 0x32, 0xB0AC_BB32);
    case 2 => Next32(0xB0AC_BB32, 0x33, 0x77B7_9C2D);
    case 3 => Next32(0x77B7_9C2D, 0x34, 0x641C_1F5C);
    case 4 => Next32(0x641C_1F5C, 0x35, 0x340A_C5E3);
    case 5 => Next32(0x340A_C5E3, 0x36, 0xF68D_2C9E);
    case 6 => Next32(0xF68D_2C9E, 0x37, 0xAFFC_9660);
    case 7 => Next32(0xAFFC_9660, 0x38, 0x651F_2550);
    case _ => Next32(0x651F_2550, 0x39, 0x340B_C6D9);
  }

  lemma {:induction false} CheckValues()
    ensures Crc(Crc8.ALGORITHM, DIGITS) == 0xF4
    ensures Crc(Crc16.ALGORITHM, DIGITS) == 0x29B1
    ensures Crc(Crc32.ALGORITHM, DIGITS) == 0xCBF4_3926
  {
    forall k | 0 <= k < 9
      ensures Step(Crc8.ALGORITHM, REGISTERS8[k], DIGITS[k]) == REGISTERS8[k + 1]
      ensures Step(Crc16.ALGORITHM, REGISTERS16[k], DIGITS[k]) == REGISTERS16[k + 1]
      ensures Step(Crc32.ALGORITHM, REGISTERS32[k], DIGITS[k]) == REGISTERS32[k + 1]
    {
      Digit8(k);
      Digit16(k);
      Digit32(k);
    }
    FedAlong(Crc8.ALGORITHM, REGISTERS8, DIGITS);
    FedAlong(Crc16.ALGORITHM, REGISTERS16, DIGITS);
    FedAlong(Crc32.ALGORITHM, REGISTERS32, DIGITS);
  }
}
