/**
 CRC-32/ISO-HDLC, the 32-bit frame check sequence of RFC 1662, Appendix C.3: reflected, so that the lowest bit of a
 byte and of the register is the highest coefficient.
 */
module Crc32 {
  import opened BitOrders
  import opened CrcAlgorithm
  import opened CrcTheory

  const INITIAL: bv32 := 0xFFFF_FFFF
  const FINAL_XOR: bv32 := 0xFFFF_FFFF
  const FEEDBACK: bv32 := 0xEDB8_8320

  /** One bit round of the inner loop; the shift drops the bit that leaves the register. */
  function Bit(v: bv32): bv32 {
    (v >> 1) ^ (if v & 1 != 0 then FEEDBACK else 0)
  }

  function Add(v: bv32, w: bv32): bv32 {
    v ^ w
  }

  function Place(b: bv8): bv32 {
    b as bv32
  }

  /** The checksum as bytes, least significant first. */
  function Bytes(value: bv32): Message {
    [(value & 0xFF) as bv8, ((value >> 8) & 0xFF) as bv8, ((value >> 16) & 0xFF) as bv8, (value >> 24) as bv8]
  }

  const ALGORITHM := Algorithm(Bit, Add, Place, Bytes, 4, INITIAL, FINAL_XOR)
  const READING := Reading(REFLECTED, FEEDBACK)

  // ---------------------------------------------------------------- the register, byte by byte

  lemma {:induction false} RoundShiftsByte0(v: bv32)
    ensures RoundShifts(ALGORITHM, READING, v, 0)
  {
  }

  lemma {:induction false} RoundShiftsByte1(v: bv32)
    ensures RoundShifts(ALGORITHM, READING, v, 1)
  {
  }

  lemma {:induction false} RoundShiftsByte2(v: bv32)
    ensures RoundShifts(ALGORITHM, READING, v, 2)
  {
  }

  lemma {:induction false} RoundShiftsByte3(v: bv32)
    ensures RoundShifts(ALGORITHM, READING, v, 3)
  {
  }

  lemma {:induction false} XorOfBytes(v: bv32, w: bv32)
    ensures Bytes(v ^ w)[0] == Bytes(v)[0] ^ Bytes(w)[0]
    ensures Bytes(v ^ w)[1] == Bytes(v)[1] ^ Bytes(w)[1]
    ensures Bytes(v ^ w)[2] == Bytes(v)[2] ^ Bytes(w)[2]
    ensures Bytes(v ^ w)[3] == Bytes(v)[3] ^ Bytes(w)[3]
  {
  }

  lemma {:induction false} SumOfBytes(v: bv32, w: bv32)
    ensures SumsBytes(ALGORITHM, v, w)
  {
    XorOfBytes(v, w);
    assert Bytes(v ^ w) == Xor(Bytes(v), Bytes(w));
  }

  lemma {:induction false} BytesKeepAll(v: bv32, w: bv32)
    requires Bytes(v) == Bytes(w)
    ensures v == w
  {
    assert Bytes(v)[0] == Bytes(w)[0] && Bytes(v)[1] == Bytes(w)[1];
    assert Bytes(v)[2] == Bytes(w)[2] && Bytes(v)[3] == Bytes(w)[3];
  }

  /** The loops of crc.c compute with polynomials. */
  lemma {:induction false} IsReading()
    ensures Reads(ALGORITHM, READING)
  {
    ReflectedOrders();
    forall v: bv32, n: nat | n < 4 ensures RoundShifts(ALGORITHM, READING, v, n) {
      if n < 2 {
        if n == 0 { RoundShiftsByte0(v); } else { RoundShiftsByte1(v); }
      } else {
        if n == 2 { RoundShiftsByte2(v); } else { RoundShiftsByte3(v); }
      }
    }
    forall v: bv32, w: bv32 ensures SumsBytes(ALGORITHM, v, w) {
      SumOfBytes(v, w);
    }
    forall v: bv32, w: bv32 | SameBytes(ALGORITHM, v, w) ensures v == w {
      BytesKeepAll(v, w);
    }
    BytewiseReads(ALGORITHM, READING);
  }

  /** The generator polynomial. */
  lemma {:induction false} GeneratorExponents()
    ensures Generator(ALGORITHM, READING) == {32, 26, 23, 22, 16, 12, 11, 10, 8, 7, 5, 4, 2, 1, 0}
  {
    assert forall i: nat :: i in Generator(ALGORITHM, READING) <==>
      i in {32, 26, 23, 22, 16, 12, 11, 10, 8, 7, 5, 4, 2, 1, 0};
  }

  /** The good FCS of RFC 1662, Appendix C.3. */
  const RESIDUE: bv32 := 0xDEBB_20E3

  /** Eight bit rounds, written out. */
  function Byte(v: bv32): bv32 {
    Bit(Bit(Bit(Bit(Bit(Bit(Bit(Bit(v))))))))
  }

  lemma {:induction false} EightMore(v: bv32, n: nat)
    ensures Rounds(Bit, v, n + 8) == Byte(Rounds(Bit, v, n))
  {
    RoundsSplit(Bit, v, n, 8);
    EightRounds(Bit, Rounds(Bit, v, n));
  }

  lemma {:induction false} HalfOfTheResidue()
    ensures Rounds(Bit, FINAL_XOR, 16) == 0xBE26_ED00
  {
    EightMore(FINAL_XOR, 0);
    assert Rounds(Bit, FINAL_XOR, 8) == 0x2DFD_1072;
    EightMore(FINAL_XOR, 8);
  }

  /** Where the register is behind every message that is followed by its checksum. */
  lemma {:induction false} ResidueIsGood()
    ensures Residue(ALGORITHM) == RESIDUE
  {
    HalfOfTheResidue();
    EightMore(FINAL_XOR, 16);
    assert Rounds(Bit, FINAL_XOR, 24) == 0x00BE_26ED;
    EightMore(FINAL_XOR, 24);
  }

  // ---------------------------------------------------------------- the bit round has an inverse

  function Unbit(v: bv32): bv32 {
    if v & 0x8000_0000 != 0 then ((v ^ FEEDBACK) << 1) | 1 else v << 1
  }

  lemma {:induction false} BitUnbitPlain(v: bv32)
    requires v & 0x8000_0000 == 0
    ensures Bit(Unbit(v)) == v
  {
  }

  lemma {:induction false} BitUnbitFed(v: bv32)
    requires v & 0x8000_0000 != 0
    ensures Bit(Unbit(v)) == v
  {
  }

  /** A bit round is a bijection: Unbit is its two-sided inverse. */
  lemma {:induction false} BitIsBijective(v: bv32)
    ensures Bit(Unbit(v)) == v
    ensures Unbit(Bit(v)) == v
  {
    forall w: bv32 ensures Bit(Unbit(w)) == w {
      if w & 0x8000_0000 == 0 { BitUnbitPlain(w); } else { BitUnbitFed(w); }
    }
    IsReading();
    BitIsInjective(ALGORITHM, READING, Unbit(Bit(v)), v);
  }
}
