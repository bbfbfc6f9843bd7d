/** CRC-16/CCITT-FALSE: generator x^16 + x^12 + x^5 + 1, most significant bit first. */
module Crc16 {
  import opened BitOrders
  import opened CrcAlgorithm
  import opened CrcTheory

  const INITIAL: bv16 := 0xFFFF
  const FINAL_XOR: bv16 := 0
  const FEEDBACK: bv16 := 0x1021

  /** One bit round of the inner loop; the shift drops the bit that leaves the register. */
  function Bit(v: bv16): bv16 {
    (v << 1) ^ (if v & 0x8000 != 0 then FEEDBACK else 0)
  }

  function Add(v: bv16, w: bv16): bv16 {
    v ^ w
  }

  function Place(b: bv8): bv16 {
    (b as bv16) << 8
  }

  /** The checksum as bytes, most significant first. */
  function Bytes(value: bv16): Message {
    [(value >> 8) as bv8, (value & 0xFF) as bv8]
  }

  const ALGORITHM := Algorithm(Bit, Add, Place, Bytes, 2, INITIAL, FINAL_XOR)
  const READING := Reading(PLAIN, FEEDBACK)

  // ---------------------------------------------------------------- the register, byte by byte

  lemma {:induction false} RoundShiftsByte0(v: bv16)
    ensures RoundShifts(ALGORITHM, READING, v, 0)
  {
  }

  lemma {:induction false} RoundShiftsByte1(v: bv16)
    ensures RoundShifts(ALGORITHM, READING, v, 1)
  {
  }

  lemma {:induction false} XorOfBytes(v: bv16, w: bv16)
    ensures Bytes(v ^ w)[0] == Bytes(v)[0] ^ Bytes(w)[0]
    ensures Bytes(v ^ w)[1] == Bytes(v)[1] ^ Bytes(w)[1]
  {
  }

  lemma {:induction false} SumOfBytes(v: bv16, w: bv16)
    ensures SumsBytes(ALGORITHM, v, w)
  {
    XorOfBytes(v, w);
    assert Bytes(v ^ w) == Xor(Bytes(v), Bytes(w));
  }

  lemma {:induction false} BytesKeepAll(v: bv16, w: bv16)
    requires Bytes(v) == Bytes(w)
    ensures v == w
  {
    assert Bytes(v)[0] == Bytes(w)[0] && Bytes(v)[1] == Bytes(w)[1];
  }

  /** The loops of crc.c compute with polynomials. */
  lemma {:induction false} IsReading()
    ensures Reads(ALGORITHM, READING)
  {
    PlainOrders();
    forall v: bv16, n: nat | n < 2 ensures RoundShifts(ALGORITHM, READING, v, n) {
      if n == 0 { RoundShiftsByte0(v); } else { RoundShiftsByte1(v); }
    }
    forall v: bv16, w: bv16 ensures SumsBytes(ALGORITHM, v, w) {
      SumOfBytes(v, w);
    }
    forall v: bv16, w: bv16 | SameBytes(ALGORITHM, v, w) ensures v == w {
      BytesKeepAll(v, w);
    }
    BytewiseReads(ALGORITHM, READING);
  }

  /** The generator polynomial. */
  lemma {:induction false} GeneratorExponents()
    ensures Generator(ALGORITHM, READING) == {16, 12, 5, 0}
  {
    assert forall i: nat :: i in Generator(ALGORITHM, READING) <==> i in {16, 12, 5, 0};
  }

  /** Behind every message that is followed by its checksum the register is zero. */
  lemma {:induction false} ResidueIsZero()
    ensures Residue(ALGORITHM) == 0
  {
    RoundsRest(Bit, 0, 16);
  }

  // ---------------------------------------------------------------- the bit round has an inverse

  function Unbit(v: bv16): bv16 {
    if v & 1 != 0 then ((v ^ FEEDBACK) >> 1) | 0x8000 else v >> 1
  }

  lemma {:induction false} BitUnbitPlain(v: bv16)
    requires v & 1 == 0
    ensures Bit(Unbit(v)) == v
  {
  }

  lemma {:induction false} BitUnbitFed(v: bv16)
    requires v & 1 != 0
    ensures Bit(Unbit(v)) == v
  {
  }

  /** A bit round is a bijection: Unbit is its two-sided inverse. */
  lemma {:induction false} BitIsBijective(v: bv16)
    ensures Bit(Unbit(v)) == v
    ensures Unbit(Bit(v)) == v
  {
    forall w: bv16 ensures Bit(Unbit(w)) == w {
      if w & 1 == 0 { BitUnbitPlain(w); } else { BitUnbitFed(w); }
    }
    IsReading();
    BitIsInjective(ALGORITHM, READING, Unbit(Bit(v)), v);
  }
}
