/** CRC-8/SMBUS: generator x^8 + x^2 + x + 1, most significant bit first. */
module Crc8 {
  import opened BitOrders
  import opened CrcAlgorithm
  import opened CrcTheory

  const INITIAL: bv8 := 0
  const FINAL_XOR: bv8 := 0
  const FEEDBACK: bv8 := 0x07

  /** One bit round of the inner loop; the shift drops the bit that leaves the register. */
  function Bit(v: bv8): bv8 {
    (v << 1) ^ (if v & 0x80 != 0 then FEEDBACK else 0)
  }

  function Add(v: bv8, w: bv8): bv8 {
    v ^ w
  }

  function Place(b: bv8): bv8 {
    b
  }

  /** The checksum as a byte. */
  function Bytes(value: bv8): Message {
    [value]
  }

  const ALGORITHM := Algorithm(Bit, Add, Place, Bytes, 1, INITIAL, FINAL_XOR)
  const READING := Reading(PLAIN, FEEDBACK)

  // ---------------------------------------------------------------- the register, byte by byte

  lemma {:induction false} RoundShiftsBytes(v: bv8, n: nat)
    requires n < 1
    ensures RoundShifts(ALGORITHM, READING, v, n)
  {
  }

  lemma {:induction false} SumOfBytes(v: bv8, w: bv8)
    ensures SumsBytes(ALGORITHM, v, w)
  {
  }

  lemma {:induction false} BytesKeepAll(v: bv8, w: bv8)
    requires Bytes(v) == Bytes(w)
    ensures v == w
  {
    assert Bytes(v)[0] == Bytes(w)[0];
  }

  /** The loops of crc.c compute with polynomials. */
  lemma {:induction false} IsReading()
    ensures Reads(ALGORITHM, READING)
  {
    PlainOrders();
    forall v: bv8, n: nat | n < 1 ensures RoundShifts(ALGORITHM, READING, v, n) {
      RoundShiftsBytes(v, n);
    }
    forall v: bv8, w: bv8 ensures SumsBytes(ALGORITHM, v, w) {
      SumOfBytes(v, w);
    }
    forall v: bv8, w: bv8 | SameBytes(ALGORITHM, v, w) ensures v == w {
      BytesKeepAll(v, w);
    }
    BytewiseReads(ALGORITHM, READING);
  }

  /** The generator polynomial. */
  lemma {:induction false} GeneratorExponents()
    ensures Generator(ALGORITHM, READING) == {8, 2, 1, 0}
  {
    assert forall i: nat :: i in Generator(ALGORITHM, READING) <==> i in {8, 2, 1, 0};
  }

  /** Behind every message that is followed by its checksum the register is zero. */
  lemma {:induction false} ResidueIsZero()
    ensures Residue(ALGORITHM) == 0
  {
    RoundsRest(Bit, 0, 8);
  }

  // ---------------------------------------------------------------- the bit round has an inverse

  function Unbit(v: bv8): bv8 {
    if v & 1 != 0 then ((v ^ FEEDBACK) >> 1) | 0x80 else v >> 1
  }

  lemma {:induction false} BitUnbitPlain(v: bv8)
    requires v & 1 == 0
    ensures Bit(Unbit(v)) == v
  {
  }

  lemma {:induction false} BitUnbitFed(v: bv8)
    requires v & 1 != 0
    ensures Bit(Unbit(v)) == v
  {
  }

  /** A bit round is a bijection: Unbit is its two-sided inverse. */
  lemma {:induction false} BitIsBijective(v: bv8)
    ensures Bit(Unbit(v)) == v
    ensures Unbit(Bit(v)) == v
  {
    forall w: bv8 ensures Bit(Unbit(w)) == w {
      if w & 1 == 0 { BitUnbitPlain(w); } else { BitUnbitFed(w); }
    }
    IsReading();
    BitIsInjective(ALGORITHM, READING, Unbit(Bit(v)), v);
  }
}
