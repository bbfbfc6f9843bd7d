/** The two orders in which the checksums read the bits of a byte. */
module BitOrders {
  import opened CrcTheory

  /** The highest coefficient in the highest bit. */
  function Upward(b: bv8, k: nat): bool {
    match k
    case 0 => b & 1 == 1
    case 1 => (b >> 1) & 1 == 1
    case 2 => (b >> 2) & 1 == 1
    case 3 => (b >> 3) & 1 == 1
    case 4 => (b >> 4) & 1 == 1
    case 5 => (b >> 5) & 1 == 1
    case 6 => (b >> 6) & 1 == 1
    case 7 => (b >> 7) & 1 == 1
    case _ => false
  }

  /** The highest coefficient in the lowest bit. */
  function Downward(b: bv8, k: nat): bool {
    k < 8 && Upward(b, 7 - k)
  }

  function ShiftUp(b: bv8, below: bv8): bv8 {
    (b << 1) | (below >> 7)
  }

  function ShiftDown(b: bv8, below: bv8): bv8 {
    (b >> 1) | (below << 7)
  }

  const PLAIN := BitOrder(Upward, ShiftUp)
  const REFLECTED := BitOrder(Downward, ShiftDown)

  lemma {:induction false} EightBits(b: bv8, c: bv8)
    requires (b & 0x01 != 0) == (c & 0x01 != 0) && (b & 0x02 != 0) == (c & 0x02 != 0)
    requires (b & 0x04 != 0) == (c & 0x04 != 0) && (b & 0x08 != 0) == (c & 0x08 != 0)
    requires (b & 0x10 != 0) == (c & 0x10 != 0) && (b & 0x20 != 0) == (c & 0x20 != 0)
    requires (b & 0x40 != 0) == (c & 0x40 != 0) && (b & 0x80 != 0) == (c & 0x80 != 0)
    ensures b == c
  {
  }

  lemma {:induction false} MasksDecide(b: bv8, c: bv8)
    requires forall k :: 0 <= k < 8 ==> Upward(b, k) == Upward(c, k)
    ensures b == c
  {
    assert Upward(b, 0) == Upward(c, 0) && Upward(b, 1) == Upward(c, 1);
    assert Upward(b, 2) == Upward(c, 2) && Upward(b, 3) == Upward(c, 3);
    assert Upward(b, 4) == Upward(c, 4) && Upward(b, 5) == Upward(c, 5);
    assert Upward(b, 6) == Upward(c, 6) && Upward(b, 7) == Upward(c, 7);
    EightBits(b, c);
  }

  lemma {:induction false} XorLow(b: bv8, c: bv8, k: nat)
    requires k < 4
    ensures Upward(b ^ c, k) == (Upward(b, k) != Upward(c, k))
  {
  }

  lemma {:induction false} XorHigh(b: bv8, c: bv8, k: nat)
    requires 4 <= k < 8
    ensures Upward(b ^ c, k) == (Upward(b, k) != Upward(c, k))
  {
  }

  lemma {:induction false} XorUpward(b: bv8, c: bv8, k: nat)
    requires k < 8
    ensures Upward(b ^ c, k) == (Upward(b, k) != Upward(c, k))
  {
    if k < 4 { XorLow(b, c, k); } else { XorHigh(b, c, k); }
  }

  lemma {:induction false} ShiftedUp(b: bv8, below: bv8, k: nat)
    requires k < 8
    ensures Upward(ShiftUp(b, below), k) == if k > 0 then Upward(b, k - 1) else Upward(below, 7)
  {
  }

  lemma {:induction false} ShiftedDown(b: bv8, below: bv8, k: nat)
    requires k < 8
    ensures Upward(ShiftDown(b, below), k) == if k < 7 then Upward(b, k + 1) else Upward(below, 0)
  {
  }

  lemma {:induction false} PlainOrders()
    ensures Orders(PLAIN)
  {
    forall b: bv8, c: bv8 | SameBits(PLAIN, b, c) ensures b == c {
      forall k | 0 <= k < 8 ensures Upward(b, k) == Upward(c, k) {
        assert PLAIN.coefficient(b, k) == PLAIN.coefficient(c, k);
      }
      MasksDecide(b, c);
    }
    forall b: bv8, c: bv8, k: nat | k < 8 ensures XorsBit(PLAIN, b, c, k) && ShiftsBit(PLAIN, b, c, k) {
      XorUpward(b, c, k);
      ShiftedUp(b, c, k);
    }
  }

  lemma {:induction false} ReflectedOrders()
    ensures Orders(REFLECTED)
  {
    forall b: bv8, c: bv8 | SameBits(REFLECTED, b, c) ensures b == c {
      forall k | 0 <= k < 8 ensures Upward(b, k) == Upward(c, k) {
        assert REFLECTED.coefficient(b, 7 - k) == REFLECTED.coefficient(c, 7 - k);
      }
      MasksDecide(b, c);
    }
    forall b: bv8, c: bv8, k: nat | k < 8 ensures XorsBit(REFLECTED, b, c, k) {
      XorUpward(b, c, 7 - k);
    }
    forall b: bv8, c: bv8, k: nat | k < 8 ensures ShiftsBit(REFLECTED, b, c, k) {
      ShiftedDown(b, c, 7 - k);
    }
  }
}
