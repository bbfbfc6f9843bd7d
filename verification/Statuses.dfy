/** The status codes shared by every function of libraries/ and services/. */
module MizuStatuses {

  datatype MizuStatus =
    | OK
    | INVALID_ARGUMENT
    | INVALID_STATE
    | NOT_INITIALIZED
    | OUT_OF_RANGE
    | INTERNAL_ERROR
    | FULL
    | EMPTY
    | INVALID_DATA
    | OVERFLOW
    | BUSY
}

/** The status codes shared by the archived components. */
module FoundationStatuses {

  datatype FoundationStatus =
    | OK
    | INVALID_ARGUMENT
    | NOT_INITIALIZED
    | INVALID_STATE
    | OUT_OF_RANGE
    | EMPTY
    | FULL
    | BUFFER_TOO_SMALL
    | INVALID_DATA
    | OVERFLOW
    | BUSY
    | TIMEOUT
    | IO_ERROR
    | UNAVAILABLE
    | NOT_FOUND
    | CANCELLED
    | INTERNAL_ERROR
    | INVALID_CONTEXT
    | UNSUPPORTED
}

module Options {
  datatype Option<+T> = None | Some(value: T)
}

/** Fixed-width integers of C, as ranges of the unbounded integers. */
module Integers {

  const INT32_MIN: int := -0x8000_0000
  const INT32_MAX: int := 0x7fff_ffff
  const UINT32_MAX: int := 0xffff_ffff
  const UINT16_MAX: int := 0xffff
  const INT64_MIN: int := -0x8000_0000_0000_0000
  const INT64_MAX: int := 0x7fff_ffff_ffff_ffff
  const UINT64_MAX: int := 0xffff_ffff_ffff_ffff

  /** The smallest SIZE_MAX that the C standard permits (ISO C11, section 7.20.3). */
  const LEAST_SIZE_MAX: int := 65535

  newtype byte = x: int | 0 <= x < 256
  type uint8 = x: int | 0 <= x < 256
  type uint16 = x: int | 0 <= x <= 0xffff
  type int32 = x: int | -0x8000_0000 <= x <= 0x7fff_ffff
  type uint32 = x: int | 0 <= x <= 0xffff_ffff
  type int64 = x: int | -0x8000_0000_0000_0000 <= x <= 0x7fff_ffff_ffff_ffff
  type uint64 = x: int | 0 <= x <= 0xffff_ffff_ffff_ffff

  function Min(a: int, b: int): int {
    if a <= b then a else b
  }
}

/** Facts about integer division that the solver does not find by itself. */
module Division {

  lemma {:induction false} MultipleIsLarge(p: int, k: int)
    requires p > 0
    ensures k >= 1 ==> p * k >= p
    ensures k <= -1 ==> p * k <= 0 - p
  {
  }

  lemma {:induction false} MultipleMonotone(p: int, j: int, k: int)
    ensures p >= 0 && j <= k ==> p * j <= p * k
  {
    assert p >= 0 && j <= k ==> p * (k - j) >= 0;
  }

  /** Quotient and remainder are unique. */
  lemma {:induction false} DivideUniquely(x: int, p: int, q: int, r: int)
    requires p > 0 && x == p * q + r && 0 <= r < p
    ensures x / p == q && x % p == r
  {
    MultipleIsLarge(p, x / p - q);
    assert p * (x / p - q) == p * (x / p) - p * q;
  }

  lemma {:induction false} DivideBack(x: int, p: int, q: int)
    requires p > 0 && q == x / p
    ensures x == x % p + p * q
  {
  }

  lemma {:induction false} DivideSum(x: nat, d: nat, p: nat)
    requires p > 0
    ensures (x + d) % p == (x % p + d) % p
    ensures (x + d) / p == x / p + (x % p + d) / p
  {
    var total := x % p + d;
    assert x + d == p * (x / p) + total == p * (x / p) + p * (total / p) + total % p;
    assert p * (x / p + total / p) == p * (x / p) + p * (total / p);
    DivideUniquely(x + d, p, x / p + total / p, total % p);
  }

  lemma {:induction false} QuotientAtMost(x: nat, p: nat)
    requires p > 0
    ensures 0 <= x / p <= x
  {
    DivideBack(x, p, x / p);
    MultipleMonotone(x / p, 1, p);
  }

  lemma {:induction false} DivideMonotone(x: nat, y: nat, p: nat)
    requires p > 0 && x <= y
    ensures x / p <= y / p
  {
    DivideSum(x, y - x, p);
  }
}
