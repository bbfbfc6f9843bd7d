/** object_pool.c on values: which slots are lent, and the index that makes acquiring fast. */
module ObjectPoolSpec {
  import opened FoundationStatuses
  import opened Integers
  import opened Options
  import opened BlockRing
  import Division

  const FREE: byte := 0
  const HELD: byte := 1

  /** base is the address of the storage. */
  datatype Pool = Pool(
    base: nat,
    slotSize: nat,
    states: seq<byte>,
    available: nat,
    lowestFree: nat,
    exhausted: nat)

  datatype Outcome = Outcome(pool: Pool, status: FoundationStatus, slot: nat)

  // ---------------------------------------------------------------- alignment

  /** The bitwise and of two unsigned numbers of any width. */
  function And(a: nat, b: nat): nat {
    if a == 0 || b == 0 then 0 else 2 * And(a / 2, b / 2) + if a % 2 == 1 && b % 2 == 1 then 1 else 0
  }

  function TwoTo(k: nat): (n: nat)
    ensures n > 0
  {
    if k == 0 then 1 else 2 * TwoTo(k - 1)
  }

  ghost predicate PowerOfTwo(n: nat) {
    n > 0 && exists k: nat :: n == TwoTo(k)
  }

  lemma {:induction false} AndItself(n: nat)
    ensures And(n, n) == n
  {
    if n > 0 {
      AndItself(n / 2);
    }
  }

  lemma {:induction false} HalfOfPower(n: nat)
    requires n > 1
    ensures PowerOfTwo(n) <==> n % 2 == 0 && PowerOfTwo(n / 2)
  {
    if PowerOfTwo(n) {
      var k: nat :| n == TwoTo(k);
      assert n / 2 == TwoTo(k - 1);
    }
    if n % 2 == 0 && PowerOfTwo(n / 2) {
      var k: nat :| n / 2 == TwoTo(k);
      assert n == TwoTo(k + 1);
    }
  }

  /** The test of object_pool_init accepts exactly the powers of two. */
  lemma {:induction false} SingleBitTest(n: nat)
    requires n > 0
    ensures And(n, n - 1) == 0 <==> PowerOfTwo(n)
  {
    if n == 1 {
      assert 1 == TwoTo(0);
    } else {
      HalfOfPower(n);
      if n % 2 == 0 {
        assert (n - 1) / 2 == n / 2 - 1;
        SingleBitTest(n / 2);
      } else {
        assert (n - 1) / 2 == n / 2;
        AndItself(n / 2);
      }
    }
  }

  function FreeCount(states: seq<byte>): (n: nat)
    ensures n <= |states|
  {
    if states == [] then 0
    else FreeCount(states[..|states| - 1]) + if states[|states| - 1] == FREE then 1 else 0
  }

  /** The least free slot at or behind from, or the number of slots. */
  function NextFree(states: seq<byte>, from: nat): (k: nat)
    requires from <= |states|
    ensures from <= k <= |states|
    ensures k < |states| ==> states[k] == FREE
    ensures forall i :: from <= i < k ==> states[i] != FREE
    decreases |states| - from
  {
    if from < |states| && states[from] != FREE then NextFree(states, from + 1) else from
  }

  /** The slots that are lent. */
  ghost function Held(states: seq<byte>): set<nat> {
    set i: nat | i < |states| && states[i] == HELD
  }

  ghost predicate ValidPool(sizeMax: nat, p: Pool) {
    && p.slotSize > 0 && |p.states| > 0 && p.exhausted <= sizeMax
    && (forall i :: 0 <= i < |p.states| ==> p.states[i] == FREE || p.states[i] == HELD)
    && p.available == FreeCount(p.states)
    && p.lowestFree == NextFree(p.states, 0)
  }

  lemma {:induction false} FreeCountUpdate(states: seq<byte>, k: nat, value: byte)
    requires k < |states|
    ensures FreeCount(states[k := value]) ==
      FreeCount(states) - (if states[k] == FREE then 1 else 0) + (if value == FREE then 1 else 0)
  {
    var n := |states| - 1;
    if k < n {
      FreeCountUpdate(states[..n], k, value);
      assert states[k := value][..n] == states[..n][k := value];
    } else {
      assert states[k := value][..n] == states[..n];
    }
  }

  /** There is a free slot exactly when the count says so. */
  lemma {:induction false} FreeMeansCounted(states: seq<byte>)
    ensures FreeCount(states) > 0 <==> NextFree(states, 0) < |states|
  {
    if states != [] {
      var n := |states| - 1;
      FreeMeansCounted(states[..n]);
      var early, late := NextFree(states[..n], 0), NextFree(states, 0);
      if early < n {
        assert states[early] == FREE;
      } else {
        assert forall i :: 0 <= i < n ==> states[i] == states[..n][i];
      }
      if late < n {
        assert states[..n][late] == FREE;
      }
    }
  }

  lemma {:induction false} NextFreeIs(states: seq<byte>, k: nat)
    requires k <= |states| && (k < |states| ==> states[k] == FREE) && forall i :: 0 <= i < k ==> states[i] != FREE
    ensures NextFree(states, 0) == k
  {
  }

  lemma {:induction false} HeldAndFree(states: seq<byte>)
    requires forall i :: 0 <= i < |states| ==> states[i] == FREE || states[i] == HELD
    ensures |Held(states)| + FreeCount(states) == |states|
  {
    if states == [] {
      assert Held(states) == {};
    } else {
      var n := |states| - 1;
      HeldAndFree(states[..n]);
      assert Held(states) == Held(states[..n]) + if states[n] == HELD then {n} else {};
    }
  }

  lemma {:induction false} QuotientBelow(offset: nat, count: nat, n: nat)
    requires n > 0 && offset < count * n
    ensures offset / n < count
  {
    Division.DivideBack(offset, n, offset / n);
    Division.MultipleMonotone(n, count, offset / n);
  }

  /** With storage and slot size aligned, every slot is. */
  lemma {:induction false} SlotsAreAligned(p: Pool, k: nat, alignment: nat)
    requires alignment > 0 && p.base % alignment == 0 && p.slotSize % alignment == 0
    ensures SlotAddress(p.base, p.slotSize, k) % alignment == 0
  {
    var base, step := p.base / alignment, p.slotSize / alignment;
    assert p.base == alignment * base && p.slotSize == alignment * step;
    assert k * (alignment * step) == alignment * (k * step);
    Division.DivideUniquely(p.base + k * p.slotSize, alignment, base + k * step, 0);
  }

  /** object_pool_acquire. */
  function AcquireStep(sizeMax: nat, p: Pool): Outcome
    requires p.lowestFree <= |p.states|
  {
    if p.available == 0 then
      Outcome(p.(exhausted := if p.exhausted < sizeMax then p.exhausted + 1 else p.exhausted), FULL, 0)
    else if p.lowestFree >= |p.states| || p.states[p.lowestFree] != FREE then Outcome(p, INVALID_STATE, 0)
    else
      var slot := p.lowestFree;
      Outcome(p.(states := p.states[slot := HELD], available := p.available - 1,
                 lowestFree := NextFree(p.states, slot + 1)),
              OK, slot)
  }

  /** object_pool_release; None is the null pointer. */
  function ReleaseStep(p: Pool, address: Option<nat>): Outcome
    requires p.slotSize > 0
  {
    if address.None? || address.value < p.base then Outcome(p, INVALID_ARGUMENT, 0)
    else
      var offset := address.value - p.base;
      if offset >= |p.states| * p.slotSize || offset % p.slotSize != 0 then Outcome(p, INVALID_ARGUMENT, 0)
      else
        var slot := offset / p.slotSize;
        QuotientBelow(offset, |p.states|, p.slotSize);
        if p.states[slot] != HELD then Outcome(p, INVALID_STATE, 0)
        else
          Outcome(p.(states := p.states[slot := FREE], available := p.available + 1,
                     lowestFree := if slot < p.lowestFree then slot else p.lowestFree),
                  OK, slot)
  }

  lemma {:induction false} AcquireKeepsValid(sizeMax: nat, p: Pool)
    requires ValidPool(sizeMax, p)
    ensures var r := AcquireStep(sizeMax, p);
            ValidPool(sizeMax, r.pool) && r.status == (if p.available == 0 then FULL else OK)
  {
    FreeMeansCounted(p.states);
    if p.available > 0 {
      var slot := p.lowestFree;
      FreeCountUpdate(p.states, slot, HELD);
      NextFreeIs(p.states[slot := HELD], NextFree(p.states, slot + 1));
    }
  }

  lemma {:induction false} HeldUpdate(states: seq<byte>, slot: nat, value: byte)
    requires slot < |states|
    ensures Held(states[slot := value]) == if value == HELD then Held(states) + {slot} else Held(states) - {slot}
  {
  }

  lemma {:induction false} FullMeansHeld(sizeMax: nat, p: Pool)
    requires ValidPool(sizeMax, p)
    ensures p.available == 0 <==> |Held(p.states)| == |p.states|
    ensures forall i: nat :: i < p.lowestFree ==> i in Held(p.states)
  {
    HeldAndFree(p.states);
  }

  /** Acquiring lends the least free slot, and is refused exactly when every slot is lent. */
  lemma {:induction false} AcquireLendsLeast(sizeMax: nat, p: Pool)
    requires ValidPool(sizeMax, p)
    ensures var r := AcquireStep(sizeMax, p);
            && ValidPool(sizeMax, r.pool)
            && r.status == (if |Held(p.states)| == |p.states| then FULL else OK)
            && (r.status == OK ==>
                  && r.slot < |p.states| && r.slot !in Held(p.states)
                  && Held(r.pool.states) == Held(p.states) + {r.slot}
                  && (forall i: nat :: i < r.slot ==> i in Held(p.states))
                  && r.pool.exhausted == p.exhausted)
            && (r.status == FULL ==> r.pool == p.(exhausted := Min(p.exhausted + 1, sizeMax)))
            && r.pool.base == p.base && r.pool.slotSize == p.slotSize && |r.pool.states| == |p.states|
  {
    FullMeansHeld(sizeMax, p);
    AcquireKeepsValid(sizeMax, p);
    if p.available > 0 {
      HeldUpdate(p.states, p.lowestFree, HELD);
    }
  }

  function SlotAddress(base: nat, slotSize: nat, slot: nat): nat {
    base + slot * slotSize
  }

  /** The address of the first byte of a slot. */
  function AddressOf(p: Pool, slot: nat): nat {
    SlotAddress(p.base, p.slotSize, slot)
  }

  /** Lent slots never share a byte. */
  lemma {:induction false} SlotsAreDisjoint(p: Pool, j: nat, k: nat, address: nat)
    requires p.slotSize > 0 && j != k
    requires AddressOf(p, j) <= address < AddressOf(p, j) + p.slotSize
    ensures !(AddressOf(p, k) <= address < AddressOf(p, k) + p.slotSize)
  {
    if j < k {
      SlotsApart(j, k, p.slotSize);
    } else {
      SlotsApart(k, j, p.slotSize);
    }
  }

  lemma {:induction false} SlotOfOffset(offset: nat, n: nat, slot: nat)
    requires n > 0
    ensures offset == slot * n <==> offset % n == 0 && offset / n == slot
  {
    if offset == slot * n {
      Division.DivideUniquely(offset, n, slot, 0);
    }
  }

  lemma {:induction false} ReleasedIsHeld(sizeMax: nat, p: Pool, address: Option<nat>)
    requires ValidPool(sizeMax, p)
    ensures var r := ReleaseStep(p, address);
            r.status == OK ==> r.slot in Held(p.states) && address == Some(AddressOf(p, r.slot))
  {
    if address.Some? && address.value >= p.base {
      var offset := address.value - p.base;
      SlotOfOffset(offset, p.slotSize, offset / p.slotSize);
    }
  }

  lemma {:induction false} HeldIsReleased(sizeMax: nat, p: Pool, slot: nat)
    requires ValidPool(sizeMax, p) && slot in Held(p.states)
    ensures var r := ReleaseStep(p, Some(AddressOf(p, slot))); r.status == OK && r.slot == slot
  {
    SlotOfOffset(slot * p.slotSize, p.slotSize, slot);
    SlotsApart(slot, |p.states|, p.slotSize);
  }

  /** Releasing is accepted for the first address of a lent slot, and for nothing else. */
  lemma {:induction false} ReleaseAcceptsHeld(sizeMax: nat, p: Pool, address: Option<nat>)
    requires ValidPool(sizeMax, p)
    ensures ReleaseStep(p, address).status == OK <==>
      address.Some? && exists slot :: slot in Held(p.states) && address.value == AddressOf(p, slot)
  {
    ReleasedIsHeld(sizeMax, p, address);
    var r := ReleaseStep(p, address);
    assert r.status == OK ==> r.slot in Held(p.states) && address.value == AddressOf(p, r.slot);
    forall slot | slot in Held(p.states) ensures ReleaseStep(p, Some(AddressOf(p, slot))).status == OK {
      HeldIsReleased(sizeMax, p, slot);
    }
  }

  lemma {:induction false} SlotStart(p: Pool, address: nat, slot: nat)
    requires p.slotSize > 0 && slot < |p.states| && address == AddressOf(p, slot)
    ensures ReleaseStep(p, Some(address)).status == if p.states[slot] == HELD then OK else INVALID_STATE
  {
    SlotOfOffset(slot * p.slotSize, p.slotSize, slot);
    SlotsApart(slot, |p.states|, p.slotSize);
  }

  /** A refused address is INVALID_STATE when it is the start of a slot, which is then free, else INVALID_ARGUMENT. */
  lemma {:induction false} ReleaseFault(p: Pool, address: Option<nat>)
    requires p.slotSize > 0 && ReleaseStep(p, address).status != OK
    ensures ReleaseStep(p, address).status ==
      if address.Some? && exists slot :: 0 <= slot < |p.states| && address.value == AddressOf(p, slot)
      then INVALID_STATE else INVALID_ARGUMENT
  {
    forall slot | address.Some? && 0 <= slot < |p.states| && address.value == AddressOf(p, slot)
      ensures ReleaseStep(p, address).status == INVALID_STATE
    {
      SlotStart(p, address.value, slot);
    }
    if ReleaseStep(p, address).status == INVALID_STATE {
      var offset := address.value - p.base;
      SlotOfOffset(offset, p.slotSize, offset / p.slotSize);
      QuotientBelow(offset, |p.states|, p.slotSize);
      assert address.value == AddressOf(p, offset / p.slotSize);
    }
  }

  /** Releasing frees that one slot; a refused release leaves no trace. */
  lemma {:induction false} ReleaseTakesBack(sizeMax: nat, p: Pool, address: Option<nat>)
    requires ValidPool(sizeMax, p)
    ensures var r := ReleaseStep(p, address);
            && ValidPool(sizeMax, r.pool)
            && (r.status == OK ==> Held(r.pool.states) == Held(p.states) - {r.slot} && r.pool.exhausted == p.exhausted)
            && (r.status != OK ==> r.pool == p)
            && r.pool.base == p.base && r.pool.slotSize == p.slotSize && |r.pool.states| == |p.states|
  {
    var r := ReleaseStep(p, address);
    if r.status == OK {
      ReleasedIsHeld(sizeMax, p, address);
      FreeCountUpdate(p.states, r.slot, FREE);
      HeldUpdate(p.states, r.slot, FREE);
      NextFreeIs(r.pool.states, r.pool.lowestFree);
    }
  }

  /** What was acquired can be released at once, and that undoes the acquiring. */
  lemma {:induction false} ReleaseUndoesAcquire(sizeMax: nat, p: Pool)
    requires ValidPool(sizeMax, p) && AcquireStep(sizeMax, p).status == OK
    ensures var lent := AcquireStep(sizeMax, p);
            ReleaseStep(lent.pool, Some(AddressOf(p, lent.slot))) == Outcome(p, OK, lent.slot)
  {
    var lent := AcquireStep(sizeMax, p);
    SlotOfOffset(lent.slot * p.slotSize, p.slotSize, lent.slot);
    SlotsApart(lent.slot, |p.states|, p.slotSize);
    assert lent.pool.states[lent.slot := FREE] == p.states;
  }
}

/** Any history of acquiring and releasing. */
module ObjectPoolHistory {
  import opened FoundationStatuses
  import opened Integers
  import opened Options
  import opened ObjectPoolSpec

  datatype Request =
    | Acquire
    | Release(address: Option<nat>)

  /** What the callers have seen: the slots they were lent and did not give back, and their refusals. */
  datatype History = History(pool: Pool, outstanding: set<nat>, refusals: nat)

  predicate Initial(p: Pool) {
    && p.slotSize > 0 && |p.states| > 0
    && (forall i :: 0 <= i < |p.states| ==> p.states[i] == FREE)
    && p.available == |p.states| && p.lowestFree == 0 && p.exhausted == 0
  }

  predicate Shaped(p: Pool) {
    p.slotSize > 0 && p.lowestFree <= |p.states|
  }

  ghost function Extend(sizeMax: nat, h: History, request: Request): (r: History)
    requires Shaped(h.pool)
    ensures Shaped(r.pool)
  {
    match request
    case Acquire =>
      var r := AcquireStep(sizeMax, h.pool);
      History(r.pool, if r.status == OK then h.outstanding + {r.slot} else h.outstanding,
              if r.status == OK then h.refusals else h.refusals + 1)
    case Release(address) =>
      var r := ReleaseStep(h.pool, address);
      History(r.pool, if r.status == OK then h.outstanding - {r.slot} else h.outstanding, h.refusals)
  }

  /** The callers' view and the pool agree. */
  ghost predicate Agree(sizeMax: nat, h: History) {
    && ValidPool(sizeMax, h.pool)
    && h.outstanding == Held(h.pool.states)
    && h.pool.exhausted == Min(h.refusals, sizeMax)
  }

  lemma {:induction false} InitialAgrees(sizeMax: nat, p: Pool)
    requires Initial(p)
    ensures Agree(sizeMax, History(p, {}, 0))
  {
    AllFree(p.states);
  }

  lemma {:induction false} AllFree(states: seq<byte>)
    requires forall i :: 0 <= i < |states| ==> states[i] == FREE
    ensures FreeCount(states) == |states|
  {
    if states != [] {
      AllFree(states[..|states| - 1]);
    }
  }

  lemma {:induction false} ExtendAgrees(sizeMax: nat, h: History, request: Request)
    requires Agree(sizeMax, h)
    ensures Agree(sizeMax, Extend(sizeMax, h, request))
  {
    match request {
      case Acquire => AcquireLendsLeast(sizeMax, h.pool);
      case Release(address) => ReleaseTakesBack(sizeMax, h.pool, address);
    }
  }

  /** What the callers and the pool have seen after a sequence of requests. */
  ghost function Run(sizeMax: nat, p: Pool, requests: seq<Request>): (h: History)
    requires Initial(p)
    ensures Shaped(h.pool)
  {
    if requests == [] then History(p, {}, 0)
    else Extend(sizeMax, Run(sizeMax, p, requests[..|requests| - 1]), requests[|requests| - 1])
  }

  lemma {:induction false} RunAgrees(sizeMax: nat, p: Pool, requests: seq<Request>)
    requires Initial(p)
    ensures Agree(sizeMax, Run(sizeMax, p, requests))
  {
    if requests == [] {
      InitialAgrees(sizeMax, p);
    } else {
      RunAgrees(sizeMax, p, requests[..|requests| - 1]);
      ExtendAgrees(sizeMax, Run(sizeMax, p, requests[..|requests| - 1]), requests[|requests| - 1]);
    }
  }

  /**
   Over every history: the free slots are counted by available, lowestFree is the least of them (the
   capacity if there is none), the refusal counter is the saturated number of refused requests, and
   the next request is lent the least slot that nobody holds.
   */
  lemma {:induction false} RunIsSafe(sizeMax: nat, p: Pool, requests: seq<Request>)
    requires Initial(p)
    ensures var h := Run(sizeMax, p, requests);
            var next := AcquireStep(sizeMax, h.pool);
            && h.pool.available == |h.pool.states| - |h.outstanding|
            && (forall i: nat :: i < h.pool.lowestFree ==> i in h.outstanding)
            && (h.pool.lowestFree < |h.pool.states| ==> h.pool.lowestFree !in h.outstanding)
            && h.pool.lowestFree <= |h.pool.states|
            && h.pool.exhausted == Min(h.refusals, sizeMax)
            && (next.status == OK <==> |h.outstanding| < |h.pool.states|)
            && (next.status == OK ==> next.slot == h.pool.lowestFree)
  {
    RunAgrees(sizeMax, p, requests);
    var h := Run(sizeMax, p, requests);
    HeldAndFree(h.pool.states);
    AcquireLendsLeast(sizeMax, h.pool);
  }
}

/** object_pool.c: the pool object. */
module ObjectPool {
  import opened FoundationStatuses
  import opened Integers
  import opened Options
  import opened ObjectPoolSpec
  import FixedQueueSpec
  import History = ObjectPoolHistory

  class ObjectPool {
    const sizeMax: nat
    var base: nat
    var states: array<byte>
    var slotSize: nat
    var capacity: nat
    var available: nat
    var lowestFree: nat
    var exhausted: nat

    /** check(); its INVALID_STATE exit is what Valid() rules out. */
    predicate Initialized()
      reads this
    {
      capacity != 0 && slotSize != 0
    }

    ghost function View(): Pool
      requires capacity <= states.Length
      reads this, states
    {
      Pool(base, slotSize, states[..capacity], available, lowestFree, exhausted)
    }

    ghost predicate Valid()
      reads this, states
    {
      && capacity <= states.Length
      && if Initialized() then ValidPool(sizeMax, View()) && capacity * slotSize <= sizeMax else available == capacity
    }

    constructor (sizeMax: nat)
      ensures Valid() && !Initialized() && this.sizeMax == sizeMax
    {
      this.sizeMax := sizeMax;
      states := new byte[0];
      base, slotSize, capacity, available, lowestFree, exhausted := 0, 0, 0, 0, 0, 0;
    }

    /** object_pool_init: refused while a slot is lent; storage is given by its address and size. */
    method Init(address: nat, storageSize: nat, flags: array<byte>, bytesEach: nat, slots: nat, alignment: nat)
      returns (status: FoundationStatus)
      requires Valid()
      modifies this, flags
      ensures Valid()
      ensures status ==
        if bytesEach == 0 || slots == 0 || !PowerOfTwo(alignment) || address % alignment != 0 ||
          bytesEach % alignment != 0
        then INVALID_ARGUMENT
        else if slots * bytesEach > sizeMax then OVERFLOW
        else if storageSize < slots * bytesEach || flags.Length < slots then BUFFER_TOO_SMALL
        else if old(available) != old(capacity) then BUSY
        else OK
      ensures status == OK ==>
        && Initialized() && states == flags && |View().states| == slots && slotSize == bytesEach && base == address
        && Held(View().states) == {} && available == slots && lowestFree == 0 && exhausted == 0
        && flags[slots..] == old(flags[slots..])
      ensures status != OK ==> unchanged(this) && unchanged(flags)
    {
      if bytesEach == 0 || slots == 0 || alignment == 0 {
        return INVALID_ARGUMENT;
      }
      SingleBitTest(alignment);
      if And(alignment, alignment - 1) != 0 || address % alignment != 0 || bytesEach % alignment != 0 {
        return INVALID_ARGUMENT;
      }
      FixedQueueSpec.ProductFits(slots, bytesEach, sizeMax);
      if slots > sizeMax / bytesEach {
        return OVERFLOW;
      }
      if storageSize < slots * bytesEach || flags.Length < slots {
        return BUFFER_TOO_SMALL;
      }
      if available != capacity {
        return BUSY;
      }
      base, states, slotSize, capacity := address, flags, bytesEach, slots;
      available, lowestFree, exhausted := slots, 0, 0;
      ClearFlags(flags, slots);
      History.AllFree(flags[..slots]);
      assert View().states == flags[..slots];
      return OK;
    }

    /** memset. */
    static method ClearFlags(flags: array<byte>, count: nat)
      requires count <= flags.Length
      modifies flags
      ensures forall i :: 0 <= i < count ==> flags[..count][i] == FREE
      ensures flags[count..] == old(flags[count..])
    {
      for i := 0 to count
        invariant forall j :: 0 <= j < i ==> flags[j] == FREE
        invariant forall j :: count <= j < flags.Length ==> flags[j] == old(flags[j])
      {
        flags[i] := FREE;
      }
    }

    /** The scan of object_pool_acquire for the next free slot. */
    static method Scan(flags: array<byte>, count: nat, from: nat) returns (next: nat)
      requires from <= count <= flags.Length
      ensures next == NextFree(flags[..count], from)
    {
      next := from;
      while next < count && flags[next] != FREE
        invariant from <= next <= count && NextFree(flags[..count], next) == NextFree(flags[..count], from)
      {
        next := next + 1;
      }
    }

    /** object_pool_acquire. */
    method Acquire() returns (status: FoundationStatus, address: Option<nat>, index: nat)
      requires Valid()
      modifies this`available, this`lowestFree, this`exhausted, states
      ensures Valid()
      ensures !Initialized() ==> status == NOT_INITIALIZED && address.None? && unchanged(this) && unchanged(states)
      ensures Initialized() ==>
        && Outcome(View(), status, index) == AcquireStep(sizeMax, old(View()))
        && address == (if status == OK then Some(AddressOf(View(), index)) else None)
    {
      address, index := None, 0;
      if !Initialized() {
        return NOT_INITIALIZED, None, 0;
      }
      ghost var p := View();
      AcquireKeepsValid(sizeMax, p);
      if available == 0 {
        if exhausted < sizeMax {
          exhausted := exhausted + 1;
        }
        return FULL, None, 0;
      }
      var slot := lowestFree;
      if slot >= capacity || states[slot] != FREE {
        status := INVALID_STATE;
        return;
      }
      Lend(slot);
      address, index := Some(SlotAddress(base, slotSize, slot)), slot;
      status := OK;
    }

    /** The end of object_pool_acquire: the slot is marked and the index moves to the next free one. */
    method Lend(slot: nat)
      requires slot < capacity <= states.Length && available > 0
      modifies this`available, this`lowestFree, states
      ensures View() == old(View()).(states := old(View()).states[slot := HELD], available := old(available) - 1,
                                     lowestFree := NextFree(old(View()).states, slot + 1))
    {
      ghost var before := View().states;
      lowestFree := Scan(states, capacity, slot + 1);
      states[slot] := HELD;
      available := available - 1;
      assert View().states == before[slot := HELD];
    }

    /** object_pool_release. */
    method Release(address: Option<nat>) returns (status: FoundationStatus)
      requires Valid()
      modifies this`available, this`lowestFree, states
      ensures Valid()
      ensures !Initialized() ==> status == NOT_INITIALIZED && unchanged(this) && unchanged(states)
      ensures Initialized() ==>
        var r := ReleaseStep(old(View()), address);
        View() == r.pool && status == r.status
    {
      if !Initialized() {
        return NOT_INITIALIZED;
      }
      ghost var p := View();
      ReleaseTakesBack(sizeMax, p, address);
      if address.None? || address.value < base {
        return INVALID_ARGUMENT;
      }
      var offset := address.value - base;
      if offset >= capacity * slotSize || offset % slotSize != 0 {
        return INVALID_ARGUMENT;
      }
      var slot := offset / slotSize;
      QuotientBelow(offset, capacity, slotSize);
      if states[slot] != HELD {
        return INVALID_STATE;
      }
      states[slot] := FREE;
      available := available + 1;
      if slot < lowestFree {
        lowestFree := slot;
      }
      assert View().states == p.states[slot := FREE];
      return OK;
    }
  }

}
