/** queue_port.c and waiter.c on values: one locked attempt, and the life of a waiter. */
module QueuePortSpec {
  import opened FoundationStatuses
  import opened Integers
  import opened Division
  import opened BlockRing
  import opened FifoSpec

  datatype PortState = UNINITIALIZED | READY | STOPPED | DEINITIALIZED

  datatype Port = Port(ring: Ring, state: PortState)

  /** What a caller wants to move. */
  datatype Goal =
    | PushGoal(data: seq<byte>)
    | PopGoal

  /** What one attempt leaves: the element that was handed in, or the one that was taken out. */
  datatype Attempted = Attempted(port: Port, status: FoundationStatus, moved: seq<seq<byte>>)

  /** The write index of queue_push_locked: the sum is taken in size_t and may wrap. */
  function WriteSlot(sizeMax: nat, capacity: nat, head: nat, size: nat): (slot: nat)
    requires capacity > 0
    ensures slot < capacity
  {
    ((head + size) % (sizeMax + 1)) % capacity
  }

  /** No sum of two indices exceeds size_t. */
  predicate IndexFits(sizeMax: nat, capacity: nat) {
    2 * capacity - 2 <= sizeMax
  }

  /** The write index is the slot behind the last element exactly when the sum does not wrap. */
  lemma {:induction false} WriteSlotIsNext(sizeMax: nat, capacity: nat, head: nat, size: nat)
    requires head < capacity <= sizeMax && size < capacity
    ensures WriteSlot(sizeMax, capacity, head, size) == Advance(capacity, head, size) <==> head + size <= sizeMax
  {
    var sum := head + size;
    if sum <= sizeMax {
      DivideUniquely(sum, sizeMax + 1, 0, sum);
    } else {
      var wrapped := sum - (sizeMax + 1);
      DivideUniquely(sum, sizeMax + 1, 1, wrapped);
      DivideUniquely(wrapped, capacity, 0, wrapped);
    }
  }

  /** So every push lands behind the last element if and only if the capacity is at most half of size_t. */
  lemma {:induction false} EveryPushIsNext(sizeMax: nat, capacity: nat)
    requires 0 < capacity <= sizeMax
    ensures (forall head: nat, size: nat :: head < capacity && size < capacity ==>
               WriteSlot(sizeMax, capacity, head, size) == Advance(capacity, head, size))
       <==> IndexFits(sizeMax, capacity)
  {
    forall head: nat, size: nat | head < capacity && size < capacity
      ensures WriteSlot(sizeMax, capacity, head, size) == Advance(capacity, head, size) <==> head + size <= sizeMax
    {
      WriteSlotIsNext(sizeMax, capacity, head, size);
    }
    var last: nat := capacity - 1;
    assert WriteSlot(sizeMax, capacity, last, last) == Advance(capacity, last, last) <==> last + last <= sizeMax;
  }

  /** Only queues of single bytes can be that large. */
  lemma {:induction false} LargerElementsFit(sizeMax: nat, capacity: nat, elementSize: nat)
    requires elementSize >= 2 && capacity * elementSize <= sizeMax
    ensures IndexFits(sizeMax, capacity)
  {
    assert capacity * (elementSize - 2) >= 0;
  }

  /** queue_push_locked. */
  function PushLocked(sizeMax: nat, port: Port, data: seq<byte>): (r: Attempted)
    requires ValidRing(port.ring) && |data| == port.ring.elementSize
    ensures ValidRing(r.port.ring)
  {
    var ring := port.ring;
    if ring.size == ring.capacity then Attempted(port, FULL, [])
    else
      var slot := WriteSlot(sizeMax, ring.capacity, ring.head, ring.size);
      SlotsApart(slot, ring.capacity, ring.elementSize);
      var after := ring.(storage := WithBlock(ring.storage, ring.elementSize, slot, data), size := ring.size + 1);
      Attempted(port.(ring := after), OK, [data])
  }

  /** queue_pop_locked. */
  function PopLocked(port: Port): (r: Attempted)
    requires ValidRing(port.ring)
    ensures ValidRing(r.port.ring)
  {
    var ring := port.ring;
    if ring.size == 0 then Attempted(port, EMPTY, [])
    else Attempted(port.(ring := Popped(ring)), OK, [Block(ring.storage, ring.elementSize, SlotAt(ring, 0))])
  }

  predicate WellFormed(port: Port, goal: Goal) {
    ValidRing(port.ring) && (goal.PushGoal? ==> |goal.data| == port.ring.elementSize)
  }

  /** queue_try_push_internal and queue_try_pop_internal; entered is what the critical section answers. */
  function Try(sizeMax: nat, port: Port, goal: Goal, entered: FoundationStatus): (r: Attempted)
    requires WellFormed(port, goal)
    ensures ValidRing(r.port.ring)
  {
    if port.state != READY then Attempted(port, INVALID_STATE, [])
    else if entered != OK then Attempted(port, entered, [])
    else
      match goal
      case PushGoal(data) => PushLocked(sizeMax, port, data)
      case PopGoal => PopLocked(port)
  }

  /** The failure is real: once the sum wraps, the element behind the last one is not written. */
  lemma {:induction false} EveryElementIsAppended(sizeMax: nat, port: Port)
    requires ValidRing(port.ring) && port.ring.size < port.ring.capacity <= sizeMax
    ensures (forall data: seq<byte> :: |data| == port.ring.elementSize ==>
               Elements(PushLocked(sizeMax, port, data).port.ring) == Elements(port.ring) + [data])
       <==> port.ring.head + port.ring.size <= sizeMax
  {
    var ring := port.ring;
    WriteSlotIsNext(sizeMax, ring.capacity, ring.head, ring.size);
    if ring.head + ring.size <= sizeMax {
      forall data: seq<byte> | |data| == ring.elementSize
        ensures Elements(PushLocked(sizeMax, port, data).port.ring) == Elements(ring) + [data]
      {
        PushedAppends(ring, data);
      }
    } else {
      var stale := Block(ring.storage, ring.elementSize, SlotAt(ring, ring.size));
      var data := stale[0 := if stale[0] == 0 then 1 else 0];
      var slot := WriteSlot(sizeMax, ring.capacity, ring.head, ring.size);
      SlotsApart(slot, ring.capacity, ring.elementSize);
      WithBlockReads(ring.storage, ring.elementSize, slot, data, SlotAt(ring, ring.size));
      assert Elements(PushLocked(sizeMax, port, data).port.ring)[ring.size] == stale;
      assert (Elements(ring) + [data])[ring.size] != stale;
    }
  }

  /** queue_port_stop, queue_port_start and queue_port_reset drop all elements. */
  function Cleared(port: Port, state: PortState): Port {
    port.(ring := port.ring.(head := 0, size := 0), state := state)
  }

  /**
   One attempt takes in the given element, or takes out the oldest one, exactly when it returns OK; the
   given element is appended unless the sum of head and size wraps.
   */
  lemma {:induction false} TryMovesOne(sizeMax: nat, port: Port, goal: Goal, entered: FoundationStatus)
    requires WellFormed(port, goal) && port.ring.capacity <= sizeMax
    ensures var r := Try(sizeMax, port, goal, entered);
            var before, after := Elements(port.ring), Elements(r.port.ring);
            && (port.state != READY ==> r.status == INVALID_STATE)
            && (port.state == READY && entered != OK ==> r.status == entered)
            && (port.state == READY && entered == OK ==>
                 r.status == if goal.PushGoal? then if |before| == port.ring.capacity then FULL else OK
                             else if before == [] then EMPTY else OK)
            && (r.status == OK && goal.PushGoal? ==> r.moved == [goal.data] && |after| == |before| + 1)
            && (r.status == OK && goal.PushGoal? && port.ring.head + port.ring.size <= sizeMax ==>
                 after == before + [goal.data])
            && (r.status == OK && goal.PopGoal? ==> |r.moved| == 1 && before == r.moved + after)
            && (r.status != OK ==> r.port == port && r.moved == [])
            && r.port == port.(ring := r.port.ring)
            && r.port.ring.capacity == port.ring.capacity && r.port.ring.elementSize == port.ring.elementSize
  {
    var ring := port.ring;
    if goal.PushGoal? && ring.size < ring.capacity {
      WriteSlotIsNext(sizeMax, ring.capacity, ring.head, ring.size);
      PushedAppends(ring, goal.data);
    }
    if goal.PopGoal? && ring.size > 0 {
      PoppedDrops(ring);
    }
  }

  // ---------------------------------------------------------------- waiters

  datatype WaiterState = UNINITIALIZED_WAITER | IDLE | WAITING | COMPLETED | CANCELLED_WAITER

  datatype Waiter = Waiter(state: WaiterState, result: FoundationStatus)

  /** waiter_begin. */
  function Begun(w: Waiter): (r: (FoundationStatus, Waiter))
  {
    if w.state != IDLE then (INVALID_STATE, w) else (OK, w.(state := WAITING))
  }

  /** waiter_complete. */
  function Completed(w: Waiter, result: FoundationStatus): (r: (FoundationStatus, Waiter))
  {
    if w.state != WAITING then (INVALID_STATE, w)
    else (result, Waiter(if result == CANCELLED then CANCELLED_WAITER else COMPLETED, result))
  }

  /** waiter_reset. */
  function WasReset(w: Waiter): (r: (FoundationStatus, Waiter))
  {
    if w.state != COMPLETED && w.state != CANCELLED_WAITER then (INVALID_STATE, w) else (OK, w.(state := IDLE))
  }
}
