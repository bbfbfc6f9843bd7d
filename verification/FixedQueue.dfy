/** fixed_queue.c on values: batches of elements in and out, and the statistics. */
module FixedQueueSpec {
  import opened FoundationStatuses
  import opened Integers
  import opened BlockRing

  datatype Queue = Queue(ring: Ring, highWaterMark: nat, rejectedCount: nat)

  datatype Outcome = Outcome(queue: Queue, status: FoundationStatus, amount: nat)

  predicate ValidQueue(sizeMax: nat, q: Queue) {
    ValidRing(q.ring) && q.ring.size <= q.highWaterMark && q.rejectedCount <= sizeMax
  }

  function Max(a: nat, b: nat): nat {
    if a > b then a else b
  }

  /** The writing rounds of the transfer loop. */
  function PushedAll(r: Ring, data: seq<byte>, count: nat): (after: Ring)
    requires ValidRing(r) && r.size + count <= r.capacity && count * r.elementSize <= |data|
    ensures ValidRing(after) && after.size == r.size + count && after.head == r.head
    ensures after.capacity == r.capacity && after.elementSize == r.elementSize && |after.storage| == |r.storage|
  {
    if count == 0 then r
    else
      SlotsApart(count - 1, count, r.elementSize);
      Pushed(PushedAll(r, data, count - 1), Block(data, r.elementSize, count - 1))
  }

  /** The reading rounds of the transfer loop. */
  function PoppedAll(r: Ring, count: nat): (after: Ring)
    requires ValidRing(r) && count <= r.size
    ensures ValidRing(after) && after == r.(head := after.head, size := r.size - count)
  {
    if count == 0 then r else Popped(PoppedAll(r, count - 1))
  }

  lemma {:induction false} PushedAllStep(r: Ring, data: seq<byte>, k: nat)
    requires ValidRing(r) && r.size + k < r.capacity && k * r.elementSize + r.elementSize <= |data|
    ensures (k + 1) * r.elementSize == k * r.elementSize + r.elementSize
    ensures PushedAll(r, data, k + 1) == Pushed(PushedAll(r, data, k), Block(data, r.elementSize, k))
  {
  }

  lemma {:induction false} PushedAllAppends(r: Ring, data: seq<byte>, count: nat)
    requires ValidRing(r) && r.size + count <= r.capacity && count * r.elementSize <= |data|
    ensures Elements(PushedAll(r, data, count)) == Elements(r) + Blocks(data, r.elementSize, count)
  {
    if count == 0 {
      assert Elements(r) + [] == Elements(r);
    } else {
      SlotsApart(count - 1, count, r.elementSize);
      PushedAllAppends(r, data, count - 1);
      PushedAppends(PushedAll(r, data, count - 1), Block(data, r.elementSize, count - 1));
    }
  }

  lemma {:induction false} PoppedAllDrops(r: Ring, count: nat)
    requires ValidRing(r) && count <= r.size
    ensures Elements(PoppedAll(r, count)) == Elements(r)[count..]
  {
    if count == 0 {
      assert Elements(r)[0..] == Elements(r);
    } else {
      PoppedAllDrops(r, count - 1);
      PoppedDrops(PoppedAll(r, count - 1));
    }
  }

  /** The next reading round delivers the next element. */
  lemma {:induction false} PoppedAllNext(r: Ring, k: nat)
    requires ValidRing(r) && k < r.size
    ensures PoppedAll(r, k + 1) == Popped(PoppedAll(r, k)) && PoppedAll(r, k).elementSize == r.elementSize
    ensures Elements(PoppedAll(r, k))[0] == Elements(r)[k]
    ensures Elements(r)[..k + 1] == Elements(r)[..k] + [Elements(r)[k]]
  {
    PoppedAllDrops(r, k);
  }

  /** The preamble of transfer rejects a request whose size in bytes does not fit into size_t. */
  predicate Fits(sizeMax: nat, q: Queue, count: nat)
    requires ValidRing(q.ring)
  {
    count <= sizeMax / q.ring.elementSize
  }

  /** The accepted elements are written, and the high-water mark follows. */
  function Filled(q: Queue, data: seq<byte>, amount: nat): Queue
    requires ValidRing(q.ring) && q.ring.size + amount <= q.ring.capacity && amount * q.ring.elementSize <= |data|
  {
    var ring := PushedAll(q.ring, data, amount);
    Queue(ring, Max(q.highWaterMark, ring.size), q.rejectedCount)
  }

  /** A request whose size in bytes fits. */
  function PushFitting(sizeMax: nat, q: Queue, data: seq<byte>, count: nat): (r: Outcome)
    requires ValidQueue(sizeMax, q) && count * q.ring.elementSize <= |data|
    ensures ValidQueue(sizeMax, r.queue)
  {
    var available := q.ring.capacity - q.ring.size;
    var amount := Min(available, count);
    var rejected := if count > available && q.rejectedCount < sizeMax then q.rejectedCount + 1 else q.rejectedCount;
    if count != 0 && amount == 0 then Outcome(q.(rejectedCount := rejected), FULL, 0)
    else
      FewerFit(amount, count, q.ring.elementSize);
      Outcome(Filled(q.(rejectedCount := rejected), data, amount), OK, amount)
  }

  /** fixed_queue_push_some. */
  function PushStep(sizeMax: nat, q: Queue, data: seq<byte>, count: nat): (r: Outcome)
    requires ValidQueue(sizeMax, q) && (Fits(sizeMax, q, count) ==> count * q.ring.elementSize <= |data|)
    ensures ValidQueue(sizeMax, r.queue)
  {
    if !Fits(sizeMax, q, count) then Outcome(q, OVERFLOW, 0) else PushFitting(sizeMax, q, data, count)
  }

  /** fixed_queue_pop_some. */
  function PopStep(sizeMax: nat, q: Queue, count: nat): (r: Outcome)
    requires ValidQueue(sizeMax, q)
    ensures ValidQueue(sizeMax, r.queue)
  {
    var amount := Min(q.ring.size, count);
    if !Fits(sizeMax, q, count) then Outcome(q, OVERFLOW, 0)
    else if count != 0 && amount == 0 then Outcome(q, EMPTY, 0)
    else Outcome(q.(ring := PoppedAll(q.ring, amount)), OK, amount)
  }

  lemma {:induction false} FewerFit(amount: nat, count: nat, n: nat)
    requires amount <= count
    ensures amount * n <= count * n
  {
    if amount < count {
      SlotsApart(amount, count, n);
    }
  }

  /** The division test of the source is the test of the product. */
  lemma {:induction false} ProductFits(elements: nat, bytesEach: nat, sizeMax: nat)
    requires bytesEach > 0
    ensures elements <= sizeMax / bytesEach <==> elements * bytesEach <= sizeMax
  {
    var q := sizeMax / bytesEach;
    if elements <= q {
      FewerFit(elements, q, bytesEach);
    } else {
      FewerFit(q + 1, elements, bytesEach);
    }
  }

  /** A push takes exactly as many elements from the front of the request as there is room for. */
  lemma {:induction false} PushIsBounded(sizeMax: nat, q: Queue, data: seq<byte>, count: nat)
    requires ValidQueue(sizeMax, q) && (Fits(sizeMax, q, count) ==> count * q.ring.elementSize <= |data|)
    ensures var after := PushStep(sizeMax, q, data, count);
            var contents, room := Elements(q.ring), q.ring.capacity - q.ring.size;
            ValidQueue(sizeMax, after.queue) &&
            if count * q.ring.elementSize > sizeMax then after == Outcome(q, OVERFLOW, 0)
            else
              && after.amount == Min(count, room)
              && after.amount * q.ring.elementSize <= |data|
              && Elements(after.queue.ring) == contents + Blocks(data, q.ring.elementSize, after.amount)
              && after.status == (if count > 0 && room == 0 then FULL else OK)
              && after.queue.highWaterMark == Max(q.highWaterMark, |contents| + after.amount)
              && after.queue.rejectedCount ==
                  (if count > room then Min(q.rejectedCount + 1, sizeMax) else q.rejectedCount)
  {
    ProductFits(count, q.ring.elementSize, sizeMax);
    if Fits(sizeMax, q, count) {
      var amount := Min(count, q.ring.capacity - q.ring.size);
      FewerFit(amount, count, q.ring.elementSize);
      PushedAllAppends(q.ring, data, amount);
      assert Elements(q.ring) + [] == Elements(q.ring);
    }
  }

  /** A pop removes exactly as many of the oldest elements as there are, and touches no statistics. */
  lemma {:induction false} PopIsBounded(sizeMax: nat, q: Queue, count: nat)
    requires ValidQueue(sizeMax, q)
    ensures var after := PopStep(sizeMax, q, count);
            var contents := Elements(q.ring);
            ValidQueue(sizeMax, after.queue) &&
            if count * q.ring.elementSize > sizeMax then after == Outcome(q, OVERFLOW, 0)
            else
              && after.amount == Min(count, |contents|)
              && contents[..after.amount] + Elements(after.queue.ring) == contents
              && after.status == (if count > 0 && contents == [] then EMPTY else OK)
              && after.queue == q.(ring := after.queue.ring)
  {
    ProductFits(count, q.ring.elementSize, sizeMax);
    if Fits(sizeMax, q, count) {
      var amount := Min(count, q.ring.size);
      PoppedAllDrops(q.ring, amount);
      assert Elements(q.ring) == Elements(q.ring)[..amount] + Elements(q.ring)[amount..];
    }
  }
}

/** What any sequence of pushes and pops leaves behind. */
module FixedQueueHistory {
  import opened Integers
  import opened BlockRing
  import opened FixedQueueSpec

  datatype Request =
    | PushRequest(data: seq<byte>, count: nat)
    | PopRequest(count: nat)

  /** A freshly initialized queue. */
  predicate Initial(q: Queue) {
    ValidRing(q.ring) && q.ring.size == 0 && q.highWaterMark == 0 && q.rejectedCount == 0
  }

  /** Every push passes as many bytes as its count asks for. */
  predicate WellFormed(sizeMax: nat, n: nat, requests: seq<Request>)
    requires n > 0
  {
    forall k :: 0 <= k < |requests| && requests[k].PushRequest? && requests[k].count <= sizeMax / n ==>
      requests[k].count * n <= |requests[k].data|
  }

  function Step(sizeMax: nat, q: Queue, request: Request): Outcome
    requires ValidQueue(sizeMax, q) && WellFormed(sizeMax, q.ring.elementSize, [request])
  {
    match request
    case PushRequest(data, count) => assert [request][0] == request; PushStep(sizeMax, q, data, count)
    case PopRequest(count) => PopStep(sizeMax, q, count)
  }

  /** The queue after a history of requests, and what went in, came out, was not fully accepted, and the peak. */
  datatype History = History(queue: Queue, accepted: seq<seq<byte>>, removed: seq<seq<byte>>, refusals: nat, peak: nat)

  ghost function Extend(sizeMax: nat, h: History, request: Request): History
    requires ValidQueue(sizeMax, h.queue) && WellFormed(sizeMax, h.queue.ring.elementSize, [request])
  {
    var q := h.queue;
    var outcome := Step(sizeMax, q, request);
    var fits := Fits(sizeMax, q, request.count);
    match request
    case PushRequest(data, count) =>
      assert [request][0] == request;
      PushIsBounded(sizeMax, q, data, count);
      History(outcome.queue,
              if fits then h.accepted + Blocks(data, q.ring.elementSize, outcome.amount) else h.accepted,
              h.removed,
              if fits && outcome.amount < count then h.refusals + 1 else h.refusals,
              Max(h.peak, outcome.queue.ring.size))
    case PopRequest(count) =>
      PopIsBounded(sizeMax, q, count);
      History(outcome.queue, h.accepted, h.removed + Elements(q.ring)[..outcome.amount], h.refusals,
              Max(h.peak, outcome.queue.ring.size))
  }

  /** What holds after every request. */
  ghost predicate Conserved(sizeMax: nat, h: History) {
    && ValidQueue(sizeMax, h.queue)
    && h.accepted == h.removed + Elements(h.queue.ring)
    && h.queue.highWaterMark == h.peak <= h.queue.ring.capacity
    && h.queue.rejectedCount == Min(h.refusals, sizeMax)
  }

  lemma {:induction false} PushConserves(sizeMax: nat, h: History, request: Request)
    requires Conserved(sizeMax, h) && WellFormed(sizeMax, h.queue.ring.elementSize, [request]) && request.PushRequest?
    ensures Conserved(sizeMax, Extend(sizeMax, h, request))
  {
    assert [request][0] == request;
    PushIsBounded(sizeMax, h.queue, request.data, request.count);
    ProductFits(request.count, h.queue.ring.elementSize, sizeMax);
  }

  /** What a pop removes and what it leaves are what was queued, also when it is refused. */
  lemma {:induction false} PopSplits(sizeMax: nat, q: Queue, count: nat)
    requires ValidQueue(sizeMax, q)
    ensures var after := PopStep(sizeMax, q, count);
            && ValidQueue(sizeMax, after.queue) && after.amount <= |Elements(q.ring)|
            && Elements(q.ring)[..after.amount] + Elements(after.queue.ring) == Elements(q.ring)
            && after.queue == q.(ring := after.queue.ring) && after.queue.ring.capacity == q.ring.capacity
            && after.queue.ring.size <= q.ring.size
  {
    PopIsBounded(sizeMax, q, count);
    if count * q.ring.elementSize > sizeMax {
      assert Elements(q.ring)[..0] + Elements(q.ring) == Elements(q.ring);
    }
  }

  lemma {:induction false} PopConserves(sizeMax: nat, h: History, request: Request)
    requires Conserved(sizeMax, h) && WellFormed(sizeMax, h.queue.ring.elementSize, [request]) && request.PopRequest?
    ensures Conserved(sizeMax, Extend(sizeMax, h, request))
  {
    PopSplits(sizeMax, h.queue, request.count);
    var contents, outcome := Elements(h.queue.ring), PopStep(sizeMax, h.queue, request.count);
    var taken, left := contents[..outcome.amount], Elements(outcome.queue.ring);
    assert h.removed + (taken + left) == (h.removed + taken) + left;
  }

  lemma {:induction false} ExtendConserves(sizeMax: nat, h: History, request: Request)
    requires Conserved(sizeMax, h) && WellFormed(sizeMax, h.queue.ring.elementSize, [request])
    ensures Conserved(sizeMax, Extend(sizeMax, h, request))
  {
    match request {
      case PushRequest(_, _) => PushConserves(sizeMax, h, request);
      case PopRequest(_) => PopConserves(sizeMax, h, request);
    }
  }

  /** The history of a sequence of requests on a freshly initialized queue. */
  ghost function Run(sizeMax: nat, q: Queue, requests: seq<Request>): (h: History)
    requires Initial(q) && WellFormed(sizeMax, q.ring.elementSize, requests)
    ensures ValidQueue(sizeMax, h.queue) && h.queue.ring.elementSize == q.ring.elementSize
  {
    if requests == [] then History(q, [], [], 0, 0)
    else
      var n := |requests| - 1;
      assert WellFormed(sizeMax, q.ring.elementSize, [requests[n]]);
      Extend(sizeMax, Run(sizeMax, q, requests[..n]), requests[n])
  }

  /**
   Over every history: the elements taken out are a prefix of those put in and the queue holds the
   rest; the high-water mark is the largest number of elements ever held; the rejection counter is the
   saturated number of pushes that were not accepted in full.
   */
  lemma {:induction false} HistoryConserves(sizeMax: nat, q: Queue, requests: seq<Request>)
    requires Initial(q) && WellFormed(sizeMax, q.ring.elementSize, requests)
    ensures var h := Run(sizeMax, q, requests);
            && h.accepted == h.removed + Elements(h.queue.ring)
            && h.queue.highWaterMark == h.peak <= h.queue.ring.capacity
            && h.queue.rejectedCount == Min(h.refusals, sizeMax)
  {
    if requests != [] {
      var n := |requests| - 1;
      assert WellFormed(sizeMax, q.ring.elementSize, [requests[n]]);
      HistoryConserves(sizeMax, q, requests[..n]);
      ExtendConserves(sizeMax, Run(sizeMax, q, requests[..n]), requests[n]);
    }
  }
}

/** fixed_queue.c: the queue object. */
module FixedQueue {
  import opened FoundationStatuses
  import opened Integers
  import opened BlockRing
  import opened FixedQueueSpec

  class FixedQueue {
    const sizeMax: nat
    var storage: array<byte>
    var elementSize: nat
    var capacity: nat
    var head: nat
    var size: nat
    var highWaterMark: nat
    var rejectedCount: nat

    /** The tests of check(); its INVALID_STATE exit is what Valid() rules out. */
    predicate Initialized()
      reads this
    {
      capacity != 0 && elementSize != 0
    }

    ghost function View(): Queue
      reads this, storage
    {
      Queue(Ring(storage[..], elementSize, capacity, head, size), highWaterMark, rejectedCount)
    }

    ghost predicate Valid()
      reads this, storage
    {
      Initialized() ==> ValidQueue(sizeMax, View()) && capacity <= sizeMax / elementSize
    }

    ghost function Contents(): seq<seq<byte>>
      requires Initialized() && Valid()
      reads this, storage
    {
      Elements(View().ring)
    }

    constructor (sizeMax: nat)
      ensures Valid() && !Initialized() && this.sizeMax == sizeMax
    {
      this.sizeMax := sizeMax;
      storage := new byte[0];
      elementSize, capacity, head, size, highWaterMark, rejectedCount := 0, 0, 0, 0, 0, 0;
    }

    /** fixed_queue_init. */
    method Init(buffer: array<byte>, elements: nat, bytesEach: nat) returns (status: FoundationStatus)
      modifies this
      ensures status ==
        if bytesEach == 0 || elements == 0 then INVALID_ARGUMENT
        else if elements * bytesEach > sizeMax then OVERFLOW
        else if buffer.Length < elements * bytesEach then BUFFER_TOO_SMALL
        else OK
      ensures status == OK ==>
        && Valid() && Initialized() && storage == buffer && capacity == elements && elementSize == bytesEach
        && Contents() == [] && highWaterMark == 0 && rejectedCount == 0
        && storage[..] == old(buffer[..])
      ensures status != OK ==> unchanged(this)
    {
      if bytesEach == 0 || elements == 0 {
        return INVALID_ARGUMENT;
      }
      ProductFits(elements, bytesEach, sizeMax);
      if elements > sizeMax / bytesEach {
        return OVERFLOW;
      }
      if buffer.Length < elements * bytesEach {
        return BUFFER_TOO_SMALL;
      }
      storage, elementSize, capacity := buffer, bytesEach, elements;
      head, size, highWaterMark, rejectedCount := 0, 0, 0, 0;
      return OK;
    }

    /** One writing round of transfer. */
    method PushRound(data: seq<byte>)
      requires ValidRing(View().ring) && size < capacity && |data| == elementSize
      modifies this`size, storage
      ensures View().ring == Pushed(old(View()).ring, data)
    {
      var slot := FifoSpec.Advance(capacity, head, size);
      ghost var ring := View().ring;
      assert slot == SlotAt(ring, size);
      CopyIntoSlot(storage, elementSize, slot, data);
      size := size + 1;
    }

    /** The transfer loop with writing set, and the high-water mark behind it. */
    method PushRounds(data: seq<byte>, amount: nat)
      requires ValidRing(View().ring) && size + amount <= capacity && amount * elementSize <= |data|
      modifies this`size, this`highWaterMark, storage
      ensures View() == Filled(old(View()), data, amount)
    {
      ghost var ring := View().ring;
      for index := 0 to amount
        invariant index * elementSize <= |data| && size == ring.size + index && highWaterMark == old(highWaterMark)
        invariant View().ring == PushedAll(ring, data, index)
      {
        SlotsApart(index, amount, elementSize);
        PushedAllStep(ring, data, index);
        PushRound(Block(data, elementSize, index));
      }
      if size > highWaterMark {
        highWaterMark := size;
      }
    }

    /** transfer with writing set, behind its preamble. */
    method PushWhatFits(data: seq<byte>, count: nat) returns (status: FoundationStatus, amount: nat)
      requires ValidQueue(sizeMax, View()) && count * elementSize <= |data|
      modifies this`size, this`highWaterMark, this`rejectedCount, storage
      ensures Outcome(View(), status, amount) == PushFitting(sizeMax, old(View()), data, count)
    {
      var available := capacity - size;
      amount := if available < count then available else count;
      if count > available && rejectedCount < sizeMax {
        rejectedCount := rejectedCount + 1;
      }
      if count != 0 && amount == 0 {
        return FULL, 0;
      }
      FewerFit(amount, count, elementSize);
      PushRounds(data, amount);
      return OK, amount;
    }

    /** fixed_queue_push_some: transfer with writing set. */
    method PushSome(data: seq<byte>, count: nat) returns (status: FoundationStatus, amount: nat)
      requires Valid() && (Initialized() && count <= sizeMax / elementSize ==> |data| == count * elementSize)
      modifies this`size, this`highWaterMark, this`rejectedCount, storage
      ensures Valid()
      ensures !Initialized() ==> status == NOT_INITIALIZED && unchanged(this) && unchanged(storage)
      ensures Initialized() ==> Outcome(View(), status, amount) == PushStep(sizeMax, old(View()), data, count)
    {
      if !Initialized() {
        return NOT_INITIALIZED, 0;
      }
      if count > sizeMax / elementSize {
        return OVERFLOW, 0;
      }
      status, amount := PushWhatFits(data, count);
    }

    /** One reading round of transfer. */
    method PopRound(output: array<byte>, index: nat)
      requires ValidRing(View().ring) && size > 0 && output != storage
      requires index * elementSize + elementSize <= output.Length
      modifies this`size, this`head, output
      ensures View().ring == Popped(old(View()).ring)
      ensures output[..] == WithBlock(old(output[..]), elementSize, index, Elements(old(View()).ring)[0])
    {
      SlotsApart(head, capacity, elementSize);
      assert SlotAt(View().ring, 0) == head;
      CopyIntoSlot(output, elementSize, index, Block(storage[..], elementSize, head));
      head := FifoSpec.Advance(capacity, head, 1);
      size := size - 1;
    }

    /** The transfer loop with writing clear. */
    method PopRounds(output: array<byte>, amount: nat)
      requires ValidRing(View().ring) && amount <= size && output != storage && amount * elementSize <= output.Length
      modifies this`size, this`head, output
      ensures View().ring == PoppedAll(old(View()).ring, amount)
      ensures Blocks(output[..], elementSize, amount) == Elements(old(View()).ring)[..amount]
      ensures output[amount * elementSize..] == old(output[amount * elementSize..])
    {
      ghost var ring, before := View().ring, output[..];
      for index := 0 to amount
        invariant Taken(ring, View().ring, before, output[..], index)
      {
        SlotsApart(index, amount, elementSize);
        TakenNext(ring, View().ring, before, output[..], index);
        PopRound(output, index);
      }
    }

    /** fixed_queue_pop_some: transfer with writing clear. */
    method PopSome(output: array<byte>, count: nat) returns (status: FoundationStatus, amount: nat)
      requires Valid() && output != storage
      requires Initialized() && count <= sizeMax / elementSize ==> output.Length == count * elementSize
      modifies this`size, this`head, output
      ensures Valid()
      ensures !Initialized() ==> status == NOT_INITIALIZED && unchanged(this) && unchanged(output)
      ensures Initialized() ==>
        && Outcome(View(), status, amount) == PopStep(sizeMax, old(View()), count)
        && (status == OK ==>
              && amount * elementSize <= output.Length
              && Blocks(output[..], elementSize, amount) == old(Contents())[..amount]
              && output[amount * elementSize..] == old(output[amount * elementSize..]))
        && (status != OK ==> unchanged(output))
    {
      if !Initialized() {
        return NOT_INITIALIZED, 0;
      }
      if count > sizeMax / elementSize {
        return OVERFLOW, 0;
      }
      amount := if size < count then size else count;
      if count != 0 && amount == 0 {
        return EMPTY, 0;
      }
      FewerFit(amount, count, elementSize);
      PopRounds(output, amount);
      return OK, amount;
    }

    /** fixed_queue_push. */
    method Push(data: seq<byte>) returns (status: FoundationStatus)
      requires Valid() && (Initialized() ==> |data| == elementSize)
      modifies this`size, this`highWaterMark, this`rejectedCount, storage
      ensures Valid()
      ensures Initialized() ==>
        if |old(Contents())| < capacity then
          && status == OK && Contents() == old(Contents()) + [data] && rejectedCount == old(rejectedCount)
          && highWaterMark == Max(old(highWaterMark), |Contents()|)
        else
          && status == FULL && Contents() == old(Contents()) && highWaterMark == old(highWaterMark)
          && rejectedCount == Min(old(rejectedCount) + 1, sizeMax)
      ensures !Initialized() ==> status == NOT_INITIALIZED && unchanged(this)
    {
      if Initialized() {
        OneFits(sizeMax, capacity, elementSize);
        PushIsBounded(sizeMax, View(), data, 1);
        SingleBlock(data, elementSize);
      }
      var amount;
      status, amount := PushSome(data, 1);
    }

    /** fixed_queue_pop. */
    method Pop(output: array<byte>) returns (status: FoundationStatus)
      requires Valid() && output != storage && (Initialized() ==> output.Length == elementSize)
      modifies this`size, this`head, output
      ensures Valid()
      ensures Initialized() ==>
        if old(Contents()) != [] then status == OK && old(Contents()) == [output[..]] + Contents()
        else status == EMPTY && Contents() == [] && unchanged(output)
      ensures !Initialized() ==> status == NOT_INITIALIZED && unchanged(this) && unchanged(output)
    {
      if Initialized() {
        OneFits(sizeMax, capacity, elementSize);
        PopIsBounded(sizeMax, View(), 1);
      }
      var amount;
      status, amount := PopSome(output, 1);
      if status == OK {
        SingleBlock(output[..], elementSize);
      }
    }

    /** fixed_queue_peek_at: the element at that position behind the head, which stays queued. */
    method PeekAt(index: nat, output: array<byte>) returns (status: FoundationStatus)
      requires Valid() && output != storage && (Initialized() ==> output.Length == elementSize)
      modifies output
      ensures !Initialized() ==> status == NOT_INITIALIZED && unchanged(output)
      ensures Initialized() ==>
        if index < |Contents()| then status == OK && output[..] == Contents()[index]
        else status == OUT_OF_RANGE && unchanged(output)
    {
      if !Initialized() {
        return NOT_INITIALIZED;
      }
      if index >= size {
        return OUT_OF_RANGE;
      }
      var slot := FifoSpec.Advance(capacity, head, index);
      assert slot == SlotAt(View().ring, index);
      CopyIntoSlot(output, elementSize, 0, Block(storage[..], elementSize, slot));
      return OK;
    }
  }

  /** After index reading rounds the output starts with the first elements, and the rest of it is as before. */
  ghost predicate Taken(start: Ring, now: Ring, before: seq<byte>, output: seq<byte>, index: nat) {
    && ValidRing(start) && index <= start.size && now == PoppedAll(start, index)
    && |output| == |before| && index * start.elementSize <= |output|
    && Blocks(output, start.elementSize, index) == Elements(start)[..index]
    && output[index * start.elementSize..] == before[index * start.elementSize..]
  }

  lemma {:induction false} TakenNext(start: Ring, now: Ring, before: seq<byte>, output: seq<byte>, index: nat)
    requires Taken(start, now, before, output, index) && index < start.size
    requires index * start.elementSize + start.elementSize <= |output|
    ensures ValidRing(now) && now.size > 0 && now.elementSize == start.elementSize
    ensures Taken(start, Popped(now), before, WithBlock(output, start.elementSize, index, Elements(now)[0]), index + 1)
  {
    var n := start.elementSize;
    PoppedAllNext(start, index);
    BlocksGrow(output, n, index, Elements(now)[0]);
    assert output[index * n..][n..] == output[(index + 1) * n..];
    assert before[index * n..][n..] == before[(index + 1) * n..];
  }

  lemma {:induction false} OneFits(sizeMax: nat, capacity: nat, elementSize: nat)
    requires elementSize > 0 && capacity > 0 && capacity <= sizeMax / elementSize
    ensures 1 <= sizeMax / elementSize
  {
  }

  lemma {:induction false} SingleBlock(data: seq<byte>, n: nat)
    requires |data| == n
    ensures Blocks(data, n, 1) == [data]
  {
    assert Blocks(data, n, 0) == [];
    assert Block(data, n, 0) == data;
  }

  lemma {:induction false} BlocksGrow(bytes: seq<byte>, n: nat, k: nat, data: seq<byte>)
    requires k * n + n <= |bytes| && |data| == n
    ensures k * n <= |bytes| && (k + 1) * n == k * n + n
    ensures Blocks(WithBlock(bytes, n, k, data), n, k + 1) == Blocks(bytes, n, k) + [data]
    ensures WithBlock(bytes, n, k, data)[(k + 1) * n..] == bytes[(k + 1) * n..]
  {
    var after := WithBlock(bytes, n, k, data);
    WithBlockReads(bytes, n, k, data, k);
    SameBlocks(bytes, after, n, k);
  }

  lemma {:induction false} SameBlocks(a: seq<byte>, b: seq<byte>, n: nat, count: nat)
    requires count * n <= |a| && count * n <= |b| && a[..count * n] == b[..count * n]
    ensures Blocks(a, n, count) == Blocks(b, n, count)
  {
    if count > 0 {
      SlotsApart(count - 1, count, n);
      assert count * n == (count - 1) * n + n;
      assert a[..(count - 1) * n] == a[..count * n][..(count - 1) * n];
      assert b[..(count - 1) * n] == b[..count * n][..(count - 1) * n];
      SameBlocks(a, b, n, count - 1);
      assert Block(a, n, count - 1) == a[..count * n][(count - 1) * n..];
      assert Block(b, n, count - 1) == b[..count * n][(count - 1) * n..];
    }
  }
}
