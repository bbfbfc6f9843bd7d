/**
 The double-slot snapshot buffer as a state machine. W and L are the identities of writer and lease
 credentials; a credential's content is memory of the caller, and is passed in where the code reads it.
 */
module SnapshotSpec {
  import opened FoundationStatuses
  import opened Integers
  import opened Options

  datatype Info = Info(size: nat, sequence: uint32, timestamp: uint32)

  /** What a lease or writer credential points at: slot 0 or 1, or None for a null or foreign pointer. */
  datatype LeaseContent = LeaseContent(slot: Option<nat>, size: nat, sequence: uint32, timestamp: uint32)
  datatype WriterContent = WriterContent(slot: Option<nat>, capacity: nat)

  datatype Buffer<W, L> = Buffer(
    slots: seq<seq<byte>>,
    capacity: nat,
    active: nat,
    writing: nat,
    published: bool,
    writer: Option<W>,
    readers: seq<Option<L>>,
    info: seq<Info>)

  predicate Shaped<W, L>(b: Buffer<W, L>) {
    && |b.slots| == |b.readers| == |b.info| == 2 && b.active <= 1 && b.writing <= 1
    && b.capacity > 0 && |b.slots[0]| == b.capacity == |b.slots[1]|
  }

  /** The memory of snapshot_buffer_init. */
  function Empty<W, L>(first: seq<byte>, second: seq<byte>, capacity: nat): Buffer<W, L> {
    Buffer([first, second], capacity, 0, 0, false, None, [None, None], [Info(0, 0, 0), Info(0, 0, 0)])
  }

  /** snapshot_buffer_init on a buffer in use: nobody may hold a credential. */
  function InitStatus<W, L>(b: Buffer<W, L>, capacity: nat): FoundationStatus
    requires Shaped(b)
  {
    if capacity == 0 then INVALID_ARGUMENT
    else if b.writer.Some? || b.readers[0].Some? || b.readers[1].Some? then BUSY
    else OK
  }

  /** The slot that snapshot_buffer_begin would lend. */
  function SpareSlot<W, L>(b: Buffer<W, L>): nat
    requires Shaped(b)
    ensures SpareSlot(b) <= 1
  {
    if b.published then 1 - b.active else 0
  }

  function BeginStatus<W, L>(b: Buffer<W, L>): FoundationStatus
    requires Shaped(b)
  {
    if b.writer.Some? || b.readers[SpareSlot(b)].Some? then BUSY else OK
  }

  function Begin<W, L>(b: Buffer<W, L>, writer: W): Buffer<W, L>
    requires Shaped(b)
  {
    if BeginStatus(b) != OK then b else b.(writing := SpareSlot(b), writer := Some(writer))
  }

  /** valid_writer. */
  ghost predicate ValidWriter<W, L>(b: Buffer<W, L>, writer: W, content: WriterContent)
    requires Shaped(b)
  {
    b.writer == Some(writer) && content == WriterContent(Some(b.writing), b.capacity)
  }

  function LastSequence<W, L>(b: Buffer<W, L>): uint32
    requires Shaped(b)
  {
    if b.published then b.info[b.active].sequence else 0
  }

  ghost function PublishStatus<W, L>(b: Buffer<W, L>, writer: W, content: WriterContent, size: nat): FoundationStatus
    requires Shaped(b)
  {
    if !ValidWriter(b, writer, content) then INVALID_STATE
    else if size > b.capacity then BUFFER_TOO_SMALL
    else if LastSequence(b) == UINT32_MAX then OVERFLOW
    else OK
  }

  ghost function Publish<W, L>(b: Buffer<W, L>, writer: W, content: WriterContent, size: nat,
                               timestamp: uint32): Buffer<W, L>
    requires Shaped(b)
  {
    if PublishStatus(b, writer, content, size) != OK then b
    else b.(info := b.info[b.writing := Info(size, LastSequence(b) + 1, timestamp)],
            active := b.writing, published := true, writer := None)
  }

  ghost function CancelStatus<W, L>(b: Buffer<W, L>, writer: W, content: WriterContent): FoundationStatus
    requires Shaped(b)
  {
    if ValidWriter(b, writer, content) then OK else INVALID_STATE
  }

  ghost function Cancel<W, L>(b: Buffer<W, L>, writer: W, content: WriterContent): Buffer<W, L>
    requires Shaped(b)
  {
    if CancelStatus(b, writer, content) != OK then b else b.(writer := None)
  }

  /** A lease that is still registered overlaps itself, so it cannot be used for another slot. */
  ghost function AcquireStatus<W, L>(b: Buffer<W, L>, lease: L): FoundationStatus
    requires Shaped(b)
  {
    if !b.published then EMPTY
    else if b.readers[b.active].Some? then BUSY
    else if Some(lease) in b.readers then INVALID_ARGUMENT
    else OK
  }

  ghost function Acquire<W, L>(b: Buffer<W, L>, lease: L): Buffer<W, L>
    requires Shaped(b)
  {
    if AcquireStatus(b, lease) != OK then b else b.(readers := b.readers[b.active := Some(lease)])
  }

  /** What snapshot_buffer_acquire writes into the lease of a slot, and release expects there. */
  function LeaseFor<W, L>(b: Buffer<W, L>, slot: nat): LeaseContent
    requires Shaped(b) && slot <= 1
  {
    LeaseContent(Some(slot), b.info[slot].size, b.info[slot].sequence, b.info[slot].timestamp)
  }

  /** The first slot that the lease reads, if any. */
  ghost function ReaderSlot<W, L>(b: Buffer<W, L>, lease: L): Option<nat>
    requires Shaped(b)
  {
    if b.readers[0] == Some(lease) then Some(0) else if b.readers[1] == Some(lease) then Some(1) else None
  }

  ghost function ReleaseStatus<W, L>(b: Buffer<W, L>, lease: L, content: LeaseContent): FoundationStatus
    requires Shaped(b)
  {
    match ReaderSlot(b, lease)
    case None => INVALID_STATE
    case Some(slot) => if content == LeaseFor(b, slot) then OK else INVALID_STATE
  }

  ghost function Release<W, L>(b: Buffer<W, L>, lease: L, content: LeaseContent): Buffer<W, L>
    requires Shaped(b)
  {
    if ReleaseStatus(b, lease, content) != OK then b
    else b.(readers := b.readers[ReaderSlot(b, lease).value := None])
  }

  /** One published snapshot. */
  datatype Frame = Frame(bytes: seq<byte>, sequence: uint32, timestamp: uint32)

  /** The frame that a slot holds. */
  function FrameIn<W, L>(b: Buffer<W, L>, slot: nat): Frame
    requires Shaped(b) && slot <= 1 && b.info[slot].size <= b.capacity
  {
    Frame(b.slots[slot][..b.info[slot].size], b.info[slot].sequence, b.info[slot].timestamp)
  }

  function CopyStatus<W, L>(b: Buffer<W, L>, capacity: nat): FoundationStatus
    requires Shaped(b)
  {
    if !b.published then EMPTY
    else if capacity < b.info[b.active].size then BUFFER_TOO_SMALL
    else OK
  }
}

/**
 Every history of a snapshot buffer since its first initialisation, with the callers' memory: credentials
 that a caller may corrupt, and the bytes that the holder of the writer credential stores. frames lists what
 was published since the latest initialisation.
 */
module SnapshotHistory {
  import opened FoundationStatuses
  import opened Integers
  import opened Options
  import opened Runs
  import opened SnapshotSpec

  datatype System<W, L> = System(
    buffer: Buffer<W, L>,
    writers: map<W, WriterContent>,
    leases: map<L, LeaseContent>,
    frames: seq<Frame>)

  datatype Op<W, L> =
    | Init(first: seq<byte>, second: seq<byte>)
    | Begin(writer: W)
    | Fill(bytes: seq<byte>)
    | Publish(writer: W, size: nat, timestamp: uint32)
    | Cancel(writer: W)
    | Acquire(lease: L)
    | Release(lease: L)
    | TamperWriter(writer: W, writerContent: WriterContent)
    | TamperLease(lease: L, leaseContent: LeaseContent)

  const NO_WRITER := WriterContent(None, 0)
  const NO_LEASE := LeaseContent(None, 0, 0, 0)

  ghost function WriterAt<W, L>(s: System<W, L>, writer: W): WriterContent {
    if writer in s.writers then s.writers[writer] else NO_WRITER
  }

  ghost function LeaseAt<W, L>(s: System<W, L>, lease: L): LeaseContent {
    if lease in s.leases then s.leases[lease] else NO_LEASE
  }

  ghost function Status<W, L>(s: System<W, L>, op: Op<W, L>): FoundationStatus
    requires Shaped(s.buffer)
  {
    match op
    case Init(first, _) => InitStatus(s.buffer, |first|)
    case Begin(w) => BeginStatus(s.buffer)
    case Publish(w, size, _) => PublishStatus(s.buffer, w, WriterAt(s, w), size)
    case Cancel(w) => CancelStatus(s.buffer, w, WriterAt(s, w))
    case Acquire(l) => AcquireStatus(s.buffer, l)
    case Release(l) => ReleaseStatus(s.buffer, l, LeaseAt(s, l))
    case _ => OK
  }

  /**
   The holder of the writer credential may store any bytes in the lent slot; nobody else writes. The slots
   given to an initialisation have one size.
   */
  ghost predicate Allowed<W, L>(s: System<W, L>, op: Op<W, L>) {
    && (op.Fill? ==> s.buffer.writer.Some? && |op.bytes| == s.buffer.capacity)
    && (op.Init? ==> |op.first| == |op.second|)
  }

  ghost function Do<W, L>(s: System<W, L>, op: Op<W, L>): (after: System<W, L>)
    requires Shaped(s.buffer) && Allowed(s, op)
    ensures Shaped(after.buffer)
  {
    var b := s.buffer;
    if Status(s, op) != OK then s else
    match op
    case Init(first, second) => s.(buffer := Empty(first, second, |first|), frames := [])
    case Begin(w) =>
      s.(buffer := SnapshotSpec.Begin(b, w), writers := s.writers[w := WriterContent(Some(SpareSlot(b)), b.capacity)])
    case Fill(bytes) =>
      s.(buffer := b.(slots := b.slots[b.writing := bytes]))
    case Publish(w, size, timestamp) =>
      var after := SnapshotSpec.Publish(b, w, WriterAt(s, w), size, timestamp);
      s.(buffer := after, writers := s.writers[w := NO_WRITER], frames := s.frames + [FrameIn(after, after.active)])
    case Cancel(w) =>
      s.(buffer := SnapshotSpec.Cancel(b, w, WriterAt(s, w)), writers := s.writers[w := NO_WRITER])
    case Acquire(l) =>
      s.(buffer := SnapshotSpec.Acquire(b, l), leases := s.leases[l := LeaseFor(b, b.active)])
    case Release(l) =>
      s.(buffer := SnapshotSpec.Release(b, l, LeaseAt(s, l)), leases := s.leases[l := NO_LEASE])
    case TamperWriter(w, content) => s.(writers := s.writers[w := content])
    case TamperLease(l, content) => s.(leases := s.leases[l := content])
  }

  ghost predicate Initial<W, L>(s: System<W, L>) {
    && |s.buffer.slots| == 2 && Shaped(s.buffer) && s.frames == []
    && s.buffer == Empty(s.buffer.slots[0], s.buffer.slots[1], s.buffer.capacity)
  }

  /** The slot holds the frame that was published under its sequence number. */
  ghost predicate Holds<W, L>(s: System<W, L>, slot: nat)
    requires Shaped(s.buffer) && slot <= 1
  {
    var info := s.buffer.info[slot];
    && 1 <= info.sequence <= |s.frames|
    && info.size <= s.buffer.capacity
    && s.frames[info.sequence - 1] == FrameIn(s.buffer, slot)
  }

  ghost predicate Inv<W, L>(s: System<W, L>) {
    var b := s.buffer;
    && Shaped(b)
    // a live writer owns a slot that is neither published nor read
    && (b.writer.Some? ==> b.readers[b.writing].None? && (b.published ==> b.writing != b.active))
    // before the first publication there is nothing to read
    && (b.published <==> s.frames != [])
    && (!b.published ==> b.readers == [None, None])
    // the published slot and every slot with a reader hold a published frame
    && (b.published ==> Holds(s, b.active) && b.info[b.active].sequence == |s.frames|)
    && (forall slot :: 0 <= slot <= 1 && b.readers[slot].Some? ==> Holds(s, slot))
    && (b.readers[0].Some? ==> b.readers[0] != b.readers[1])
    && (forall k :: 0 <= k < |s.frames| ==> s.frames[k].sequence == k + 1)
    && |s.frames| <= UINT32_MAX
  }

  lemma {:induction false} InitialInv<W, L>(s: System<W, L>)
    requires Initial(s)
    ensures Inv(s)
  {
  }

  /** A slot that the operation leaves alone still holds its frame. */
  lemma {:induction false} StillHolds<W, L>(s: System<W, L>, after: System<W, L>, slot: nat)
    requires Shaped(s.buffer) && Shaped(after.buffer) && slot <= 1 && Holds(s, slot)
    requires after.buffer.slots[slot] == s.buffer.slots[slot] && after.buffer.info[slot] == s.buffer.info[slot]
    requires after.buffer.capacity == s.buffer.capacity && s.frames <= after.frames
    ensures Holds(after, slot)
  {
  }

  lemma {:induction false} PublishKeepsInv<W, L>(s: System<W, L>, op: Op<W, L>)
    requires Inv(s) && op.Publish? && Status(s, op) == OK
    ensures Inv(Do(s, op))
  {
    var after := Do(s, op);
    var b := s.buffer;
    var other := 1 - b.writing;
    if b.readers[other].Some? {
      StillHolds(s, after, other);
    }
    assert after.frames[|s.frames|] == FrameIn(after.buffer, b.writing);
    assert Holds(after, b.writing);
    assert after.buffer.readers[b.writing].None?;
    forall slot | 0 <= slot <= 1 && after.buffer.readers[slot].Some? ensures Holds(after, slot) {
      assert slot == other;
    }
  }

  /** The slots whose frames an operation leaves alone. */
  lemma {:induction false} SlotsStillHold<W, L>(s: System<W, L>, op: Op<W, L>, slot: nat)
    requires Inv(s) && Allowed(s, op) && Status(s, op) == OK && !op.Publish? && !op.Init?
    requires slot <= 1 && Holds(s, slot) && (op.Fill? ==> slot != s.buffer.writing)
    ensures Holds(Do(s, op), slot)
  {
    StillHolds(s, Do(s, op), slot);
  }

  lemma {:induction false} FillKeepsInv<W, L>(s: System<W, L>, op: Op<W, L>)
    requires Inv(s) && Allowed(s, op) && op.Fill?
    ensures Inv(Do(s, op))
  {
    forall slot | 0 <= slot <= 1 && Holds(s, slot) && slot != s.buffer.writing ensures Holds(Do(s, op), slot) {
      SlotsStillHold(s, op, slot);
    }
  }

  lemma {:induction false} CredentialKeepsInv<W, L>(s: System<W, L>, op: Op<W, L>)
    requires Inv(s) && Allowed(s, op) && Status(s, op) == OK && !op.Fill? && !op.Publish? && !op.Init?
    ensures Inv(Do(s, op))
  {
    forall slot | 0 <= slot <= 1 && Holds(s, slot) ensures Holds(Do(s, op), slot) {
      SlotsStillHold(s, op, slot);
    }
  }

  lemma {:induction false} InitKeepsInv<W, L>(s: System<W, L>, op: Op<W, L>)
    requires Inv(s) && Allowed(s, op) && Status(s, op) == OK && op.Init?
    ensures Inv(Do(s, op))
  {
    InitialInv(Do(s, op));
  }

  lemma {:induction false} DoKeepsInv<W, L>(s: System<W, L>, op: Op<W, L>)
    requires Inv(s) && Allowed(s, op)
    ensures Inv(Do(s, op))
  {
    if Status(s, op) == OK {
      match op {
        case Init(_, _) => InitKeepsInv(s, op);
        case Fill(_) => FillKeepsInv(s, op);
        case Publish(_, _, _) => PublishKeepsInv(s, op);
        case _ => CredentialKeepsInv(s, op);
      }
    }
  }

  /**
   While a lease is registered its slot cannot change: no operation, by anyone, touches the bytes or
   the metadata, and only the release of that very lease ends the registration.
   */
  lemma {:induction false} LeaseIsStable<W, L>(s: System<W, L>, op: Op<W, L>, slot: nat)
    requires Inv(s) && Allowed(s, op) && slot <= 1 && s.buffer.readers[slot].Some?
    ensures var after := Do(s, op);
            && after.buffer.slots[slot] == s.buffer.slots[slot]
            && after.buffer.info[slot] == s.buffer.info[slot]
            && (after.buffer.readers[slot] != s.buffer.readers[slot] ==>
                  op == Op.Release(s.buffer.readers[slot].value) && Status(s, op) == OK)
  {
  }

  // ---------------------------------------------------------------- histories

  ghost predicate IsHistory<W, L>(ops: seq<Op<W, L>>, states: seq<System<W, L>>) {
    && |states| == |ops| + 1
    && Initial(states[0])
    && forall k :: 0 <= k < |ops| ==> Next(states[k], ops[k], states[k + 1])
  }

  ghost predicate Next<W, L>(s: System<W, L>, op: Op<W, L>, after: System<W, L>) {
    Shaped(s.buffer) && Allowed(s, op) && after == Do(s, op)
  }

  lemma {:induction false} HistoryKeepsInv<W, L>(ops: seq<Op<W, L>>, states: seq<System<W, L>>, k: nat)
    requires IsHistory(ops, states) && k <= |ops|
    ensures Inv(states[k])
    decreases k
  {
    if k == 0 {
      InitialInv(states[0]);
    } else {
      HistoryKeepsInv(ops, states, k - 1);
      assert Next(states[k - 1], ops[k - 1], states[k]);
      DoKeepsInv(states[k - 1], ops[k - 1]);
    }
  }

  ghost predicate Publishes<W, L>(s: System<W, L>, op: Op<W, L>) {
    Shaped(s.buffer) && op.Publish? && Status(s, op) == OK
  }

  ghost predicate Restarts<W, L>(s: System<W, L>, op: Op<W, L>) {
    Shaped(s.buffer) && op.Init? && Status(s, op) == OK
  }

  /** The number of successful publications since the latest initialisation, among the first n operations. */
  ghost function Publications<W, L>(ops: seq<Op<W, L>>, states: seq<System<W, L>>, n: nat): nat
    requires n <= |ops| < |states|
  {
    if n == 0 || Restarts(states[n - 1], ops[n - 1]) then 0
    else Publications(ops, states, n - 1) + if Publishes(states[n - 1], ops[n - 1]) then 1 else 0
  }

  lemma {:induction false} FramesStep<W, L>(s: System<W, L>, op: Op<W, L>)
    requires Inv(s) && Allowed(s, op)
    ensures if Restarts(s, op) then Do(s, op).frames == []
            else s.frames <= Do(s, op).frames
                 && |Do(s, op).frames| == |s.frames| + if Publishes(s, op) then 1 else 0
  {
  }

  /** The k-th frame carries sequence k, and the last of them is the sequence that is handed out. */
  lemma {:induction false} SequencesFollowFrames<W, L>(s: System<W, L>)
    requires Inv(s)
    ensures |s.frames| == LastSequence(s.buffer)
    ensures forall k :: 0 <= k < |s.frames| ==> s.frames[k].sequence == k + 1
  {
  }

  lemma {:induction false} FramesNext<W, L>(ops: seq<Op<W, L>>, states: seq<System<W, L>>, k: nat)
    requires IsHistory(ops, states) && k < |ops|
    ensures |states[k + 1].frames| == if Restarts(states[k], ops[k]) then 0
                                      else |states[k].frames| + if Publishes(states[k], ops[k]) then 1 else 0
  {
    HistoryStep(ops, states, k);
    FramesStep(states[k], ops[k]);
  }

  ghost predicate FramesCounted<W, L>(ops: seq<Op<W, L>>, states: seq<System<W, L>>, n: nat) {
    n <= |ops| < |states| && |states[n].frames| == Publications(ops, states, n)
  }

  lemma {:induction false} NextFramesCounted<W, L>(ops: seq<Op<W, L>>, states: seq<System<W, L>>, k: nat)
    requires IsHistory(ops, states) && k < |ops| && FramesCounted(ops, states, k)
    ensures FramesCounted(ops, states, k + 1)
  {
    FramesNext(ops, states, k);
  }

  lemma {:induction false} FramesArePublications<W, L>(ops: seq<Op<W, L>>, states: seq<System<W, L>>, n: nat)
    requires IsHistory(ops, states) && n <= |ops|
    ensures FramesCounted(ops, states, n)
  {
    forall k: nat | k < n && FramesCounted(ops, states, k) ensures FramesCounted(ops, states, k + 1) {
      NextFramesCounted(ops, states, k);
    }
    UpTo(n, (k: nat) => FramesCounted(ops, states, k));
  }

  /** The frames are the successful publications, and the k-th of them carries sequence k. */
  lemma {:induction false} SequencesCountPublications<W, L>(ops: seq<Op<W, L>>, states: seq<System<W, L>>, n: nat)
    requires IsHistory(ops, states) && n <= |ops|
    ensures Shaped(states[n].buffer)
    ensures |states[n].frames| == Publications(ops, states, n) == LastSequence(states[n].buffer)
    ensures forall k :: 0 <= k < |states[n].frames| ==> states[n].frames[k].sequence == k + 1
  {
    HistoryKeepsInv(ops, states, n);
    SequencesFollowFrames(states[n]);
    FramesArePublications(ops, states, n);
  }

  /** The active slot holds the latest frame: what copy and acquire hand out. */
  lemma {:induction false} ActiveIsLatest<W, L>(ops: seq<Op<W, L>>, states: seq<System<W, L>>)
    requires IsHistory(ops, states)
    ensures var s := states[|ops|];
            && Shaped(s.buffer)
            && (s.frames != [] <==> s.buffer.published)
            && (s.buffer.published ==>
                  && s.buffer.info[s.buffer.active].size <= s.buffer.capacity
                  && FrameIn(s.buffer, s.buffer.active) == s.frames[|s.frames| - 1])
  {
    HistoryKeepsInv(ops, states, |ops|);
  }

  /** A lease on a slot whose frame is the given one, ready to be released. */
  ghost predicate Intact<W, L>(s: System<W, L>, slot: nat, lease: L, frame: Frame) {
    && Inv(s) && slot <= 1
    && s.buffer.readers[slot] == Some(lease)
    && LeaseAt(s, lease) == LeaseFor(s.buffer, slot)
    && FrameIn(s.buffer, slot) == frame
    && Status(s, Op.Release(lease)) == OK
  }

  lemma {:induction false} LeaseStarts<W, L>(s: System<W, L>, lease: L)
    requires Inv(s) && Status(s, Op.Acquire(lease)) == OK
    ensures Intact(Do(s, Op.Acquire(lease)), s.buffer.active, lease, s.frames[|s.frames| - 1])
  {
    DoKeepsInv(s, Op.Acquire(lease));
  }

  /** No operation but the holder's own disturbs a lease, and the lease can be released next. */
  lemma {:induction false} LeaseStep<W, L>(s: System<W, L>, op: Op<W, L>, slot: nat, lease: L, frame: Frame)
    requires Allowed(s, op) && Intact(s, slot, lease, frame)
    requires !(op.Release? && op.lease == lease) && !(op.TamperLease? && op.lease == lease)
    ensures Intact(Do(s, op), slot, lease, frame)
  {
    LeaseIsStable(s, op, slot);
    DoKeepsInv(s, op);
    var after := Do(s, op);
    assert LeaseAt(after, lease) == LeaseAt(s, lease);
    assert ReaderSlot(after.buffer, lease) == Some(slot);
  }

  /** From operation k to operation m nobody releases this lease and its holder leaves it alone. */
  ghost predicate Untouched<W, L>(ops: seq<Op<W, L>>, k: nat, m: nat, lease: L) {
    && k <= m <= |ops|
    && forall j :: k <= j < m ==>
         !(ops[j].Release? && ops[j].lease == lease) && !(ops[j].TamperLease? && ops[j].lease == lease)
  }

  lemma {:induction false} IntactLasts<W, L>(ops: seq<Op<W, L>>, states: seq<System<W, L>>, j: nat, m: nat,
                                             slot: nat, lease: L, frame: Frame)
    requires IsHistory(ops, states) && Untouched(ops, j, m, lease) && Intact(states[j], slot, lease, frame)
    ensures Intact(states[m], slot, lease, frame)
    decreases m - j
  {
    if j < m {
      assert Next(states[j], ops[j], states[j + 1]);
      IntactNext(states[j], ops[j], states[j + 1], slot, lease, frame);
      IntactLasts(ops, states, j + 1, m, slot, lease, frame);
    }
  }

  lemma {:induction false} IntactNext<W, L>(s: System<W, L>, op: Op<W, L>, after: System<W, L>, slot: nat, lease: L,
                                            frame: Frame)
    requires Next(s, op, after) && Intact(s, slot, lease, frame)
    requires !(op.Release? && op.lease == lease) && !(op.TamperLease? && op.lease == lease)
    ensures Intact(after, slot, lease, frame)
  {
    LeaseStep(s, op, slot, lease, frame);
  }

  /**
   From acquire to release: the lease keeps naming the same slot, whose bytes and metadata are still
   those of the frame that was the latest at acquisition, and releasing the lease succeeds.
   */
  lemma {:induction false} LeaseLasts<W, L>(ops: seq<Op<W, L>>, states: seq<System<W, L>>, k: nat, m: nat, lease: L)
    requires IsHistory(ops, states) && k < m <= |ops| && Shaped(states[k].buffer)
    requires Untouched(ops, k + 1, m, lease)
    requires ops[k] == Op.Acquire(lease) && Status(states[k], ops[k]) == OK
    ensures states[k].frames != []
    ensures Intact(states[m], states[k].buffer.active, lease, states[k].frames[|states[k].frames| - 1])
  {
    HistoryStep(ops, states, k);
    LeaseStarts(states[k], lease);
    IntactLasts(ops, states, k + 1, m, states[k].buffer.active, lease, states[k].frames[|states[k].frames| - 1]);
  }

  lemma {:induction false} HistoryStep<W, L>(ops: seq<Op<W, L>>, states: seq<System<W, L>>, k: nat)
    requires IsHistory(ops, states) && k < |ops|
    ensures Inv(states[k]) && Allowed(states[k], ops[k]) && states[k + 1] == Do(states[k], ops[k])
  {
    HistoryKeepsInv(ops, states, k);
    assert Next(states[k], ops[k], states[k + 1]);
  }
}
