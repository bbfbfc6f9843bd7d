/**
 What each operation of the snapshot buffer decides and leaves behind, in every state that histories keep:
 when it succeeds, which error it returns otherwise, and the whole state afterwards.
 */
module SnapshotLaws {
  import opened FoundationStatuses
  import opened Integers
  import opened Options
  import opened SnapshotHistory
  import opened SnapshotSpec

  /** A lease is registered for the slot. */
  ghost predicate Leased<W, L>(s: System<W, L>, slot: nat)
    requires Shaped(s.buffer) && slot <= 1
  {
    s.buffer.readers[slot].Some?
  }

  /** The slot that readers get next; there is none before the first publication. */
  ghost predicate IsPublished<W, L>(s: System<W, L>, slot: nat) {
    s.frames != [] && slot == s.buffer.active
  }

  /** A writer is admitted exactly when no writer is live and every registered lease is on the published slot. */
  lemma {:induction false} WriterAdmitted<W, L>(s: System<W, L>, w: W)
    requires Inv(s)
    ensures Status(s, Op.Begin(w)) == OK <==>
      s.buffer.writer == None && forall slot :: 0 <= slot <= 1 && Leased(s, slot) ==> IsPublished(s, slot)
    ensures Status(s, Op.Begin(w)) in {OK, BUSY}
  {
    var spare := 1 - s.buffer.active;
    assert Leased(s, spare) <==> s.buffer.readers[spare].Some?;
  }

  /** The writer gets the slot that is not published, slot 0 at first, and nothing else changes. */
  lemma {:induction false} WriterGetsSpareSlot<W, L>(s: System<W, L>, w: W)
    requires Inv(s)
    ensures var slot := if s.frames == [] then 0 else 1 - s.buffer.active;
            Do(s, Op.Begin(w)) ==
            if Status(s, Op.Begin(w)) == OK then
              s.(buffer := s.buffer.(writing := slot, writer := Some(w)),
                 writers := s.writers[w := WriterContent(Some(slot), s.buffer.capacity)])
            else s
  {
  }

  /** While one reader holds the latest frame, a writer can begin, in the other slot. */
  lemma {:induction false} WriterBesideReader<W, L>(s: System<W, L>, l: L, w: W)
    requires Inv(s) && s.frames != [] && s.buffer.writer == None
    requires !Leased(s, 0) && !Leased(s, 1)
    ensures Status(s, Op.Acquire(l)) == OK
    ensures var reading := Do(s, Op.Acquire(l));
            && Inv(reading) && Leased(reading, s.buffer.active)
            && Status(reading, Op.Begin(w)) == OK
            && Do(reading, Op.Begin(w)).buffer.writing == 1 - s.buffer.active
  {
    DoKeepsInv(s, Op.Acquire(l));
    WriterAdmitted(Do(s, Op.Acquire(l)), w);
  }

  /** The credential is the one that was lent, with the content that it was lent with. */
  ghost predicate Credible<W, L>(s: System<W, L>, w: W) {
    && s.buffer.writer == Some(w) && w in s.writers
    && s.writers[w] == WriterContent(Some(s.buffer.writing), s.buffer.capacity)
  }

  /** The exact outcome of a publication; the number of frames is the last sequence number. */
  lemma {:induction false} PublishDecides<W, L>(s: System<W, L>, w: W, size: nat, timestamp: uint32)
    requires Inv(s)
    ensures Status(s, Op.Publish(w, size, timestamp)) ==
      if !Credible(s, w) then INVALID_STATE
      else if size > s.buffer.capacity then BUFFER_TOO_SMALL
      else if |s.frames| == UINT32_MAX then OVERFLOW
      else OK
  {
    SequencesFollowFrames(s);
  }

  /** What is published is what the writer stored; the slot read by others and all leases stay as they are. */
  lemma {:induction false} PublishAppends<W, L>(s: System<W, L>, w: W, size: nat, timestamp: uint32)
    requires Inv(s)
    ensures var after, b := Do(s, Op.Publish(w, size, timestamp)), s.buffer;
            if Status(s, Op.Publish(w, size, timestamp)) != OK then after == s
            else
              && size <= b.capacity
              && after.frames == s.frames + [Frame(b.slots[b.writing][..size], |s.frames| + 1, timestamp)]
              && after.buffer.slots == b.slots && after.buffer.readers == b.readers
              && after.buffer.info[1 - b.writing] == b.info[1 - b.writing]
              && after.buffer.active == b.writing && after.buffer.published && after.buffer.writer == None
              && after.buffer.capacity == b.capacity
              && after.writers == s.writers[w := NO_WRITER] && after.leases == s.leases
  {
    SequencesFollowFrames(s);
  }

  /** A writer cancels exactly with its own intact credential; what is published and read stays. */
  lemma {:induction false} CancelDecides<W, L>(s: System<W, L>, w: W)
    requires Inv(s)
    ensures Status(s, Op.Cancel(w)) == if Credible(s, w) then OK else INVALID_STATE
    ensures Do(s, Op.Cancel(w)) ==
      if Credible(s, w) then s.(buffer := s.buffer.(writer := None), writers := s.writers[w := NO_WRITER]) else s
  {
  }

  /** Cancelling at once gives the buffer back as it was, but for the note which slot was lent last. */
  lemma {:induction false} CancelUndoesBegin<W, L>(s: System<W, L>, w: W)
    requires Inv(s) && Status(s, Op.Begin(w)) == OK
    ensures var begun := Do(s, Op.Begin(w));
            && Inv(begun) && Status(begun, Op.Cancel(w)) == OK
            && Do(begun, Op.Cancel(w)) ==
                s.(buffer := s.buffer.(writing := begun.buffer.writing), writers := s.writers[w := NO_WRITER])
  {
    var begun := Do(s, Op.Begin(w));
    DoKeepsInv(s, Op.Begin(w));
    CancelDecides(begun, w);
    assert begun.writers[w := NO_WRITER] == s.writers[w := NO_WRITER];
  }

  /** A lease is granted exactly when there is a frame whose slot has no reader and the lease is not in use. */
  lemma {:induction false} AcquireDecides<W, L>(s: System<W, L>, l: L)
    requires Inv(s)
    ensures Status(s, Op.Acquire(l)) ==
      if s.frames == [] then EMPTY
      else if Leased(s, s.buffer.active) then BUSY
      else if s.buffer.readers[1 - s.buffer.active] == Some(l) then INVALID_ARGUMENT
      else OK
    ensures Do(s, Op.Acquire(l)) ==
      if Status(s, Op.Acquire(l)) != OK then s
      else
        var slot, frame := s.buffer.active, s.frames[|s.frames| - 1];
        s.(buffer := s.buffer.(readers := s.buffer.readers[slot := Some(l)]),
           leases := s.leases[l := LeaseContent(Some(slot), |frame.bytes|, frame.sequence, frame.timestamp)])
  {
  }

  /** The lease is registered for the slot and still says what was lent. */
  ghost predicate Returnable<W, L>(s: System<W, L>, l: L, slot: nat)
    requires Shaped(s.buffer) && slot <= 1
  {
    && s.buffer.readers[slot] == Some(l) && l in s.leases
    && s.leases[l] == LeaseContent(Some(slot), s.buffer.info[slot].size, s.buffer.info[slot].sequence,
                                   s.buffer.info[slot].timestamp)
  }

  /** A lease is taken back exactly when it is registered and intact; only its own registration ends. */
  lemma {:induction false} ReleaseDecides<W, L>(s: System<W, L>, l: L)
    requires Inv(s)
    ensures Status(s, Op.Release(l)) == if Returnable(s, l, 0) || Returnable(s, l, 1) then OK else INVALID_STATE
    ensures Do(s, Op.Release(l)) ==
      if Returnable(s, l, 0) || Returnable(s, l, 1) then
        var slot := if Returnable(s, l, 0) then 0 else 1;
        s.(buffer := s.buffer.(readers := s.buffer.readers[slot := None]), leases := s.leases[l := NO_LEASE])
      else s
  {
  }

  /** A copy succeeds exactly when there is a frame and the caller has room for its bytes. */
  lemma {:induction false} CopyDecides<W, L>(s: System<W, L>, capacity: nat)
    requires Inv(s)
    ensures CopyStatus(s.buffer, capacity) ==
      if s.frames == [] then EMPTY
      else if |s.frames[|s.frames| - 1].bytes| > capacity then BUFFER_TOO_SMALL
      else OK
  {
  }

  /** A buffer is initialised exactly when no credential is out; it then has nothing to read. */
  lemma {:induction false} InitDecides<W, L>(s: System<W, L>, first: seq<byte>, second: seq<byte>)
    requires Inv(s) && |first| == |second|
    ensures Status(s, Op.Init(first, second)) ==
      if first == [] then INVALID_ARGUMENT
      else if s.buffer.writer.Some? || Leased(s, 0) || Leased(s, 1) then BUSY
      else OK
    ensures var after := Do(s, Op.Init(first, second));
            if Status(s, Op.Init(first, second)) != OK then after == s
            else
              && Initial(after) && after.frames == [] && !after.buffer.published
              && after.buffer.slots == [first, second] && after.buffer.capacity == |first|
              && after.buffer.writer == None && !Leased(after, 0) && !Leased(after, 1)
              && after.writers == s.writers && after.leases == s.leases
  {
  }
}
