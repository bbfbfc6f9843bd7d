/** snapshot_buffer.c: the buffer object and the credentials that its callers own. */
module SnapshotBuffer {
  import opened FoundationStatuses
  import opened Integers
  import opened Options
  import Spec = SnapshotSpec

  /** snapshot_buffer_writer_t. */
  class Writer {
    var data: array?<byte>
    var capacity: nat

    constructor ()
    {
      data, capacity := null, 0;
    }
  }

  /** snapshot_buffer_lease_t. */
  class Lease {
    var data: array?<byte>
    var size: nat
    var sequence: uint32
    var timestamp: uint32

    constructor ()
    {
      data, size, sequence, timestamp := null, 0, 0, 0;
    }
  }

  function Registered(l: Lease?): Option<Lease> {
    if l == null then None else var lease: Lease := l; Some(lease)
  }

  class Buffer {
    var slots: seq<array?<byte>>
    var capacity: nat
    var active: nat
    var writing: nat
    var published: bool
    var writer: Writer?
    var readers: seq<Lease?>
    var info: seq<Spec.Info>

    /** Both slots are bound: the code's NOT_INITIALIZED check passes. */
    predicate Bound()
      reads this
    {
      |slots| == 2 && slots[0] != null && slots[1] != null
    }

    ghost predicate Valid()
      reads this
    {
      && |slots| == |readers| == |info| == 2 && active <= 1 && writing <= 1
      && (Bound() ==>
          && slots[0] != slots[1] && capacity > 0 && slots[0].Length == capacity == slots[1].Length
          && info[0].size <= capacity && info[1].size <= capacity)
      && (!Bound() ==> writer == null && readers[0] == null && readers[1] == null && !published)
    }

    ghost function View(): Spec.Buffer<Writer, Lease>
      requires Valid() && Bound()
      reads this, slots[0], slots[1]
    {
      Spec.Buffer([slots[0][..], slots[1][..]], capacity, active, writing, published,
        if writer == null then None else var w: Writer := writer; Some(w),
        [Registered(readers[0]), Registered(readers[1])],
        info)
    }

    /** The slot that a pointer names, as valid_writer and release compare it. */
    ghost function SlotOf(data: array?<byte>): Option<nat>
      requires Valid() && Bound()
      reads this
    {
      if data == slots[0] then Some(0) else if data == slots[1] then Some(1) else None
    }

    ghost function WriterContent(w: Writer): Spec.WriterContent
      requires Valid() && Bound()
      reads this, w
    {
      Spec.WriterContent(SlotOf(w.data), w.capacity)
    }

    ghost function LeaseContent(l: Lease): Spec.LeaseContent
      requires Valid() && Bound()
      reads this, l
    {
      Spec.LeaseContent(SlotOf(l.data), l.size, l.sequence, l.timestamp)
    }

    /** The zero-initialised object. */
    constructor ()
      ensures Valid() && !Bound()
    {
      slots := [null, null];
      capacity, active, writing, published := 0, 0, 0, false;
      writer := null;
      readers := [null, null];
      info := [Spec.Info(0, 0, 0), Spec.Info(0, 0, 0)];
    }

    /** snapshot_buffer_init: both slots have the announced capacity. */
    method Init(first: array<byte>, second: array<byte>) returns (status: FoundationStatus)
      requires Valid() && first.Length == second.Length
      modifies this
      ensures Valid()
      ensures status == if first.Length == 0 || first == second then INVALID_ARGUMENT
                        else if old(writer) != null || old(readers[0]) != null || old(readers[1]) != null then BUSY
                        else OK
      ensures status == OK ==>
        Bound() && slots == [first, second] && View() == Spec.Empty(first[..], second[..], first.Length)
      ensures status != OK ==> unchanged(this)
    {
      if first.Length == 0 || first == second {
        return INVALID_ARGUMENT;
      }
      if writer != null || readers[0] != null || readers[1] != null {
        return BUSY;
      }
      slots := [first, second];
      capacity, active, writing, published := first.Length, 0, 0, false;
      writer := null;
      readers := [null, null];
      info := [Spec.Info(0, 0, 0), Spec.Info(0, 0, 0)];
      return OK;
    }

    /** snapshot_buffer_begin. */
    method Begin(w: Writer) returns (status: FoundationStatus)
      requires Valid()
      modifies this`writing, this`writer, w
      ensures Valid() && Bound() == old(Bound())
      ensures !Bound() ==> status == NOT_INITIALIZED && unchanged(this) && unchanged(w)
      ensures Bound() ==> status == Spec.BeginStatus(old(View())) && View() == Spec.Begin(old(View()), w)
      ensures Bound() && status == OK ==> WriterContent(w) == Spec.WriterContent(Some(writing), capacity)
      ensures status != OK ==> unchanged(this) && unchanged(w)
    {
      if !Bound() {
        return NOT_INITIALIZED;
      }
      if writer != null {
        return BUSY;
      }
      var slot := if published then 1 - active else 0;
      if readers[slot] != null {
        return BUSY;
      }
      writing := slot;
      writer := w;
      w.data, w.capacity := slots[slot], capacity;
      return OK;
    }

    /** valid_writer. */
    method ValidWriter(w: Writer) returns (valid: bool)
      requires Valid() && Bound()
      ensures valid <==> Spec.ValidWriter(View(), w, WriterContent(w))
    {
      valid := writer == w && w.data == slots[writing] && w.capacity == capacity;
    }

    /** snapshot_buffer_publish. */
    method Publish(w: Writer, size: nat, timestamp: uint32) returns (status: FoundationStatus)
      requires Valid()
      modifies this`info, this`active, this`published, this`writer, w
      ensures Valid() && Bound() == old(Bound())
      ensures !Bound() ==> status == NOT_INITIALIZED && unchanged(this) && unchanged(w)
      ensures Bound() ==>
        && status == Spec.PublishStatus(old(View()), w, old(WriterContent(w)), size)
        && View() == Spec.Publish(old(View()), w, old(WriterContent(w)), size, timestamp)
      ensures status == OK ==> w.data == null && w.capacity == 0
      ensures status != OK ==> unchanged(this) && unchanged(w)
    {
      if !Bound() {
        return NOT_INITIALIZED;
      }
      var valid := ValidWriter(w);
      if !valid {
        return INVALID_STATE;
      }
      if size > capacity {
        return BUFFER_TOO_SMALL;
      }
      var sequence := if published then info[active].sequence else 0;
      if sequence == UINT32_MAX {
        return OVERFLOW;
      }
      info := info[writing := Spec.Info(size, sequence + 1, timestamp)];
      active := writing;
      published := true;
      writer := null;
      w.data, w.capacity := null, 0;
      return OK;
    }

    /** snapshot_buffer_cancel. */
    method Cancel(w: Writer) returns (status: FoundationStatus)
      requires Valid()
      modifies this`writer, w
      ensures Valid() && Bound() == old(Bound())
      ensures !Bound() ==> status == NOT_INITIALIZED && unchanged(this) && unchanged(w)
      ensures Bound() ==>
        && status == Spec.CancelStatus(old(View()), w, old(WriterContent(w)))
        && View() == Spec.Cancel(old(View()), w, old(WriterContent(w)))
      ensures status == OK ==> w.data == null && w.capacity == 0
      ensures status != OK ==> unchanged(this) && unchanged(w)
    {
      if !Bound() {
        return NOT_INITIALIZED;
      }
      var valid := ValidWriter(w);
      if !valid {
        return INVALID_STATE;
      }
      writer := null;
      w.data, w.capacity := null, 0;
      return OK;
    }

    /** snapshot_buffer_acquire. */
    method Acquire(l: Lease) returns (status: FoundationStatus)
      requires Valid()
      modifies this`readers, l
      ensures Valid() && Bound() == old(Bound())
      ensures !Bound() ==> status == NOT_INITIALIZED && unchanged(this) && unchanged(l)
      ensures Bound() ==> status == Spec.AcquireStatus(old(View()), l) && View() == Spec.Acquire(old(View()), l)
      ensures Bound() && status == OK ==> LeaseContent(l) == Spec.LeaseFor(View(), active)
      ensures status != OK ==> unchanged(this) && unchanged(l)
    {
      if !Bound() {
        return NOT_INITIALIZED;
      }
      if !published {
        return EMPTY;
      }
      var slot := active;
      if readers[slot] != null {
        return BUSY;
      }
      if l == readers[0] || l == readers[1] {
        return INVALID_ARGUMENT;
      }
      l.data, l.size := slots[slot], info[slot].size;
      l.sequence, l.timestamp := info[slot].sequence, info[slot].timestamp;
      readers := readers[slot := l];
      return OK;
    }

    /** snapshot_buffer_release: only the registered object with its original content is taken back. */
    method Release(l: Lease) returns (status: FoundationStatus)
      requires Valid()
      modifies this`readers, l
      ensures Valid() && Bound() == old(Bound())
      ensures !Bound() ==> status == NOT_INITIALIZED && unchanged(this) && unchanged(l)
      ensures Bound() ==>
        && status == Spec.ReleaseStatus(old(View()), l, old(LeaseContent(l)))
        && View() == Spec.Release(old(View()), l, old(LeaseContent(l)))
      ensures status == OK ==> l.data == null && l.size == 0 && l.sequence == 0 && l.timestamp == 0
      ensures status != OK ==> unchanged(this) && unchanged(l)
    {
      if !Bound() {
        return NOT_INITIALIZED;
      }
      var slot := FindReader(l);
      if slot == 2 {
        return INVALID_STATE;
      }
      var same := HasContentOf(l, slot);
      if !same {
        return INVALID_STATE;
      }
      readers := readers[slot := null];
      l.data, l.size, l.sequence, l.timestamp := null, 0, 0, 0;
      return OK;
    }

    /** The search loop of snapshot_buffer_release. */
    method FindReader(l: Lease) returns (slot: nat)
      requires Valid() && Bound()
      ensures slot <= 2 && Spec.ReaderSlot(View(), l) == if slot == 2 then None else Some(slot)
    {
      for i := 0 to 2
        invariant forall k :: 0 <= k < i ==> readers[k] != l
      {
        if readers[i] == l {
          return i;
        }
      }
      return 2;
    }

    /** The comparison of a lease with what was lent from a slot. */
    method HasContentOf(l: Lease, slot: nat) returns (same: bool)
      requires Valid() && Bound() && slot <= 1
      ensures same <==> LeaseContent(l) == Spec.LeaseFor(View(), slot)
    {
      same := l.data == slots[slot] && l.size == info[slot].size && l.sequence == info[slot].sequence
        && l.timestamp == info[slot].timestamp;
    }

    /** snapshot_buffer_copy: the latest frame, or nothing at all. */
    method Copy(data: array<byte>) returns (status: FoundationStatus, result: Option<Spec.Info>)
      requires Valid() && (Bound() ==> data != slots[0] && data != slots[1])
      modifies data
      ensures status == if Bound() then Spec.CopyStatus(View(), data.Length) else NOT_INITIALIZED
      ensures status == OK ==>
        && result == Some(info[active])
        && data[..info[active].size] == View().slots[active][..info[active].size]
        && data[info[active].size..] == old(data[info[active].size..])
      ensures status != OK ==> result.None? && unchanged(data)
    {
      if !Bound() {
        return NOT_INITIALIZED, None;
      }
      if !published {
        return EMPTY, None;
      }
      var latest := info[active];
      if data.Length < latest.size {
        return BUFFER_TOO_SMALL, None;
      }
      var source := slots[active];
      forall i | 0 <= i < latest.size {
        data[i] := source[i];
      }
      return OK, Some(latest);
    }

    /** snapshot_buffer_sequence and snapshot_buffer_timestamp. */
    method Latest() returns (status: FoundationStatus, sequence: Option<uint32>, timestamp: Option<uint32>)
      requires Valid()
      ensures status == if !Bound() then NOT_INITIALIZED else if !published then EMPTY else OK
      ensures status == OK ==> sequence == Some(Spec.LastSequence(View())) && timestamp == Some(info[active].timestamp)
      ensures status != OK ==> sequence.None? && timestamp.None?
    {
      if !Bound() {
        return NOT_INITIALIZED, None, None;
      }
      if !published {
        return EMPTY, None, None;
      }
      return OK, Some(info[active].sequence), Some(info[active].timestamp);
    }
  }
}
