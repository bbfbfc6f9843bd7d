/** The two-cursor byte FIFO: cursor arithmetic and the meaning of the storage. */
module FifoSpec {
  import Division
  import opened Integers

  /** mizu_fifo_advance. */
  function Advance(size: nat, index: nat, count: nat): (r: nat)
    requires index < size && count <= size
    ensures r < size && r == (index + count) % size
  {
    var tail := size - index;
    if count >= tail then
      Division.DivideUniquely(index + count, size, 1, count - tail);
      count - tail
    else
      Division.DivideUniquely(index + count, size, 0, index + count);
      index + count
  }

  /** mizu_fifo_used. */
  function Used(size: nat, readIndex: nat, writeIndex: nat): (r: nat)
    requires readIndex < size && writeIndex < size
    ensures r < size && Advance(size, readIndex, r) == writeIndex
  {
    if writeIndex >= readIndex then writeIndex - readIndex else size - readIndex + writeIndex
  }

  /** mizu_fifo_free: one slot stays reserved. */
  function Free(size: nat, readIndex: nat, writeIndex: nat): nat
    requires readIndex < size && writeIndex < size
  {
    size - 1 - Used(size, readIndex, writeIndex)
  }

  /** The count bytes that start at index, around the end of the storage. */
  function Window(storage: seq<byte>, index: nat, count: nat): (r: seq<byte>)
    requires index < |storage| && count <= |storage|
    ensures |r| == count && forall i :: 0 <= i < count ==> r[i] == storage[Advance(|storage|, index, i)]
  {
    seq(count, i requires 0 <= i < count => storage[Advance(|storage|, index, i)])
  }

  function Contents(storage: seq<byte>, readIndex: nat, writeIndex: nat): seq<byte>
    requires readIndex < |storage| && writeIndex < |storage|
  {
    Window(storage, readIndex, Used(|storage|, readIndex, writeIndex))
  }

  /** The storage after data was copied in byte by byte from index on. */
  function Written(storage: seq<byte>, index: nat, data: seq<byte>): (r: seq<byte>)
    requires index < |storage| && |data| <= |storage|
    ensures |r| == |storage|
  {
    if data == [] then storage
    else
      var n := |data| - 1;
      Written(storage, index, data[..n])[Advance(|storage|, index, n) := data[n]]
  }

  /** Steps compose: later positions of a window are positions of the window further on. */
  lemma {:induction false} AdvanceSum(size: nat, index: nat, a: nat, b: nat)
    requires index < size && a + b <= size
    ensures Advance(size, Advance(size, index, a), b) == Advance(size, index, a + b)
  {
  }

  lemma {:induction false} AdvanceInjective(size: nat, index: nat, a: nat, b: nat)
    requires index < size && a < size && b < size && a != b
    ensures Advance(size, index, a) != Advance(size, index, b)
  {
  }

  /** What Written writes, and that it writes nothing else. */
  lemma {:induction false} WrittenWindow(storage: seq<byte>, index: nat, data: seq<byte>, before: nat, count: nat)
    requires before < |storage| && count + |data| < |storage| && index == Advance(|storage|, before, count)
    ensures Window(Written(storage, index, data), before, count + |data|) == Window(storage, before, count) + data
    decreases |data|
  {
    if data == [] {
      assert Window(storage, before, count) + [] == Window(storage, before, count);
    } else {
      var n := |data| - 1;
      WrittenWindow(storage, index, data[..n], before, count);
      var shorter := Written(storage, index, data[..n]);
      AdvanceSum(|storage|, before, count, n);
      var shorterWindow := Window(shorter, before, count + n);
      var window := Window(Written(storage, index, data), before, count + |data|);
      forall i | 0 <= i < count + n ensures window[i] == shorterWindow[i] {
        AdvanceInjective(|storage|, before, i, count + n);
      }
      assert data == data[..n] + [data[n]];
    }
  }

  /** A window is its head followed by the window further on. */
  lemma {:induction false} WindowSplit(storage: seq<byte>, index: nat, a: nat, b: nat)
    requires index < |storage| && a + b <= |storage|
    ensures Window(storage, index, a + b) ==
      Window(storage, index, a) + Window(storage, Advance(|storage|, index, a), b)
  {
    forall i | 0 <= i < b
      ensures Window(storage, Advance(|storage|, index, a), b)[i] == Window(storage, index, a + b)[a + i]
    {
      AdvanceSum(|storage|, index, a, i);
    }
  }

  lemma {:induction false} UsedAdvance(size: nat, readIndex: nat, count: nat)
    requires readIndex < size && count < size
    ensures Used(size, readIndex, Advance(size, readIndex, count)) == count
  {
  }
}

/** mizu_fifo.c: the FIFO object, used from one context. */
module Fifo {
  import opened MizuStatuses
  import opened Integers
  import opened FifoSpec

  /** The two copy loops of mizu_fifo_write: up to the end of the storage, then from its start. */
  method CopyIn(storage: array<byte>, writeIndex: nat, data: seq<byte>)
    requires writeIndex < storage.Length && |data| <= storage.Length
    modifies storage
    ensures storage[..] == Written(old(storage[..]), writeIndex, data)
  {
    var first := storage.Length - writeIndex;
    if first > |data| {
      first := |data|;
    }
    assert data[..0] == [];
    for index := 0 to first
      invariant storage[..] == Written(old(storage[..]), writeIndex, data[..index])
    {
      assert data[..index + 1][..index] == data[..index];
      storage[writeIndex + index] := data[index];
    }
    for index := first to |data|
      invariant storage[..] == Written(old(storage[..]), writeIndex, data[..index])
    {
      assert data[..index + 1][..index] == data[..index];
      storage[index - first] := data[index];
    }
    assert data[..|data|] == data;
  }

  /** The two copy loops of mizu_fifo_read. */
  method CopyOut(storage: array<byte>, readIndex: nat, data: array<byte>, dataSize: nat)
    requires readIndex < storage.Length && dataSize <= storage.Length && dataSize <= data.Length && data != storage
    modifies data
    ensures data[..dataSize] == Window(storage[..], readIndex, dataSize)
    ensures data[dataSize..] == old(data[dataSize..])
  {
    var first := storage.Length - readIndex;
    if first > dataSize {
      first := dataSize;
    }
    for index := 0 to first
      invariant forall i :: 0 <= i < index ==> data[i] == storage[Advance(storage.Length, readIndex, i)]
      invariant forall i :: index <= i < data.Length ==> data[i] == old(data[i])
    {
      data[index] := storage[readIndex + index];
    }
    for index := first to dataSize
      invariant forall i :: 0 <= i < index ==> data[i] == storage[Advance(storage.Length, readIndex, i)]
      invariant forall i :: index <= i < data.Length ==> data[i] == old(data[i])
    {
      data[index] := storage[index - first];
    }
  }

  class Fifo {
    var storage: array<byte>
    var readIndex: nat
    var writeIndex: nat
    var initialized: bool

    ghost predicate Valid()
      reads this
    {
      initialized ==> storage.Length >= 2 && readIndex < storage.Length && writeIndex < storage.Length
    }

    ghost function Queued(): seq<byte>
      requires initialized && Valid()
      reads this, storage
    {
      Contents(storage[..], readIndex, writeIndex)
    }

    constructor ()
      ensures Valid() && !initialized
    {
      storage := new byte[0];
      readIndex, writeIndex, initialized := 0, 0, false;
    }

    /** mizu_fifo_init. */
    method Init(buffer: array<byte>) returns (status: MizuStatus)
      requires Valid()
      modifies this
      ensures Valid()
      ensures status == if old(initialized) then INVALID_STATE else if buffer.Length < 2 then INVALID_ARGUMENT else OK
      ensures status == OK ==> initialized && storage == buffer && readIndex == writeIndex == 0 && Queued() == []
      ensures status != OK ==> unchanged(this)
    {
      if initialized {
        return INVALID_STATE;
      }
      if buffer.Length < 2 {
        return INVALID_ARGUMENT;
      }
      storage := buffer;
      readIndex, writeIndex := 0, 0;
      initialized := true;
      return OK;
    }

    /** mizu_fifo_write: all bytes or none. */
    method Write(data: seq<byte>) returns (status: MizuStatus)
      requires Valid()
      modifies this`writeIndex, storage
      ensures Valid()
      ensures !initialized ==> status == NOT_INITIALIZED && unchanged(this) && unchanged(storage)
      ensures initialized ==>
        if |data| <= storage.Length - 1 - |old(Queued())|
        then status == OK && Queued() == old(Queued()) + data
        else status == FULL && unchanged(this) && unchanged(storage)
      ensures initialized && status == OK ==>
        && storage[..] == Written(old(storage[..]), old(writeIndex), data)
        && writeIndex == Advance(storage.Length, old(writeIndex), |data|)
    {
      if !initialized {
        return NOT_INITIALIZED;
      }
      if |data| == 0 {
        assert Queued() + [] == Queued();
        return OK;
      }
      if |data| > Free(storage.Length, readIndex, writeIndex) {
        return FULL;
      }
      ghost var original := storage[..];
      CopyIn(storage, writeIndex, data);
      WrittenWindow(original, writeIndex, data, readIndex, Used(storage.Length, readIndex, writeIndex));
      AdvanceSum(storage.Length, readIndex, Used(storage.Length, readIndex, writeIndex), |data|);
      UsedAdvance(storage.Length, readIndex, Used(storage.Length, readIndex, writeIndex) + |data|);
      writeIndex := Advance(storage.Length, writeIndex, |data|);
      return OK;
    }

    /** mizu_fifo_read: all bytes or none, and bytes of data behind dataSize are not touched. */
    method Read(data: array<byte>, dataSize: nat) returns (status: MizuStatus)
      requires Valid() && data != storage && dataSize <= data.Length
      modifies this`readIndex, data
      ensures Valid()
      ensures !initialized ==> status == NOT_INITIALIZED && unchanged(this) && unchanged(data)
      ensures initialized ==>
        if dataSize <= |old(Queued())|
        then status == OK && old(Queued()) == data[..dataSize] + Queued() && data[dataSize..] == old(data[dataSize..])
        else status == EMPTY && unchanged(this) && unchanged(data)
    {
      if !initialized {
        return NOT_INITIALIZED;
      }
      if dataSize == 0 {
        assert data[..0] + Queued() == Queued();
        return OK;
      }
      if dataSize > Used(storage.Length, readIndex, writeIndex) {
        return EMPTY;
      }
      CopyOut(storage, readIndex, data, dataSize);
      var used := Used(storage.Length, readIndex, writeIndex);
      WindowSplit(storage[..], readIndex, dataSize, used - dataSize);
      AdvanceSum(storage.Length, readIndex, dataSize, used - dataSize);
      UsedAdvance(storage.Length, Advance(storage.Length, readIndex, dataSize), used - dataSize);
      readIndex := Advance(storage.Length, readIndex, dataSize);
      return OK;
    }

    /** mizu_fifo_push. */
    method Push(value: byte) returns (status: MizuStatus)
      requires Valid()
      modifies this`writeIndex, storage
      ensures Valid()
      ensures initialized && |old(Queued())| < storage.Length - 1 ==>
        status == OK && Queued() == old(Queued()) + [value]
      ensures initialized && |old(Queued())| == storage.Length - 1 ==> status == FULL && Queued() == old(Queued())
      ensures !initialized ==> status == NOT_INITIALIZED && unchanged(this) && unchanged(storage)
    {
      status := Write([value]);
    }

    /** mizu_fifo_pop. */
    method Pop(value: array<byte>) returns (status: MizuStatus)
      requires Valid() && value != storage && value.Length == 1
      modifies this`readIndex, value
      ensures Valid()
      ensures initialized && old(Queued()) != [] ==> status == OK && old(Queued()) == [value[0]] + Queued()
      ensures initialized && old(Queued()) == [] ==> status == EMPTY && Queued() == [] && value[0] == old(value[0])
      ensures !initialized ==> status == NOT_INITIALIZED && unchanged(this) && unchanged(value)
    {
      status := Read(value, 1);
      assert value[..1] == [value[0]];
    }
  }
}
