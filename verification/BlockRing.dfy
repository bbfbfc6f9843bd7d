/** A ring of equally long elements in flat byte storage, as fixed_queue.c and queue_port.c keep it. */
module BlockRing {
  import Division
  import opened FifoSpec
  import opened Integers

  /** Slots of n bytes do not overlap. */
  lemma {:induction false} SlotsApart(j: nat, k: nat, n: nat)
    requires j < k
    ensures j * n + n <= k * n
  {
    Division.MultipleMonotone(n, j + 1, k);
  }

  /** The bytes of slot k. */
  function Block(bytes: seq<byte>, n: nat, k: nat): (r: seq<byte>)
    requires k * n + n <= |bytes|
    ensures |r| == n
  {
    bytes[k * n..k * n + n]
  }

  function WithBlock(bytes: seq<byte>, n: nat, k: nat, data: seq<byte>): (r: seq<byte>)
    requires k * n + n <= |bytes| && |data| == n
    ensures |r| == |bytes|
  {
    bytes[..k * n] + data + bytes[k * n + n..]
  }

  /** The first count slots. */
  function Blocks(bytes: seq<byte>, n: nat, count: nat): (r: seq<seq<byte>>)
    requires count * n <= |bytes|
    ensures |r| == count
  {
    if count == 0 then []
    else
      SlotsApart(count - 1, count, n);
      Blocks(bytes, n, count - 1) + [Block(bytes, n, count - 1)]
  }

  lemma {:induction false} WithBlockReads(bytes: seq<byte>, n: nat, k: nat, data: seq<byte>, j: nat)
    requires k * n + n <= |bytes| && j * n + n <= |bytes| && |data| == n
    ensures Block(WithBlock(bytes, n, k, data), n, j) == if j == k then data else Block(bytes, n, j)
  {
    if j < k {
      SlotsApart(j, k, n);
    } else if j > k {
      SlotsApart(k, j, n);
    }
  }

  datatype Ring = Ring(storage: seq<byte>, elementSize: nat, capacity: nat, head: nat, size: nat)

  predicate ValidRing(r: Ring) {
    && r.elementSize > 0 && r.capacity > 0
    && r.capacity * r.elementSize <= |r.storage|
    && r.head < r.capacity && r.size <= r.capacity
  }

  /** The slot of the i-th element behind the head. */
  function SlotAt(r: Ring, i: nat): (k: nat)
    requires ValidRing(r) && i <= r.capacity
    ensures k < r.capacity && k * r.elementSize + r.elementSize <= |r.storage|
  {
    SlotsApart(Advance(r.capacity, r.head, i), r.capacity, r.elementSize);
    Advance(r.capacity, r.head, i)
  }

  /** The queued elements, oldest first. */
  function Elements(r: Ring): (s: seq<seq<byte>>)
    requires ValidRing(r)
    ensures |s| == r.size
    ensures forall i :: 0 <= i < r.size ==> s[i] == Block(r.storage, r.elementSize, SlotAt(r, i))
  {
    seq(r.size, i requires 0 <= i < r.size => Block(r.storage, r.elementSize, SlotAt(r, i)))
  }

  function Pushed(r: Ring, data: seq<byte>): (after: Ring)
    requires ValidRing(r) && r.size < r.capacity && |data| == r.elementSize
    ensures ValidRing(after)
  {
    r.(storage := WithBlock(r.storage, r.elementSize, SlotAt(r, r.size), data), size := r.size + 1)
  }

  function Popped(r: Ring): (after: Ring)
    requires ValidRing(r) && r.size > 0
    ensures ValidRing(after)
  {
    r.(head := Advance(r.capacity, r.head, 1), size := r.size - 1)
  }

  lemma {:induction false} PushedAppends(r: Ring, data: seq<byte>)
    requires ValidRing(r) && r.size < r.capacity && |data| == r.elementSize
    ensures Elements(Pushed(r, data)) == Elements(r) + [data]
  {
    var after := Pushed(r, data);
    var slot := SlotAt(r, r.size);
    forall i | 0 <= i <= r.size ensures Elements(after)[i] == (Elements(r) + [data])[i] {
      WithBlockReads(r.storage, r.elementSize, slot, data, SlotAt(r, i));
      if i < r.size {
        AdvanceInjective(r.capacity, r.head, i, r.size);
      }
    }
  }

  lemma {:induction false} PoppedDrops(r: Ring)
    requires ValidRing(r) && r.size > 0
    ensures Elements(Popped(r)) == Elements(r)[1..]
  {
    forall i | 0 <= i < r.size - 1 ensures Elements(Popped(r))[i] == Elements(r)[1..][i] {
      AdvanceSum(r.capacity, r.head, 1, i);
    }
  }

  /** memcpy of one element into a slot. */
  method CopyIntoSlot(target: array<byte>, n: nat, k: nat, data: seq<byte>)
    requires k * n + n <= target.Length && |data| == n
    modifies target
    ensures target[..] == WithBlock(old(target[..]), n, k, data)
  {
    for i := 0 to n
      invariant forall j :: 0 <= j < i ==> target[k * n + j] == data[j]
      invariant forall j :: 0 <= j < target.Length && (j < k * n || j >= k * n + i) ==> target[j] == old(target[j])
    {
      target[k * n + i] := data[i];
    }
    ghost var expected := WithBlock(old(target[..]), n, k, data);
    forall j | 0 <= j < target.Length ensures target[j] == expected[j] {
      if k * n <= j < k * n + n {
        assert target[k * n + (j - k * n)] == data[j - k * n];
      }
    }
  }
}
