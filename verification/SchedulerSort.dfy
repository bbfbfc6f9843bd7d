/** The configuration table and the run slots of scheduler.h. */
module SchedulerTables {
  import opened MizuStatuses
  import opened Integers

  datatype TaskConfig = TaskConfig(hasCallback: bool, priority: uint8, periodTicks: uint32)

  /** Why a task was invoked; there is one reason. */
  datatype Trigger = PERIODIC

  datatype Slot = Slot(
    id: uint16,
    elapsedTicks: uint32,
    runCount: uint32,
    errorCount: uint32,
    missedCount: uint32,
    lastTrigger: Trigger,
    lastStatus: MizuStatus,
    ready: bool)

  function FreshSlot(id: uint16): Slot {
    Slot(id, 0, 0, 0, 0, PERIODIC, OK, false)
  }

  ghost predicate IdsInRange(configs: seq<TaskConfig>, slots: seq<Slot>) {
    forall i :: 0 <= i < |slots| ==> slots[i].id < |configs|
  }

  /** (priority, id) in lexicographic order, as one number. */
  ghost function Rank(configs: seq<TaskConfig>, slot: Slot): int {
    if slot.id < |configs| then configs[slot.id].priority * 0x1_0000 + slot.id else -1
  }

  /** The dispatch order: strictly increasing (priority, id). */
  ghost predicate Ordered(configs: seq<TaskConfig>, slots: seq<Slot>) {
    forall i, j :: 0 <= i < j < |slots| ==> Rank(configs, slots[i]) < Rank(configs, slots[j])
  }
}

/** scheduler_sort_slots: an in-place heap sort of the run slots. */
module SchedulerSort {
  import opened Integers
  import opened SchedulerTables

  predicate SlotFollows(configs: seq<TaskConfig>, left: uint16, right: uint16)
    requires left < |configs| && right < |configs|
  {
    || configs[left].priority > configs[right].priority
    || (configs[left].priority == configs[right].priority && left > right)
  }

  lemma {:induction false} FollowsByRank(configs: seq<TaskConfig>, left: Slot, right: Slot)
    requires left.id < |configs| && right.id < |configs|
    ensures SlotFollows(configs, left.id, right.id) <==> Rank(configs, left) > Rank(configs, right)
  {
  }

  function Parent(c: int): int
    requires c > 0
  {
    (c - 1) / 2
  }

  /** Every child below count whose parent is at least lo, except children of hole, ranks at most its parent. */
  ghost predicate HeapExcept(configs: seq<TaskConfig>, slots: seq<Slot>, lo: int, count: int, hole: int)
    requires count <= |slots|
  {
    forall c :: 0 < c < count && lo <= Parent(c) && Parent(c) != hole ==>
      Rank(configs, slots[c]) <= Rank(configs, slots[Parent(c)])
  }

  ghost predicate Heap(configs: seq<TaskConfig>, slots: seq<Slot>, lo: int, count: int)
    requires count <= |slots|
  {
    HeapExcept(configs, slots, lo, count, -1)
  }

  /** Children of the hole rank at most the parent of the hole. */
  ghost predicate Bridged(configs: seq<TaskConfig>, slots: seq<Slot>, lo: int, count: int, hole: int)
    requires 0 <= hole && count <= |slots|
  {
    hole > 0 && lo <= Parent(hole) ==>
      forall c :: 0 < c < count && Parent(c) == hole ==> Rank(configs, slots[c]) <= Rank(configs, slots[Parent(hole)])
  }

  ghost predicate RanksAtMost(configs: seq<TaskConfig>, slots: seq<Slot>, count: int, bound: int)
    requires count <= |slots|
  {
    forall i :: 0 <= i < count ==> Rank(configs, slots[i]) <= bound
  }

  lemma {:induction false} HeapRootIsMaximal(configs: seq<TaskConfig>, slots: seq<Slot>, count: int, i: int)
    requires 0 <= i < count <= |slots| && Heap(configs, slots, 0, count)
    ensures Rank(configs, slots[i]) <= Rank(configs, slots[0])
    decreases i
  {
    if i > 0 {
      HeapRootIsMaximal(configs, slots, count, Parent(i));
    }
  }

  /** A sift in progress: only the slot at root may rank below its children. */
  ghost predicate Sifting(configs: seq<TaskConfig>, original: seq<Slot>, slots: seq<Slot>,
                          start: nat, count: nat, root: nat, bound: int)
  {
    && start <= root && count <= |slots| == |original|
    && IdsInRange(configs, slots)
    && HeapExcept(configs, slots, start, count, root) && Bridged(configs, slots, start, count, root)
    && RanksAtMost(configs, slots, count, bound)
    && multiset(slots) == multiset(original)
    && (forall i :: count <= i < |slots| ==> slots[i] == original[i])
  }

  function Swapped(slots: seq<Slot>, i: nat, j: nat): (s: seq<Slot>)
    requires i < |slots| && j < |slots|
  {
    slots[i := slots[j]][j := slots[i]]
  }

  method SwapSlots(slots: array<Slot>, left: nat, right: nat)
    requires left < slots.Length && right < slots.Length
    modifies slots
    ensures slots[..] == Swapped(old(slots[..]), left, right)
  {
    slots[left], slots[right] := slots[right], slots[left];
  }

  lemma {:induction false} SwappedMultiset(slots: seq<Slot>, i: nat, j: nat)
    requires i < |slots| && j < |slots|
    ensures multiset(Swapped(slots, i, j)) == multiset(slots)
  {
  }

  ghost predicate LargestChild(configs: seq<TaskConfig>, slots: seq<Slot>, count: nat, root: nat, child: nat)
    requires count <= |slots|
  {
    && 0 < child < count && Parent(child) == root
    && forall c :: 0 < c < count && Parent(c) == root ==> Rank(configs, slots[c]) <= Rank(configs, slots[child])
  }

  /** Exchanging the root with its larger child moves the hole down. */
  lemma {:induction false} SwapDown(configs: seq<TaskConfig>, original: seq<Slot>, slots: seq<Slot>, start: nat,
                                    count: nat,
                 root: nat, child: nat, bound: int)
    requires Sifting(configs, original, slots, start, count, root, bound)
    requires LargestChild(configs, slots, count, root, child)
    requires Rank(configs, slots[child]) > Rank(configs, slots[root])
    ensures Sifting(configs, original, Swapped(slots, root, child), start, count, child, bound)
  {
    var swapped := Swapped(slots, root, child);
    SwappedMultiset(slots, root, child);
    forall c | 0 < c < count && start <= Parent(c) && Parent(c) != child
      ensures Rank(configs, swapped[c]) <= Rank(configs, swapped[Parent(c)])
    {
      if Parent(c) == root || c == root {
      } else {
        assert swapped[c] == slots[c] && swapped[Parent(c)] == slots[Parent(c)];
      }
    }
    forall c | 0 < c < count && Parent(c) == child
      ensures Rank(configs, swapped[c]) <= Rank(configs, swapped[root])
    {
      assert swapped[c] == slots[c];
    }
  }

  /** The choice of scheduler_sift_down among the one or two children of root. */
  method LargerChild(configs: seq<TaskConfig>, slots: array<Slot>, count: nat, root: nat) returns (child: nat)
    requires IdsInRange(configs, slots[..]) && root < count / 2 && count <= slots.Length
    ensures LargestChild(configs, slots[..], count, root, child)
  {
    child := root * 2 + 1;
    if child + 1 < count && SlotFollows(configs, slots[child + 1].id, slots[child].id) {
      child := child + 1;
    }
  }

  /** scheduler_sift_down. The ranks below count keep any common bound. */
  method SiftDown(configs: seq<TaskConfig>, slots: array<Slot>, start: nat, count: nat, ghost bound: int)
    requires start <= count <= slots.Length && IdsInRange(configs, slots[..])
    requires HeapExcept(configs, slots[..], start, count, start)
    requires RanksAtMost(configs, slots[..], count, bound)
    modifies slots
    ensures Heap(configs, slots[..], start, count)
    ensures RanksAtMost(configs, slots[..], count, bound)
    ensures IdsInRange(configs, slots[..])
    ensures multiset(slots[..]) == old(multiset(slots[..]))
    ensures forall i :: count <= i < slots.Length ==> slots[i] == old(slots[i])
  {
    ghost var original := slots[..];
    var root := start;
    while root < count / 2
      invariant Sifting(configs, original, slots[..], start, count, root, bound)
      decreases count - root
    {
      var child := LargerChild(configs, slots, count, root);
      FollowsByRank(configs, slots[child], slots[root]);
      if !SlotFollows(configs, slots[child].id, slots[root].id) {
        break;
      }
      SwapDown(configs, original, slots[..], start, count, root, child, bound);
      SwapSlots(slots, root, child);
      root := child;
    }
    assert Heap(configs, slots[..], start, count);
    assert forall i :: 0 <= i < slots.Length ==> slots[..][i] == slots[i];
  }

  /** From end on every slot ranks at least as high as all slots before it. */
  ghost predicate OrderedFrom(configs: seq<TaskConfig>, slots: seq<Slot>, end: int) {
    forall i, j :: 0 <= i < j < |slots| && end <= j ==> Rank(configs, slots[i]) <= Rank(configs, slots[j])
  }

  /** What the second phase keeps: a heap below end, and above it the final, larger slots in order. */
  ghost predicate Extracting(configs: seq<TaskConfig>, original: seq<Slot>, slots: seq<Slot>, end: int) {
    && 0 <= end <= |slots|
    && IdsInRange(configs, slots)
    && multiset(slots) == multiset(original)
    && Heap(configs, slots, 0, end)
    && OrderedFrom(configs, slots, end)
  }

  /** The root of the heap, moved behind it, bounds what is left below ... */
  lemma {:induction false} RootExtracted(configs: seq<TaskConfig>, original: seq<Slot>, slots: seq<Slot>, end: int)
    requires 1 < end && Extracting(configs, original, slots, end)
    ensures var moved := Swapped(slots, 0, end - 1);
            && RanksAtMost(configs, moved, end - 1, Rank(configs, moved[end - 1]))
            && OrderedFrom(configs, moved, end - 1)
  {
    var moved := Swapped(slots, 0, end - 1);
    forall i | 0 <= i < end ensures Rank(configs, slots[i]) <= Rank(configs, slots[0]) {
      HeapRootIsMaximal(configs, slots, end, i);
    }
    forall i, j | 0 <= i < j < |moved| && end - 1 <= j ensures Rank(configs, moved[i]) <= Rank(configs, moved[j]) {
      var k := if i == 0 then end - 1 else if i == end - 1 then 0 else i;
      assert moved[i] == slots[k];
      assert j > end - 1 ==> moved[j] == slots[j] && k < j;
    }
  }

  /** ... and leaves a heap with a hole at the root. */
  lemma {:induction false} RootReplaced(configs: seq<TaskConfig>, original: seq<Slot>, slots: seq<Slot>, end: int)
    requires 1 < end && Extracting(configs, original, slots, end)
    ensures var moved := Swapped(slots, 0, end - 1);
            && IdsInRange(configs, moved)
            && multiset(moved) == multiset(original)
            && HeapExcept(configs, moved, 0, end - 1, 0)
  {
    SwappedMultiset(slots, 0, end - 1);
    var moved := Swapped(slots, 0, end - 1);
    forall c | 0 < c < end - 1 && Parent(c) != 0
      ensures Rank(configs, moved[c]) <= Rank(configs, moved[Parent(c)])
    {
      assert moved[c] == slots[c] && moved[Parent(c)] == slots[Parent(c)];
    }
  }

  /** One round of the second phase. */
  method ExtractLargest(configs: seq<TaskConfig>, slots: array<Slot>, end: nat, ghost original: seq<Slot>)
    requires 1 < end && Extracting(configs, original, slots[..], end)
    modifies slots
    ensures Extracting(configs, original, slots[..], end - 1)
  {
    RootExtracted(configs, original, slots[..], end);
    RootReplaced(configs, original, slots[..], end);
    SwapSlots(slots, 0, end - 1);
    ghost var moved := slots[..];
    SiftDown(configs, slots, 0, end - 1, Rank(configs, slots[end - 1]));
    StillOrdered(configs, moved, slots[..], end - 1);
  }

  /** scheduler_sort_slots: afterwards the slots are a permutation of what they were, in order of rank. */
  method SortSlots(configs: seq<TaskConfig>, slots: array<Slot>)
    requires IdsInRange(configs, slots[..])
    modifies slots
    ensures multiset(slots[..]) == old(multiset(slots[..]))
    ensures OrderedFrom(configs, slots[..], 0)
  {
    ghost var original := slots[..];
    ghost var top := MaximalRank(configs, slots[..]);
    var start := slots.Length / 2;
    while start > 0
      invariant 0 <= start <= slots.Length / 2
      invariant IdsInRange(configs, slots[..]) && multiset(slots[..]) == multiset(original)
      invariant Heap(configs, slots[..], start, slots.Length)
      invariant RanksAtMost(configs, slots[..], slots.Length, top)
    {
      SiftDown(configs, slots, start - 1, slots.Length, top);
      start := start - 1;
    }
    var end := slots.Length;
    while end > 1
      invariant 0 <= end <= slots.Length && Extracting(configs, original, slots[..], end)
    {
      ExtractLargest(configs, slots, end, original);
      end := end - 1;
    }
  }

  /** Re-sifting the heap below end does not disturb the order above it. */
  lemma {:induction false} StillOrdered(configs: seq<TaskConfig>, moved: seq<Slot>, slots: seq<Slot>, end: nat)
    requires end < |moved| == |slots|
    requires forall j :: end <= j < |moved| ==> slots[j] == moved[j]
    requires RanksAtMost(configs, slots, end, Rank(configs, moved[end]))
    requires OrderedFrom(configs, moved, end)
    ensures OrderedFrom(configs, slots, end)
  {
    forall i, j | 0 <= i < j < |slots| && end <= j ensures Rank(configs, slots[i]) <= Rank(configs, slots[j]) {
      if i < end && end < j {
        assert Rank(configs, moved[end]) <= Rank(configs, moved[j]);
      }
    }
  }

  ghost function MaximalRank(configs: seq<TaskConfig>, slots: seq<Slot>): (r: int)
    ensures RanksAtMost(configs, slots, |slots|, r)
  {
    if slots == [] then 0
    else
      var last, rest := Rank(configs, slots[|slots| - 1]), MaximalRank(configs, slots[..|slots| - 1]);
      assert forall i :: 0 <= i < |slots| - 1 ==> slots[i] == slots[..|slots| - 1][i];
      if last > rest then last else rest
  }
}
