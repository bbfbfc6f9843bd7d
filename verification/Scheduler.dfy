/** The cooperative scheduler: what one update and one run do to the slot table. */
module SchedulerSpec {
  import opened Integers
  import opened MizuStatuses
  import opened SchedulerTables

  datatype SchedulerState = SchedulerState(slots: seq<Slot>, lastTick: uint32, timeInitialized: bool)

  datatype TaskStats = TaskStats(
    runCount: uint32,
    errorCount: uint32,
    missedCount: uint32,
    lastTrigger: Trigger,
    lastStatus: MizuStatus)

  /** What scheduler_get_stats copies out of a slot. */
  function StatsOf(slot: Slot): TaskStats {
    TaskStats(slot.runCount, slot.errorCount, slot.missedCount, slot.lastTrigger, slot.lastStatus)
  }

  ghost predicate ValidConfigs(configs: seq<TaskConfig>) {
    && |configs| <= UINT16_MAX
    && forall i :: 0 <= i < |configs| ==> configs[i].hasCallback && 0 < configs[i].periodTicks <= INT32_MAX
  }

  /** One slot for every task, in dispatch order, each with less than a period in hand. */
  ghost predicate ValidState(configs: seq<TaskConfig>, st: SchedulerState) {
    && ValidConfigs(configs)
    && |st.slots| == |configs|
    && IdsInRange(configs, st.slots)
    && Ordered(configs, st.slots)
    && (forall id: nat :: id < |configs| ==> HasSlot(st.slots, id))
    && (forall i :: 0 <= i < |st.slots| ==> st.slots[i].elapsedTicks < configs[st.slots[i].id].periodTicks)
  }

  ghost predicate HasSlot(slots: seq<Slot>, id: nat) {
    exists i :: 0 <= i < |slots| && slots[i].id == id
  }

  function IncrementCounter(counter: uint32, amount: uint32): uint32 {
    if UINT32_MAX - counter < amount then UINT32_MAX else counter + amount
  }

  /** scheduler_update on one slot; total never overflows 32 bits. */
  function UpdatedSlot(slot: Slot, period: uint32, delta: uint32): Slot
    requires slot.elapsedTicks < period <= INT32_MAX && delta <= INT32_MAX
  {
    var total: uint32 := slot.elapsedTicks + delta;
    var periods: uint32 := total / period;
    var kept := slot.(elapsedTicks := total % period);
    if periods == 0 then kept
    else if slot.ready then kept.(missedCount := IncrementCounter(slot.missedCount, periods))
    else kept.(ready := true, missedCount := IncrementCounter(slot.missedCount, periods - 1))
  }

  /** What the callback of each task returns in a round. */
  function OutcomeOf(outcomes: seq<MizuStatus>, id: nat): (status: MizuStatus)
    ensures id < |outcomes| ==> status == outcomes[id]
  {
    if id < |outcomes| then outcomes[id] else OK
  }

  /** scheduler_run on one slot, given what its callback would return. */
  function RanSlot(slot: Slot, outcome: MizuStatus): Slot {
    if !slot.ready then slot
    else slot.(ready := false,
               runCount := IncrementCounter(slot.runCount, 1),
               lastTrigger := PERIODIC,
               lastStatus := outcome,
               errorCount := if outcome == OK then slot.errorCount else IncrementCounter(slot.errorCount, 1))
  }

  ghost predicate SlotsUpdated(configs: seq<TaskConfig>, before: seq<Slot>, after: seq<Slot>, delta: uint32)
    requires IdsInRange(configs, before) && delta <= INT32_MAX
    requires forall i :: 0 <= i < |configs| ==> configs[i].periodTicks <= INT32_MAX
    requires forall i :: 0 <= i < |before| ==> before[i].elapsedTicks < configs[before[i].id].periodTicks
  {
    && |after| == |before|
    && forall i :: 0 <= i < |before| ==> after[i] == UpdatedSlot(before[i], configs[before[i].id].periodTicks, delta)
  }

  ghost predicate SlotsRan(before: seq<Slot>, after: seq<Slot>, outcomes: seq<MizuStatus>) {
    && |after| == |before|
    && forall i :: 0 <= i < |before| ==> after[i] == RanSlot(before[i], OutcomeOf(outcomes, before[i].id))
  }

  /** The time between two samples of a wrapping 32-bit tick. */
  function TickDelta(last: uint32, now: uint32): uint32 {
    (now - last) % 0x1_0000_0000
  }

  /** The status of scheduler_update: only an interval of half the tick range or more is refused. */
  function UpdateStatus(before: SchedulerState, now: uint32): MizuStatus {
    if before.timeInitialized && TickDelta(before.lastTick, now) > INT32_MAX then OUT_OF_RANGE else OK
  }

  ghost predicate Updated(configs: seq<TaskConfig>, before: SchedulerState, now: uint32, after: SchedulerState)
    requires ValidState(configs, before)
  {
    && after.lastTick == now && after.timeInitialized
    && if before.timeInitialized && UpdateStatus(before, now) == OK then
         SlotsUpdated(configs, before.slots, after.slots, TickDelta(before.lastTick, now))
       else
         after.slots == before.slots
  }

  /** The ids of the ready slots, in slot order. */
  function ReadyIds(slots: seq<Slot>): seq<nat> {
    if slots == [] then []
    else
      var n := |slots| - 1;
      ReadyIds(slots[..n]) + if slots[n].ready then [slots[n].id] else []
  }

  /** The first status other than OK that the invoked callbacks return. */
  function FirstError(ids: seq<nat>, outcomes: seq<MizuStatus>): MizuStatus {
    if ids == [] then OK
    else
      var n := |ids| - 1;
      var earlier := FirstError(ids[..n], outcomes);
      if earlier != OK then earlier else OutcomeOf(outcomes, ids[n])
  }

  lemma {:induction false} ReadyIdsStep(slots: seq<Slot>, i: nat)
    requires i < |slots|
    ensures ReadyIds(slots[..i + 1]) ==
            if slots[i].ready then ReadyIds(slots[..i]) + [slots[i].id as nat] else ReadyIds(slots[..i])
  {
    assert slots[..i + 1][..i] == slots[..i];
    assert ReadyIds(slots[..i]) + [] == ReadyIds(slots[..i]);
  }

  lemma {:induction false} FirstErrorStep(ids: seq<nat>, id: nat, outcomes: seq<MizuStatus>)
    ensures FirstError(ids + [id], outcomes)
         == if FirstError(ids, outcomes) != OK then FirstError(ids, outcomes) else OutcomeOf(outcomes, id)
  {
    assert (ids + [id])[..|ids|] == ids;
  }

  ghost predicate Ran(before: SchedulerState, outcomes: seq<MizuStatus>, after: SchedulerState) {
    && after.lastTick == before.lastTick && after.timeInitialized == before.timeInitialized
    && SlotsRan(before.slots, after.slots, outcomes)
  }

  // ---------------------------------------------------------------- laws of one step

  /** Between slot tables with the same ids, order and completeness carry over. */
  lemma {:induction false} SameIds(configs: seq<TaskConfig>, before: SchedulerState, after: SchedulerState)
    requires ValidState(configs, before) && |after.slots| == |before.slots|
    requires forall i :: 0 <= i < |before.slots| ==> after.slots[i].id == before.slots[i].id
    requires forall i :: 0 <= i < |before.slots| ==>
      after.slots[i].elapsedTicks < configs[before.slots[i].id].periodTicks
    ensures ValidState(configs, after)
  {
    forall id: nat | id < |configs| ensures HasSlot(after.slots, id) {
      assert HasSlot(before.slots, id);
      var i :| 0 <= i < |before.slots| && before.slots[i].id == id;
      assert after.slots[i].id == id;
    }
    forall i, j | 0 <= i < j < |after.slots| ensures Rank(configs, after.slots[i]) < Rank(configs, after.slots[j]) {
      assert Rank(configs, before.slots[i]) < Rank(configs, before.slots[j]);
    }
  }

  lemma {:induction false} UpdateKeepsValid(configs: seq<TaskConfig>, before: SchedulerState, now: uint32,
                                               after: SchedulerState)
    requires ValidState(configs, before) && Updated(configs, before, now, after)
    ensures ValidState(configs, after)
  {
    SameIds(configs, before, after);
  }

  lemma {:induction false} RunKeepsValid(configs: seq<TaskConfig>, before: SchedulerState, outcomes: seq<MizuStatus>,
                                         after: SchedulerState)
    requires ValidState(configs, before) && Ran(before, outcomes, after)
    ensures ValidState(configs, after)
  {
    SameIds(configs, before, after);
  }

  /** The dispatch order on task ids. */
  ghost predicate Precedes(configs: seq<TaskConfig>, left: nat, right: nat) {
    && left < |configs| && right < |configs|
    && (|| configs[left].priority < configs[right].priority
        || (configs[left].priority == configs[right].priority && left < right))
  }

  ghost predicate ReadyHere(slots: seq<Slot>, id: nat) {
    exists i :: 0 <= i < |slots| && slots[i].ready && slots[i].id == id
  }

  lemma {:induction false} ReadyHereSnoc(slots: seq<Slot>, id: nat)
    requires slots != []
    ensures var n := |slots| - 1;
            ReadyHere(slots, id) <==> ReadyHere(slots[..n], id) || (slots[n].ready && slots[n].id == id)
  {
    var n := |slots| - 1;
    var shorter := slots[..n];
    if ReadyHere(shorter, id) {
      var i :| 0 <= i < n && shorter[i].ready && shorter[i].id == id;
      assert slots[i].ready && slots[i].id == id;
    }
    if ReadyHere(slots, id) {
      var i :| 0 <= i <= n && slots[i].ready && slots[i].id == id;
      assert i < n ==> shorter[i].ready && shorter[i].id == id;
    }
  }

  /** ReadyIds lists exactly the ready tasks. */
  lemma {:induction false} ReadyIdsAreReady(slots: seq<Slot>, id: nat)
    ensures id in ReadyIds(slots) <==> ReadyHere(slots, id)
  {
    if slots != [] {
      ReadyIdsAreReady(slots[..|slots| - 1], id);
      ReadyHereSnoc(slots, id);
    }
  }

  /** What ReadyIds means: exactly the ready tasks, in (priority, id) order, hence once each. */
  lemma {:induction false} ReadyIdsInOrder(configs: seq<TaskConfig>, slots: seq<Slot>)
    requires IdsInRange(configs, slots) && Ordered(configs, slots)
    ensures forall id :: id in ReadyIds(slots) <==> ReadyHere(slots, id)
    ensures forall k, m :: 0 <= k < m < |ReadyIds(slots)| ==>
      Precedes(configs, ReadyIds(slots)[k], ReadyIds(slots)[m])
  {
    forall id ensures id in ReadyIds(slots) <==> ReadyHere(slots, id) {
      ReadyIdsAreReady(slots, id);
    }
    if slots != [] {
      var n := |slots| - 1;
      var shorter := slots[..n];
      ReadyIdsInOrder(configs, shorter);
      var earlier := ReadyIds(shorter);
      forall k | 0 <= k < |earlier| ensures Precedes(configs, earlier[k], slots[n].id) {
        assert earlier[k] in earlier && ReadyHere(shorter, earlier[k]);
        var i :| 0 <= i < n && shorter[i].ready && shorter[i].id == earlier[k];
        assert Rank(configs, slots[i]) < Rank(configs, slots[n]);
      }
    }
  }

  /** The k-th invoked callback is the first that fails. */
  ghost predicate FailsFirst(ids: seq<nat>, outcomes: seq<MizuStatus>, k: nat) {
    && k < |ids| && OutcomeOf(outcomes, ids[k]) != OK
    && forall m :: 0 <= m < k ==> OutcomeOf(outcomes, ids[m]) == OK
  }

  /** FirstError is OK only when all are OK, and otherwise the status of the callback that fails first. */
  lemma {:induction false} FirstErrorIsFirst(ids: seq<nat>, outcomes: seq<MizuStatus>)
    ensures FirstError(ids, outcomes) == OK <==> forall k :: 0 <= k < |ids| ==> OutcomeOf(outcomes, ids[k]) == OK
    ensures FirstError(ids, outcomes) != OK ==>
      exists k: nat :: FailsFirst(ids, outcomes, k) && OutcomeOf(outcomes, ids[k]) == FirstError(ids, outcomes)
  {
    if ids != [] {
      var n := |ids| - 1;
      var shorter := ids[..n];
      FirstErrorIsFirst(shorter, outcomes);
      assert forall k :: 0 <= k < n ==> shorter[k] == ids[k];
      if FirstError(shorter, outcomes) != OK {
        var k: nat :| FailsFirst(shorter, outcomes, k) &&
          OutcomeOf(outcomes, shorter[k]) == FirstError(shorter, outcomes);
        assert FailsFirst(ids, outcomes, k);
      } else {
        forall m | 0 <= m < n ensures OutcomeOf(outcomes, ids[m]) == OK {
          assert OutcomeOf(outcomes, shorter[m]) == OK;
        }
        assert OutcomeOf(outcomes, ids[n]) != OK ==> FailsFirst(ids, outcomes, n);
      }
    }
  }

  // ---------------------------------------------------------------- the table after init

  function FreshTable(n: nat): (s: seq<Slot>)
    requires n <= UINT16_MAX
    ensures |s| == n && forall i :: 0 <= i < n ==> s[i] == FreshSlot(i)
  {
    if n == 0 then [] else FreshTable(n - 1) + [FreshSlot(n - 1)]
  }

  lemma {:induction false} CountSnoc<T>(s: seq<T>, last: T, x: T)
    ensures multiset(s + [last])[x] == multiset(s)[x] + if x == last then 1 else 0
  {
    assert multiset(s + [last]) == multiset(s) + multiset{last};
  }

  lemma {:induction false} DistinctOnce<T>(s: seq<T>, x: T)
    requires forall i, j :: 0 <= i < j < |s| ==> s[i] != s[j]
    ensures multiset(s)[x] <= 1
  {
    if s != [] {
      var n := |s| - 1;
      DistinctOnce(s[..n], x);
      CountSnoc(s[..n], s[n], x);
      assert s == s[..n] + [s[n]];
      assert s[n] !in s[..n];
    }
  }

  lemma {:induction false} FreshOnce(n: nat, slot: Slot)
    requires n <= UINT16_MAX
    ensures multiset(FreshTable(n))[slot] <= 1
  {
    var table := FreshTable(n);
    forall i, j | 0 <= i < j < |table| ensures table[i] != table[j] {
      assert table[i].id == i && table[j].id == j;
    }
    DistinctOnce(table, slot);
  }

  lemma {:induction false} OccursTwice<T>(s: seq<T>, i: nat, j: nat)
    requires i < j < |s|
    ensures s[i] == s[j] ==> multiset(s)[s[i]] >= 2
  {
    assert s == s[..j] + s[j..];
    assert s[..j][i] == s[i] && s[j..][0] == s[j];
  }

  /** A permutation of the fresh table holds every task once. */
  lemma {:induction false} PermutedFreshTable(n: nat, slots: seq<Slot>)
    requires n <= UINT16_MAX && multiset(slots) == multiset(FreshTable(n))
    ensures |slots| == n
    ensures forall i :: 0 <= i < |slots| ==> slots[i].id < n && slots[i] == FreshSlot(slots[i].id)
    ensures forall id: nat :: id < n ==> HasSlot(slots, id)
    ensures forall i, j :: 0 <= i < j < |slots| ==> slots[i].id != slots[j].id
  {
    var table := FreshTable(n);
    assert |slots| == |multiset(slots)| == |multiset(table)| == n;
    forall i | 0 <= i < n ensures slots[i].id < n && slots[i] == FreshSlot(slots[i].id) {
      assert slots[i] in multiset(slots);
      assert slots[i] in table;
    }
    forall id: nat | id < n ensures HasSlot(slots, id) {
      assert table[id] in multiset(table);
      assert table[id] in slots;
    }
    forall i, j | 0 <= i < j < |slots| ensures slots[i].id != slots[j].id {
      OccursTwice(slots, i, j);
      FreshOnce(n, slots[i]);
      assert slots[i] != slots[j];
    }
  }

  /** A sorted permutation of the fresh table is a valid start for every configuration. */
  lemma {:induction false} SortedFreshTable(configs: seq<TaskConfig>, slots: seq<Slot>)
    requires ValidConfigs(configs)
    requires multiset(slots) == multiset(FreshTable(|configs|))
    requires forall i, j :: 0 <= i < j < |slots| ==> Rank(configs, slots[i]) <= Rank(configs, slots[j])
    ensures ValidState(configs, SchedulerState(slots, 0, false))
    ensures forall i :: 0 <= i < |slots| ==> slots[i] == FreshSlot(slots[i].id)
  {
    PermutedFreshTable(|configs|, slots);
    forall i, j | 0 <= i < j < |slots| ensures Rank(configs, slots[i]) < Rank(configs, slots[j]) {
      RankIsInjective(configs, slots[i], slots[j]);
    }
  }

  lemma {:induction false} RankIsInjective(configs: seq<TaskConfig>, left: Slot, right: Slot)
    requires left.id < |configs| && right.id < |configs|
    ensures Rank(configs, left) == Rank(configs, right) ==> left.id == right.id
  {
    var p, q := configs[left.id].priority, configs[right.id].priority;
    assert Rank(configs, left) == Rank(configs, right) ==> (p - q) * 0x1_0000 == right.id - left.id;
  }
}

/** scheduler.c: the scheduler object and its operations. */
module Scheduler {
  import opened MizuStatuses
  import opened Integers
  import opened Options
  import opened SchedulerTables
  import opened SchedulerSpec
  import SchedulerSort

  class Scheduler {
    var slots: array<Slot>
    var configs: seq<TaskConfig>
    var lastTick: uint32
    var timeInitialized: bool
    var initialized: bool

    ghost function View(): SchedulerState
      reads this, slots
    {
      SchedulerState(slots[..], lastTick, timeInitialized)
    }

    ghost predicate Valid()
      reads this, slots
    {
      initialized ==> ValidState(configs, View())
    }

    /** The zero-initialised object that the caller owns. */
    constructor ()
      ensures Valid() && !initialized
    {
      slots := new Slot[0];
      configs := [];
      lastTick, timeInitialized, initialized := 0, false, false;
    }

    /**
     scheduler_init. The caller passes the true lengths of both tables. Callback presence stands for
     the NULL check of the configuration.
     */
    method Init(table: array<Slot>, tasks: seq<TaskConfig>) returns (status: MizuStatus)
      requires Valid()
      modifies this, table
      ensures Valid()
      ensures status == if old(initialized) then INVALID_STATE
                        else if table.Length != |tasks| then INVALID_ARGUMENT
                        else ConfigStatus(tasks)
      ensures status == OK ==>
        && initialized && slots == table && configs == tasks
        && lastTick == 0 && !timeInitialized && ValidConfigs(tasks)
        && multiset(slots[..]) == multiset(FreshTable(|tasks|))
      ensures status != OK ==>
        && initialized == old(initialized) && slots == old(slots) && configs == old(configs)
        && table[..] == old(table[..]) && lastTick == old(lastTick) && timeInitialized == old(timeInitialized)
    {
      if initialized {
        return INVALID_STATE;
      }
      if table.Length != |tasks| {
        return INVALID_ARGUMENT;
      }
      status := ValidateConfig(tasks);
      if status != OK {
        return;
      }
      Assemble(table, tasks);
    }

    /** The end of scheduler_init, behind its checks. */
    method Assemble(table: array<Slot>, tasks: seq<TaskConfig>)
      requires ValidConfigs(tasks) && table.Length == |tasks|
      modifies this, table
      ensures Valid() && initialized && slots == table && configs == tasks && lastTick == 0 && !timeInitialized
      ensures multiset(slots[..]) == multiset(FreshTable(|tasks|))
    {
      SortedTable(table, tasks);
      slots, configs := table, tasks;
      lastTick, timeInitialized, initialized := 0, false, true;
    }

    /** The body of the loop of scheduler_update. */
    method UpdateSlot(index: nat, delta: uint32)
      requires index < slots.Length && slots[index].id < |configs| && delta <= INT32_MAX
      requires slots[index].elapsedTicks < configs[slots[index].id].periodTicks <= INT32_MAX
      modifies slots
      ensures slots[index] == UpdatedSlot(old(slots[index]), configs[old(slots[index]).id].periodTicks, delta)
      ensures forall i :: 0 <= i < slots.Length && i != index ==> slots[i] == old(slots[i])
    {
      var slot := slots[index];
      var period := configs[slot.id].periodTicks;
      var total: uint32 := slot.elapsedTicks + delta;
      var periods: uint32 := total / period;
      slots[index] := slots[index].(elapsedTicks := total % period);
      if periods == 0 {
        return;
      }
      if slot.ready {
        slots[index] := slots[index].(missedCount := IncrementCounter(slot.missedCount, periods));
      } else {
        slots[index] := slots[index].(ready := true);
        slots[index] := slots[index].(missedCount := IncrementCounter(slot.missedCount, periods - 1));
      }
    }

    /** scheduler_update. */
    method Update(now: uint32) returns (status: MizuStatus)
      requires Valid()
      modifies this, slots
      ensures Valid() && initialized == old(initialized) && slots == old(slots) && configs == old(configs)
      ensures if old(initialized)
              then Updated(configs, old(View()), now, View()) && status == UpdateStatus(old(View()), now)
              else status == NOT_INITIALIZED && View() == old(View())
      ensures old(initialized) ==>
        && lastTick == now && timeInitialized
        && status == (if old(timeInitialized) && (now - old(lastTick)) % 0x1_0000_0000 > INT32_MAX
                      then OUT_OF_RANGE else OK)
      ensures status != OK || !old(timeInitialized) ==> slots[..] == old(slots[..])
    {
      if !initialized {
        return NOT_INITIALIZED;
      }
      if !timeInitialized {
        lastTick := now;
        timeInitialized := true;
        UpdateKeepsValid(configs, old(View()), now, View());
        return OK;
      }
      var delta := TickDelta(lastTick, now);
      lastTick := now;
      if delta > INT32_MAX {
        UpdateKeepsValid(configs, old(View()), now, View());
        return OUT_OF_RANGE;
      }
      ghost var before := slots[..];
      for index := 0 to slots.Length
        invariant slots == old(slots) && configs == old(configs) && initialized
        invariant lastTick == now && timeInitialized
        invariant forall i :: index <= i < slots.Length ==> slots[i] == before[i]
        invariant forall i :: 0 <= i < index ==>
          slots[i] == UpdatedSlot(before[i], configs[before[i].id].periodTicks, delta)
      {
        assert slots[index] == before[index];
        UpdateSlot(index, delta);
      }
      UpdateKeepsValid(configs, old(View()), now, View());
      return OK;
    }

    /** The body of the loop of scheduler_run for a ready slot: the flag is cleared before the call. */
    method RunSlot(index: nat, outcomes: seq<MizuStatus>) returns (result: MizuStatus)
      requires index < slots.Length && slots[index].ready
      modifies slots
      ensures result == OutcomeOf(outcomes, old(slots[index]).id)
      ensures slots[index] == RanSlot(old(slots[index]), result)
      ensures forall i :: 0 <= i < slots.Length && i != index ==> slots[i] == old(slots[i])
    {
      var slot := slots[index];
      slots[index] := slots[index].(ready := false);
      slots[index] := slots[index].(runCount := IncrementCounter(slot.runCount, 1));
      slots[index] := slots[index].(lastTrigger := PERIODIC);
      result := OutcomeOf(outcomes, slot.id);
      slots[index] := slots[index].(lastStatus := result);
      if result != OK {
        slots[index] := slots[index].(errorCount := IncrementCounter(slot.errorCount, 1));
      }
    }

    /**
     scheduler_run. OutcomeOf(outcomes, id) is what the callback of task id returns in this round; callbacks
     neither re-enter the scheduler nor write the slot table. invoked is the trace of calls.
     */
    method Run(outcomes: seq<MizuStatus>) returns (status: MizuStatus, invoked: seq<nat>)
      requires Valid()
      modifies slots
      ensures Valid()
      ensures old(initialized) ==>
        && Ran(old(View()), outcomes, View())
        && invoked == ReadyIds(old(slots[..]))
        && status == FirstError(invoked, outcomes)
      ensures !old(initialized) ==> status == NOT_INITIALIZED && invoked == [] && View() == old(View())
    {
      invoked := [];
      if !initialized {
        return NOT_INITIALIZED, [];
      }
      var firstError := OK;
      ghost var before := slots[..];
      for index := 0 to slots.Length
        invariant forall i :: index <= i < slots.Length ==> slots[i] == before[i]
        invariant forall i :: 0 <= i < index ==> slots[i] == RanSlot(before[i], OutcomeOf(outcomes, before[i].id))
        invariant invoked == ReadyIds(before[..index]) && firstError == FirstError(invoked, outcomes)
      {
        ReadyIdsStep(before, index);
        if !slots[index].ready {
          continue;
        }
        var id := slots[index].id;
        var result := RunSlot(index, outcomes);
        FirstErrorStep(invoked, id, outcomes);
        invoked := invoked + [id];
        if result != OK && firstError == OK {
          firstError := result;
        }
      }
      assert before[..slots.Length] == before && SlotsRan(before, slots[..], outcomes);
      RunKeepsValid(configs, old(View()), outcomes, View());
      return firstError, invoked;
    }

    /** scheduler_get_stats: after init the search never fails, whatever the sort did to the table. */
    method GetStats(id: uint16) returns (status: MizuStatus, stats: Option<TaskStats>)
      requires Valid()
      ensures status == if !initialized then NOT_INITIALIZED else if id >= |configs| then OUT_OF_RANGE else OK
      ensures status != OK ==> stats.None?
      ensures status == OK ==>
        forall i :: 0 <= i < slots.Length && slots[i].id == id ==> stats == Some(StatsOf(slots[i]))
      ensures status == OK ==>
        forall i :: 0 <= i < slots.Length && slots[i].id == id ==>
          && stats.value.runCount == slots[i].runCount && stats.value.errorCount == slots[i].errorCount
          && stats.value.missedCount == slots[i].missedCount && stats.value.lastTrigger == slots[i].lastTrigger
          && stats.value.lastStatus == slots[i].lastStatus
      ensures status == OK ==> HasSlot(slots[..], id)
    {
      if !initialized {
        return NOT_INITIALIZED, None;
      }
      if id >= |configs| {
        return OUT_OF_RANGE, None;
      }
      assert HasSlot(slots[..], id);
      ghost var own :| 0 <= own < slots.Length && slots[..][own].id == id;
      forall i | 0 <= i < slots.Length && slots[i].id == id ensures i == own {
        assert Rank(configs, slots[..][i]) == Rank(configs, slots[..][own]);
      }
      for index := 0 to slots.Length
        invariant index <= own
      {
        if slots[index].id == id {
          var slot := slots[index];
          return OK, Some(TaskStats(slot.runCount, slot.errorCount, slot.missedCount, slot.lastTrigger,
                                    slot.lastStatus));
        }
      }
      assert false;
    }
  }

  /** The table that scheduler_init leaves. */
  method SortedTable(table: array<Slot>, tasks: seq<TaskConfig>)
    requires ValidConfigs(tasks) && table.Length == |tasks|
    modifies table
    ensures ValidState(tasks, SchedulerState(table[..], 0, false))
    ensures multiset(table[..]) == multiset(FreshTable(|tasks|))
  {
    FillTable(table);
    SchedulerSort.SortSlots(tasks, table);
    SortedFreshTable(tasks, table[..]);
  }

  /** The initialisation loop of scheduler_init. */
  method FillTable(table: array<Slot>)
    requires table.Length <= UINT16_MAX
    modifies table
    ensures table[..] == FreshTable(table.Length)
  {
    for index := 0 to table.Length
      invariant forall i :: 0 <= i < index ==> table[i] == FreshSlot(i)
    {
      table[index] := FreshSlot(index);
    }
  }

  /** The status of scheduler_validate_config: the first task with a fault decides. */
  function ConfigStatus(tasks: seq<TaskConfig>): MizuStatus {
    if |tasks| > UINT16_MAX then OUT_OF_RANGE else FirstFault(tasks)
  }

  function FirstFault(tasks: seq<TaskConfig>): MizuStatus {
    if tasks == [] then OK
    else if !tasks[0].hasCallback then INVALID_ARGUMENT
    else if tasks[0].periodTicks == 0 || tasks[0].periodTicks > INT32_MAX then OUT_OF_RANGE
    else FirstFault(tasks[1..])
  }

  /** A configuration is accepted exactly when every task has a callback and a period of at most INT32_MAX. */
  lemma {:induction false} ConfigAccepted(tasks: seq<TaskConfig>)
    ensures ConfigStatus(tasks) == OK <==> ValidConfigs(tasks)
    ensures |tasks| > UINT16_MAX ==> ConfigStatus(tasks) == OUT_OF_RANGE
  {
    FirstFaultOk(tasks);
  }

  lemma {:induction false} FirstFaultOk(tasks: seq<TaskConfig>)
    ensures FirstFault(tasks) == OK <==>
      forall i :: 0 <= i < |tasks| ==> tasks[i].hasCallback && 0 < tasks[i].periodTicks <= INT32_MAX
  {
    if tasks != [] {
      FirstFaultOk(tasks[1..]);
      assert forall i :: 1 <= i < |tasks| ==> tasks[i] == tasks[1..][i - 1];
    }
  }

  /** The first task with a fault decides: a missing callback is INVALID_ARGUMENT, a bad period OUT_OF_RANGE. */
  lemma {:induction false} FirstFaultDecides(tasks: seq<TaskConfig>, k: nat)
    requires k < |tasks| <= UINT16_MAX
    requires forall i :: 0 <= i < k ==> tasks[i].hasCallback && 0 < tasks[i].periodTicks <= INT32_MAX
    requires !tasks[k].hasCallback || tasks[k].periodTicks == 0 || tasks[k].periodTicks > INT32_MAX
    ensures ConfigStatus(tasks) == if tasks[k].hasCallback then OUT_OF_RANGE else INVALID_ARGUMENT
  {
    if k > 0 {
      assert forall i :: 0 <= i < k - 1 ==> tasks[1..][i] == tasks[i + 1];
      FirstFaultDecides(tasks[1..], k - 1);
    }
  }

  /** scheduler_validate_config. */
  method ValidateConfig(tasks: seq<TaskConfig>) returns (status: MizuStatus)
    ensures status == ConfigStatus(tasks)
    ensures status == OK <==> ValidConfigs(tasks)
  {
    ConfigAccepted(tasks);
    if |tasks| > UINT16_MAX {
      return OUT_OF_RANGE;
    }
    assert tasks[0..] == tasks;
    for index := 0 to |tasks|
      invariant FirstFault(tasks[index..]) == FirstFault(tasks)
    {
      assert tasks[index..][1..] == tasks[index + 1..];
      if !tasks[index].hasCallback {
        return INVALID_ARGUMENT;
      }
      if tasks[index].periodTicks == 0 || tasks[index].periodTicks > INT32_MAX {
        return OUT_OF_RANGE;
      }
    }
    return OK;
  }
}
