/**
 Whole histories of the scheduler: after any sequence of updates and runs every field of every slot
 is a closed form of the accepted ticks, and the accepted ticks are the elapsed time.
 */
module SchedulerHistory {
  import opened MizuStatuses
  import opened Integers
  import opened Division
  import opened SchedulerTables
  import opened SchedulerSpec

  datatype Event =
    | Update(now: uint32)
    | Run(outcomes: seq<MizuStatus>)

  // ---------------------------------------------------------------- the ideal ledger of a history

  /** The ticks passed to scheduler_update, in order. */
  function Samples(events: seq<Event>): seq<uint32> {
    if events == [] then []
    else
      var n := |events| - 1;
      Samples(events[..n]) + match events[n] case Update(now) => [now] case Run(_) => []
  }

  /** The ticks credited to the tasks: every interval below half the tick range counts, no other does. */
  function Accepted(samples: seq<uint32>): nat {
    if |samples| < 2 then 0
    else
      var n := |samples| - 1;
      var delta := TickDelta(samples[n - 1], samples[n]);
      Accepted(samples[..n]) + if delta <= INT32_MAX then delta else 0
  }

  function Ticks(events: seq<Event>): nat {
    Accepted(Samples(events))
  }

  /** The ticks that were credited when scheduler_run was last called. */
  function TicksAtRun(events: seq<Event>): nat {
    if events == [] then 0
    else if events[|events| - 1].Run? then Ticks(events[..|events| - 1])
    else TicksAtRun(events[..|events| - 1])
  }

  /** A task is due when a period boundary has passed since the last run. */
  predicate Due(events: seq<Event>, period: nat)
    requires period > 0
  {
    Ticks(events) / period > TicksAtRun(events) / period
  }

  /** How many runs found the task due. */
  function Runs(events: seq<Event>, period: nat): nat
    requires period > 0
  {
    if events == [] then 0
    else
      var earlier := events[..|events| - 1];
      Runs(earlier, period) + if events[|events| - 1].Run? && Due(earlier, period) then 1 else 0
  }

  /** How many of these runs returned an error. */
  function Errors(events: seq<Event>, period: nat, id: nat): nat
    requires period > 0
  {
    if events == [] then 0
    else
      var earlier, last := events[..|events| - 1], events[|events| - 1];
      Errors(earlier, period, id)
      + if last.Run? && Due(earlier, period) && OutcomeOf(last.outcomes, id) != OK then 1 else 0
  }

  /** The period boundaries that the last event passes. */
  function Boundaries(events: seq<Event>, period: nat): int
    requires period > 0 && events != []
  {
    Ticks(events) / period - Ticks(events[..|events| - 1]) / period
  }

  /**
   The ideal count of missed periods: when the task is already due, every period boundary that an update
   passes is missed, and otherwise every one but the first.
   */
  function Missed(events: seq<Event>, period: nat): int
    requires period > 0
  {
    if events == [] then 0
    else
      var earlier := events[..|events| - 1];
      Missed(earlier, period)
      + if Boundaries(events, period) == 0 then 0
        else Boundaries(events, period) - if Due(earlier, period) then 0 else 1
  }

  // ---------------------------------------------------------------- histories of the scheduler

  ghost predicate Step(configs: seq<TaskConfig>, before: SchedulerState, event: Event, after: SchedulerState)
    requires ValidState(configs, before)
  {
    match event
    case Update(now) => Updated(configs, before, now, after)
    case Run(outcomes) => Ran(before, outcomes, after)
  }

  /** A history that starts from the state that scheduler_init leaves. */
  ghost predicate IsHistory(configs: seq<TaskConfig>, events: seq<Event>, states: seq<SchedulerState>) {
    && |states| == |events| + 1
    && ValidState(configs, states[0])
    && !states[0].timeInitialized
    && (forall i :: 0 <= i < |states[0].slots| ==> states[0].slots[i] == FreshSlot(states[0].slots[i].id))
    && (forall k :: 0 <= k < |events| ==> Next(configs, states[k], events[k], states[k + 1]))
  }

  /** Validity is not assumed along the way: see HistoryStaysValid. */
  ghost predicate Next(configs: seq<TaskConfig>, before: SchedulerState, event: Event, after: SchedulerState) {
    ValidState(configs, before) ==> Step(configs, before, event, after)
  }

  /** In every reachable state all tasks have a slot, in dispatch order, with less than a period in hand. */
  lemma {:induction false} HistoryStaysValid(configs: seq<TaskConfig>, events: seq<Event>, states: seq<SchedulerState>,
                                             k: nat)
    requires IsHistory(configs, events, states) && k <= |events|
    ensures ValidState(configs, states[k])
    decreases k
  {
    if k > 0 {
      HistoryStaysValid(configs, events, states, k - 1);
      assert Next(configs, states[k - 1], events[k - 1], states[k]);
      match events[k - 1] {
        case Update(now) => UpdateKeepsValid(configs, states[k - 1], now, states[k]);
        case Run(outcomes) => RunKeepsValid(configs, states[k - 1], outcomes, states[k]);
      }
    }
  }

  function Saturated(ideal: nat): uint32 {
    Min(ideal, UINT32_MAX)
  }

  /** The numbers that determine a slot: ticks credited now and at the last run, ideal runs and errors. */
  datatype Ledger = Ledger(ticks: nat, ticksAtRun: nat, runs: nat, errors: nat) {
    predicate Due(period: nat)
      requires period > 0
    {
      ticks / period > ticksAtRun / period
    }

    /** The periods that were neither run nor are pending. */
    function Missed(period: nat): int
      requires period > 0
    {
      ticks / period - runs - if Due(period) then 1 else 0
    }
  }

  function LedgerOf(events: seq<Event>, period: nat, id: nat): Ledger
    requires period > 0
  {
    Ledger(Ticks(events), TicksAtRun(events), Runs(events, period), Errors(events, period, id))
  }

  /** The slot that a ledger demands. */
  ghost predicate Balanced(slot: Slot, ledger: Ledger, period: nat)
    requires period > 0
  {
    && slot.elapsedTicks == ledger.ticks % period
    && (slot.ready <==> ledger.Due(period))
    && slot.runCount == Saturated(ledger.runs)
    && slot.errorCount == Saturated(ledger.errors)
    && ledger.Missed(period) >= 0
    && slot.missedCount == Saturated(ledger.Missed(period))
  }

  ghost predicate ClockAgrees(st: SchedulerState, events: seq<Event>) {
    var samples := Samples(events);
    && (st.timeInitialized <==> samples != [])
    && (samples != [] ==> st.lastTick == samples[|samples| - 1])
  }

  lemma {:induction false} TicksAtRunBound(events: seq<Event>)
    ensures TicksAtRun(events) <= Ticks(events)
  {
    if events != [] {
      var n := |events| - 1;
      TicksAtRunBound(events[..n]);
      match events[n] {
        case Run(_) => assert Samples(events) == Samples(events[..n]);
        case Update(now) => TicksAfterUpdate(events[..n], now); assert events == events[..n] + [Update(now)];
      }
    }
  }

  lemma {:induction false} TicksAfterUpdate(events: seq<Event>, now: uint32)
    ensures Samples(events + [Update(now)]) == Samples(events) + [now]
    ensures var samples := Samples(events);
            Ticks(events + [Update(now)]) == Ticks(events) +
              if samples != [] && TickDelta(samples[|samples| - 1], now) <= INT32_MAX
              then TickDelta(samples[|samples| - 1], now) else 0
  {
    assert (events + [Update(now)])[..|events|] == events;
    var samples := Samples(events);
    assert (samples + [now])[..|samples|] == samples;
  }

  lemma {:induction false} SaturatedSum(x: nat, amount: uint32)
    ensures IncrementCounter(Saturated(x), amount) == Saturated(x + amount)
  {
  }

  /** One update keeps a slot balanced. */
  lemma {:induction false} UpdateBalances(slot: Slot, ledger: Ledger, period: uint32, delta: uint32)
    requires 0 < period <= INT32_MAX && delta <= INT32_MAX && ledger.ticksAtRun <= ledger.ticks
    requires Balanced(slot, ledger, period)
    ensures Balanced(UpdatedSlot(slot, period, delta), ledger.(ticks := ledger.ticks + delta), period)
  {
    var after := ledger.(ticks := ledger.ticks + delta);
    QuotientAtMost(ledger.ticks % period + delta, period);
    var periods: uint32 := (ledger.ticks % period + delta) / period;
    DivideSum(ledger.ticks, delta, period);
    DivideMonotone(ledger.ticksAtRun, ledger.ticks, period);
    assert after.ticks / period == ledger.ticks / period + periods;
    SaturatedSum(ledger.Missed(period), periods);
    if periods > 0 {
      SaturatedSum(ledger.Missed(period), periods - 1);
    }
  }

  /** One run keeps a slot balanced. */
  lemma {:induction false} RunBalances(slot: Slot, ledger: Ledger, outcome: MizuStatus, period: uint32)
    requires 0 < period <= INT32_MAX
    requires Balanced(slot, ledger, period)
    ensures var due := ledger.Due(period);
            Balanced(RanSlot(slot, outcome),
                     Ledger(ledger.ticks, ledger.ticks,
                            ledger.runs + (if due then 1 else 0),
                            ledger.errors + (if due && outcome != OK then 1 else 0)), period)
  {
    SaturatedSum(ledger.runs, 1);
    SaturatedSum(ledger.errors, 1);
  }

  lemma {:induction false} LedgerAfterUpdate(events: seq<Event>, now: uint32, period: nat, id: nat)
    requires period > 0
    ensures var after := events + [Update(now)];
            LedgerOf(after, period, id) == LedgerOf(events, period, id).(ticks := Ticks(after))
  {
    assert (events + [Update(now)])[..|events|] == events;
  }

  lemma {:induction false} LedgerAfterRun(events: seq<Event>, outcomes: seq<MizuStatus>, period: nat, id: nat)
    requires period > 0
    ensures Samples(events + [Run(outcomes)]) == Samples(events)
    ensures var ledger := LedgerOf(events, period, id);
            LedgerOf(events + [Run(outcomes)], period, id) ==
            Ledger(ledger.ticks, ledger.ticks,
                   ledger.runs + (if ledger.Due(period) then 1 else 0),
                   ledger.errors + (if ledger.Due(period) && OutcomeOf(outcomes, id) != OK then 1 else 0))
  {
    assert (events + [Run(outcomes)])[..|events|] == events;
    assert Samples(events) + [] == Samples(events);
  }

  /** The slot is the closed form of the ledger of its task. */
  ghost predicate SlotBalanced(configs: seq<TaskConfig>, slot: Slot, events: seq<Event>)
    requires slot.id < |configs| && configs[slot.id].periodTicks > 0
  {
    Balanced(slot, LedgerOf(events, configs[slot.id].periodTicks, slot.id), configs[slot.id].periodTicks)
  }

  lemma {:induction false} RunStepBalances(configs: seq<TaskConfig>, before: SchedulerState, outcomes: seq<MizuStatus>,
                                           after: SchedulerState, events: seq<Event>, i: nat)
    requires ValidState(configs, before) && i < |configs| && Ran(before, outcomes, after)
    requires ClockAgrees(before, events) && SlotBalanced(configs, before.slots[i], events)
    ensures ClockAgrees(after, events + [Run(outcomes)]) && after.slots[i].id == before.slots[i].id
    ensures SlotBalanced(configs, after.slots[i], events + [Run(outcomes)])
  {
    var slot := before.slots[i];
    var period := configs[slot.id].periodTicks;
    LedgerAfterRun(events, outcomes, period, slot.id);
    RunBalances(slot, LedgerOf(events, period, slot.id), OutcomeOf(outcomes, slot.id), period);
  }

  lemma {:induction false} UpdateStepBalances(configs: seq<TaskConfig>, before: SchedulerState, now: uint32,
                                              after: SchedulerState, events: seq<Event>, i: nat)
    requires ValidState(configs, before) && i < |configs| && Updated(configs, before, now, after)
    requires ClockAgrees(before, events) && SlotBalanced(configs, before.slots[i], events)
    ensures ClockAgrees(after, events + [Update(now)]) && after.slots[i].id == before.slots[i].id
    ensures SlotBalanced(configs, after.slots[i], events + [Update(now)])
  {
    var slot := before.slots[i];
    var period := configs[slot.id].periodTicks;
    TicksAfterUpdate(events, now);
    LedgerAfterUpdate(events, now, period, slot.id);
    if before.timeInitialized && UpdateStatus(before, now) == OK {
      TicksAtRunBound(events);
      UpdateBalances(slot, LedgerOf(events, period, slot.id), period, TickDelta(before.lastTick, now));
    }
  }

  /** One event, seen by one slot. */
  lemma {:induction false} StepBalances(configs: seq<TaskConfig>, before: SchedulerState, event: Event,
                                        after: SchedulerState,
                                        events: seq<Event>, i: nat)
    requires ValidState(configs, before) && i < |configs| && Step(configs, before, event, after)
    requires ClockAgrees(before, events) && SlotBalanced(configs, before.slots[i], events)
    ensures ClockAgrees(after, events + [event]) && after.slots[i].id == before.slots[i].id
    ensures SlotBalanced(configs, after.slots[i], events + [event])
  {
    match event {
      case Run(outcomes) => RunStepBalances(configs, before, outcomes, after, events, i);
      case Update(now) => UpdateStepBalances(configs, before, now, after, events, i);
    }
  }

  /**
   After any history, every task's slot is the closed form of its ledger. In particular a slot never
   changes place, and total in scheduler_update never overflows, as UpdatedSlot is defined throughout.
   */
  lemma {:induction false} HistoryBalances(configs: seq<TaskConfig>, events: seq<Event>, states: seq<SchedulerState>,
                                           i: nat)
    requires IsHistory(configs, events, states) && i < |configs|
    ensures ValidState(configs, states[|events|]) && ClockAgrees(states[|events|], events)
    ensures var slot := states[|events|].slots[i];
            && slot.id == states[0].slots[i].id
            && SlotBalanced(configs, slot, events)
    decreases |events|
  {
    HistoryStaysValid(configs, events, states, |events|);
    if events != [] {
      var n := |events| - 1;
      var earlier := events[..n];
      HistoryStaysValid(configs, events, states, n);
      assert Next(configs, states[n], events[n], states[n + 1]);
      assert IsHistory(configs, earlier, states[..n + 1]);
      HistoryBalances(configs, earlier, states[..n + 1], i);
      assert events == earlier + [events[n]];
      StepBalances(configs, states[n], events[n], states[n + 1], earlier, i);
    } else {
      assert 0 / configs[states[0].slots[i].id].periodTicks == 0;
    }
  }

  // ---------------------------------------------------------------- invocations and missed periods, one by one

  /** How many runs invoked the task. */
  ghost function Invocations(events: seq<Event>, states: seq<SchedulerState>, id: nat): nat
    requires |states| == |events| + 1
  {
    if events == [] then 0
    else
      var n := |events| - 1;
      Invocations(events[..n], states[..n + 1], id)
      + if events[n].Run? && id in ReadyIds(states[n].slots) then 1 else 0
  }

  /** How many of these invocations returned an error. */
  ghost function Failures(events: seq<Event>, states: seq<SchedulerState>, id: nat): nat
    requires |states| == |events| + 1
  {
    if events == [] then 0
    else
      var n := |events| - 1;
      Failures(events[..n], states[..n + 1], id)
      + if events[n].Run? && id in ReadyIds(states[n].slots) && OutcomeOf(events[n].outcomes, id) != OK then 1 else 0
  }

  /** A task is invoked exactly when its one slot is ready. */
  lemma {:induction false} ReadyByItsSlot(configs: seq<TaskConfig>, st: SchedulerState, i: nat)
    requires ValidState(configs, st) && i < |st.slots|
    ensures st.slots[i].id in ReadyIds(st.slots) <==> st.slots[i].ready
  {
    ReadyIdsAreReady(st.slots, st.slots[i].id);
    if ReadyHere(st.slots, st.slots[i].id) {
      var j :| 0 <= j < |st.slots| && st.slots[j].ready && st.slots[j].id == st.slots[i].id;
      assert Rank(configs, st.slots[i]) == Rank(configs, st.slots[j]);
    }
  }

  /** The next run invokes the task exactly when it is due. */
  lemma {:induction false} InvokedWhenDue(configs: seq<TaskConfig>, events: seq<Event>, states: seq<SchedulerState>,
                                          i: nat)
    requires IsHistory(configs, events, states) && i < |configs|
    ensures states[0].slots[i].id < |configs|
    ensures var id := states[0].slots[i].id;
            id in ReadyIds(states[|events|].slots) <==> Due(events, configs[id].periodTicks)
  {
    HistoryBalances(configs, events, states, i);
    ReadyByItsSlot(configs, states[|events|], i);
  }

  /** The runs that found a task due are the runs that invoked it. */
  lemma {:induction false} RunsAreInvocations(configs: seq<TaskConfig>, events: seq<Event>, states: seq<SchedulerState>,
                                              i: nat)
    requires IsHistory(configs, events, states) && i < |configs|
    ensures states[0].slots[i].id < |configs|
    ensures var id := states[0].slots[i].id;
            && Runs(events, configs[id].periodTicks) == Invocations(events, states, id)
            && Errors(events, configs[id].periodTicks, id) == Failures(events, states, id)
    decreases |events|
  {
    if events == [] {
    } else {
      var n := |events| - 1;
      assert IsHistory(configs, events[..n], states[..n + 1]);
      RunsAreInvocations(configs, events[..n], states[..n + 1], i);
      InvokedWhenDue(configs, events[..n], states[..n + 1], i);
    }
  }

  /** The quotients behind the counters: a run takes one pending period, an update adds boundaries. */
  lemma {:induction false} MissedIsLedger(events: seq<Event>, period: nat, id: nat)
    requires period > 0
    ensures Missed(events, period) == LedgerOf(events, period, id).Missed(period)
  {
    if events == [] {
      assert 0 / period == 0;
    } else {
      var n := |events| - 1;
      MissedIsLedger(events[..n], period, id);
      assert events == events[..n] + [events[n]];
      TicksAtRunBound(events[..n]);
      DivideMonotone(TicksAtRun(events[..n]), Ticks(events[..n]), period);
      match events[n] {
        case Run(outcomes) => LedgerAfterRun(events[..n], outcomes, period, id);
        case Update(now) =>
          TicksAfterUpdate(events[..n], now);
          LedgerAfterUpdate(events[..n], now, period, id);
          DivideMonotone(Ticks(events[..n]), Ticks(events), period);
      }
    }
  }

  /**
   Every tick is either part of an unfinished period, or belongs to a period in which the task was
   invoked, that is pending, or that was missed; and the stored counters are these numbers, saturated.
   */
  ghost predicate Accounted(slot: Slot, ticks: nat, period: nat, invoked: nat, failed: nat, missed: int) {
    && ticks == slot.elapsedTicks + period * (invoked + missed + if slot.ready then 1 else 0)
    && slot.elapsedTicks < period && missed >= 0
    && slot.missedCount == Saturated(missed)
    && slot.runCount == Saturated(invoked)
    && slot.errorCount == Saturated(failed)
  }

  lemma {:induction false} BalancedIsAccounted(slot: Slot, ledger: Ledger, period: nat)
    requires period > 0 && Balanced(slot, ledger, period)
    ensures Accounted(slot, ledger.ticks, period, ledger.runs, ledger.errors, ledger.Missed(period))
  {
    DivideBack(ledger.ticks, period, ledger.runs + ledger.Missed(period) + if slot.ready then 1 else 0);
  }

  /** Conservation: after any history every task's accepted ticks are accounted for. */
  lemma {:induction false} Conservation(configs: seq<TaskConfig>, events: seq<Event>, states: seq<SchedulerState>,
                                        i: nat)
    requires IsHistory(configs, events, states) && i < |configs|
    ensures ValidState(configs, states[|events|])
    ensures var slot := states[|events|].slots[i];
            Accounted(slot, Ticks(events), configs[slot.id].periodTicks, Invocations(events, states, slot.id),
                      Failures(events, states, slot.id), Missed(events, configs[slot.id].periodTicks))
  {
    HistoryBalances(configs, events, states, i);
    RunsAreInvocations(configs, events, states, i);
    var slot := states[|events|].slots[i];
    var period := configs[slot.id].periodTicks;
    MissedIsLedger(events, period, slot.id);
    BalancedIsAccounted(slot, LedgerOf(events, period, slot.id), period);
  }

  // ---------------------------------------------------------------- what scheduler_get_stats reports

  /** What the task returned when it was last invoked; OK before the first invocation. */
  ghost function LastOutcome(events: seq<Event>, states: seq<SchedulerState>, id: nat): MizuStatus
    requires |states| == |events| + 1
  {
    if events == [] then OK
    else
      var n := |events| - 1;
      if events[n].Run? && id in ReadyIds(states[n].slots) then OutcomeOf(events[n].outcomes, id)
      else LastOutcome(events[..n], states[..n + 1], id)
  }

  lemma {:induction false} StepRemembers(configs: seq<TaskConfig>, before: SchedulerState, event: Event,
                                         after: SchedulerState, i: nat)
    requires ValidState(configs, before) && i < |before.slots| && Step(configs, before, event, after)
    ensures |after.slots| == |before.slots| && after.slots[i].id == before.slots[i].id
    ensures event.Run? && before.slots[i].ready ==>
      after.slots[i].lastStatus == OutcomeOf(event.outcomes, before.slots[i].id)
    ensures !(event.Run? && before.slots[i].ready) ==> after.slots[i].lastStatus == before.slots[i].lastStatus
    ensures before.slots[i].lastTrigger == PERIODIC ==> after.slots[i].lastTrigger == PERIODIC
  {
  }

  /** The slot remembers the latest outcome of its task. */
  lemma {:induction false} SlotRemembers(configs: seq<TaskConfig>, events: seq<Event>, states: seq<SchedulerState>,
                                         i: nat)
    requires IsHistory(configs, events, states) && i < |configs|
    ensures ValidState(configs, states[|events|])
    ensures var slot := states[|events|].slots[i];
            slot.lastStatus == LastOutcome(events, states, slot.id) && slot.lastTrigger == PERIODIC
    decreases |events|
  {
    HistoryStaysValid(configs, events, states, |events|);
    if events != [] {
      var n := |events| - 1;
      HistoryStaysValid(configs, events, states, n);
      assert Next(configs, states[n], events[n], states[n + 1]);
      assert IsHistory(configs, events[..n], states[..n + 1]);
      SlotRemembers(configs, events[..n], states[..n + 1], i);
      ReadyByItsSlot(configs, states[n], i);
      StepRemembers(configs, states[n], events[n], states[n + 1], i);
    }
  }

  /**
   Over any history the statistics of a task are its invocations, the invocations that failed, the periods
   that were missed, each saturated, and the outcome of its latest invocation.
   */
  lemma {:induction false} StatsCount(configs: seq<TaskConfig>, events: seq<Event>, states: seq<SchedulerState>, i: nat)
    requires IsHistory(configs, events, states) && i < |configs|
    ensures ValidState(configs, states[|events|])
    ensures var id, stats := states[|events|].slots[i].id, StatsOf(states[|events|].slots[i]);
            var missed := Missed(events, configs[id].periodTicks);
            && stats.runCount == Saturated(Invocations(events, states, id))
            && stats.errorCount == Saturated(Failures(events, states, id))
            && missed >= 0 && stats.missedCount == Saturated(missed)
            && stats.lastTrigger == PERIODIC && stats.lastStatus == LastOutcome(events, states, id)
  {
    Conservation(configs, events, states, i);
    SlotRemembers(configs, events, states, i);
  }

  // ---------------------------------------------------------------- accepted ticks are elapsed time

  /** The samples are the low 32 bits of true, non-decreasing times. */
  ghost predicate SamplesOf(samples: seq<uint32>, times: seq<nat>) {
    && |samples| == |times|
    && (forall k :: 0 <= k < |times| ==> samples[k] == times[k] % 0x1_0000_0000)
    && (forall k :: 0 < k < |times| ==> times[k - 1] <= times[k])
  }

  ghost predicate GapsAtMost(times: seq<nat>, bound: nat) {
    forall k :: 0 < k < |times| ==> times[k] - times[k - 1] <= bound
  }

  lemma {:induction false} TickDeltaOfTimes(last: nat, now: nat)
    requires last <= now
    ensures TickDelta(last % 0x1_0000_0000, now % 0x1_0000_0000) == (now - last) % 0x1_0000_0000
  {
    DivideSum(last, now - last, 0x1_0000_0000);
  }

  /** A gap is credited in full up to INT32_MAX, and otherwise not in full. */
  lemma {:induction false} Credited(gap: nat)
    ensures gap <= INT32_MAX ==> gap % 0x1_0000_0000 == gap
    ensures gap > INT32_MAX ==> gap % 0x1_0000_0000 <= INT32_MAX ==> gap % 0x1_0000_0000 < gap
  {
    if gap <= INT32_MAX {
      DivideUniquely(gap, 0x1_0000_0000, 0, gap);
    }
  }

  /** An update is refused exactly when the true time since the last sample looks like half a round or more. */
  lemma {:induction false} UpdateRefused(st: SchedulerState, last: nat, now: nat)
    requires last <= now && st.lastTick == last % 0x1_0000_0000
    ensures var status := UpdateStatus(st, now % 0x1_0000_0000);
            && (status == OUT_OF_RANGE <==> st.timeInitialized && (now - last) % 0x1_0000_0000 > INT32_MAX)
            && (status != OUT_OF_RANGE ==> status == OK)
            && (now - last <= INT32_MAX ==> status == OK)
  {
    TickDeltaOfTimes(last, now);
    Credited(now - last);
  }

  lemma {:induction false} GapsSplit(times: seq<nat>, bound: nat)
    requires |times| > 1
    ensures var n := |times| - 1;
            GapsAtMost(times, bound) <==> GapsAtMost(times[..n], bound) && times[n] - times[n - 1] <= bound
  {
    var n := |times| - 1;
    assert forall k :: 0 <= k < n ==> times[..n][k] == times[k];
  }

  lemma {:induction false} NextSample(samples: seq<uint32>, times: seq<nat>)
    requires SamplesOf(samples, times) && |times| > 1
    ensures var n, gap := |times| - 1, times[|times| - 1] - times[|times| - 2];
            Accepted(samples) == Accepted(samples[..n]) +
              (if gap % 0x1_0000_0000 <= INT32_MAX then gap % 0x1_0000_0000 else 0)
  {
    TickDeltaOfTimes(times[|times| - 2], times[|times| - 1]);
  }

  /**
   Across any number of tick wrap-arounds: the accepted ticks never exceed the elapsed time, and equal
   it exactly when no two consecutive samples are more than INT32_MAX apart.
   */
  lemma {:induction false} AcceptedIsElapsed(samples: seq<uint32>, times: seq<nat>)
    requires SamplesOf(samples, times) && times != []
    ensures times[0] + Accepted(samples) <= times[|times| - 1]
    ensures times[0] + Accepted(samples) == times[|times| - 1] <==> GapsAtMost(times, INT32_MAX)
    decreases |samples|
  {
    var n := |times| - 1;
    if n > 0 {
      AcceptedIsElapsed(samples[..n], times[..n]);
      NextSample(samples, times);
      GapsSplit(times, INT32_MAX);
      Credited(times[n] - times[n - 1]);
    }
  }
}
