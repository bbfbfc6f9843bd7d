/** One whole call of queue_port_push_until or queue_port_pop_until among the actions of all other clients. */
module QueuePortCalls {
  import opened BlockRing
  import opened FoundationStatuses
  import opened QueuePortInterleaving
  import opened QueuePortSpec

  /**
   One round of the loop: what others do before the locked section, what the critical section answers,
   what others do while the client sleeps, and what the wait port answers.
   */
  datatype Round = Round(
    before: seq<Action>,
    entered: FoundationStatus,
    asleep: seq<Action>,
    waited: FoundationStatus)

  /** Not an action of client c. */
  predicate ByOthers(c: nat, a: Action) {
    match a
    case Begin(d, _) => d != c
    case Attempt(d, _) => d != c
    case Wake(d, _) => d != c
    case ResetWaiter(d) => d != c
    case _ => true
  }

  predicate SameShape(a: Port, b: Port) {
    && a.ring.capacity == b.ring.capacity && a.ring.elementSize == b.ring.elementSize
    && |a.ring.storage| == |b.ring.storage|
  }

  /** An action of another client; one that is not possible now does not happen. */
  function Let(sizeMax: nat, s: System, c: nat, a: Action): (r: System)
    requires ValidRing(s.port.ring)
    ensures ValidRing(r.port.ring) && SameShape(r.port, s.port) && |r.clients| == |s.clients|
    ensures c < |s.clients| ==> r.clients[c] == s.clients[c]
  {
    if ByOthers(c, a) && Enabled(s, a) then Do(sizeMax, s, a) else s
  }

  function AfterOthers(sizeMax: nat, s: System, c: nat, others: seq<Action>): (r: System)
    requires ValidRing(s.port.ring)
    ensures ValidRing(r.port.ring) && SameShape(r.port, s.port) && |r.clients| == |s.clients|
    ensures c < |s.clients| ==> r.clients[c] == s.clients[c]
    decreases |others|
  {
    if others == [] then s
    else Let(sizeMax, AfterOthers(sizeMax, s, c, others[..|others| - 1]), c, others[|others| - 1])
  }

  /** Actions of other clients that can follow each other all happen, in that order. */
  lemma {:induction false} OthersAct(sizeMax: nat, c: nat, others: seq<Action>, states: seq<System>, k: nat)
    requires k <= |others| && |states| == |others| + 1 && ValidRing(states[0].port.ring)
    requires forall j :: 0 <= j < |others| ==>
      ByOthers(c, others[j]) && Next(sizeMax, states[j], others[j], states[j + 1])
    ensures AfterOthers(sizeMax, states[0], c, others[..k]) == states[k]
    decreases k
  {
    if k > 0 {
      OthersAct(sizeMax, c, others, states, k - 1);
      assert others[..k][..k - 1] == others[..k - 1];
      assert Next(sizeMax, states[k - 1], others[k - 1], states[k]);
    }
  }

  /** Client c is about to try. */
  predicate Pending(s: System, c: nat) {
    c < |s.clients| && s.clients[c].phase.Trying? && WellFormed(s.port, s.clients[c].phase.goal)
  }

  /** Others act, then the client tries. */
  function Tried(sizeMax: nat, s: System, c: nat, round: Round): (r: System)
    requires Pending(s, c)
    ensures ValidRing(r.port.ring) && SameShape(r.port, s.port) && |r.clients| == |s.clients|
    ensures r.clients[c].phase.Outside? ||
            (r.clients[c].phase.Sleeping? && r.clients[c].phase.goal == s.clients[c].phase.goal)
  {
    AttemptStep(sizeMax, AfterOthers(sizeMax, s, c, round.before), c, round.entered)
  }

  /** Others act while the client sleeps, then it wakes. */
  function Woken(sizeMax: nat, s: System, c: nat, round: Round): (r: System)
    requires ValidRing(s.port.ring) && c < |s.clients| && s.clients[c].phase.Sleeping?
    ensures ValidRing(r.port.ring) && SameShape(r.port, s.port) && |r.clients| == |s.clients|
    ensures r.clients[c].phase.Outside? <==> round.waited != OK
    ensures round.waited == OK ==> r.clients[c].phase.Trying? && r.clients[c].phase.goal == s.clients[c].phase.goal
  {
    Do(sizeMax, AfterOthers(sizeMax, s, c, round.asleep), Wake(c, round.waited))
  }

  /** One round of the loop: the client is back from its call, or about to try again. */
  function OneRound(sizeMax: nat, s: System, c: nat, round: Round): (r: System)
    requires Pending(s, c)
    ensures |r.clients| == |s.clients| && (r.clients[c].phase.Outside? || Pending(r, c))
  {
    var tried := Tried(sizeMax, s, c, round);
    if tried.clients[c].phase.Outside? then tried else Woken(sizeMax, tried, c, round)
  }

  /** The loop from round k on, until the client returns or the given rounds are over. */
  function AfterRounds(sizeMax: nat, s: System, c: nat, rounds: seq<Round>, k: nat): (r: System)
    requires Pending(s, c) && k <= |rounds|
    ensures |r.clients| == |s.clients|
    decreases |rounds| - k
  {
    if k == |rounds| then s
    else
      var next := OneRound(sizeMax, s, c, rounds[k]);
      if next.clients[c].phase.Outside? then next else AfterRounds(sizeMax, next, c, rounds, k + 1)
  }

  /** The whole call of a client whose waiter is idle. */
  function AfterCall(sizeMax: nat, s: System, c: nat, goal: Goal, rounds: seq<Round>): (r: System)
    requires Enabled(s, Begin(c, goal)) && s.clients[c].waiter.state == IDLE
    ensures |r.clients| == |s.clients|
  {
    AfterRounds(sizeMax, Do(sizeMax, s, Begin(c, goal)), c, rounds, 0)
  }

  // ---------------------------------------------------------------- what is recorded of one client

  /** The returned calls of client c. */
  function CallsOf(c: nat, calls: seq<Call>): seq<Call> {
    if calls == [] then []
    else
      var call := calls[|calls| - 1];
      CallsOf(c, calls[..|calls| - 1]) + if call.client == c then [call] else []
  }

  lemma {:induction false} CallsOfSnoc(c: nat, calls: seq<Call>, call: Call)
    ensures CallsOf(c, calls + [call]) == CallsOf(c, calls) + if call.client == c then [call] else []
  {
    assert (calls + [call])[..|calls|] == calls;
  }

  /** One more call of client c has returned; it is a fine one, and its waiter is the client's. */
  ghost predicate Returned(calls: seq<Call>, c: nat, goal: Goal, before: Waiter, r: System) {
    && c < |r.clients| && r.clients[c].phase.Outside?
    && var mine, earlier := CallsOf(c, r.calls), CallsOf(c, calls);
       && |mine| == |earlier| + 1 && mine[..|earlier|] == earlier
       && mine[|earlier|].goal == goal && mine[|earlier|].before == before
       && mine[|earlier|].after == r.clients[c].waiter && Fine(mine[|earlier|])
  }

  /** Client c is still in the call, with nothing moved. */
  ghost predicate StillIn(calls: seq<Call>, c: nat, goal: Goal, before: Waiter, r: System) {
    && c < |r.clients| && !r.clients[c].phase.Outside?
    && r.clients[c].phase.goal == goal && r.clients[c].phase.before == before && r.clients[c].phase.moved == []
    && r.clients[c].waiter.state == WAITING
    && CallsOf(c, r.calls) == CallsOf(c, calls)
  }

  ghost predicate InOrBack(calls: seq<Call>, c: nat, goal: Goal, before: Waiter, r: System) {
    Returned(calls, c, goal, before, r) || StillIn(calls, c, goal, before, r)
  }

  lemma {:induction false} ReturnIsRecorded(s: System, c: nat, status: FoundationStatus)
    requires c < |s.clients| && MayReturn(s.clients[c], status)
    ensures Returned(s.calls, c, s.clients[c].phase.goal, s.clients[c].phase.before, Return(s, c, status))
  {
    var r := Return(s, c, status);
    CallsOfSnoc(c, s.calls, r.calls[|s.calls|]);
  }

  /** A step records at most one call, of the client that acted. */
  lemma {:induction false} StepRecords(sizeMax: nat, s: System, a: Action)
    requires Enabled(s, a)
    ensures var after := Do(sizeMax, s, a);
            || after.calls == s.calls
            || (|after.calls| == |s.calls| + 1 && after.calls == s.calls + [after.calls[|s.calls|]]
                && !ByOthers(after.calls[|s.calls|].client, a))
  {
  }

  lemma {:induction false} LetKeeps(sizeMax: nat, s: System, c: nat, a: Action)
    requires Inv(sizeMax, s)
    ensures Inv(sizeMax, Let(sizeMax, s, c, a))
    ensures CallsOf(c, Let(sizeMax, s, c, a).calls) == CallsOf(c, s.calls)
  {
    if ByOthers(c, a) && Enabled(s, a) {
      var after := Do(sizeMax, s, a);
      DoKeepsInv(sizeMax, s, a);
      StepRecords(sizeMax, s, a);
      if after.calls != s.calls {
        CallsOfSnoc(c, s.calls, after.calls[|s.calls|]);
      }
    }
  }

  lemma {:induction false} OthersKeep(sizeMax: nat, s: System, c: nat, others: seq<Action>)
    requires Inv(sizeMax, s)
    ensures var r := AfterOthers(sizeMax, s, c, others);
            Inv(sizeMax, r) && CallsOf(c, r.calls) == CallsOf(c, s.calls)
    decreases |others|
  {
    if others == [] {
    } else {
      var n := |others| - 1;
      OthersKeep(sizeMax, s, c, others[..n]);
      LetKeeps(sizeMax, AfterOthers(sizeMax, s, c, others[..n]), c, others[n]);
    }
  }

  /** An attempt returns with a fine record, or leaves the client asleep with nothing moved. */
  lemma {:induction false} AttemptReturns(sizeMax: nat, s: System, c: nat, entered: FoundationStatus)
    requires Inv(sizeMax, s) && Enabled(s, Attempt(c, entered))
    ensures InOrBack(s.calls, c, s.clients[c].phase.goal, s.clients[c].phase.before,
      AttemptStep(sizeMax, s, c, entered))
  {
    var client := s.clients[c];
    var goal := client.phase.goal;
    assert Waits(s.port, client);
    TryMovesOne(sizeMax, s.port, goal, entered);
    var r := Try(sizeMax, s.port, goal, entered);
    var trying := client.(phase := Trying(goal, client.phase.before, client.phase.moved + r.moved));
    var tried := Moved(s, goal, r).(clients := s.clients[c := trying]);
    if r.status == INVALID_STATE && r.port.state == STOPPED {
      ReturnIsRecorded(tried, c, CANCELLED);
    } else if r.status != Retry(goal) {
      ReturnIsRecorded(tried, c, r.status);
    }
  }

  lemma {:induction false} SameRecords(a: seq<Call>, b: seq<Call>, c: nat, goal: Goal, before: Waiter, r: System)
    requires CallsOf(c, a) == CallsOf(c, b) && InOrBack(a, c, goal, before, r)
    ensures InOrBack(b, c, goal, before, r)
  {
  }

  lemma {:induction false} TriedKeeps(sizeMax: nat, s: System, c: nat, round: Round)
    requires Inv(sizeMax, s) && Pending(s, c)
    ensures Inv(sizeMax, Tried(sizeMax, s, c, round))
    ensures InOrBack(s.calls, c, s.clients[c].phase.goal, s.clients[c].phase.before, Tried(sizeMax, s, c, round))
  {
    var ready, phase := AfterOthers(sizeMax, s, c, round.before), s.clients[c].phase;
    OthersKeep(sizeMax, s, c, round.before);
    AttemptKeepsInv(sizeMax, ready, c, round.entered);
    AttemptReturns(sizeMax, ready, c, round.entered);
    SameRecords(ready.calls, s.calls, c, phase.goal, phase.before, Tried(sizeMax, s, c, round));
  }

  lemma {:induction false} WakeReturns(sizeMax: nat, s: System, c: nat, waited: FoundationStatus)
    requires Inv(sizeMax, s) && Enabled(s, Wake(c, waited))
    ensures InOrBack(s.calls, c, s.clients[c].phase.goal, s.clients[c].phase.before, Do(sizeMax, s, Wake(c, waited)))
  {
    assert Waits(s.port, s.clients[c]);
    if waited != OK {
      ReturnIsRecorded(s, c, waited);
    }
  }

  lemma {:induction false} WokenKeeps(sizeMax: nat, s: System, c: nat, round: Round)
    requires Inv(sizeMax, s) && c < |s.clients| && s.clients[c].phase.Sleeping?
    ensures Inv(sizeMax, Woken(sizeMax, s, c, round))
    ensures InOrBack(s.calls, c, s.clients[c].phase.goal, s.clients[c].phase.before, Woken(sizeMax, s, c, round))
  {
    var rested, phase := AfterOthers(sizeMax, s, c, round.asleep), s.clients[c].phase;
    OthersKeep(sizeMax, s, c, round.asleep);
    DoKeepsInv(sizeMax, rested, Wake(c, round.waited));
    WakeReturns(sizeMax, rested, c, round.waited);
    SameRecords(rested.calls, s.calls, c, phase.goal, phase.before, Woken(sizeMax, s, c, round));
  }

  lemma {:induction false} RoundKeeps(sizeMax: nat, s: System, c: nat, round: Round)
    requires Inv(sizeMax, s) && Pending(s, c)
    ensures Inv(sizeMax, OneRound(sizeMax, s, c, round))
    ensures InOrBack(s.calls, c, s.clients[c].phase.goal, s.clients[c].phase.before, OneRound(sizeMax, s, c, round))
  {
    var tried, phase := Tried(sizeMax, s, c, round), s.clients[c].phase;
    TriedKeeps(sizeMax, s, c, round);
    if !tried.clients[c].phase.Outside? {
      WokenKeeps(sizeMax, tried, c, round);
      SameRecords(tried.calls, s.calls, c, phase.goal, phase.before, Woken(sizeMax, tried, c, round));
    }
  }

  lemma {:induction false} RoundsKeep(sizeMax: nat, s: System, c: nat, rounds: seq<Round>, k: nat)
    requires Inv(sizeMax, s) && Pending(s, c) && k <= |rounds|
    ensures Inv(sizeMax, AfterRounds(sizeMax, s, c, rounds, k))
    ensures InOrBack(s.calls, c, s.clients[c].phase.goal, s.clients[c].phase.before,
                     AfterRounds(sizeMax, s, c, rounds, k))
    decreases |rounds| - k
  {
    if k == |rounds| {
      assert Waits(s.port, s.clients[c]);
    } else {
      var next, phase := OneRound(sizeMax, s, c, rounds[k]), s.clients[c].phase;
      RoundKeeps(sizeMax, s, c, rounds[k]);
      if !next.clients[c].phase.Outside? {
        RoundsKeep(sizeMax, next, c, rounds, k + 1);
        SameRecords(next.calls, s.calls, c, phase.goal, phase.before, AfterRounds(sizeMax, next, c, rounds, k + 1));
      }
    }
  }

  lemma {:induction false} RoundEnds(sizeMax: nat, s: System, c: nat, round: Round)
    requires Pending(s, c) && round.waited != OK
    ensures OneRound(sizeMax, s, c, round).clients[c].phase.Outside?
  {
  }

  /** The call returns at the latest when the wait port reports anything but OK. */
  lemma {:induction false} WaitEnds(sizeMax: nat, s: System, c: nat, rounds: seq<Round>, k: nat, last: nat)
    requires Pending(s, c) && k <= last < |rounds| && rounds[last].waited != OK
    ensures AfterRounds(sizeMax, s, c, rounds, k).clients[c].phase.Outside?
    decreases |rounds| - k
  {
    var next := OneRound(sizeMax, s, c, rounds[k]);
    if k == last {
      RoundEnds(sizeMax, s, c, rounds[k]);
    } else if !next.clients[c].phase.Outside? {
      WaitEnds(sizeMax, next, c, rounds, k + 1, last);
    }
  }

  /** How the rest of the loop follows from one round. */
  lemma {:induction false} RoundsUnfold(sizeMax: nat, s: System, c: nat, rounds: seq<Round>, k: nat, final: System)
    requires Pending(s, c) && k < |rounds| && AfterRounds(sizeMax, s, c, rounds, k) == final
    ensures var next := OneRound(sizeMax, s, c, rounds[k]);
            if next.clients[c].phase.Outside? then next == final
            else AfterRounds(sizeMax, next, c, rounds, k + 1) == final
  {
  }

  /**
   A call that starts with an idle waiter, whatever all others do meanwhile: it has returned, exactly
   once, having moved one element if and only if it returned OK, with its waiter COMPLETED, or CANCELLED
   if and only if CANCELLED was returned; or it still waits and has moved nothing. It has returned when
   the wait port has once reported anything but OK.
   */
  lemma {:induction false} CallIsFine(sizeMax: nat, s: System, c: nat, goal: Goal, rounds: seq<Round>)
    requires Inv(sizeMax, s) && Enabled(s, Begin(c, goal)) && s.clients[c].waiter.state == IDLE
    ensures var r := AfterCall(sizeMax, s, c, goal, rounds);
            var mine, earlier := CallsOf(c, r.calls), CallsOf(c, s.calls);
            && Inv(sizeMax, r)
            && ((exists k :: 0 <= k < |rounds| && rounds[k].waited != OK) ==> r.clients[c].phase.Outside?)
            && if r.clients[c].phase.Outside? then
                 && |mine| == |earlier| + 1 && mine[..|earlier|] == earlier
                 && var call := mine[|earlier|];
                    && call.goal == goal && call.after == r.clients[c].waiter
                    && |call.moved| == (if call.status == OK then 1 else 0)
                    && (call.status == OK && goal.PushGoal? ==> call.moved == [goal.data])
                    && call.after ==
                        Waiter(if call.status == CANCELLED then CANCELLED_WAITER else COMPLETED, call.status)
               else mine == earlier && r.clients[c].phase.moved == [] && r.clients[c].waiter.state == WAITING
  {
    var begun := Do(sizeMax, s, Begin(c, goal));
    DoKeepsInv(sizeMax, s, Begin(c, goal));
    RoundsKeep(sizeMax, begun, c, rounds, 0);
    if k :| 0 <= k < |rounds| && rounds[k].waited != OK {
      WaitEnds(sizeMax, begun, c, rounds, 0, k);
    }
  }

  // ---------------------------------------------------------------- what the loops of the object rely on

  /** The client with this goal and waiter is about to try, and has moved nothing yet. */
  ghost predicate InCall(s: System, c: nat, waiter: Waiter, goal: Goal) {
    && Pending(s, c) && s.clients[c].waiter == waiter && waiter.state == WAITING
    && s.clients[c].phase.goal == goal && s.clients[c].phase.moved == []
  }

  /** How an attempt ends, in terms of what it did to the port. */
  lemma {:induction false} AttemptOutcome(sizeMax: nat, s: System, c: nat, waiter: Waiter, goal: Goal,
                                          entered: FoundationStatus)
    requires InCall(s, c, waiter, goal)
    ensures var r, after := Try(sizeMax, s.port, goal, entered), AttemptStep(sizeMax, s, c, entered);
            && after.port == r.port && |after.clients| == |s.clients|
            && (if r.status == INVALID_STATE && r.port.state == STOPPED then
                  after.clients[c] == Client(Completed(waiter, CANCELLED).1, Outside)
                else if r.status != Retry(goal) then
                  after.clients[c] == Client(Completed(waiter, r.status).1, Outside)
                else after.clients[c].phase.Sleeping? && after.clients[c].waiter == waiter
                     && after.clients[c].phase.goal == goal && after.clients[c].phase.moved == [])
            && (r.status == OK ==> after.calls != [] && after.calls[|after.calls| - 1].moved == r.moved)
  {
  }
}
