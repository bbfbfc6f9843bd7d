/** Which status a waiting call returns, step by step, over every run and for one whole call. */
module QueuePortAnswers {
  import opened BlockRing
  import opened FoundationStatuses
  import opened Integers
  import opened Options
  import opened QueuePortCalls
  import opened QueuePortInterleaving
  import opened QueuePortSpec

  /** There is nothing to move: no room for a push, no element for a pop. */
  ghost predicate Blocked(port: Port, goal: Goal)
    requires ValidRing(port.ring)
  {
    if goal.PushGoal? then |Elements(port.ring)| == port.ring.capacity else Elements(port.ring) == []
  }

  /** A waiter that has seen its call end with this status. */
  function Ended(status: FoundationStatus): Waiter {
    Waiter(if status == CANCELLED then CANCELLED_WAITER else COMPLETED, status)
  }

  /** The call of client c ends with this status: one more call is recorded, and no other client is touched. */
  ghost predicate Ends(s: System, c: nat, status: FoundationStatus, moved: seq<seq<byte>>, after: System) {
    && c < |s.clients| && !s.clients[c].phase.Outside?
    && after.clients == s.clients[c := Client(Ended(status), Outside)]
    && after.calls == s.calls + [Call(c, s.clients[c].phase.goal, s.clients[c].phase.before, Ended(status), status,
                                      moved)]
  }

  /** The client only goes over to another point of its call. */
  ghost predicate OnlyPhase(s: System, c: nat, phase: Phase, after: System) {
    c < |s.clients| && after == s.(clients := s.clients[c := Client(s.clients[c].waiter, phase)])
  }

  ghost predicate SameQueue(s: System, after: System) {
    after.port == s.port && after.pushed == s.pushed && after.popped == s.popped
  }

  /** The answer of the critical section that looks like a full, or an empty, queue. */
  function LooksBlocked(goal: Goal): FoundationStatus {
    if goal.PushGoal? then FULL else EMPTY
  }

  /**
   How an attempt of a waiting call ends: CANCELLED on a stopped port, asleep when there is nothing to
   move, with the answer of a critical section that cannot be entered, and OK otherwise.
   */
  ghost predicate AttemptAnswered(s: System, c: nat, entered: FoundationStatus, after: System)
    requires Enabled(s, Attempt(c, entered))
  {
    var state, goal := s.port.state, s.clients[c].phase.goal;
    var sleeping := Sleeping(goal, s.clients[c].phase.before, []);
    && (state == STOPPED ==> Ends(s, c, CANCELLED, [], after) && SameQueue(s, after))
    && (state != STOPPED && state != READY ==> Ends(s, c, INVALID_STATE, [], after) && SameQueue(s, after))
    && (state == READY && entered == OK && Blocked(s.port, goal) ==> OnlyPhase(s, c, sleeping, after))
    && (state == READY && entered == LooksBlocked(goal) ==> OnlyPhase(s, c, sleeping, after))
    && (state == READY && entered != OK && entered != LooksBlocked(goal) ==>
         Ends(s, c, entered, [], after) && SameQueue(s, after))
    && (state == READY && entered == OK && !Blocked(s.port, goal) ==>
         Ends(s, c, OK, [if goal.PushGoal? then goal.data else Elements(s.port.ring)[0]], after))
  }

  /** An attempt that moves an element. */
  lemma {:induction false} AttemptSucceeds(sizeMax: nat, s: System, c: nat)
    requires Inv(sizeMax, s) && Enabled(s, Attempt(c, OK))
    requires s.port.state == READY && !Blocked(s.port, s.clients[c].phase.goal)
    ensures var goal := s.clients[c].phase.goal;
            Ends(s, c, OK, [if goal.PushGoal? then goal.data else Elements(s.port.ring)[0]],
                 AttemptStep(sizeMax, s, c, OK))
  {
    assert Waits(s.port, s.clients[c]);
    TryMovesOne(sizeMax, s.port, s.clients[c].phase.goal, OK);
    var r := Try(sizeMax, s.port, s.clients[c].phase.goal, OK);
    assert [] + r.moved == r.moved;
  }

  /** An attempt that moves nothing. */
  lemma {:induction false} AttemptFails(sizeMax: nat, s: System, c: nat, entered: FoundationStatus)
    requires Inv(sizeMax, s) && Enabled(s, Attempt(c, entered))
    requires s.port.state != READY || entered != OK || Blocked(s.port, s.clients[c].phase.goal)
    ensures AttemptAnswered(s, c, entered, AttemptStep(sizeMax, s, c, entered))
  {
    assert Waits(s.port, s.clients[c]);
    var r := Try(sizeMax, s.port, s.clients[c].phase.goal, entered);
    assert r.port == s.port && [] + r.moved == [];
    assert s.pushed + [] == s.pushed && s.popped + [] == s.popped;
  }

  lemma {:induction false} AttemptAnswers(sizeMax: nat, s: System, c: nat, entered: FoundationStatus)
    requires Inv(sizeMax, s) && Enabled(s, Attempt(c, entered))
    ensures AttemptAnswered(s, c, entered, Do(sizeMax, s, Attempt(c, entered)))
  {
    if s.port.state == READY && entered == OK && !Blocked(s.port, s.clients[c].phase.goal) {
      AttemptSucceeds(sizeMax, s, c);
    } else {
      AttemptFails(sizeMax, s, c, entered);
    }
  }

  /** The wait port's answer OK means another attempt; every other answer is the status of the call. */
  lemma {:induction false} WakeAnswers(sizeMax: nat, s: System, c: nat, waited: FoundationStatus)
    requires Inv(sizeMax, s) && Enabled(s, Wake(c, waited))
    ensures var after, phase := Do(sizeMax, s, Wake(c, waited)), s.clients[c].phase;
            if waited == OK then OnlyPhase(s, c, Trying(phase.goal, phase.before, []), after)
            else Ends(s, c, waited, [], after) && SameQueue(s, after)
  {
    assert Waits(s.port, s.clients[c]);
  }

  /** A call begins with an idle waiter, which then waits, or is refused at once. */
  lemma {:induction false} BeginAnswers(sizeMax: nat, s: System, c: nat, goal: Goal)
    requires Enabled(s, Begin(c, goal))
    ensures var after, waiter := Do(sizeMax, s, Begin(c, goal)), s.clients[c].waiter;
            if waiter.state == IDLE then
              after == s.(clients := s.clients[c := Client(Waiter(WAITING, waiter.result), Trying(goal, waiter, []))])
            else after == s.(calls := s.calls + [Call(c, goal, waiter, waiter, INVALID_STATE, [])])
  {
    assert s.clients[c].waiter == Waiter(s.clients[c].waiter.state, s.clients[c].waiter.result);
  }

  /** The queue is empty in this state, over the same storage, and its clients are where they were. */
  ghost predicate EmptyIn(state: PortState, s: System, after: System) {
    && ValidRing(s.port.ring) && ValidRing(after.port.ring)
    && after.port.state == state && Elements(after.port.ring) == [] && after.pushed == [] && after.popped == []
    && after.port.ring.storage == s.port.ring.storage && after.port.ring.capacity == s.port.ring.capacity
    && after.port.ring.elementSize == s.port.ring.elementSize
    && after.clients == s.clients && after.calls == s.calls
  }

  /** Stopping, starting and resetting leave an empty queue in the new state, or refuse and change nothing. */
  lemma {:induction false} LifecycleEmpties(sizeMax: nat, s: System)
    requires ValidRing(s.port.ring)
    ensures if s.port.state == READY then EmptyIn(STOPPED, s, Do(sizeMax, s, Stop)) else Do(sizeMax, s, Stop) == s
    ensures if s.port.state == STOPPED then EmptyIn(READY, s, Do(sizeMax, s, Start)) else Do(sizeMax, s, Start) == s
    ensures if s.port.state == READY then EmptyIn(READY, s, Do(sizeMax, s, Reset)) else Do(sizeMax, s, Reset) == s
  {
    assert Elements(Cleared(s.port, READY).ring) == Elements(Cleared(s.port, STOPPED).ring) == [];
  }

  /** A finished waiter becomes idle again; any other stays as it is. */
  lemma {:induction false} ResetAnswers(sizeMax: nat, s: System, c: nat)
    requires Enabled(s, ResetWaiter(c))
    ensures var waiter := s.clients[c].waiter;
            Do(sizeMax, s, ResetWaiter(c)) ==
            if waiter.state == COMPLETED || waiter.state == CANCELLED_WAITER then
              s.(clients := s.clients[c := Client(Waiter(IDLE, waiter.result), Outside)])
            else s
  {
    assert s.clients[c := s.clients[c]] == s.clients;
  }

  /** Nobody is stuck: wherever a client is in its call, its next action is possible, with every answer. */
  lemma {:induction false} NextIsPossible(sizeMax: nat, s: System, c: nat, goal: Goal, answer: FoundationStatus)
    requires Inv(sizeMax, s) && c < |s.clients| && WellFormed(s.port, goal)
    ensures Enabled(s, Immediate(goal, answer)) && Enabled(s, Stop) && Enabled(s, Start) && Enabled(s, Reset)
    ensures match s.clients[c].phase
            case Outside => Enabled(s, Begin(c, goal)) && Enabled(s, ResetWaiter(c))
            case Trying(_, _, _) => Enabled(s, Attempt(c, answer))
            case Sleeping(_, _, _) => Enabled(s, Wake(c, answer))
  {
    assert Waits(s.port, s.clients[c]);
  }

  /** Over every run: each answer of the wait port, and each attempt, ends its call with exactly that status. */
  lemma {:induction false} RunAnswers(sizeMax: nat, actions: seq<Action>, states: seq<System>, k: nat)
    requires IsRun(sizeMax, actions, states) && k < |actions|
    ensures Enabled(states[k], actions[k])
    ensures actions[k].Wake? && actions[k].waited != OK ==>
      Ends(states[k], actions[k].client, actions[k].waited, [], states[k + 1]) && SameQueue(states[k], states[k + 1])
    ensures actions[k].Wake? && actions[k].waited == OK ==>
      OnlyPhase(states[k], actions[k].client, Trying(states[k].clients[actions[k].client].phase.goal,
                states[k].clients[actions[k].client].phase.before, []), states[k + 1])
    ensures actions[k].Attempt? ==>
      AttemptAnswered(states[k], actions[k].client, actions[k].entered, states[k + 1])
  {
    RunKeepsInv(sizeMax, actions, states, k);
    assert Next(sizeMax, states[k], actions[k], states[k + 1]);
    match actions[k] {
      case Wake(c, waited) => WakeAnswers(sizeMax, states[k], c, waited);
      case Attempt(c, entered) => AttemptAnswers(sizeMax, states[k], c, entered);
      case _ =>
    }
  }

  // ---------------------------------------------------------------- one whole call

  /** The answer of one round to a waiting call, in terms of the port its attempt sees; None: another round. */
  ghost function Answer(port: Port, goal: Goal, round: Round): Option<FoundationStatus>
    requires ValidRing(port.ring)
  {
    if port.state == STOPPED then Some(CANCELLED)
    else if port.state != READY then Some(INVALID_STATE)
    else if round.entered == OK && !Blocked(port, goal) then Some(OK)
    else if round.entered != OK && round.entered != LooksBlocked(goal) then Some(round.entered)
    else if round.waited != OK then Some(round.waited)
    else None
  }

  /** How a round answers the pending call of client c: its attempt sees the port that the others leave. */
  ghost function AnswerIn(sizeMax: nat, now: System, c: nat, round: Round): Option<FoundationStatus>
    requires Pending(now, c)
  {
    Answer(AfterOthers(sizeMax, now, c, round.before).port, now.clients[c].phase.goal, round)
  }

  /** The client with this waiting waiter is about to try, for the first time or again. */
  ghost predicate Waiting(s: System, c: nat) {
    Pending(s, c) && s.clients[c].waiter.state == WAITING
  }

  /** A round ends the call exactly when it answers, with that status; otherwise the client tries again. */
  lemma {:induction false} RoundAnswers(sizeMax: nat, s: System, c: nat, round: Round)
    requires Waiting(s, c)
    ensures match AnswerIn(sizeMax, s, c, round)
            case Some(w) => OneRound(sizeMax, s, c, round).clients[c] == Client(Ended(w), Outside)
            case None => Waiting(OneRound(sizeMax, s, c, round), c)
                         && OneRound(sizeMax, s, c, round).clients[c].phase.goal == s.clients[c].phase.goal
  {
    var ready := AfterOthers(sizeMax, s, c, round.before);
    var tried := AttemptStep(sizeMax, ready, c, round.entered);
    assert tried == Tried(sizeMax, s, c, round);
    if tried.clients[c].phase.Sleeping? {
      assert tried.clients[c].waiter == s.clients[c].waiter;
      assert AfterOthers(sizeMax, tried, c, round.asleep).clients[c] == tried.clients[c];
    }
  }

  /** The first answer among the rounds from k on. */
  ghost function FirstAnswer(sizeMax: nat, s: System, c: nat, rounds: seq<Round>, k: nat): Option<FoundationStatus>
    requires Pending(s, c) && k <= |rounds|
    decreases |rounds| - k
  {
    if k == |rounds| then None
    else
      var answer, next := AnswerIn(sizeMax, s, c, rounds[k]), OneRound(sizeMax, s, c, rounds[k]);
      if answer.None? && Pending(next, c) then FirstAnswer(sizeMax, next, c, rounds, k + 1) else answer
  }

  lemma {:induction false} LoopAnswers(sizeMax: nat, s: System, c: nat, rounds: seq<Round>, k: nat)
    requires Waiting(s, c) && k <= |rounds|
    ensures var last := AfterRounds(sizeMax, s, c, rounds, k).clients[c];
            match FirstAnswer(sizeMax, s, c, rounds, k)
            case Some(w) => last == Client(Ended(w), Outside)
            case None => last.phase.Trying? && last.waiter.state == WAITING
    decreases |rounds| - k
  {
    if k < |rounds| {
      RoundAnswers(sizeMax, s, c, rounds[k]);
      var next := OneRound(sizeMax, s, c, rounds[k]);
      if Pending(next, c) {
        LoopAnswers(sizeMax, next, c, rounds, k + 1);
      }
    }
  }

  /** The first answer to a call that begins now. */
  ghost function CallAnswer(sizeMax: nat, s: System, c: nat, goal: Goal, rounds: seq<Round>): Option<FoundationStatus>
    requires Enabled(s, Begin(c, goal)) && s.clients[c].waiter.state == IDLE
  {
    FirstAnswer(sizeMax, Do(sizeMax, s, Begin(c, goal)), c, rounds, 0)
  }

  /** A call that starts with an idle waiter returns the first answer, and waits as long as there is none. */
  lemma {:induction false} CallAnswers(sizeMax: nat, s: System, c: nat, goal: Goal, rounds: seq<Round>)
    requires Enabled(s, Begin(c, goal)) && s.clients[c].waiter.state == IDLE
    ensures var last := AfterCall(sizeMax, s, c, goal, rounds).clients[c];
            match CallAnswer(sizeMax, s, c, goal, rounds)
            case Some(w) => last == Client(Ended(w), Outside)
            case None => last.phase.Trying? && last.waiter.state == WAITING
  {
    LoopAnswers(sizeMax, Do(sizeMax, s, Begin(c, goal)), c, rounds, 0);
  }

  /** The attempt of this round finds nothing to move. */
  ghost predicate Sleeps(sizeMax: nat, s: System, c: nat, round: Round)
    requires Pending(s, c)
  {
    var port, goal := AfterOthers(sizeMax, s, c, round.before).port, s.clients[c].phase.goal;
    port.state == READY && (round.entered == LooksBlocked(goal) || (round.entered == OK && Blocked(port, goal)))
  }

  /** From round k up to round last every attempt sleeps, and only round last is not woken with OK. */
  ghost predicate SleepsUntil(sizeMax: nat, s: System, c: nat, rounds: seq<Round>, k: nat, last: nat)
    requires Pending(s, c) && k <= last < |rounds|
    decreases last - k
  {
    && Sleeps(sizeMax, s, c, rounds[k])
    && if k == last then rounds[k].waited != OK
       else
         var next := OneRound(sizeMax, s, c, rounds[k]);
         rounds[k].waited == OK && Pending(next, c) && SleepsUntil(sizeMax, next, c, rounds, k + 1, last)
  }

  lemma {:induction false} SleepAnswers(sizeMax: nat, s: System, c: nat, round: Round)
    requires Pending(s, c) && Sleeps(sizeMax, s, c, round)
    ensures AnswerIn(sizeMax, s, c, round) == if round.waited == OK then None else Some(round.waited)
  {
  }

  /** Then the call returns what the wait port answered last. */
  lemma {:induction false} WaitAnswers(sizeMax: nat, s: System, c: nat, rounds: seq<Round>, k: nat, last: nat)
    requires Pending(s, c) && k <= last < |rounds| && SleepsUntil(sizeMax, s, c, rounds, k, last)
    ensures FirstAnswer(sizeMax, s, c, rounds, k) == Some(rounds[last].waited)
    decreases last - k
  {
    SleepAnswers(sizeMax, s, c, rounds[k]);
    if k < last {
      WaitAnswers(sizeMax, OneRound(sizeMax, s, c, rounds[k]), c, rounds, k + 1, last);
    }
  }
}
