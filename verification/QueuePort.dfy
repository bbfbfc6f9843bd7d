/** waiter.c: the waiter object. */
module Waiters {
  import opened FoundationStatuses
  import Spec = QueuePortSpec

  class Waiter {
    var state: Spec.WaiterState
    var owner: object?
    var result: FoundationStatus

    ghost function View(): Spec.Waiter
      reads this
    {
      Spec.Waiter(state, result)
    }

    constructor ()
      ensures state == Spec.UNINITIALIZED_WAITER
    {
      state, owner, result := Spec.UNINITIALIZED_WAITER, null, OK;
    }

    /** waiter_init. */
    method Init() returns (status: FoundationStatus)
      modifies this
      ensures old(state) == Spec.UNINITIALIZED_WAITER ==>
        status == OK && View() == Spec.Waiter(Spec.IDLE, OK) && owner == null
      ensures old(state) != Spec.UNINITIALIZED_WAITER ==> status == BUSY && unchanged(this)
    {
      if state != Spec.UNINITIALIZED_WAITER {
        return BUSY;
      }
      state, owner, result := Spec.IDLE, null, OK;
      return OK;
    }

    /** waiter_begin. */
    method Begin(newOwner: object) returns (status: FoundationStatus)
      modifies this`state, this`owner
      ensures (status, View()) == Spec.Begun(old(View()))
      ensures old(state) == Spec.IDLE ==> status == OK && View() == Spec.Waiter(Spec.WAITING, old(result))
      ensures old(state) != Spec.IDLE ==> status == INVALID_STATE && unchanged(this)
      ensures owner == if status == OK then newOwner else old(owner)
    {
      if state != Spec.IDLE {
        return INVALID_STATE;
      }
      owner := newOwner;
      state := Spec.WAITING;
      return OK;
    }

    /** waiter_complete. */
    method Complete(outcome: FoundationStatus) returns (status: FoundationStatus)
      modifies this`state, this`result
      ensures (status, View()) == Spec.Completed(old(View()), outcome)
      ensures old(state) == Spec.WAITING ==> status == result == outcome
      ensures old(state) == Spec.WAITING ==>
        state == if outcome == CANCELLED then Spec.CANCELLED_WAITER else Spec.COMPLETED
      ensures old(state) != Spec.WAITING ==> status == INVALID_STATE && unchanged(this)
    {
      if state != Spec.WAITING {
        return INVALID_STATE;
      }
      result := outcome;
      state := if outcome == CANCELLED then Spec.CANCELLED_WAITER else Spec.COMPLETED;
      return outcome;
    }

    /** waiter_reset. */
    method Reset() returns (status: FoundationStatus)
      modifies this`state, this`owner
      ensures (status, View()) == Spec.WasReset(old(View()))
      ensures old(state) in {Spec.COMPLETED, Spec.CANCELLED_WAITER} ==>
        status == OK && View() == Spec.Waiter(Spec.IDLE, old(result))
      ensures old(state) !in {Spec.COMPLETED, Spec.CANCELLED_WAITER} ==> status == INVALID_STATE && unchanged(this)
      ensures owner == if status == OK then null else old(owner)
    {
      if state != Spec.COMPLETED && state != Spec.CANCELLED_WAITER {
        return INVALID_STATE;
      }
      owner := null;
      state := Spec.IDLE;
      return OK;
    }
  }
}

/** queue_port.c: the queue object; the critical section and the wait port answer through parameters. */
module QueuePort {
  import opened BlockRing
  import opened FoundationStatuses
  import opened Integers
  import opened Options
  import opened QueuePortAnswers
  import opened QueuePortCalls
  import opened QueuePortInterleaving
  import opened QueuePortSpec
  import FixedQueueSpec
  import W = Waiters

  class QueuePort {
    const sizeMax: nat
    var storage: array<byte>
    var elementSize: nat
    var capacity: nat
    var head: nat
    var size: nat
    var state: PortState

    ghost function View(): Port
      reads this, storage
    {
      Port(Ring(storage[..], elementSize, capacity, head, size), state)
    }

    /** Initialized and not yet deinitialized. */
    predicate Bound()
      reads this
    {
      state == READY || state == STOPPED
    }

    ghost predicate Valid()
      reads this, storage
    {
      Bound() ==> ValidRing(View().ring) && capacity * elementSize <= sizeMax && capacity <= sizeMax
    }

    constructor (sizeMax: nat)
      ensures Valid() && state == UNINITIALIZED && this.sizeMax == sizeMax
    {
      this.sizeMax := sizeMax;
      storage := new byte[0];
      elementSize, capacity, head, size, state := 0, 0, 0, 0, UNINITIALIZED;
    }

    /** queue_port_init. */
    method Init(buffer: array<byte>, bytesEach: nat, elements: nat) returns (status: FoundationStatus)
      requires Valid()
      modifies this
      ensures Valid()
      ensures status ==
        if bytesEach == 0 || elements == 0 then INVALID_ARGUMENT
        else if elements * bytesEach > sizeMax then OVERFLOW
        else if buffer.Length < elements * bytesEach then BUFFER_TOO_SMALL
        else if old(Bound()) then BUSY
        else OK
      ensures status == OK ==>
        && state == READY && storage == buffer && capacity == elements && elementSize == bytesEach
        && Elements(View().ring) == [] && Fresh(sizeMax, View())
      ensures status != OK ==> unchanged(this)
    {
      if bytesEach == 0 || elements == 0 {
        return INVALID_ARGUMENT;
      }
      FixedQueueSpec.ProductFits(elements, bytesEach, sizeMax);
      if elements > sizeMax / bytesEach {
        return OVERFLOW;
      }
      if buffer.Length < elements * bytesEach {
        return BUFFER_TOO_SMALL;
      }
      if state == READY || state == STOPPED {
        return BUSY;
      }
      AtMostProduct(elements, bytesEach);
      storage, elementSize, capacity, head, size, state := buffer, bytesEach, elements, 0, 0, READY;
      return OK;
    }

    /** queue_port_start. */
    method Start() returns (status: FoundationStatus)
      requires Valid()
      modifies this`head, this`size, this`state
      ensures Valid()
      ensures old(state) == STOPPED ==>
        status == OK && state == READY && Elements(View().ring) == [] && View() == Cleared(old(View()), READY)
      ensures old(state) != STOPPED ==> status == INVALID_STATE && unchanged(this)
    {
      if state != STOPPED {
        return INVALID_STATE;
      }
      head, size, state := 0, 0, READY;
      return OK;
    }

    /** queue_port_stop; waking the sleepers is the wait port's part. */
    method Stop() returns (status: FoundationStatus)
      requires Valid()
      modifies this`head, this`size, this`state
      ensures Valid()
      ensures old(state) == READY ==>
        status == OK && state == STOPPED && Elements(View().ring) == [] && View() == Cleared(old(View()), STOPPED)
      ensures old(state) != READY ==> status == INVALID_STATE && unchanged(this)
    {
      if state != READY {
        return INVALID_STATE;
      }
      state, head, size := STOPPED, 0, 0;
      return OK;
    }

    /** queue_port_reset. */
    method Reset() returns (status: FoundationStatus)
      requires Valid()
      modifies this`head, this`size
      ensures Valid()
      ensures state == READY ==>
        status == OK && Elements(View().ring) == [] && View() == Cleared(old(View()), READY)
      ensures state != READY ==> status == INVALID_STATE && unchanged(this)
    {
      if state != READY {
        return INVALID_STATE;
      }
      head, size := 0, 0;
      return OK;
    }

    /** queue_port_deinit. */
    method Deinit() returns (status: FoundationStatus)
      requires Valid()
      modifies this`state
      ensures Valid()
      ensures status == if old(state) == READY then BUSY else if old(state) != STOPPED then INVALID_STATE else OK
      ensures state == if status == OK then DEINITIALIZED else old(state)
    {
      if state == READY {
        return BUSY;
      }
      if state != STOPPED {
        return INVALID_STATE;
      }
      state := DEINITIALIZED;
      return OK;
    }

    /** queue_push_locked. */
    method PushUnderLock(data: seq<byte>) returns (status: FoundationStatus)
      requires Valid() && Bound() && |data| == elementSize
      modifies this`size, storage
      ensures var r := PushLocked(sizeMax, old(View()), data); View() == r.port && status == r.status
    {
      if size == capacity {
        return FULL;
      }
      var index := ((head + size) % (sizeMax + 1)) % capacity;
      assert index == WriteSlot(sizeMax, capacity, head, size);
      SlotsApart(index, capacity, elementSize);
      CopyIntoSlot(storage, elementSize, index, data);
      size := size + 1;
      return OK;
    }

    /** queue_pop_locked. */
    method PopUnderLock(output: array<byte>) returns (status: FoundationStatus)
      requires Valid() && Bound() && output != storage && output.Length == elementSize
      modifies this`size, this`head, output
      ensures var r := PopLocked(old(View()));
              View() == r.port && status == r.status
              && if status == OK then r.moved == [output[..]] else unchanged(output)
    {
      if size == 0 {
        return EMPTY;
      }
      SlotsApart(head, capacity, elementSize);
      assert SlotAt(View().ring, 0) == head;
      CopyIntoSlot(output, elementSize, 0, Block(storage[..], elementSize, head));
      assert output[..] == Block(storage[..], elementSize, head);
      head := (head + 1) % capacity;
      size := size - 1;
      return OK;
    }

    /** queue_try_push_internal: queue_port_try_push and queue_port_push_isr. */
    method TryPush(data: seq<byte>, entered: FoundationStatus) returns (status: FoundationStatus)
      requires Valid() && (Bound() ==> |data| == elementSize)
      modifies this`size, storage
      ensures Valid()
      ensures Bound() ==>
        var r := Try(sizeMax, old(View()), PushGoal(data), entered);
        View() == r.port && status == r.status
      ensures !Bound() ==> status == INVALID_STATE && unchanged(this) && unchanged(storage)
    {
      if state != READY {
        return INVALID_STATE;
      }
      if entered != OK {
        return entered;
      }
      status := PushUnderLock(data);
    }

    /** queue_try_pop_internal: queue_port_try_pop and queue_port_pop_isr. */
    method TryPop(output: array<byte>, entered: FoundationStatus) returns (status: FoundationStatus)
      requires Valid() && output != storage && (Bound() ==> output.Length == elementSize)
      modifies this`size, this`head, output
      ensures Valid()
      ensures Bound() ==>
        var r := Try(sizeMax, old(View()), PopGoal, entered);
        View() == r.port && status == r.status && if status == OK then r.moved == [output[..]] else unchanged(output)
      ensures !Bound() ==> status == INVALID_STATE && unchanged(this) && unchanged(output)
    {
      if state != READY {
        return INVALID_STATE;
      }
      if entered != OK {
        return entered;
      }
      status := PopUnderLock(output);
    }

    // -------------------------------------------------------------- waiting

    /** What an action of another client does to this port. */
    method Perform(s: System, a: Action)
      requires Valid() && Bound() && s.port == View() && Enabled(s, a)
      modifies this`size, this`head, this`state, storage
      ensures Valid() && Bound() && View() == Do(sizeMax, s, a).port
    {
      var ignored;
      match a
      case Attempt(d, entered) => AttemptFor(s.clients[d].phase.goal, entered);
      case Immediate(goal, entered) => AttemptFor(goal, entered);
      case Stop => ignored := Stop();
      case Start => ignored := Start();
      case Reset => ignored := Reset();
      case _ =>
    }

    method AttemptFor(goal: Goal, entered: FoundationStatus)
      requires Valid() && Bound() && WellFormed(View(), goal)
      modifies this`size, this`head, storage
      ensures Valid() && Bound() && View() == Try(sizeMax, old(View()), goal, entered).port
    {
      var ignored;
      if goal.PushGoal? {
        ignored := TryPush(goal.data, entered);
      } else {
        var output := new byte[elementSize];
        ignored := TryPop(output, entered);
      }
    }

    /** The actions of all other clients, one after the other. */
    method LetOthers(s: System, c: nat, others: seq<Action>) returns (next: System)
      requires Valid() && Bound() && s.port == View()
      modifies this`size, this`head, this`state, storage
      ensures Valid() && Bound()
      ensures next == AfterOthers(sizeMax, s, c, others) && View() == next.port
    {
      next := s;
      assert others[..0] == [];
      for i := 0 to |others|
        invariant Valid() && Bound()
        invariant next == AfterOthers(sizeMax, s, c, others[..i]) && View() == next.port
      {
        assert others[..i + 1][..i] == others[..i];
        if ByOthers(c, others[i]) && Enabled(next, others[i]) {
          Perform(next, others[i]);
        }
        next := Let(sizeMax, next, c, others[i]);
      }
      assert others[..|others|] == others;
    }

    /** The end of a round: the client sleeps while others act, and wakes with the answer of the wait port. */
    method Sleep(waiter: W.Waiter, s: System, c: nat, round: Round)
      returns (status: FoundationStatus, done: bool, next: System)
      requires Valid() && Bound() && s.port == View() && c < |s.clients| && s.clients[c].phase.Sleeping?
      requires s.clients[c].waiter == waiter.View() && waiter.state == WAITING
      modifies this`size, this`head, this`state, storage, waiter
      ensures Valid() && Bound()
      ensures next == Woken(sizeMax, s, c, round) && View() == next.port
      ensures next.clients[c].waiter == waiter.View()
      ensures done == next.clients[c].phase.Outside? == (status != OK)
      ensures if done then status == waiter.result else waiter.View() == old(waiter.View())
      ensures !done ==>
        next.clients[c].phase == Trying(s.clients[c].phase.goal, s.clients[c].phase.before, s.clients[c].phase.moved)
    {
      next := LetOthers(s, c, round.asleep);
      status := round.waited;
      next := Do(sizeMax, next, Wake(c, status));
      done := status != OK;
      if done {
        status := waiter.Complete(status);
      }
    }

    /** One attempt of queue_port_push_until: the call returns, or the client goes to sleep. */
    method PushAttempt(waiter: W.Waiter, data: seq<byte>, s: System, c: nat, entered: FoundationStatus)
      returns (status: FoundationStatus, done: bool, next: System)
      requires Valid() && Bound() && s.port == View() && InCall(s, c, waiter.View(), PushGoal(data))
      modifies this`size, storage, waiter
      ensures Valid() && Bound()
      ensures next == AttemptStep(sizeMax, s, c, entered) && View() == next.port
      ensures next.clients[c].waiter == waiter.View()
      ensures done == next.clients[c].phase.Outside?
      ensures if done then status == waiter.result else waiter.View() == old(waiter.View())
      ensures !done ==>
        && next.clients[c].phase.Sleeping? && next.clients[c].phase.goal == PushGoal(data)
        && next.clients[c].phase.moved == []
    {
      AttemptOutcome(sizeMax, s, c, waiter.View(), PushGoal(data), entered);
      next := AttemptStep(sizeMax, s, c, entered);
      status := TryPush(data, entered);
      done := status != FULL;
      if status == INVALID_STATE && state == STOPPED {
        status := waiter.Complete(CANCELLED);
      } else if done {
        status := waiter.Complete(status);
      }
    }

    /** One round of the loop of queue_port_push_until. */
    method PushRound(waiter: W.Waiter, data: seq<byte>, s: System, c: nat, round: Round)
      returns (status: FoundationStatus, done: bool, next: System)
      requires Valid() && Bound() && s.port == View() && InCall(s, c, waiter.View(), PushGoal(data))
      modifies this`size, this`head, this`state, storage, waiter
      ensures Valid() && Bound()
      ensures next == OneRound(sizeMax, s, c, round) && View() == next.port
      ensures next.clients[c].waiter == waiter.View() && done == next.clients[c].phase.Outside?
      ensures if done then status == waiter.result else InCall(next, c, waiter.View(), PushGoal(data))
    {
      next := LetOthers(s, c, round.before);
      status, done, next := PushAttempt(waiter, data, next, c, round.entered);
      if !done {
        status, done, next := Sleep(waiter, next, c, round);
      }
    }

    /** The loop of queue_port_push_until. */
    method PushLoop(waiter: W.Waiter, data: seq<byte>, rounds: seq<Round>, start: System, c: nat)
      returns (status: FoundationStatus, finished: bool)
      requires Valid() && Bound() && start.port == View() && InCall(start, c, waiter.View(), PushGoal(data))
      modifies this`size, this`head, this`state, storage, waiter
      ensures Valid()
      ensures var r := AfterRounds(sizeMax, start, c, rounds, 0);
              && View() == r.port && waiter.View() == r.clients[c].waiter
              && finished == r.clients[c].phase.Outside? && (finished ==> status == waiter.result)
    {
      ghost var final := AfterRounds(sizeMax, start, c, rounds, 0);
      var now, k := start, 0;
      status := OK;
      while k < |rounds|
        invariant k <= |rounds| && Valid() && Bound()
        invariant now.port == View() && InCall(now, c, waiter.View(), PushGoal(data))
        invariant AfterRounds(sizeMax, now, c, rounds, k) == final
      {
        RoundsUnfold(sizeMax, now, c, rounds, k, final);
        status, finished, now := PushRound(waiter, data, now, c, rounds[k]);
        if finished {
          return;
        }
        k := k + 1;
      }
      finished := false;
    }

    /**
     queue_port_push_until. Other clients appear with their actions in rounds; before and c place the call
     among them. When it has finished, it ended as the same call ends there: with the same port, the same
     waiter, and the status that the waiter holds. Otherwise the rounds are over and the client still waits.
     */
    method PushUntil(waiter: W.Waiter, data: seq<byte>, rounds: seq<Round>, before: System, c: nat)
      returns (status: FoundationStatus, finished: bool)
      requires Valid() && (Bound() ==> |data| == elementSize)
      requires Bound() ==>
        before.port == View() && c < |before.clients| && before.clients[c] == Client(waiter.View(), Outside)
      modifies this`size, this`head, this`state, storage, waiter
      ensures Valid()
      ensures old(waiter.state) != IDLE ==>
        finished && status == INVALID_STATE && unchanged(this) && unchanged(storage) && unchanged(waiter)
      ensures old(waiter.state) == IDLE && !old(Bound()) ==>
        && finished && status == INVALID_STATE && waiter.View() == Waiter(COMPLETED, INVALID_STATE)
        && unchanged(this) && unchanged(storage)
      ensures old(waiter.state) == IDLE && old(Bound()) ==>
        && before.clients[c].waiter.state == IDLE
        && CallAnswer(sizeMax, before, c, PushGoal(data), rounds) == (if finished then Some(status) else None)
        && var r := AfterCall(sizeMax, before, c, PushGoal(data), rounds);
           && View() == r.port && waiter.View() == r.clients[c].waiter
           && finished == r.clients[c].phase.Outside? && (finished ==> status == waiter.result)
    {
      finished := true;
      status := waiter.Begin(this);
      if status != OK {
        return;
      }
      if !Bound() {
        status := TryPush(data, OK);
        var ignored := waiter.Complete(status);
        return;
      }
      var begun := Do(sizeMax, before, Begin(c, PushGoal(data)));
      CallAnswers(sizeMax, before, c, PushGoal(data), rounds);
      status, finished := PushLoop(waiter, data, rounds, begun, c);
    }

    /** One attempt of queue_port_pop_until: the call returns, or the client goes to sleep. */
    method PopAttempt(waiter: W.Waiter, output: array<byte>, s: System, c: nat, entered: FoundationStatus)
      returns (status: FoundationStatus, done: bool, next: System)
      requires Valid() && Bound() && s.port == View() && InCall(s, c, waiter.View(), PopGoal)
      requires output != storage && output.Length == elementSize
      modifies this`size, this`head, waiter, output
      ensures Valid() && Bound()
      ensures next == AttemptStep(sizeMax, s, c, entered) && View() == next.port
      ensures next.clients[c].waiter == waiter.View()
      ensures done == next.clients[c].phase.Outside?
      ensures if done then status == waiter.result else waiter.View() == old(waiter.View())
      ensures !done ==>
        && next.clients[c].phase.Sleeping? && next.clients[c].phase.goal == PopGoal
        && next.clients[c].phase.moved == []
      ensures done && status == OK ==> next.calls != [] && next.calls[|next.calls| - 1].moved == [output[..]]
      ensures !done || status != OK ==> output[..] == old(output[..])
    {
      AttemptOutcome(sizeMax, s, c, waiter.View(), PopGoal, entered);
      next := AttemptStep(sizeMax, s, c, entered);
      status := TryPop(output, entered);
      done := status != EMPTY;
      if status == INVALID_STATE && state == STOPPED {
        status := waiter.Complete(CANCELLED);
      } else if done {
        status := waiter.Complete(status);
      }
    }

    /** One round of the loop of queue_port_pop_until. */
    method PopRound(waiter: W.Waiter, output: array<byte>, s: System, c: nat, round: Round)
      returns (status: FoundationStatus, done: bool, next: System)
      requires Valid() && Bound() && s.port == View() && InCall(s, c, waiter.View(), PopGoal)
      requires output != storage && output.Length == elementSize
      modifies this`size, this`head, this`state, storage, waiter, output
      ensures Valid() && Bound()
      ensures next == OneRound(sizeMax, s, c, round) && View() == next.port
      ensures next.clients[c].waiter == waiter.View() && done == next.clients[c].phase.Outside?
      ensures if done then status == waiter.result else InCall(next, c, waiter.View(), PopGoal)
      ensures done && status == OK ==> next.calls != [] && next.calls[|next.calls| - 1].moved == [output[..]]
      ensures !done || status != OK ==> output[..] == old(output[..])
    {
      next := LetOthers(s, c, round.before);
      status, done, next := PopAttempt(waiter, output, next, c, round.entered);
      if !done {
        status, done, next := Sleep(waiter, next, c, round);
      }
    }

    /** The loop of queue_port_pop_until. */
    method PopLoop(waiter: W.Waiter, output: array<byte>, rounds: seq<Round>, start: System, c: nat)
      returns (status: FoundationStatus, finished: bool)
      requires Valid() && Bound() && start.port == View() && InCall(start, c, waiter.View(), PopGoal)
      requires output != storage && output.Length == elementSize
      modifies this`size, this`head, this`state, storage, waiter, output
      ensures Valid()
      ensures var r := AfterRounds(sizeMax, start, c, rounds, 0);
              && View() == r.port && waiter.View() == r.clients[c].waiter
              && finished == r.clients[c].phase.Outside? && (finished ==> status == waiter.result)
              && (finished && status == OK ==> r.calls != [] && r.calls[|r.calls| - 1].moved == [output[..]])
      ensures !finished || status != OK ==> output[..] == old(output[..])
    {
      ghost var final := AfterRounds(sizeMax, start, c, rounds, 0);
      var now, k := start, 0;
      status := OK;
      while k < |rounds|
        invariant k <= |rounds| && Valid() && Bound() && output[..] == old(output[..])
        invariant now.port == View() && InCall(now, c, waiter.View(), PopGoal)
        invariant AfterRounds(sizeMax, now, c, rounds, k) == final
      {
        RoundsUnfold(sizeMax, now, c, rounds, k, final);
        status, finished, now := PopRound(waiter, output, now, c, rounds[k]);
        if finished {
          return;
        }
        k := k + 1;
      }
      finished := false;
    }

    /**
     queue_port_pop_until. Other clients appear with their actions in rounds; before and c place the call
     among them. When it has finished, it ended as the same call ends there: with the same port, the same
     waiter, and the status that the waiter holds. Otherwise the rounds are over and the client still waits.
     */
    method PopUntil(waiter: W.Waiter, output: array<byte>, rounds: seq<Round>, before: System, c: nat)
      returns (status: FoundationStatus, finished: bool)
      requires Valid() && output != storage && (Bound() ==> output.Length == elementSize)
      requires Bound() ==>
        before.port == View() && c < |before.clients| && before.clients[c] == Client(waiter.View(), Outside)
      modifies this`size, this`head, this`state, storage, waiter, output
      ensures Valid()
      ensures old(waiter.state) != IDLE ==>
        finished && status == INVALID_STATE && unchanged(this) && unchanged(storage) && unchanged(waiter)
      ensures old(waiter.state) == IDLE && !old(Bound()) ==>
        && finished && status == INVALID_STATE && waiter.View() == Waiter(COMPLETED, INVALID_STATE)
        && unchanged(this) && unchanged(storage)
      ensures old(waiter.state) == IDLE && old(Bound()) ==>
        && before.clients[c].waiter.state == IDLE
        && CallAnswer(sizeMax, before, c, PopGoal, rounds) == (if finished then Some(status) else None)
        && var r := AfterCall(sizeMax, before, c, PopGoal, rounds);
           && View() == r.port && waiter.View() == r.clients[c].waiter
           && finished == r.clients[c].phase.Outside? && (finished ==> status == waiter.result)
           && (finished && status == OK ==> r.calls != [] && r.calls[|r.calls| - 1].moved == [output[..]])
      ensures !finished || status != OK ==> output[..] == old(output[..])
    {
      finished := true;
      status := waiter.Begin(this);
      if status != OK {
        return;
      }
      if !Bound() {
        status := TryPop(output, OK);
        var ignored := waiter.Complete(status);
        return;
      }
      var begun := Do(sizeMax, before, Begin(c, PopGoal));
      CallAnswers(sizeMax, before, c, PopGoal, rounds);
      status, finished := PopLoop(waiter, output, rounds, begun, c);
    }
  }

  lemma {:induction false} AtMostProduct(elements: nat, bytesEach: nat)
    requires bytesEach > 0
    ensures elements <= elements * bytesEach
  {
    assert elements * (bytesEach - 1) >= 0;
  }
}
