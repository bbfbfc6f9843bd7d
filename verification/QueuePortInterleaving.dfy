/**
 Many clients of one queue port. Each locked section is one action, and so is each return from a wait;
 between them anything may happen. The lifecycle calls happen when no locked section is open.
 pushed and popped list, in the order of the locked sections, what the callers handed in and what they got
 since the last lifecycle call.
 */
module QueuePortInterleaving {
  import opened BlockRing
  import opened Division
  import opened FoundationStatuses
  import opened Integers
  import opened QueuePortSpec
  import opened Runs

  /** Where a client is in queue_port_push_until or queue_port_pop_until; before is its waiter at the call. */
  datatype Phase =
    | Outside
    | Trying(goal: Goal, before: Waiter, moved: seq<seq<byte>>)
    | Sleeping(goal: Goal, before: Waiter, moved: seq<seq<byte>>)

  datatype Client = Client(waiter: Waiter, phase: Phase)

  /** A call that has returned. */
  datatype Call = Call(client: nat, goal: Goal, before: Waiter, after: Waiter, status: FoundationStatus,
                       moved: seq<seq<byte>>)

  datatype System = System(
    port: Port,
    clients: seq<Client>,
    pushed: seq<seq<byte>>,
    popped: seq<seq<byte>>,
    calls: seq<Call>)

  datatype Action =
    | Begin(client: nat, goal: Goal)
    | Attempt(client: nat, entered: FoundationStatus)
    | Wake(client: nat, waited: FoundationStatus)
    | Immediate(goal: Goal, entered: FoundationStatus)
    | ResetWaiter(client: nat)
    | Stop
    | Start
    | Reset

  /** An action is enabled at its point of the client's call; data handed in has the element size. */
  predicate Enabled(s: System, a: Action) {
    match a
    case Begin(c, goal) => c < |s.clients| && s.clients[c].phase.Outside? && WellFormed(s.port, goal)
    case Attempt(c, _) => c < |s.clients| && s.clients[c].phase.Trying? && WellFormed(s.port, s.clients[c].phase.goal)
    case Wake(c, _) => c < |s.clients| && s.clients[c].phase.Sleeping?
    case Immediate(goal, _) => WellFormed(s.port, goal)
    case ResetWaiter(c) => c < |s.clients| && s.clients[c].phase.Outside?
    case _ => ValidRing(s.port.ring)
  }

  /** The status on which a call goes to sleep. */
  function Retry(goal: Goal): FoundationStatus {
    if goal.PushGoal? then FULL else EMPTY
  }

  /** Keep the books of one attempt. */
  function Moved(s: System, goal: Goal, r: Attempted): System {
    s.(port := r.port,
       pushed := if goal.PushGoal? then s.pushed + r.moved else s.pushed,
       popped := if goal.PopGoal? then s.popped + r.moved else s.popped)
  }

  /** Complete the waiter and leave the call. */
  function Return(s: System, c: nat, status: FoundationStatus): System
    requires c < |s.clients| && !s.clients[c].phase.Outside?
  {
    var client := s.clients[c];
    var after := Completed(client.waiter, status).1;
    s.(clients := s.clients[c := Client(after, Outside)],
       calls := s.calls + [Call(c, client.phase.goal, client.phase.before, after, status, client.phase.moved)])
  }

  function AttemptStep(sizeMax: nat, s: System, c: nat, entered: FoundationStatus): System
    requires Enabled(s, Attempt(c, entered))
  {
    var client := s.clients[c];
    var goal, before := client.phase.goal, client.phase.before;
    var r := Try(sizeMax, s.port, goal, entered);
    var moved := client.phase.moved + r.moved;
    var tried := Moved(s, goal, r).(clients := s.clients[c := client.(phase := Trying(goal, before, moved))]);
    if r.status == INVALID_STATE && r.port.state == STOPPED then Return(tried, c, CANCELLED)
    else if r.status != Retry(goal) then Return(tried, c, r.status)
    else tried.(clients := tried.clients[c := client.(phase := Sleeping(goal, before, moved))])
  }

  function Do(sizeMax: nat, s: System, a: Action): System
    requires Enabled(s, a)
  {
    match a
    case Begin(c, goal) =>
      var waiter := s.clients[c].waiter;
      var (status, begun) := Begun(waiter);
      if status != OK then s.(calls := s.calls + [Call(c, goal, waiter, waiter, status, [])])
      else s.(clients := s.clients[c := Client(begun, Trying(goal, waiter, []))])
    case Attempt(c, entered) => AttemptStep(sizeMax, s, c, entered)
    case Wake(c, waited) =>
      var client := s.clients[c];
      var again := Trying(client.phase.goal, client.phase.before, client.phase.moved);
      if waited == OK then s.(clients := s.clients[c := client.(phase := again)])
      else Return(s, c, waited)
    case Immediate(goal, entered) => Moved(s, goal, Try(sizeMax, s.port, goal, entered))
    case ResetWaiter(c) => s.(clients := s.clients[c := s.clients[c].(waiter := WasReset(s.clients[c].waiter).1)])
    case Stop => if s.port.state == READY then Restarted(s, STOPPED) else s
    case Start => if s.port.state == STOPPED then Restarted(s, READY) else s
    case Reset => if s.port.state == READY then Restarted(s, READY) else s
  }

  function Restarted(s: System, state: PortState): System {
    s.(port := Cleared(s.port, state), pushed := [], popped := [])
  }

  // ---------------------------------------------------------------- what every interleaving keeps

  /**
   A returned call: with an idle waiter it moved one element exactly when it returned OK, and the
   waiter ended CANCELLED exactly when CANCELLED was returned; otherwise nothing happened.
   */
  ghost predicate Fine(call: Call) {
    if call.before.state == IDLE then
      && call.after == Waiter(if call.status == CANCELLED then CANCELLED_WAITER else COMPLETED, call.status)
      && |call.moved| == (if call.status == OK then 1 else 0)
      && (call.status == OK && call.goal.PushGoal? ==> call.moved == [call.goal.data])
    else call.status == INVALID_STATE && call.after == call.before && call.moved == []
  }

  /** A call in progress has moved nothing yet and holds its waiter. */
  ghost predicate Waits(port: Port, client: Client) {
    !client.phase.Outside? ==>
      client.phase.before.state == IDLE && client.waiter.state == WAITING && client.phase.moved == []
      && WellFormed(port, client.phase.goal)
  }

  ghost predicate Inv(sizeMax: nat, s: System) {
    && ValidRing(s.port.ring)
    && s.port.ring.capacity <= sizeMax
    && |s.pushed| == |s.popped| + s.port.ring.size
    && (IndexFits(sizeMax, s.port.ring.capacity) ==> s.pushed == s.popped + Elements(s.port.ring))
    && (forall c :: 0 <= c < |s.clients| ==> Waits(s.port, s.clients[c]))
    && (forall k :: 0 <= k < |s.calls| ==> Fine(s.calls[k]))
  }

  lemma {:induction false} MovedKeepsOrder(sizeMax: nat, s: System, goal: Goal, entered: FoundationStatus)
    requires Inv(sizeMax, s) && WellFormed(s.port, goal)
    ensures Inv(sizeMax, Moved(s, goal, Try(sizeMax, s.port, goal, entered)))
  {
    TryMovesOne(sizeMax, s.port, goal, entered);
    var r := Try(sizeMax, s.port, goal, entered);
    var after := Moved(s, goal, r);
    if IndexFits(sizeMax, s.port.ring.capacity) {
      var before, left := Elements(s.port.ring), Elements(r.port.ring);
      if r.status != OK {
        assert s.pushed + [] == s.pushed && s.popped + [] == s.popped;
      } else if goal.PushGoal? {
        assert s.popped + (before + r.moved) == (s.popped + before) + r.moved;
      } else {
        assert s.popped + (r.moved + left) == (s.popped + r.moved) + left;
      }
    }
    forall c | 0 <= c < |after.clients| ensures Waits(after.port, after.clients[c]) {
      assert Waits(s.port, s.clients[c]);
    }
  }

  /** The client may return this status with what it has moved. */
  ghost predicate MayReturn(client: Client, status: FoundationStatus) {
    && !client.phase.Outside?
    && client.phase.before.state == IDLE && client.waiter.state == WAITING
    && |client.phase.moved| == (if status == OK then 1 else 0)
    && (status == OK && client.phase.goal.PushGoal? ==> client.phase.moved == [client.phase.goal.data])
  }

  lemma {:induction false} ReturnKeepsInv(sizeMax: nat, s: System, c: nat, client: Client, status: FoundationStatus)
    requires Inv(sizeMax, s) && c < |s.clients| && MayReturn(client, status)
    ensures Inv(sizeMax, Return(s.(clients := s.clients[c := client]), c, status))
  {
    var after := Return(s.(clients := s.clients[c := client]), c, status);
    forall d | 0 <= d < |after.clients| ensures Waits(after.port, after.clients[d]) {
      assert Waits(s.port, s.clients[d]);
    }
  }

  lemma {:induction false} AttemptKeepsInv(sizeMax: nat, s: System, c: nat, entered: FoundationStatus)
    requires Inv(sizeMax, s) && Enabled(s, Attempt(c, entered))
    ensures Inv(sizeMax, AttemptStep(sizeMax, s, c, entered))
  {
    var client := s.clients[c];
    var goal := client.phase.goal;
    assert Waits(s.port, client);
    MovedKeepsOrder(sizeMax, s, goal, entered);
    TryMovesOne(sizeMax, s.port, goal, entered);
    var r := Try(sizeMax, s.port, goal, entered);
    var kept := Moved(s, goal, r);
    var trying := client.(phase := Trying(goal, client.phase.before, client.phase.moved + r.moved));
    if r.status == INVALID_STATE && r.port.state == STOPPED {
      ReturnKeepsInv(sizeMax, kept, c, trying, CANCELLED);
    } else if r.status != Retry(goal) {
      ReturnKeepsInv(sizeMax, kept, c, trying, r.status);
    } else {
      var after := AttemptStep(sizeMax, s, c, entered);
      forall d | 0 <= d < |after.clients| ensures Waits(after.port, after.clients[d]) {
        assert Waits(kept.port, kept.clients[d]);
      }
    }
  }

  lemma {:induction false} DoKeepsInv(sizeMax: nat, s: System, a: Action)
    requires Inv(sizeMax, s) && Enabled(s, a)
    ensures Inv(sizeMax, Do(sizeMax, s, a))
  {
    match a {
      case Attempt(c, entered) => AttemptKeepsInv(sizeMax, s, c, entered);
      case Immediate(goal, entered) => MovedKeepsOrder(sizeMax, s, goal, entered);
      case Begin(c, _) => assert Waits(s.port, s.clients[c]);
      case Wake(c, _) => assert Waits(s.port, s.clients[c]);
      case ResetWaiter(c) => assert Waits(s.port, s.clients[c]);
      case _ =>
        assert forall c :: 0 <= c < |s.clients| ==> Waits(s.port, s.clients[c]);
    }
  }

  ghost predicate Next(sizeMax: nat, s: System, a: Action, after: System) {
    Enabled(s, a) && after == Do(sizeMax, s, a)
  }

  lemma {:induction false} NextKeepsInv(sizeMax: nat, s: System, a: Action, after: System)
    requires Inv(sizeMax, s) && Next(sizeMax, s, a, after)
    ensures Inv(sizeMax, after)
  {
    DoKeepsInv(sizeMax, s, a);
  }

  /** A port as queue_port_init leaves it; the storage may hold anything. */
  ghost predicate Fresh(sizeMax: nat, port: Port) {
    && ValidRing(port.ring) && port.ring.capacity * port.ring.elementSize <= sizeMax
    && port.ring.head == 0 && port.ring.size == 0 && port.state == READY
  }

  /** A fresh port whose clients are not in a call. */
  ghost predicate Initial(sizeMax: nat, s: System) {
    && Fresh(sizeMax, s.port)
    && (forall c :: 0 <= c < |s.clients| ==> s.clients[c].phase.Outside?)
    && s.pushed == [] && s.popped == [] && s.calls == []
  }

  lemma {:induction false} InitialInv(sizeMax: nat, s: System)
    requires Initial(sizeMax, s)
    ensures Inv(sizeMax, s)
  {
    MultipleMonotone(s.port.ring.capacity, 1, s.port.ring.elementSize);
  }

  ghost predicate IsRun(sizeMax: nat, actions: seq<Action>, states: seq<System>) {
    && |states| == |actions| + 1
    && Initial(sizeMax, states[0])
    && forall k :: 0 <= k < |actions| ==> Next(sizeMax, states[k], actions[k], states[k + 1])
  }

  lemma {:induction false} RunKeepsInv(sizeMax: nat, actions: seq<Action>, states: seq<System>, k: nat)
    requires IsRun(sizeMax, actions, states) && k <= |actions|
    ensures Inv(sizeMax, states[k])
  {
    InitialInv(sizeMax, states[0]);
    forall j | 0 <= j < k && Inv(sizeMax, states[j]) ensures Inv(sizeMax, states[j + 1]) {
      NextKeepsInv(sizeMax, states[j], actions[j], states[j + 1]);
    }
    Along(states, k, s => Inv(sizeMax, s));
  }

  /**
   Over every interleaving on every port: as many elements are queued as were handed in and not yet
   taken out, and every returned call is fine. With a capacity of at most half of size_t, what was taken
   out is also a prefix of what was handed in, in lock order.
   */
  lemma {:induction false} PoppedIsPrefix(sizeMax: nat, actions: seq<Action>, states: seq<System>, k: nat)
    requires IsRun(sizeMax, actions, states) && k <= |actions|
    ensures var s := states[k];
            && |s.pushed| - |s.popped| == s.port.ring.size <= s.port.ring.capacity
            && (forall i :: 0 <= i < |s.calls| ==> Fine(s.calls[i]))
            && (IndexFits(sizeMax, s.port.ring.capacity) ==> s.popped <= s.pushed)
  {
    RunKeepsInv(sizeMax, actions, states, k);
  }
}
