/** When a queue port keeps the order of the elements: over whole runs, exactly when no index sum can wrap. */
module QueuePortOrder {
  import opened BlockRing
  import opened Division
  import opened FoundationStatuses
  import opened Integers
  import opened QueuePortInterleaving
  import opened QueuePortSpec

  /** A run from this port that has come to the system now. */
  ghost predicate Reaches(sizeMax: nat, port: Port, actions: seq<Action>, states: seq<System>, now: System) {
    IsRun(sizeMax, actions, states) && states[0].port == port && states[|actions|] == now
  }

  /** What is taken out is a prefix of what was handed in, whatever the clients do. */
  ghost predicate KeepsOrder(sizeMax: nat, port: Port) {
    forall actions, states, now :: Reaches(sizeMax, port, actions, states, now) ==> now.popped <= now.pushed
  }

  lemma {:induction false} OneMore(sizeMax: nat, port: Port, actions: seq<Action>, states: seq<System>, now: System,
                                   a: Action)
    requires Reaches(sizeMax, port, actions, states, now) && Enabled(now, a)
    ensures Reaches(sizeMax, port, actions + [a], states + [Do(sizeMax, now, a)], Do(sizeMax, now, a))
  {
    var more, longer := actions + [a], states + [Do(sizeMax, now, a)];
    forall k | 0 <= k < |more| ensures Next(sizeMax, longer[k], more[k], longer[k + 1]) {
      if k < |actions| {
        assert Next(sizeMax, states[k], actions[k], states[k + 1]);
      }
    }
  }

  // ---------------------------------------------------------------- a run in which the sum wraps

  const ZERO: seq<byte> := [0]
  const ONE: seq<byte> := [1]

  predicate Zeros(s: seq<seq<byte>>) {
    forall i :: 0 <= i < |s| ==> s[i] == ZERO
  }

  /** A port of single bytes with this head and size, after these many moves of zeros. */
  ghost predicate At(port: Port, s: System, head: nat, size: nat, popped: nat) {
    && ValidRing(s.port.ring) && s.port.state == READY
    && s.port.ring.elementSize == 1 && s.port.ring.capacity == port.ring.capacity
    && s.port.ring.head == head && s.port.ring.size == size
    && |s.popped| == popped && |s.pushed| == popped + size && Zeros(s.pushed)
  }

  lemma {:induction false} PushZero(sizeMax: nat, port: Port, s: System, head: nat, size: nat, popped: nat)
    requires At(port, s, head, size, popped) && size < port.ring.capacity
    ensures var a := Immediate(PushGoal(ZERO), OK);
            Enabled(s, a) && At(port, Do(sizeMax, s, a), head, size + 1, popped)
  {
  }

  lemma {:induction false} PopZero(sizeMax: nat, port: Port, s: System, head: nat, popped: nat)
    requires At(port, s, head, 1, popped) && head + 1 < port.ring.capacity
    ensures var a := Immediate(PopGoal, OK);
            Enabled(s, a) && At(port, Do(sizeMax, s, a), head + 1, 0, popped + 1)
  {
  }

  /** Pairs of a push and a pop move the head to any slot. */
  lemma {:induction false} MoveHead(sizeMax: nat, port: Port, head: nat)
    returns (actions: seq<Action>, states: seq<System>, now: System)
    requires Fresh(sizeMax, port) && port.ring.elementSize == 1 && head < port.ring.capacity
    ensures Reaches(sizeMax, port, actions, states, now) && At(port, now, head, 0, head)
  {
    if head == 0 {
      now := System(port, [], [], [], []);
      actions, states := [], [now];
    } else {
      actions, states, now := MoveHead(sizeMax, port, head - 1);
      PushZero(sizeMax, port, now, head - 1, 0, head - 1);
      OneMore(sizeMax, port, actions, states, now, Immediate(PushGoal(ZERO), OK));
      var pushed := Do(sizeMax, now, Immediate(PushGoal(ZERO), OK));
      actions, states, now := actions + [Immediate(PushGoal(ZERO), OK)], states + [pushed], pushed;
      PopZero(sizeMax, port, now, head - 1, head - 1);
      OneMore(sizeMax, port, actions, states, now, Immediate(PopGoal, OK));
      var popped := Do(sizeMax, now, Immediate(PopGoal, OK));
      actions, states, now := actions + [Immediate(PopGoal, OK)], states + [popped], popped;
    }
  }

  /** With the head in the last slot the queue fills up to any size. */
  lemma {:induction false} Fill(sizeMax: nat, port: Port, size: nat)
    returns (actions: seq<Action>, states: seq<System>, now: System)
    requires Fresh(sizeMax, port) && port.ring.elementSize == 1 && size <= port.ring.capacity
    ensures Reaches(sizeMax, port, actions, states, now)
    ensures At(port, now, port.ring.capacity - 1, size, port.ring.capacity - 1)
  {
    var last := port.ring.capacity - 1;
    if size == 0 {
      actions, states, now := MoveHead(sizeMax, port, last);
    } else {
      actions, states, now := Fill(sizeMax, port, size - 1);
      PushZero(sizeMax, port, now, last, size - 1, last);
      OneMore(sizeMax, port, actions, states, now, Immediate(PushGoal(ZERO), OK));
      var pushed := Do(sizeMax, now, Immediate(PushGoal(ZERO), OK));
      actions, states, now := actions + [Immediate(PushGoal(ZERO), OK)], states + [pushed], pushed;
    }
  }

  /** There is room, and the sum of head and size wraps: the next element does not go behind the last one. */
  ghost predicate Wraps(sizeMax: nat, port: Port) {
    port.ring.size < port.ring.capacity && port.ring.head + port.ring.size > sizeMax
  }

  ghost predicate CanWrap(sizeMax: nat, port: Port) {
    exists actions, states, now :: Reaches(sizeMax, port, actions, states, now) && Wraps(sizeMax, now.port)
  }

  /** What can go wrong is reached, from every fresh port that is large enough. */
  lemma {:induction false} WrapIsReached(sizeMax: nat, port: Port)
    requires Fresh(sizeMax, port)
    ensures CanWrap(sizeMax, port) <==> !IndexFits(sizeMax, port.ring.capacity)
  {
    if IndexFits(sizeMax, port.ring.capacity) {
      forall actions, states, now | Reaches(sizeMax, port, actions, states, now) ensures !Wraps(sizeMax, now.port) {
        RunKeepsInv(sizeMax, actions, states, |actions|);
        RunKeepsCapacity(sizeMax, actions, states, |actions|);
      }
    } else {
      SingleBytes(sizeMax, port);
      var actions, states, now := Fill(sizeMax, port, sizeMax - port.ring.capacity + 2);
      assert Reaches(sizeMax, port, actions, states, now) && Wraps(sizeMax, now.port);
    }
  }

  lemma {:induction false} RunKeepsCapacity(sizeMax: nat, actions: seq<Action>, states: seq<System>, k: nat)
    requires IsRun(sizeMax, actions, states) && k <= |actions|
    ensures states[k].port.ring.capacity == states[0].port.ring.capacity
  {
    if k > 0 {
      RunKeepsCapacity(sizeMax, actions, states, k - 1);
      assert Next(sizeMax, states[k - 1], actions[k - 1], states[k]);
      StepKeepsCapacity(sizeMax, states[k - 1], actions[k - 1]);
    }
  }

  lemma {:induction false} StepKeepsCapacity(sizeMax: nat, s: System, a: Action)
    requires Enabled(s, a)
    ensures Do(sizeMax, s, a).port.ring.capacity == s.port.ring.capacity
  {
  }

  lemma {:induction false} SingleBytes(sizeMax: nat, port: Port)
    requires Fresh(sizeMax, port) && !IndexFits(sizeMax, port.ring.capacity)
    ensures port.ring.elementSize == 1 && port.ring.capacity <= sizeMax
  {
    if port.ring.elementSize >= 2 {
      LargerElementsFit(sizeMax, port.ring.capacity, port.ring.elementSize);
    }
  }

  // ---------------------------------------------------------------- what the wrapped sum does to the order

  /** The element pushed next lands in slot 0, in front of the elements that were queued before it. */
  lemma {:induction false} PushesIntoSlotZero(sizeMax: nat, s: System)
    requires ValidRing(s.port.ring) && s.port.state == READY && s.port.ring.elementSize == 1
    requires s.port.ring.size < s.port.ring.capacity && s.port.ring.head + s.port.ring.size == sizeMax + 1
    ensures var a := Immediate(PushGoal(ONE), OK);
            var after := Do(sizeMax, s, a);
            && Enabled(s, a)
            && after.port ==
                s.port.(ring := s.port.ring.(storage := after.port.ring.storage, size := s.port.ring.size + 1))
            && |after.port.ring.storage| == |s.port.ring.storage| && Block(after.port.ring.storage, 1, 0) == ONE
            && after.pushed == s.pushed + [ONE] && after.popped == s.popped
  {
    var ring := s.port.ring;
    DivideUniquely(sizeMax + 1, sizeMax + 1, 1, 0);
    DivideUniquely(0, ring.capacity, 0, 0);
    assert WriteSlot(sizeMax, ring.capacity, ring.head, ring.size) == 0;
    WithBlockReads(ring.storage, 1, 0, ONE, 0);
  }

  /** Two pops from the last slot on return the element of slot 0 as the second. */
  lemma {:induction false} PopsSlotZeroSecond(sizeMax: nat, s: System)
    requires ValidRing(s.port.ring) && s.port.state == READY && s.port.ring.elementSize == 1
    requires s.port.ring.head == s.port.ring.capacity - 1 && s.port.ring.size >= 2
    ensures var a := Immediate(PopGoal, OK);
            var one := Do(sizeMax, s, a);
            && Enabled(s, a) && Enabled(one, a)
            && var two := Do(sizeMax, one, a);
               && two.pushed == s.pushed
               && |two.popped| == |s.popped| + 2 && two.popped[|s.popped| + 1] == Block(s.port.ring.storage, 1, 0)
  {
    var ring := s.port.ring;
    DivideUniquely(ring.capacity, ring.capacity, 1, 0);
    assert Popped(ring).head == 0;
    DivideUniquely(0, ring.capacity, 0, 0);
  }

  /** A run in which an element is taken out before one that was handed in earlier. */
  lemma {:induction false} OrderIsLost(sizeMax: nat, port: Port)
    returns (actions: seq<Action>, states: seq<System>, now: System)
    requires Fresh(sizeMax, port) && !IndexFits(sizeMax, port.ring.capacity)
    ensures Reaches(sizeMax, port, actions, states, now)
    ensures var k := port.ring.capacity;
            k < |now.popped| && k < |now.pushed| && now.popped[k] == ONE && now.pushed[k] == ZERO
  {
    SingleBytes(sizeMax, port);
    var pop, push := Immediate(PopGoal, OK), Immediate(PushGoal(ONE), OK);
    actions, states, now := Fill(sizeMax, port, sizeMax - port.ring.capacity + 2);
    PushesIntoSlotZero(sizeMax, now);
    OneMore(sizeMax, port, actions, states, now, push);
    actions, states, now := actions + [push], states + [Do(sizeMax, now, push)], Do(sizeMax, now, push);
    PopsSlotZeroSecond(sizeMax, now);
    OneMore(sizeMax, port, actions, states, now, pop);
    actions, states, now := actions + [pop], states + [Do(sizeMax, now, pop)], Do(sizeMax, now, pop);
    OneMore(sizeMax, port, actions, states, now, pop);
    actions, states, now := actions + [pop], states + [Do(sizeMax, now, pop)], Do(sizeMax, now, pop);
  }

  /** The queue port is a queue, over all runs of all clients, if and only if twice its capacity fits into size_t. */
  lemma {:induction false} OrderIsKept(sizeMax: nat, port: Port)
    requires Fresh(sizeMax, port)
    ensures KeepsOrder(sizeMax, port) <==> IndexFits(sizeMax, port.ring.capacity)
  {
    if IndexFits(sizeMax, port.ring.capacity) {
      forall actions, states, now | Reaches(sizeMax, port, actions, states, now) ensures now.popped <= now.pushed {
        PoppedIsPrefix(sizeMax, actions, states, |actions|);
        RunKeepsCapacity(sizeMax, actions, states, |actions|);
      }
    } else {
      var actions, states, now := OrderIsLost(sizeMax, port);
      assert !(now.popped <= now.pushed);
    }
  }
}
