/**
 The FIFO shared by one producer and one consumer that interrupt each other anywhere. A call takes one
 snapshot of the other side's cursor, copies byte by byte, and publishes its own cursor last.
 accepted and delivered record, in order, the bytes of the completed writes and reads.
 */
module FifoInterleaving {
  import opened FifoSpec
  import opened Integers
  import opened Runs

  datatype Producer =
    | Quiet
    | Writing(data: seq<byte>, copied: nat)

  datatype Consumer =
    | Silent
    | Reading(count: nat, taken: seq<byte>)

  datatype State = State(
    storage: seq<byte>,
    readIndex: nat,
    writeIndex: nat,
    producer: Producer,
    consumer: Consumer,
    accepted: seq<byte>,
    delivered: seq<byte>)

  datatype Action =
    | BeginWrite(data: seq<byte>)
    | CopyIn
    | PublishWrite
    | BeginRead(count: nat)
    | CopyOut
    | PublishRead

  predicate WellFormed(s: State) {
    && |s.storage| >= 2 && s.readIndex < |s.storage| && s.writeIndex < |s.storage|
    && (s.producer.Writing? ==> s.producer.copied <= |s.producer.data| < |s.storage|)
    && (s.consumer.Reading? ==> |s.consumer.taken| <= s.consumer.count < |s.storage|)
  }

  /** An action is enabled when its side is at that point of its call; refused calls change nothing. */
  predicate Enabled(s: State, a: Action) {
    match a
    case BeginWrite(_) => s.producer.Quiet?
    case CopyIn => s.producer.Writing? && s.producer.copied < |s.producer.data|
    case PublishWrite => s.producer.Writing? && s.producer.copied == |s.producer.data|
    case BeginRead(_) => s.consumer.Silent?
    case CopyOut => s.consumer.Reading? && |s.consumer.taken| < s.consumer.count
    case PublishRead => s.consumer.Reading? && |s.consumer.taken| == s.consumer.count
  }

  function Do(s: State, a: Action): (after: State)
    requires WellFormed(s) && Enabled(s, a)
    ensures WellFormed(after)
  {
    var size := |s.storage|;
    match a
    case BeginWrite(data) =>
      if |data| == 0 || |data| > Free(size, s.readIndex, s.writeIndex) then s
      else s.(producer := Writing(data, 0))
    case CopyIn =>
      var slot := Advance(size, s.writeIndex, s.producer.copied);
      s.(storage := s.storage[slot := s.producer.data[s.producer.copied]],
         producer := s.producer.(copied := s.producer.copied + 1))
    case PublishWrite =>
      s.(writeIndex := Advance(size, s.writeIndex, |s.producer.data|),
         accepted := s.accepted + s.producer.data,
         producer := Quiet)
    case BeginRead(count) =>
      if count == 0 || count > Used(size, s.readIndex, s.writeIndex) then s
      else s.(consumer := Reading(count, []))
    case CopyOut =>
      var slot := Advance(size, s.readIndex, |s.consumer.taken|);
      s.(consumer := s.consumer.(taken := s.consumer.taken + [s.storage[slot]]))
    case PublishRead =>
      s.(readIndex := Advance(size, s.readIndex, s.consumer.count),
         delivered := s.delivered + s.consumer.taken,
         consumer := Silent)
  }

  ghost predicate Initial(s: State) {
    WellFormed(s) && s.readIndex == s.writeIndex == 0 && s.producer.Quiet? && s.consumer.Silent?
    && s.accepted == [] && s.delivered == []
  }

  /** Bytes that were written and not yet handed over. */
  ghost function Pending(s: State): seq<byte>
    requires WellFormed(s)
  {
    Contents(s.storage, s.readIndex, s.writeIndex)
  }

  /** What holds between any two actions. */
  ghost predicate Inv(s: State) {
    && WellFormed(s)
    && s.accepted == s.delivered + Pending(s)
    && (s.producer.Writing? ==>
        && s.producer.copied <= |s.producer.data| <= Free(|s.storage|, s.readIndex, s.writeIndex)
        && Window(s.storage, s.writeIndex, s.producer.copied) == s.producer.data[..s.producer.copied])
    && (s.consumer.Reading? ==>
        && |s.consumer.taken| <= s.consumer.count <= Used(|s.storage|, s.readIndex, s.writeIndex)
        && s.consumer.taken == Window(s.storage, s.readIndex, |s.consumer.taken|))
  }

  /** The slot of the next byte is no slot of an unread byte and no slot already filled by this call. */
  lemma {:induction false} NeverOverwrites(s: State)
    requires Inv(s) && Enabled(s, CopyIn)
    ensures var size := |s.storage|;
            var used := Used(size, s.readIndex, s.writeIndex);
            var slot := Advance(size, s.writeIndex, s.producer.copied);
            && (forall i :: 0 <= i < used ==> Advance(size, s.readIndex, i) != slot)
            && (forall i :: 0 <= i < s.producer.copied ==> Advance(size, s.writeIndex, i) != slot)
  {
    var size := |s.storage|;
    var used := Used(size, s.readIndex, s.writeIndex);
    AdvanceSum(size, s.readIndex, used, s.producer.copied);
    forall i | 0 <= i < used ensures Advance(size, s.readIndex, i) != Advance(size, s.writeIndex, s.producer.copied) {
      AdvanceInjective(size, s.readIndex, i, used + s.producer.copied);
    }
    forall i | 0 <= i < s.producer.copied
      ensures Advance(size, s.writeIndex, i) != Advance(size, s.writeIndex, s.producer.copied)
    {
      AdvanceInjective(size, s.writeIndex, i, s.producer.copied);
    }
  }

  lemma {:induction false} CopyInKeepsInv(s: State)
    requires Inv(s) && Enabled(s, CopyIn)
    ensures Inv(Do(s, CopyIn)) && Pending(Do(s, CopyIn)) == Pending(s)
  {
    NeverOverwrites(s);
    var after := Do(s, CopyIn);
    var size := |s.storage|;
    var used, k := Used(size, s.readIndex, s.writeIndex), s.producer.copied;
    assert forall i :: 0 <= i < used ==> Pending(after)[i] == Pending(s)[i];
    var before, now := Window(s.storage, s.writeIndex, k), Window(after.storage, after.writeIndex, k + 1);
    assert forall i :: 0 <= i < k ==> now[i] == before[i];
    assert now == before + [s.producer.data[k]];
    if s.consumer.Reading? {
      var t := |s.consumer.taken|;
      var was, stays := Window(s.storage, s.readIndex, t), Window(after.storage, after.readIndex, t);
      assert forall i :: 0 <= i < t ==> stays[i] == was[i];
    }
  }

  lemma {:induction false} PublishWriteKeepsInv(s: State)
    requires Inv(s) && Enabled(s, PublishWrite)
    ensures Inv(Do(s, PublishWrite)) && Pending(Do(s, PublishWrite)) == Pending(s) + s.producer.data
  {
    var size, n := |s.storage|, |s.producer.data|;
    var used := Used(size, s.readIndex, s.writeIndex);
    AdvanceSum(size, s.readIndex, used, n);
    UsedAdvance(size, s.readIndex, used + n);
    WindowSplit(s.storage, s.readIndex, used, n);
    assert s.producer.data[..n] == s.producer.data;
  }

  lemma {:induction false} CopyOutKeepsInv(s: State)
    requires Inv(s) && Enabled(s, CopyOut)
    ensures Inv(Do(s, CopyOut)) && Pending(Do(s, CopyOut)) == Pending(s)
  {
    var t := |s.consumer.taken|;
    assert Window(s.storage, s.readIndex, t + 1)
        == Window(s.storage, s.readIndex, t) + [s.storage[Advance(|s.storage|, s.readIndex, t)]];
  }

  /** Publishing a read hands over the head of the pending bytes. */
  lemma {:induction false} PublishReadTakesHead(s: State)
    requires Inv(s) && Enabled(s, PublishRead)
    ensures Used(|s.storage|, Do(s, PublishRead).readIndex, s.writeIndex)
         == Used(|s.storage|, s.readIndex, s.writeIndex) - s.consumer.count
    ensures Pending(s) == s.consumer.taken + Pending(Do(s, PublishRead))
  {
    var size, n := |s.storage|, s.consumer.count;
    var used := Used(size, s.readIndex, s.writeIndex);
    AdvanceSum(size, s.readIndex, n, used - n);
    UsedAdvance(size, Advance(size, s.readIndex, n), used - n);
    WindowSplit(s.storage, s.readIndex, n, used - n);
  }

  lemma {:induction false} PublishReadKeepsInv(s: State)
    requires Inv(s) && Enabled(s, PublishRead)
    ensures Inv(Do(s, PublishRead))
  {
    PublishReadTakesHead(s);
    var left := Pending(Do(s, PublishRead));
    assert s.delivered + (s.consumer.taken + left) == (s.delivered + s.consumer.taken) + left;
  }

  lemma {:induction false} DoKeepsInv(s: State, a: Action)
    requires Inv(s) && Enabled(s, a)
    ensures Inv(Do(s, a))
  {
    match a {
      case CopyIn => CopyInKeepsInv(s);
      case PublishWrite => PublishWriteKeepsInv(s);
      case CopyOut => CopyOutKeepsInv(s);
      case PublishRead => PublishReadKeepsInv(s);
      case BeginWrite(_) => assert Window(s.storage, s.writeIndex, 0) == [];
      case BeginRead(_) => assert Window(s.storage, s.readIndex, 0) == [];
    }
  }

  ghost predicate Next(s: State, a: Action, after: State) {
    WellFormed(s) && Enabled(s, a) && after == Do(s, a)
  }

  /** A run: any interleaving of actions, each enabled where it happens. */
  ghost predicate IsRun(actions: seq<Action>, states: seq<State>) {
    && |states| == |actions| + 1
    && Initial(states[0])
    && forall k :: 0 <= k < |actions| ==> Next(states[k], actions[k], states[k + 1])
  }

  lemma {:induction false} InitialInv(s: State)
    requires Initial(s)
    ensures Inv(s)
  {
    assert Contents(s.storage, 0, 0) == [];
  }

  lemma {:induction false} RunKeepsInv(actions: seq<Action>, states: seq<State>, k: nat)
    requires IsRun(actions, states) && k <= |actions|
    ensures Inv(states[k])
  {
    InitialInv(states[0]);
    forall j | 0 <= j < k && Inv(states[j]) ensures Inv(states[j + 1]) {
      assert Next(states[j], actions[j], states[j + 1]);
      DoKeepsInv(states[j], actions[j]);
    }
    Along(states, k, s => Inv(s));
  }

  /** No action ever takes back an accepted or delivered byte. */
  lemma {:induction false} HistoriesGrow(actions: seq<Action>, states: seq<State>, k: nat, m: nat)
    requires IsRun(actions, states) && k <= m <= |actions|
    ensures states[k].accepted <= states[m].accepted && states[k].delivered <= states[m].delivered
    decreases m - k
  {
    if k < m {
      assert Next(states[k], actions[k], states[k + 1]);
      HistoriesGrow(actions, states, k + 1, m);
    }
  }

  /** The consumer has received a prefix of the accepted bytes, and a read in progress holds the next ones. */
  lemma {:induction false} ReceivedIsPrefix(s: State)
    requires Inv(s)
    ensures s.delivered <= s.accepted && |s.accepted| - |s.delivered| < |s.storage|
    ensures s.consumer.Reading? ==> s.delivered + s.consumer.taken <= s.accepted
  {
    if s.consumer.Reading? {
      var t := |s.consumer.taken|;
      WindowSplit(s.storage, s.readIndex, t, Used(|s.storage|, s.readIndex, s.writeIndex) - t);
      assert s.delivered + Pending(s) == s.delivered + s.consumer.taken + Pending(s)[t..];
    }
  }

  /**
   Whatever the interleaving: what the consumer has received by step k is a prefix of the bytes accepted
   by any later step m, in order; the bytes that a read in progress holds are the next ones; and at most
   size - 1 accepted bytes are still to be received.
   */
  lemma {:induction false} DeliveredIsPrefix(actions: seq<Action>, states: seq<State>, k: nat, m: nat)
    requires IsRun(actions, states) && k <= m <= |actions|
    ensures var s := states[k];
            && s.delivered <= states[m].accepted && s.delivered <= states[m].delivered
            && (s.consumer.Reading? ==> s.delivered + s.consumer.taken <= states[m].accepted)
            && 0 <= |s.accepted| - |s.delivered| < |s.storage|
  {
    RunKeepsInv(actions, states, k);
    ReceivedIsPrefix(states[k]);
    HistoriesGrow(actions, states, k, m);
  }

  /**
   A call is admitted by what its side sees when it begins: a write exactly when its bytes fit beside the
   pending ones, with one slot to spare, and a read exactly when so many bytes are pending.
   */
  lemma {:induction false} CallsAdmitted(s: State, data: seq<byte>, count: nat)
    requires WellFormed(s)
    ensures s.producer.Quiet? ==>
      var admitted := 0 < |data| <= |s.storage| - 1 - |Pending(s)|;
      Do(s, BeginWrite(data)) == if admitted then s.(producer := Writing(data, 0)) else s
    ensures s.consumer.Silent? ==>
      var admitted := 0 < count <= |Pending(s)|;
      Do(s, BeginRead(count)) == if admitted then s.(consumer := Reading(count, [])) else s
  {
  }

  /** The states of a call that is not interrupted, from its beginning on. */
  ghost predicate Uninterrupted(s: State, begin: Action, copy: Action, states: seq<State>) {
    && |states| > 0 && Next(s, begin, states[0])
    && forall j :: 0 <= j < |states| - 1 ==> Next(states[j], copy, states[j + 1])
  }

  lemma {:induction false} OneMoreCopy(s: State, begin: Action, copy: Action, states: seq<State>, after: State)
    requires Uninterrupted(s, begin, copy, states) && Next(states[|states| - 1], copy, after)
    ensures Uninterrupted(s, begin, copy, states + [after])
  {
    var longer := states + [after];
    forall j | 0 <= j < |longer| - 1 ensures Next(longer[j], copy, longer[j + 1]) {
      assert j < |states| - 1 ==> Next(states[j], copy, states[j + 1]);
    }
  }

  /** In the middle of a write that nobody has interrupted. */
  function Copying(s: State, data: seq<byte>, k: nat): State
    requires WellFormed(s) && k <= |data| < |s.storage|
  {
    s.(storage := Written(s.storage, s.writeIndex, data[..k]), producer := Writing(data, k))
  }

  lemma {:induction false} CopyingNext(s: State, data: seq<byte>, k: nat)
    requires WellFormed(s) && k < |data| < |s.storage| && Inv(Copying(s, data, k))
    ensures Next(Copying(s, data, k), CopyIn, Copying(s, data, k + 1)) && Inv(Copying(s, data, k + 1))
  {
    assert data[..k + 1][..k] == data[..k];
    CopyInKeepsInv(Copying(s, data, k));
  }

  /** The steps of a write that is not interrupted. */
  lemma {:induction false} UninterruptedCopies(s: State, data: seq<byte>, k: nat) returns (states: seq<State>)
    requires Inv(s) && s.producer.Quiet? && 0 < |data| <= |s.storage| - 1 - |Pending(s)|
    requires k <= |data|
    ensures Uninterrupted(s, BeginWrite(data), CopyIn, states) && |states| == k + 1
    ensures states[k] == Copying(s, data, k) && Inv(states[k])
    decreases k
  {
    if k == 0 {
      DoKeepsInv(s, BeginWrite(data));
      states := [Do(s, BeginWrite(data))];
    } else {
      states := UninterruptedCopies(s, data, k - 1);
      CopyingNext(s, data, k - 1);
      OneMoreCopy(s, BeginWrite(data), CopyIn, states, Copying(s, data, k));
      states := states + [Copying(s, data, k)];
    }
  }

  /** A write that is not interrupted leaves exactly what the sequential mizu_fifo_write leaves. */
  lemma {:induction false} UninterruptedWrite(s: State, data: seq<byte>) returns (states: seq<State>)
    requires Inv(s) && s.producer.Quiet? && 0 < |data| <= |s.storage| - 1 - |Pending(s)|
    ensures Uninterrupted(s, BeginWrite(data), CopyIn, states) && |states| == |data| + 1
    ensures Next(states[|data|], PublishWrite,
                 s.(storage := Written(s.storage, s.writeIndex, data),
                    writeIndex := Advance(|s.storage|, s.writeIndex, |data|),
                    accepted := s.accepted + data))
  {
    states := UninterruptedCopies(s, data, |data|);
    assert data[..|data|] == data;
  }

  /** In the middle of a read that nobody has interrupted. */
  function Taking(s: State, count: nat, k: nat): State
    requires WellFormed(s) && k <= count < |s.storage|
  {
    s.(consumer := Reading(count, Window(s.storage, s.readIndex, k)))
  }

  lemma {:induction false} TakingNext(s: State, count: nat, k: nat)
    requires WellFormed(s) && k < count < |s.storage| && Inv(Taking(s, count, k))
    ensures Next(Taking(s, count, k), CopyOut, Taking(s, count, k + 1)) && Inv(Taking(s, count, k + 1))
  {
    assert Window(s.storage, s.readIndex, k + 1)
        == Window(s.storage, s.readIndex, k) + [s.storage[Advance(|s.storage|, s.readIndex, k)]];
    CopyOutKeepsInv(Taking(s, count, k));
  }

  /** The steps of a read that is not interrupted. */
  lemma {:induction false} UninterruptedTakes(s: State, count: nat, k: nat) returns (states: seq<State>)
    requires Inv(s) && s.consumer.Silent? && 0 < count <= |Pending(s)|
    requires k <= count
    ensures Uninterrupted(s, BeginRead(count), CopyOut, states) && |states| == k + 1
    ensures states[k] == Taking(s, count, k) && Inv(states[k])
    decreases k
  {
    if k == 0 {
      DoKeepsInv(s, BeginRead(count));
      states := [Do(s, BeginRead(count))];
      assert Window(s.storage, s.readIndex, 0) == [];
    } else {
      states := UninterruptedTakes(s, count, k - 1);
      TakingNext(s, count, k - 1);
      OneMoreCopy(s, BeginRead(count), CopyOut, states, Taking(s, count, k));
      states := states + [Taking(s, count, k)];
    }
  }

  /** A read that is not interrupted delivers exactly what the sequential mizu_fifo_read delivers. */
  lemma {:induction false} UninterruptedRead(s: State, count: nat) returns (states: seq<State>)
    requires Inv(s) && s.consumer.Silent? && 0 < count <= |Pending(s)|
    ensures Uninterrupted(s, BeginRead(count), CopyOut, states) && |states| == count + 1
    ensures Next(states[count], PublishRead,
                 s.(readIndex := Advance(|s.storage|, s.readIndex, count),
                    delivered := s.delivered + Window(s.storage, s.readIndex, count)))
  {
    states := UninterruptedTakes(s, count, count);
  }
}
