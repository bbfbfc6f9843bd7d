/**
 The three checksums of crc.c as one algorithm over a register of any type R, and its loops. The
 functions that make up one of the three (one bit round, exclusive or, where a byte enters, the start
 and end values) are fields of an Algorithm.
 */
module CrcAlgorithm {

  type Message = seq<bv8>

  /** bytes writes a result in the order in which it is appended to a message. */
  datatype Algorithm<!R> = Algorithm(
    bit: R -> R,
    add: (R, R) -> R,
    place: bv8 -> R,
    bytes: R -> Message,
    width: nat,
    initial: R,
    finalXor: R)

  /** The register after n bit rounds. */
  function Rounds<R>(bit: R -> R, register: R, n: nat): R {
    if n == 0 then register else bit(Rounds(bit, register, n - 1))
  }

  /** A byte enters the register, then eight bit rounds follow. */
  function Step<R>(alg: Algorithm<R>, register: R, b: bv8): R {
    Rounds(alg.bit, alg.add(register, alg.place(b)), 8)
  }

  /** The register after a message. */
  function Fed<R>(alg: Algorithm<R>, register: R, message: Message): R {
    if message == [] then register else Fed(alg, Step(alg, register, message[0]), message[1..])
  }

  /** The result of the one-shot calculation. */
  function Crc<R>(alg: Algorithm<R>, message: Message): R {
    alg.add(Fed(alg, alg.initial, message), alg.finalXor)
  }

  lemma {:induction false} RoundsSplit<R>(bit: R -> R, r: R, m: nat, n: nat)
    ensures Rounds(bit, Rounds(bit, r, m), n) == Rounds(bit, r, m + n)
  {
    if n > 0 {
      RoundsSplit(bit, r, m, n - 1);
    }
  }

  /** What every bit round keeps holds after n of them. */
  lemma {:induction false} RoundsKeep<R(!new)>(bit: R -> R, r: R, n: nat, holds: (R, nat) -> bool)
    requires holds(r, 0)
    requires forall s: R, k: nat :: holds(s, k) ==> holds(bit(s), k + 1)
    ensures holds(Rounds(bit, r, n), n)
  {
    if n > 0 {
      RoundsKeep(bit, r, n - 1, holds);
    }
  }

  lemma {:induction false} RoundsRest<R>(bit: R -> R, r: R, n: nat)
    requires bit(r) == r
    ensures Rounds(bit, r, n) == r
  {
    if n > 0 {
      RoundsRest(bit, r, n - 1);
    }
  }

  lemma {:induction false} EightRounds<R>(bit: R -> R, r: R)
    ensures Rounds(bit, r, 8) == bit(bit(bit(bit(bit(bit(bit(bit(r))))))))
  {
    assert Rounds(bit, r, 3) == bit(bit(bit(r)));
    assert Rounds(bit, r, 6) == bit(bit(bit(Rounds(bit, r, 3))));
    assert Rounds(bit, r, 8) == bit(bit(Rounds(bit, r, 6)));
  }

  /** Updates in chunks leave the register of one update, for every split. */
  lemma {:induction false} FedSplit<R>(alg: Algorithm<R>, register: R, a: Message, b: Message)
    ensures Fed(alg, register, a + b) == Fed(alg, Fed(alg, register, a), b)
  {
    if a == [] {
      assert a + b == b;
    } else {
      assert (a + b)[1..] == a[1..] + b;
      FedSplit(alg, Step(alg, register, a[0]), a[1..], b);
    }
  }

  lemma {:induction false} FedSnoc<R>(alg: Algorithm<R>, register: R, a: Message, last: bv8)
    ensures Fed(alg, register, a + [last]) == Step(alg, Fed(alg, register, a), last)
  {
    FedSplit(alg, register, a, [last]);
  }

  /** A message fed along a given list of registers. */
  lemma {:induction false} FedAlong<R(!new)>(alg: Algorithm<R>, registers: seq<R>, message: Message)
    requires |registers| == |message| + 1
    requires forall k :: 0 <= k < |message| ==> Step(alg, registers[k], message[k]) == registers[k + 1]
    ensures Fed(alg, registers[0], message) == registers[|message|]
  {
    if message != [] {
      FedAlong(alg, registers[1..], message[1..]);
    }
  }

  // ---------------------------------------------------------------- the loops of crc.c

  /** The incremental object; its initialisation is the constructor. */
  class Context<!R> {
    const alg: Algorithm<R>
    var value: R

    constructor (alg: Algorithm<R>)
      ensures this.alg == alg && value == alg.initial
    {
      this.alg := alg;
      value := alg.initial;
    }

    /** The inner loop of the update. */
    method ShiftByte()
      modifies this
      ensures value == Rounds(alg.bit, old(value), 8)
    {
      ghost var entered := value;
      for bit := 0 to 8
        invariant value == Rounds(alg.bit, entered, bit)
      {
        value := alg.bit(value);
      }
    }

    method Update(data: Message)
      modifies this
      ensures value == Fed(alg, old(value), data)
    {
      ghost var start := value;
      assert data[..0] == [];
      for i := 0 to |data|
        invariant value == Fed(alg, start, data[..i])
      {
        assert data[..i + 1] == data[..i] + [data[i]];
        FedSnoc(alg, start, data[..i], data[i]);
        value := alg.add(value, alg.place(data[i]));
        ShiftByte();
      }
      assert data[..|data|] == data;
    }

    method Finalize() returns (result: R)
      ensures result == alg.add(value, alg.finalXor)
    {
      result := alg.add(value, alg.finalXor);
    }
  }

  method Calculate<R>(alg: Algorithm<R>, data: Message) returns (result: R)
    ensures result == Crc(alg, data)
  {
    var context := new Context(alg);
    context.Update(data);
    result := context.Finalize();
  }
}
