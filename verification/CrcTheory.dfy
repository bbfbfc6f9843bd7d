/**
 What a checksum is: the remainder of the message, shifted by the register width, modulo a generator
 polynomial. All other laws of the three checksums follow from this one.
 */
module CrcTheory {
  import opened CrcAlgorithm
  import opened Polynomials

  /**
   In which order the bits of a byte stand for coefficients, and a byte multiplied by x, with the highest
   coefficient of the byte below it entering.
   */
  datatype BitOrder = BitOrder(coefficient: (bv8, nat) -> bool, shiftIn: (bv8, bv8) -> bv8)

  /**
   A register stands for the polynomial that its bytes show in the order in which they are appended;
   feedback is what a bit round feeds back.
   */
  datatype Reading<!R> = Reading(order: BitOrder, feedback: R)

  function Coefficient<R>(alg: Algorithm<R>, rd: Reading<R>, r: R, i: nat): bool {
    var m := alg.bytes(r);
    i < 8 * |m| && rd.order.coefficient(m[|m| - 1 - i / 8], i % 8)
  }

  function Degree<R>(alg: Algorithm<R>): nat {
    8 * alg.width
  }

  /** The bytewise exclusive or of two messages. */
  function Xor(a: Message, b: Message): (c: Message)
    requires |a| == |b|
    ensures |c| == |a| && forall i :: 0 <= i < |a| ==> c[i] == a[i] ^ b[i]
  {
    seq(|a|, i requires 0 <= i < |a| => a[i] ^ b[i])
  }

  /** Where the register ends behind a message that is followed by its checksum. */
  function Residue<R>(alg: Algorithm<R>): R {
    Rounds(alg.bit, alg.finalXor, Degree(alg))
  }

  // ---------------------------------------------------------------- registers and messages as polynomials

  ghost function Value<R>(alg: Algorithm<R>, rd: Reading<R>, r: R): Poly {
    set i: nat | i < Degree(alg) && Coefficient(alg, rd, r, i)
  }

  ghost function ByteValue<R>(rd: Reading<R>, b: bv8): Poly {
    set i: nat | i < 8 && rd.order.coefficient(b, i)
  }

  /** The message as one polynomial, the first byte highest. */
  ghost function MessageValue<R>(rd: Reading<R>, message: Message): Poly {
    if message == [] then {}
    else Sum(Shift(MessageValue(rd, message[..|message| - 1]), 8), ByteValue(rd, message[|message| - 1]))
  }

  ghost function Generator<R>(alg: Algorithm<R>, rd: Reading<R>): Poly {
    Value(alg, rd, rd.feedback) + {Degree(alg)}
  }

  /** The start register above the message, the message above the register width. */
  ghost function Dividend<R>(alg: Algorithm<R>, rd: Reading<R>, start: R, message: Message): Poly {
    Sum(Shift(Value(alg, rd, start), 8 * |message|), Shift(MessageValue(rd, message), Degree(alg)))
  }

  // ---------------------------------------------------------------- what the bits have to do

  ghost predicate SameBits(order: BitOrder, b: bv8, c: bv8) {
    forall k: nat :: k < 8 ==> order.coefficient(b, k) == order.coefficient(c, k)
  }

  ghost predicate XorsBit(order: BitOrder, b: bv8, c: bv8, k: nat) {
    order.coefficient(b ^ c, k) == (order.coefficient(b, k) != order.coefficient(c, k))
  }

  ghost predicate ShiftsBit(order: BitOrder, b: bv8, below: bv8, k: nat) {
    order.coefficient(order.shiftIn(b, below), k) ==
    if k > 0 then order.coefficient(b, k - 1) else order.coefficient(below, 7)
  }

  /** What the order of the bits in a byte has to do with exclusive or and with shifts. */
  ghost predicate Orders(order: BitOrder) {
    && (forall b: bv8, c: bv8 :: SameBits(order, b, c) ==> b == c)
    && (forall b: bv8, c: bv8, k: nat :: k < 8 ==> XorsBit(order, b, c, k))
    && (forall b: bv8, c: bv8, k: nat :: k < 8 ==> ShiftsBit(order, b, c, k))
    && (forall k: nat :: k < 8 ==> !order.coefficient(0, k))
  }

  function Below(m: Message, n: nat): bv8 {
    if n + 1 < |m| then m[n + 1] else 0
  }

  /** A bit round shifts every byte, and feeds back when the highest coefficient leaves the register. */
  ghost predicate RoundShifts<R>(alg: Algorithm<R>, rd: Reading<R>, r: R, n: nat)
    requires n < |alg.bytes(r)| == |alg.bytes(alg.bit(r))| == |alg.bytes(rd.feedback)|
  {
    var m := alg.bytes(r);
    var shifted, leaves := rd.order.shiftIn(m[n], Below(m, n)), rd.order.coefficient(m[0], 7);
    alg.bytes(alg.bit(r))[n] == if leaves then shifted ^ alg.bytes(rd.feedback)[n] else shifted
  }

  /** A byte enters at the upper end. */
  ghost predicate EntersAbove<R>(alg: Algorithm<R>, b: bv8) {
    var m := alg.bytes(alg.place(b));
    |m| >= 1 && m[0] == b && forall n :: 1 <= n < |m| ==> m[n] == 0
  }

  ghost predicate SumsBytes<R>(alg: Algorithm<R>, r: R, s: R)
    requires |alg.bytes(r)| == |alg.bytes(s)|
  {
    alg.bytes(alg.add(r, s)) == Xor(alg.bytes(r), alg.bytes(s))
  }

  ghost predicate SameBytes<R>(alg: Algorithm<R>, r: R, s: R) {
    alg.bytes(r) == alg.bytes(s)
  }

  /** The algorithm computes on the bytes that show its register, and nothing is lost in them. */
  ghost predicate Bytewise<R(!new)>(alg: Algorithm<R>, rd: Reading<R>) {
    && Orders(rd.order)
    && alg.width >= 1
    && (forall r: R :: |alg.bytes(r)| == alg.width)
    && (forall r: R, s: R :: SameBytes(alg, r, s) ==> r == s)
    && (forall r: R, n: nat :: n < alg.width ==> RoundShifts(alg, rd, r, n))
    && (forall r: R, s: R :: SumsBytes(alg, r, s))
    && (forall b: bv8 :: EntersAbove(alg, b))
  }

  // ---------------------------------------------------------------- what follows for the coefficients

  /** A bit round shifts every coefficient up, and feeds back when the highest one leaves the register. */
  ghost predicate RoundReadsAt<R>(alg: Algorithm<R>, rd: Reading<R>, r: R, i: nat)
    requires alg.width >= 1
  {
    var shifted, leaves := i > 0 && Coefficient(alg, rd, r, i - 1), Coefficient(alg, rd, r, Degree(alg) - 1);
    Coefficient(alg, rd, alg.bit(r), i) == (shifted != (leaves && Coefficient(alg, rd, rd.feedback, i)))
  }

  ghost predicate SumReadsAt<R>(alg: Algorithm<R>, rd: Reading<R>, r: R, s: R, i: nat) {
    Coefficient(alg, rd, alg.add(r, s), i) == (Coefficient(alg, rd, r, i) != Coefficient(alg, rd, s, i))
  }

  /** A byte enters at the upper end. */
  ghost predicate PlaceReadsAt<R>(alg: Algorithm<R>, rd: Reading<R>, b: bv8, i: nat)
    requires alg.width >= 1
  {
    var high := Degree(alg) - 8;
    Coefficient(alg, rd, alg.place(b), i) == (i >= high && rd.order.coefficient(b, i - high))
  }

  ghost predicate SameCoefficients<R>(alg: Algorithm<R>, rd: Reading<R>, r: R, s: R) {
    forall i: nat :: i < Degree(alg) ==> Coefficient(alg, rd, r, i) == Coefficient(alg, rd, s, i)
  }

  /** The algorithm computes with polynomials in this reading, and its generator has a constant term. */
  ghost predicate Reads<R(!new)>(alg: Algorithm<R>, rd: Reading<R>) {
    && Orders(rd.order)
    && alg.width >= 1
    && (forall r: R :: |alg.bytes(r)| == alg.width)
    && (forall r: R, i: nat :: i < Degree(alg) ==> RoundReadsAt(alg, rd, r, i))
    && (forall r: R, s: R, i: nat :: i < Degree(alg) ==> SumReadsAt(alg, rd, r, s, i))
    && (forall b: bv8, i: nat :: i < Degree(alg) ==> PlaceReadsAt(alg, rd, b, i))
    && (forall r: R, s: R :: SameCoefficients(alg, rd, r, s) ==> r == s)
    && Coefficient(alg, rd, rd.feedback, 0)
  }

  // ---------------------------------------------------------------- registers and bytes are their coefficients

  lemma {:induction false} BytesAreBits<R(!new)>(alg: Algorithm<R>, rd: Reading<R>, r: R, s: R)
    requires Bytewise(alg, rd) && SameCoefficients(alg, rd, r, s)
    ensures r == s
  {
    var a, b := alg.bytes(r), alg.bytes(s);
    forall n | 0 <= n < alg.width ensures a[n] == b[n] {
      var j := alg.width - 1 - n;
      forall k: nat | k < 8 ensures rd.order.coefficient(a[n], k) == rd.order.coefficient(b[n], k) {
        var i := 8 * j + k;
        assert i / 8 == j && i % 8 == k;
        assert Coefficient(alg, rd, r, i) == Coefficient(alg, rd, s, i);
      }
      assert SameBits(rd.order, a[n], b[n]);
    }
    assert SameBytes(alg, r, s);
  }

  lemma {:induction false} ByteBelow(i: nat)
    ensures i > 0 && i % 8 == 0 ==> (i - 1) / 8 == i / 8 - 1 && (i - 1) % 8 == 7
    ensures i % 8 > 0 ==> (i - 1) / 8 == i / 8 && (i - 1) % 8 == i % 8 - 1
  {
  }

  /** Where the coefficient below is found, across the border of two bytes. */
  lemma {:induction false} CoefficientBelow<R>(alg: Algorithm<R>, rd: Reading<R>, r: R, i: nat)
    requires Orders(rd.order) && |alg.bytes(r)| == alg.width && i < Degree(alg)
    ensures (i > 0 && Coefficient(alg, rd, r, i - 1)) ==
            if i % 8 > 0 then rd.order.coefficient(alg.bytes(r)[alg.width - 1 - i / 8], i % 8 - 1)
            else rd.order.coefficient(Below(alg.bytes(r), alg.width - 1 - i / 8), 7)
  {
    ByteBelow(i);
    if i == 0 {
      assert Below(alg.bytes(r), alg.width - 1) == 0;
    }
  }

  lemma {:induction false} HighestCoefficient<R>(alg: Algorithm<R>, rd: Reading<R>, r: R)
    requires |alg.bytes(r)| == alg.width >= 1
    ensures Coefficient(alg, rd, r, Degree(alg) - 1) == rd.order.coefficient(alg.bytes(r)[0], 7)
  {
    ByteBelow(Degree(alg));
  }

  /** One byte of the register after a bit round. */
  lemma {:induction false} RegisterByte<R(!new)>(alg: Algorithm<R>, rd: Reading<R>, r: R, n: nat, k: nat)
    requires Bytewise(alg, rd) && n < alg.width && k < 8
    ensures rd.order.coefficient(alg.bytes(alg.bit(r))[n], k) ==
            ((if k > 0 then rd.order.coefficient(alg.bytes(r)[n], k - 1)
              else rd.order.coefficient(Below(alg.bytes(r), n), 7)) !=
             (rd.order.coefficient(alg.bytes(r)[0], 7) && rd.order.coefficient(alg.bytes(rd.feedback)[n], k)))
  {
    var m := alg.bytes(r);
    assert RoundShifts(alg, rd, r, n);
    assert ShiftsBit(rd.order, m[n], Below(m, n), k);
    assert XorsBit(rd.order, rd.order.shiftIn(m[n], Below(m, n)), alg.bytes(rd.feedback)[n], k);
  }

  lemma {:induction false} RoundReads<R(!new)>(alg: Algorithm<R>, rd: Reading<R>, r: R, i: nat)
    requires Bytewise(alg, rd) && i < Degree(alg)
    ensures RoundReadsAt(alg, rd, r, i)
  {
    RegisterByte(alg, rd, r, alg.width - 1 - i / 8, i % 8);
    HighestCoefficient(alg, rd, r);
    CoefficientBelow(alg, rd, r, i);
  }

  lemma {:induction false} SumReads<R(!new)>(alg: Algorithm<R>, rd: Reading<R>, r: R, s: R, i: nat)
    requires Bytewise(alg, rd) && i < Degree(alg)
    ensures SumReadsAt(alg, rd, r, s, i)
  {
    var n := alg.width - 1 - i / 8;
    assert SumsBytes(alg, r, s);
    assert XorsBit(rd.order, alg.bytes(r)[n], alg.bytes(s)[n], i % 8);
  }

  lemma {:induction false} PlaceReads<R(!new)>(alg: Algorithm<R>, rd: Reading<R>, b: bv8, i: nat)
    requires Bytewise(alg, rd) && i < Degree(alg)
    ensures PlaceReadsAt(alg, rd, b, i)
  {
    assert EntersAbove(alg, b);
    if i >= Degree(alg) - 8 {
      assert i / 8 == alg.width - 1 && i % 8 == i - (Degree(alg) - 8);
    } else {
      assert alg.bytes(alg.place(b))[alg.width - 1 - i / 8] == 0;
    }
  }

  /** What computes on the bytes computes with polynomials. */
  lemma {:induction false} BytewiseReads<R(!new)>(alg: Algorithm<R>, rd: Reading<R>)
    requires Bytewise(alg, rd) && Coefficient(alg, rd, rd.feedback, 0)
    ensures Reads(alg, rd)
  {
    forall r: R, i: nat | i < Degree(alg) ensures RoundReadsAt(alg, rd, r, i) {
      RoundReads(alg, rd, r, i);
    }
    forall r: R, s: R, i: nat | i < Degree(alg) ensures SumReadsAt(alg, rd, r, s, i) {
      SumReads(alg, rd, r, s, i);
    }
    forall b: bv8, i: nat | i < Degree(alg) ensures PlaceReadsAt(alg, rd, b, i) {
      PlaceReads(alg, rd, b, i);
    }
    forall r: R, s: R | SameCoefficients(alg, rd, r, s) ensures r == s {
      BytesAreBits(alg, rd, r, s);
    }
  }

  /** A bit round loses nothing. */
  lemma {:induction false} BitIsInjective<R(!new)>(alg: Algorithm<R>, rd: Reading<R>, r: R, s: R)
    requires Reads(alg, rd)
    ensures alg.bit(r) == alg.bit(s) <==> r == s
  {
    var top := Degree(alg) - 1;
    if alg.bit(r) == alg.bit(s) {
      assert RoundReadsAt(alg, rd, r, 0) && RoundReadsAt(alg, rd, s, 0);
      assert Coefficient(alg, rd, r, top) == Coefficient(alg, rd, s, top);
      forall i: nat | i < top ensures Coefficient(alg, rd, r, i) == Coefficient(alg, rd, s, i) {
        assert RoundReadsAt(alg, rd, r, i + 1) && RoundReadsAt(alg, rd, s, i + 1);
      }
      assert SameCoefficients(alg, rd, r, s);
    }
  }

  /** A bit round commutes with exclusive or. */
  lemma {:induction false} BitIsAdditive<R(!new)>(alg: Algorithm<R>, rd: Reading<R>, r: R, s: R)
    requires Reads(alg, rd)
    ensures alg.bit(alg.add(r, s)) == alg.add(alg.bit(r), alg.bit(s))
  {
    var left, right, top := alg.bit(alg.add(r, s)), alg.add(alg.bit(r), alg.bit(s)), Degree(alg) - 1;
    assert SumReadsAt(alg, rd, r, s, top);
    forall i: nat | i < Degree(alg) ensures Coefficient(alg, rd, left, i) == Coefficient(alg, rd, right, i) {
      assert RoundReadsAt(alg, rd, alg.add(r, s), i) && RoundReadsAt(alg, rd, r, i) && RoundReadsAt(alg, rd, s, i);
      assert i > 0 ==> SumReadsAt(alg, rd, r, s, i - 1);
      assert SumReadsAt(alg, rd, alg.bit(r), alg.bit(s), i);
    }
    assert SameCoefficients(alg, rd, left, right);
  }

  // ---------------------------------------------------------------- one update, modulo the generator

  ghost predicate RoundCongruent<R>(alg: Algorithm<R>, rd: Reading<R>, r: R) {
    Congruent(Shift(Value(alg, rd, r), 1), Value(alg, rd, alg.bit(r)), Generator(alg, rd))
  }

  lemma {:induction false} BitValue<R(!new)>(alg: Algorithm<R>, rd: Reading<R>, r: R)
    requires Reads(alg, rd)
    ensures RoundCongruent(alg, rd, r)
  {
    var g, d := Generator(alg, rd), Degree(alg);
    var sum := Sum(Shift(Value(alg, rd, r), 1), Value(alg, rd, alg.bit(r)));
    var expected := if Coefficient(alg, rd, r, d - 1) then g else {};
    forall e: nat ensures e in sum <==> e in expected {
      if e < d {
        assert RoundReadsAt(alg, rd, r, e);
      }
    }
    assert sum == expected;
    TrivialMultiples(g);
  }

  /** Two congruences in a row, the first multiplied by x once more. */
  lemma {:induction false} NextRound(p: Poly, n: nat, v: Poly, next: Poly, g: Poly)
    requires Congruent(Shift(p, n), v, g) && Congruent(Shift(v, 1), next, g)
    ensures Congruent(Shift(p, n + 1), next, g)
  {
    MultiplesShift(Sum(Shift(p, n), v), 1, g);
    ShiftedSum(Shift(p, n), v, 1);
    ShiftedTwice(p, n, 1);
    MultiplesAdd(Sum(Shift(p, n + 1), Shift(v, 1)), Sum(Shift(v, 1), next), g);
    SumMeets(Shift(p, n + 1), Shift(v, 1), next);
  }

  lemma {:induction false} NoRound(p: Poly, g: Poly)
    ensures Congruent(Shift(p, 0), p, g)
  {
    ShiftedByNothing(p);
    CongruentToItself(p, g);
  }

  ghost predicate RoundsCongruent<R>(alg: Algorithm<R>, rd: Reading<R>, r: R, s: R, n: nat) {
    Congruent(Shift(Value(alg, rd, r), n), Value(alg, rd, s), Generator(alg, rd))
  }

  lemma {:induction false} RoundsValue<R(!new)>(alg: Algorithm<R>, rd: Reading<R>, r: R, n: nat)
    requires Reads(alg, rd)
    ensures RoundsCongruent(alg, rd, r, Rounds(alg.bit, r, n), n)
  {
    NoRound(Value(alg, rd, r), Generator(alg, rd));
    forall s: R, k: nat | RoundsCongruent(alg, rd, r, s, k) ensures RoundsCongruent(alg, rd, r, alg.bit(s), k + 1) {
      BitValue(alg, rd, s);
      NextRound(Value(alg, rd, r), k, Value(alg, rd, s), Value(alg, rd, alg.bit(s)), Generator(alg, rd));
    }
    RoundsKeep(alg.bit, r, n, (s: R, k: nat) => RoundsCongruent(alg, rd, r, s, k));
  }

  lemma {:induction false} AddValue<R(!new)>(alg: Algorithm<R>, rd: Reading<R>, r: R, s: R)
    requires Reads(alg, rd)
    ensures Value(alg, rd, alg.add(r, s)) == Sum(Value(alg, rd, r), Value(alg, rd, s))
  {
    forall e: nat ensures e in Value(alg, rd, alg.add(r, s)) <==> e in Sum(Value(alg, rd, r), Value(alg, rd, s)) {
      if e < Degree(alg) {
        assert SumReadsAt(alg, rd, r, s, e);
      }
    }
  }

  lemma {:induction false} PlaceValue<R(!new)>(alg: Algorithm<R>, rd: Reading<R>, b: bv8)
    requires Reads(alg, rd)
    ensures Value(alg, rd, alg.place(b)) == Shift(ByteValue(rd, b), Degree(alg) - 8)
  {
    var high := Degree(alg) - 8;
    forall e: nat ensures e in Value(alg, rd, alg.place(b)) <==> e in Shift(ByteValue(rd, b), high) {
      if e < Degree(alg) {
        assert PlaceReadsAt(alg, rd, b, e);
      }
    }
  }

  /** One byte: the register and the byte, both shifted, leave the new register modulo the generator. */
  lemma {:induction false} StepValue<R(!new)>(alg: Algorithm<R>, rd: Reading<R>, r: R, b: bv8)
    requires Reads(alg, rd)
    ensures Congruent(Sum(Shift(Value(alg, rd, r), 8), Shift(ByteValue(rd, b), Degree(alg))),
                      Value(alg, rd, Step(alg, r, b)), Generator(alg, rd))
  {
    var v, byte, high := Value(alg, rd, r), ByteValue(rd, b), Degree(alg) - 8;
    AddValue(alg, rd, r, alg.place(b));
    PlaceValue(alg, rd, b);
    RoundsValue(alg, rd, alg.add(r, alg.place(b)), 8);
    ShiftedSum(v, Shift(byte, high), 8);
    ShiftedTwice(byte, high, 8);
  }

  lemma {:induction false} MessageSnoc<R>(rd: Reading<R>, message: Message, b: bv8)
    ensures MessageValue(rd, message + [b]) == Sum(Shift(MessageValue(rd, message), 8), ByteValue(rd, b))
  {
    assert (message + [b])[..|message|] == message;
  }

  lemma {:induction false} ShiftedHorner(p: Poly, n: nat, m: Poly, byte: Poly, d: nat)
    ensures Sum(Shift(p, n + 8), Shift(Sum(Shift(m, 8), byte), d))
         == Sum(Shift(Sum(Shift(p, n), Shift(m, d)), 8), Shift(byte, d))
  {
    ShiftedSum(Shift(m, 8), byte, d);
    ShiftedTwice(m, 8, d);
    ShiftedSum(Shift(p, n), Shift(m, d), 8);
    ShiftedTwice(p, n, 8);
    ShiftedTwice(m, d, 8);
    SumAssociates(Shift(p, n + 8), Shift(m, d + 8), Shift(byte, d));
  }

  lemma {:induction false} DividendSnoc<R>(alg: Algorithm<R>, rd: Reading<R>, start: R, message: Message, b: bv8)
    ensures Dividend(alg, rd, start, message + [b])
         == Sum(Shift(Dividend(alg, rd, start, message), 8), Shift(ByteValue(rd, b), Degree(alg)))
  {
    MessageSnoc(rd, message, b);
    assert 8 * |message + [b]| == 8 * |message| + 8;
    ShiftedHorner(Value(alg, rd, start), 8 * |message|, MessageValue(rd, message), ByteValue(rd, b), Degree(alg));
  }

  /** The congruences of the earlier bytes and of the last byte give that of all. */
  lemma {:induction false} NextByte(before: Poly, v: Poly, byte: Poly, last: Poly, g: Poly)
    requires Congruent(before, v, g) && Congruent(Sum(Shift(v, 8), byte), last, g)
    ensures Congruent(Sum(Shift(before, 8), byte), last, g)
  {
    MultiplesShift(Sum(before, v), 8, g);
    ShiftedSum(before, v, 8);
    MultiplesAdd(Sum(Shift(before, 8), Shift(v, 8)), Sum(Sum(Shift(v, 8), byte), last), g);
    SumAssociates(Shift(v, 8), byte, last);
    SumMeets(Shift(before, 8), Shift(v, 8), Sum(byte, last));
    SumAssociates(Shift(before, 8), byte, last);
  }

  lemma {:induction false} FedValue<R(!new)>(alg: Algorithm<R>, rd: Reading<R>, start: R, message: Message)
    requires Reads(alg, rd)
    ensures Congruent(Dividend(alg, rd, start, message), Value(alg, rd, Fed(alg, start, message)), Generator(alg, rd))
  {
    if message == [] {
      var p := Value(alg, rd, start);
      ShiftedByNothing(p);
      ShiftedNothing(Degree(alg));
      SumWithNothing(p);
      CongruentToItself(p, Generator(alg, rd));
    } else {
      var earlier, b := message[..|message| - 1], message[|message| - 1];
      assert message == earlier + [b];
      var middle := Fed(alg, start, earlier);
      FedValue(alg, rd, start, earlier);
      FedSnoc(alg, start, earlier, b);
      StepValue(alg, rd, middle, b);
      NextByte(Dividend(alg, rd, start, earlier), Value(alg, rd, middle), Shift(ByteValue(rd, b), Degree(alg)),
               Value(alg, rd, Step(alg, middle, b)), Generator(alg, rd));
      DividendSnoc(alg, rd, start, earlier, b);
    }
  }

  lemma {:induction false} EqualValues<R(!new)>(alg: Algorithm<R>, rd: Reading<R>, r: R, s: R)
    requires Reads(alg, rd)
    ensures Value(alg, rd, r) == Value(alg, rd, s) ==> r == s
  {
    if Value(alg, rd, r) == Value(alg, rd, s) {
      forall i: nat | i < Degree(alg) ensures Coefficient(alg, rd, r, i) == Coefficient(alg, rd, s, i) {
        assert i in Value(alg, rd, r) <==> i in Value(alg, rd, s);
      }
      assert SameCoefficients(alg, rd, r, s);
    }
  }

  /**
   What an update computes: the register behind a message is the one register whose polynomial is the
   remainder of the dividend modulo the generator.
   */
  lemma {:induction false} FedIsRemainder<R(!new)>(alg: Algorithm<R>, rd: Reading<R>, start: R, message: Message, r: R)
    requires Reads(alg, rd)
    ensures r == Fed(alg, start, message) <==>
      Congruent(Dividend(alg, rd, start, message), Value(alg, rd, r), Generator(alg, rd))
  {
    var last, dividend := Fed(alg, start, message), Dividend(alg, rd, start, message);
    FedValue(alg, rd, start, message);
    if Congruent(dividend, Value(alg, rd, r), Generator(alg, rd)) {
      RemainderIsUnique(dividend, Value(alg, rd, r), Value(alg, rd, last), Generator(alg, rd), Degree(alg));
      EqualValues(alg, rd, r, last);
    }
  }

  // ---------------------------------------------------------------- which messages lead to the same register

  /** Two updates end in the same register exactly when their dividends are congruent. */
  lemma {:induction false} SameRegister<R(!new)>(alg: Algorithm<R>, rd: Reading<R>, r: R, a: Message, s: R, b: Message)
    requires Reads(alg, rd)
    ensures Fed(alg, r, a) == Fed(alg, s, b) <==>
      Congruent(Dividend(alg, rd, r, a), Dividend(alg, rd, s, b), Generator(alg, rd))
  {
    var g := Generator(alg, rd);
    var p, q := Dividend(alg, rd, r, a), Dividend(alg, rd, s, b);
    var v, w := Value(alg, rd, Fed(alg, r, a)), Value(alg, rd, Fed(alg, s, b));
    FedValue(alg, rd, r, a);
    FedValue(alg, rd, s, b);
    if Fed(alg, r, a) == Fed(alg, s, b) {
      MultiplesAdd(Sum(p, v), Sum(q, w), g);
      SumCommutes(q, w);
      SumMeets(p, v, q);
    } else if Congruent(p, q, g) {
      MultiplesAdd(Sum(p, q), Sum(q, w), g);
      SumMeets(p, q, w);
      FedIsRemainder(alg, rd, r, a, Fed(alg, s, b));
    }
  }

  lemma {:induction false} EarlierByte(e: nat)
    ensures if e < 8 then e / 8 == 0 && e % 8 == e else (e - 8) / 8 == e / 8 - 1 && (e - 8) % 8 == e % 8
  {
  }

  lemma {:induction false} MessageCoefficient<R>(rd: Reading<R>, m: Message, e: nat)
    ensures e in MessageValue(rd, m) <==> e < 8 * |m| && rd.order.coefficient(m[|m| - 1 - e / 8], e % 8)
  {
    EarlierByte(e);
    if m == [] {
    } else if e < 8 {
      assert e !in Shift(MessageValue(rd, m[..|m| - 1]), 8);
    } else {
      MessageCoefficient(rd, m[..|m| - 1], e - 8);
      assert e !in ByteValue(rd, m[|m| - 1]);
    }
  }

  lemma {:induction false} MessageIsItsValue<R>(rd: Reading<R>, a: Message, b: Message)
    requires Orders(rd.order) && |a| == |b|
    ensures MessageValue(rd, a) == MessageValue(rd, b) <==> a == b
  {
    if MessageValue(rd, a) == MessageValue(rd, b) {
      forall k | 0 <= k < |a| ensures a[k] == b[k] {
        var j := |a| - 1 - k;
        forall i: nat | i < 8 ensures rd.order.coefficient(a[k], i) == rd.order.coefficient(b[k], i) {
          MessageCoefficient(rd, a, 8 * j + i);
          MessageCoefficient(rd, b, 8 * j + i);
          assert (8 * j + i) / 8 == j && (8 * j + i) % 8 == i;
        }
        assert SameBits(rd.order, a[k], b[k]);
      }
    }
  }

  lemma {:induction false} MessageXor<R>(rd: Reading<R>, a: Message, b: Message)
    requires Orders(rd.order) && |a| == |b|
    ensures MessageValue(rd, Xor(a, b)) == Sum(MessageValue(rd, a), MessageValue(rd, b))
  {
    forall e: nat ensures e in MessageValue(rd, Xor(a, b)) <==> e in Sum(MessageValue(rd, a), MessageValue(rd, b)) {
      MessageCoefficient(rd, Xor(a, b), e);
      MessageCoefficient(rd, a, e);
      MessageCoefficient(rd, b, e);
      if e < 8 * |a| {
        var k := |a| - 1 - e / 8;
        assert XorsBit(rd.order, a[k], b[k], e % 8);
      }
    }
  }

  lemma {:induction false} DividendsAdd<R>(alg: Algorithm<R>, rd: Reading<R>, r: R, a: Message, s: R, b: Message)
    requires |a| == |b|
    ensures Sum(Dividend(alg, rd, r, a), Dividend(alg, rd, s, b))
         == Sum(Shift(Sum(Value(alg, rd, r), Value(alg, rd, s)), 8 * |a|),
                Shift(Sum(MessageValue(rd, a), MessageValue(rd, b)), Degree(alg)))
  {
    var n, d := 8 * |a|, Degree(alg);
    SumPairs(Shift(Value(alg, rd, r), n), Shift(MessageValue(rd, a), d), Shift(Value(alg, rd, s), n),
             Shift(MessageValue(rd, b), d));
    ShiftedSum(Value(alg, rd, r), Value(alg, rd, s), n);
    ShiftedSum(MessageValue(rd, a), MessageValue(rd, b), d);
  }

  /** Every message permutes the registers: different registers stay different. */
  lemma {:induction false} UpdateIsInjective<R(!new)>(alg: Algorithm<R>, rd: Reading<R>, r: R, s: R, message: Message)
    requires Reads(alg, rd)
    ensures Fed(alg, r, message) == Fed(alg, s, message) <==> r == s
  {
    if Fed(alg, r, message) == Fed(alg, s, message) {
      var v, w, m := Value(alg, rd, r), Value(alg, rd, s), MessageValue(rd, message);
      SameRegister(alg, rd, r, message, s, message);
      DividendsAdd(alg, rd, r, message, s, message);
      SumWithNothing(m);
      ShiftedNothing(Degree(alg));
      SumWithNothing(Shift(Sum(v, w), 8 * |message|));
      MultiplesUnshift(Sum(v, w), 8 * |message|, Generator(alg, rd));
      LowMultipleVanishes(Sum(v, w), Generator(alg, rd), Degree(alg));
      SumVanishes(v, w);
      EqualValues(alg, rd, r, s);
    }
  }

  /** Exclusive or of registers and messages gives the exclusive or of the registers behind them. */
  lemma {:induction false} UpdateIsLinear<R(!new)>(alg: Algorithm<R>, rd: Reading<R>, r: R, s: R, a: Message,
                                                   b: Message)
    requires Reads(alg, rd) && |a| == |b|
    ensures Fed(alg, alg.add(r, s), Xor(a, b)) == alg.add(Fed(alg, r, a), Fed(alg, s, b))
  {
    var p, q := Dividend(alg, rd, r, a), Dividend(alg, rd, s, b);
    var v, w := Value(alg, rd, Fed(alg, r, a)), Value(alg, rd, Fed(alg, s, b));
    AddValue(alg, rd, r, s);
    MessageXor(rd, a, b);
    DividendsAdd(alg, rd, r, a, s, b);
    assert Dividend(alg, rd, alg.add(r, s), Xor(a, b)) == Sum(p, q);
    FedValue(alg, rd, r, a);
    FedValue(alg, rd, s, b);
    MultiplesAdd(Sum(p, v), Sum(q, w), Generator(alg, rd));
    SumPairs(p, v, q, w);
    AddValue(alg, rd, Fed(alg, r, a), Fed(alg, s, b));
    FedIsRemainder(alg, rd, alg.add(r, s), Xor(a, b), alg.add(Fed(alg, r, a), Fed(alg, s, b)));
  }

  // ---------------------------------------------------------------- error detection

  lemma {:induction false} AddCancels<R(!new)>(alg: Algorithm<R>, rd: Reading<R>, r: R, s: R, t: R)
    requires Reads(alg, rd)
    ensures alg.add(r, t) == alg.add(s, t) <==> r == s
  {
    if alg.add(r, t) == alg.add(s, t) {
      forall i: nat | i < Degree(alg) ensures Coefficient(alg, rd, r, i) == Coefficient(alg, rd, s, i) {
        assert SumReadsAt(alg, rd, r, t, i);
        assert SumReadsAt(alg, rd, s, t, i);
      }
      assert SameCoefficients(alg, rd, r, s);
    }
  }

  /** All differing bits of two messages lie within a window of d bits that starts k bits before the end. */
  ghost predicate DifferWithin<R>(rd: Reading<R>, a: Message, b: Message, k: nat, d: nat) {
    forall e :: e in Sum(MessageValue(rd, a), MessageValue(rd, b)) ==> k <= e < k + d
  }

  lemma {:induction false} Unshifted(p: Poly, k: nat) returns (low: Poly)
    requires forall e :: e in p ==> k <= e
    ensures forall e: nat :: e in low <==> e + k in p
    ensures Shift(low, k) == p
  {
    low := set e | e in p :: e - k;
    forall e: nat ensures e in low <==> e + k in p {
      assert e + k in p ==> (e + k) - k in low;
    }
  }

  lemma {:induction false} ShortErrorsAreSeen(p: Poly, k: nat, g: Poly, d: nat)
    requires HasDegree(g, d) && 0 in g && Multiple(p, g) && forall e :: e in p ==> k <= e < k + d
    ensures p == {}
  {
    var low := Unshifted(p, k);
    MultiplesUnshift(low, k, g);
    LowMultipleVanishes(low, g, d);
    ShiftedNothing(k);
  }

  /**
   Every burst is detected: two messages of equal length whose differing bits, at any offset, span no
   more bits than the register has, share a register if and only if they are equal.
   */
  lemma {:induction false} BurstsChangeTheRegister<R(!new)>(alg: Algorithm<R>, rd: Reading<R>, start: R,
                                                            a: Message, b: Message, k: nat)
    requires Reads(alg, rd) && |a| == |b| && DifferWithin(rd, a, b, k, Degree(alg))
    ensures Fed(alg, start, a) == Fed(alg, start, b) <==> a == b
  {
    if Fed(alg, start, a) == Fed(alg, start, b) {
      var v, error := Value(alg, rd, start), Sum(MessageValue(rd, a), MessageValue(rd, b));
      SameRegister(alg, rd, start, a, start, b);
      DividendsAdd(alg, rd, start, a, start, b);
      SumWithNothing(v);
      ShiftedNothing(8 * |a|);
      SumWithNothing(Shift(error, Degree(alg)));
      MultiplesUnshift(error, Degree(alg), Generator(alg, rd));
      ShortErrorsAreSeen(error, k, Generator(alg, rd), Degree(alg));
      SumVanishes(MessageValue(rd, a), MessageValue(rd, b));
      MessageIsItsValue(rd, a, b);
    }
  }

  /** The same of the results: a burst of at most as many bits as the checksum has always changes it. */
  lemma {:induction false} DetectsBurst<R(!new)>(alg: Algorithm<R>, rd: Reading<R>, a: Message, b: Message, k: nat)
    requires Reads(alg, rd) && |a| == |b| && DifferWithin(rd, a, b, k, Degree(alg))
    ensures Crc(alg, a) == Crc(alg, b) <==> a == b
  {
    BurstsChangeTheRegister(alg, rd, alg.initial, a, b, k);
    AddCancels(alg, rd, Fed(alg, alg.initial, a), Fed(alg, alg.initial, b), alg.finalXor);
  }

  lemma {:induction false} WindowSpansBits<R>(rd: Reading<R>, head: Message, a: Message, b: Message, tail: Message,
                                              d: nat)
    requires |a| == |b| && 8 * |a| <= d
    ensures DifferWithin(rd, head + a + tail, head + b + tail, 8 * |tail|, d)
  {
    var x, y := head + a + tail, head + b + tail;
    forall e | e in Sum(MessageValue(rd, x), MessageValue(rd, y)) ensures 8 * |tail| <= e < 8 * |tail| + d {
      MessageCoefficient(rd, x, e);
      MessageCoefficient(rd, y, e);
      var k := |x| - 1 - e / 8;
      assert x[k] != y[k];
      assert |head| <= k < |head| + |a|;
    }
  }

  /** Messages that differ only inside as many consecutive bytes as the checksum has. */
  lemma {:induction false} DetectsWindow<R(!new)>(alg: Algorithm<R>, rd: Reading<R>,
                                                  head: Message, a: Message, b: Message, tail: Message)
    requires Reads(alg, rd) && |a| == |b| <= alg.width
    ensures Crc(alg, head + a + tail) == Crc(alg, head + b + tail) <==> a == b
  {
    WindowSpansBits(rd, head, a, b, tail, Degree(alg));
    DetectsBurst(alg, rd, head + a + tail, head + b + tail, 8 * |tail|);
    assert (head + a + tail)[|head|..|head| + |a|] == a && (head + b + tail)[|head|..|head| + |a|] == b;
  }

  // ---------------------------------------------------------------- messages that carry their checksum

  lemma {:induction false} BytesValue<R(!new)>(alg: Algorithm<R>, rd: Reading<R>, r: R)
    requires Reads(alg, rd)
    ensures MessageValue(rd, alg.bytes(r)) == Value(alg, rd, r)
  {
    forall e: nat ensures e in MessageValue(rd, alg.bytes(r)) <==> e in Value(alg, rd, r) {
      MessageCoefficient(rd, alg.bytes(r), e);
      if e < Degree(alg) {
      }
    }
  }

  lemma {:induction false} RightChecksumLeavesResidue<R(!new)>(alg: Algorithm<R>, rd: Reading<R>, register: R)
    requires Reads(alg, rd)
    ensures Fed(alg, register, alg.bytes(alg.add(register, alg.finalXor))) == Residue(alg)
  {
    var d, v, x := Degree(alg), Value(alg, rd, register), Value(alg, rd, alg.finalXor);
    var right := alg.bytes(alg.add(register, alg.finalXor));
    BytesValue(alg, rd, alg.add(register, alg.finalXor));
    AddValue(alg, rd, register, alg.finalXor);
    ShiftedSum(v, Sum(v, x), d);
    assert Dividend(alg, rd, register, right) == Shift(Sum(v, Sum(v, x)), d);
    SumAssociates(v, v, x);
    SumWithNothing(v);
    SumWithNothing(x);
    assert Dividend(alg, rd, register, right) == Shift(x, d);
    RoundsValue(alg, rd, alg.finalXor, d);
    FedIsRemainder(alg, rd, register, right, Residue(alg));
  }

  lemma {:induction false} SameWindow<R(!new)>(alg: Algorithm<R>, rd: Reading<R>, register: R, a: Message, b: Message)
    requires Reads(alg, rd) && |a| == |b| == alg.width
    ensures Fed(alg, register, a) == Fed(alg, register, b) <==> a == b
  {
    WindowSpansBits(rd, [], a, b, [], Degree(alg));
    assert [] + a + [] == a && [] + b + [] == b;
    BurstsChangeTheRegister(alg, rd, register, a, b, 0);
  }

  /** A received message and checksum lead to the residue exactly when the checksum is the right one. */
  lemma {:induction false} ResidueMeansIntact<R(!new)>(alg: Algorithm<R>, rd: Reading<R>, message: Message,
                                                       checksum: Message)
    requires Reads(alg, rd) && |checksum| == alg.width
    ensures Fed(alg, alg.initial, message + checksum) == Residue(alg) <==> checksum == alg.bytes(Crc(alg, message))
  {
    var register, right := Fed(alg, alg.initial, message), alg.bytes(Crc(alg, message));
    FedSplit(alg, alg.initial, message, checksum);
    RightChecksumLeavesResidue(alg, rd, register);
    SameWindow(alg, rd, register, checksum, right);
  }
}
