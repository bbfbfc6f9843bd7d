/** The in-place COBS algorithms of cobs.c, proved against the format of CobsFormat.dfy. */
module Cobs {
  import opened FoundationStatuses
  import opened Integers
  import opened Options
  import opened CobsFormat

  /** The capacity that guarantees an encoding, or None when it does not fit a size_t. */
  function MaxEncodedSize(inputSize: nat, sizeMax: nat): (r: Option<nat>)
    requires LEAST_SIZE_MAX <= sizeMax && inputSize <= sizeMax
    ensures r == if inputSize + inputSize / 254 + 1 <= sizeMax then Some(inputSize + inputSize / 254 + 1) else None
  {
    var overhead := inputSize / 254 + 1;
    if inputSize > sizeMax - overhead then None else Some(inputSize + overhead)
  }

  /** The announced size is the least that is enough for every input of that length. */
  lemma {:induction false} MaxEncodedSizeIsLeast(inputSize: nat, sizeMax: nat, capacity: nat)
    requires LEAST_SIZE_MAX <= sizeMax && inputSize <= sizeMax && MaxEncodedSize(inputSize, sizeMax).Some?
    ensures (forall x: seq<byte> :: |x| == inputSize ==> |Encoded(x, [])| <= capacity)
       <==> MaxEncodedSize(inputSize, sizeMax).value <= capacity
  {
    forall x: seq<byte> | |x| == inputSize
      ensures |Encoded(x, [])| <= MaxEncodedSize(inputSize, sizeMax).value
    {
      EncodedLengthBound(x);
    }
    var ones: seq<byte> := seq(inputSize, _ => 1);
    EncodedLengthBound(ones);
    assert |ones| == inputSize && |Encoded(ones, [])| == MaxEncodedSize(inputSize, sizeMax).value;
  }

  // ---------------------------------------------------------------- a pass over a block

  predicate RunInside(e: seq<byte>, start: nat) {
    start < |e| && e[start] != 0 && start + e[start] as int <= |e|
  }

  /** What the run at start stands for: its data, and the separator that may follow. */
  function RunBytes(e: seq<byte>, start: nat): (r: seq<byte>)
    requires RunInside(e, start)
    ensures |r| == e[start] as int - 1 + (if e[start] != 255 && start + e[start] as int < |e| then 1 else 0)
  {
    var next := start + e[start] as int;
    e[start + 1..next] + if e[start] != 255 && next < |e| then [0] else []
  }

  /** What the block from index on stands for. */
  function DecodedAt(e: seq<byte>, index: nat): Option<seq<byte>>
    requires index <= |e|
    decreases |e| - index
  {
    if index == |e| then Some([])
    else if !RunInside(e, index) then None
    else Prepend(RunBytes(e, index), DecodedAt(e, index + e[index] as int))
  }

  /** A pass by index decodes what the format says. */
  lemma {:induction false} DecodedByIndex(e: seq<byte>, index: nat)
    requires index < |e|
    ensures DecodedAt(e, index) == Decoded(e[index..])
    decreases |e| - index
  {
    var rest := e[index..];
    assert rest[0] == e[index];
    if RunInside(e, index) {
      var code := e[index] as int;
      var next := index + code;
      assert rest[1..code] == e[index + 1..next] && rest[code..] == e[next..];
      if next < |e| {
        DecodedByIndex(e, next);
      } else {
        assert RunBytes(e, index) == e[index + 1..next] && RunBytes(e, index) + [] == RunBytes(e, index);
      }
    }
  }

  lemma {:induction false} WholeBlock(e: seq<byte>)
    requires e != []
    ensures DecodedAt(e, 0) == Decoded(e)
  {
    assert e[0..] == e;
    DecodedByIndex(e, 0);
  }

  /** The runs before index are taken, and acc is what they stand for. */
  ghost predicate Taken(e: seq<byte>, index: nat, acc: seq<byte>) {
    |acc| <= index <= |e| && DecodedAt(e, 0) == Prepend(acc, DecodedAt(e, index))
  }

  lemma {:induction false} NothingTaken(e: seq<byte>)
    ensures Taken(e, 0, [])
  {
    var o := DecodedAt(e, 0);
    if o.Some? {
      assert [] + o.value == o.value;
    }
  }

  lemma {:induction false} PrependTwice(acc: seq<byte>, run: seq<byte>, o: Option<seq<byte>>)
    ensures Prepend(acc, Prepend(run, o)) == Prepend(acc + run, o)
  {
    if o.Some? {
      assert acc + (run + o.value) == acc + run + o.value;
    }
  }

  lemma {:induction false} RunTaken(e: seq<byte>, start: nat, acc: seq<byte>)
    requires Taken(e, start, acc) && RunInside(e, start)
    ensures Taken(e, start + e[start] as int, acc + RunBytes(e, start))
  {
    PrependTwice(acc, RunBytes(e, start), DecodedAt(e, start + e[start] as int));
  }

  lemma {:induction false} AllTaken(e: seq<byte>, acc: seq<byte>)
    requires Taken(e, |e|, acc)
    ensures DecodedAt(e, 0) == Some(acc)
  {
    assert acc + [] == acc;
  }

  /** In a well-formed block every run ends inside, and what it stands for is part of the whole. */
  lemma {:induction false} RunHasRoom(e: seq<byte>, start: nat, acc: seq<byte>)
    requires Taken(e, start, acc) && start < |e| && DecodedAt(e, 0).Some?
    ensures RunInside(e, start) && |acc + RunBytes(e, start)| <= |DecodedAt(e, 0).value|
  {
  }

  /** One round of the validity pass: the code byte must not be zero and its run must end in the block. */
  method SizeRun(encoded: array<byte>, encodedSize: nat, sizeMax: nat, start: nat, size: nat, ghost acc: seq<byte>)
    returns (valid: bool, index: nat, result: nat)
    requires start < encodedSize <= encoded.Length <= sizeMax && |acc| == size <= start
    ensures valid <==> RunInside(encoded[..encodedSize], start)
    ensures valid ==>
      index == start + encoded[start] as int && result == |acc + RunBytes(encoded[..encodedSize], start)|
  {
    var code := encoded[start] as int;
    index, result := start + 1, size;
    var copySize := code - 1;
    if code == 0 || copySize > encodedSize - index {
      return false, index, result;
    }
    if result > sizeMax - copySize {
      assert false;
    }
    result := result + copySize;
    index := index + copySize;
    if code != 0xFF && index < encodedSize {
      result := result + 1;
    }
    valid := true;
  }

  /**
   cobs_decoded_size: the validity pass. The out-parameter is Some exactly when the C function
   writes it. The overflow exit of the source is shown to be dead.
   */
  method DecodedSize(encoded: array<byte>, encodedSize: nat, sizeMax: nat)
    returns (status: FoundationStatus, decodedSize: Option<nat>)
    requires encodedSize <= encoded.Length <= sizeMax
    ensures status == if Decoded(encoded[..encodedSize]).Some? then OK else INVALID_DATA
    ensures decodedSize == if status.OK? then Some(|Decoded(encoded[..encodedSize]).value|) else None
  {
    if encodedSize == 0 {
      return INVALID_DATA, None;
    }
    ghost var e := encoded[..encodedSize];
    ghost var acc: seq<byte> := [];
    var index: nat, result: nat := 0, 0;
    WholeBlock(e);
    NothingTaken(e);
    while index < encodedSize
      invariant Taken(e, index, acc) && result == |acc|
    {
      ghost var start := index;
      var valid;
      valid, index, result := SizeRun(encoded, encodedSize, sizeMax, index, result, acc);
      if !valid {
        return INVALID_DATA, None;
      }
      RunTaken(e, start, acc);
      acc := acc + RunBytes(e, start);
    }
    AllTaken(e, acc);
    return OK, Some(result);
  }

  /**
   One round of the encoder: how the next input byte shapes what is still to be written.
   A zero byte closes the open run ...
   */
  lemma {:induction false} ZeroRound(rest: seq<byte>, run: seq<byte>)
    requires rest != [] && |run| < MAX_RUN && rest[0] == 0
    ensures var todo := Encoded(rest, run);
            todo[0] as int == |run| + 1 && todo[1 + |run|..] == Encoded(rest[1..], [])
  {
    var a, tail := [(|run| + 1) as byte] + run, Encoded(rest[1..], []);
    assert Encoded(rest, run) == a + tail;
    assert (a + tail)[|a|..] == tail;
  }

  /** ... a byte that fills the run closes it too ... */
  lemma {:induction false} FullRound(rest: seq<byte>, run: seq<byte>)
    requires rest != [] && |run| + 1 == MAX_RUN && rest[0] != 0
    ensures var todo := Encoded(rest, run);
            todo[0] == 255 && todo[1 + |run|] == rest[0] && todo[2 + |run|..] == Encoded(rest[1..], [])
  {
    var a, tail := [255] + run + [rest[0]], Encoded(rest[1..], []);
    assert Encoded(rest, run) == a + tail;
    assert (a + tail)[|a|..] == tail && a[1 + |run|] == rest[0];
  }

  /** ... and any other byte leaves it open, one byte longer. */
  lemma {:induction false} DataRound(rest: seq<byte>, run: seq<byte>)
    requires rest != [] && |run| + 1 < MAX_RUN && rest[0] != 0
    ensures var todo := Encoded(rest, run);
            todo[1 + |run|] == rest[0] && todo == Encoded(rest[1..], run + [rest[0]])
  {
    EncodedKeepsRun(rest[1..], run + [rest[0]]);
    assert Encoded(rest, run)[1 + |run|] == (run + [rest[0]])[|run|];
  }

  /** What is still to be written, seen n bytes later. */
  lemma {:induction false} Advance(goal: seq<byte>, from: nat, todo: seq<byte>, n: nat)
    requires from <= |goal| && goal[from..] == todo && n <= |todo|
    ensures from + n <= |goal| && goal[from + n..] == todo[n..]
    ensures forall i :: 0 <= i < n ==> todo[i] == goal[from + i]
    ensures n < |todo| ==> todo[n] == goal[from + n]
  {
  }

  /** The bytes of an open run appear in the output unchanged, behind their code byte. */
  lemma {:induction false} EncodedKeepsRun(x: seq<byte>, run: seq<byte>)
    requires |run| < MAX_RUN
    ensures forall i :: 0 <= i < |run| ==> Encoded(x, run)[1 + i] == run[i]
    decreases |x|
  {
    if x != [] && x[0] != 0 && |run| + 1 < MAX_RUN {
      EncodedKeepsRun(x[1..], run + [x[0]]);
      forall i | 0 <= i < |run| ensures Encoded(x, run)[1 + i] == run[i] {
        assert (run + [x[0]])[i] == run[i];
      }
    }
  }

  /**
   The encoder between two input bytes: rest is unread, run is the open run whose code byte still has
   to be written at codeIndex, and todo is what the finished output (goal) holds from there on.
   */
  ghost predicate Encoding(goal: seq<byte>, original: seq<byte>, output: array<byte>, rest: seq<byte>, run: seq<byte>,
                           codeIndex: nat, todo: seq<byte>)
    reads output
  {
    && |run| < MAX_RUN && todo == Encoded(rest, run)
    && codeIndex <= |goal| <= output.Length == |original| && goal[codeIndex..] == todo
    && (forall k :: 0 <= k <= codeIndex + |run| && k != codeIndex ==> output[k] == goal[k])
    && (forall k :: |goal| <= k < output.Length ==> output[k] == original[k])
  }

  /** One round of the loop of cobs_encode. */
  method EncodeByte(ghost goal: seq<byte>, ghost original: seq<byte>, ghost rest: seq<byte>, ghost run: seq<byte>,
                    ghost todo: seq<byte>, value: byte, output: array<byte>, codeAt: nat, writeAt: nat, codeSoFar: byte)
    returns (codeIndex: nat, writeIndex: nat, code: byte, ghost run': seq<byte>, ghost todo': seq<byte>)
    requires Encoding(goal, original, output, rest, run, codeAt, todo)
    requires rest != [] && rest[0] == value && codeSoFar as int == |run| + 1 && writeAt == codeAt + 1 + |run|
    modifies output
    ensures Encoding(goal, original, output, rest[1..], run', codeIndex, todo')
    ensures code as int == |run'| + 1 && writeIndex == codeIndex + 1 + |run'|
  {
    codeIndex, writeIndex, code, run', todo' := codeAt, writeAt, codeSoFar, run, todo;
    Advance(goal, codeIndex, todo, 1 + |run|);
    if value == 0 {
      ZeroRound(rest, run);
      output[codeIndex] := code;
      codeIndex := writeIndex;
      writeIndex := writeIndex + 1;
      code, run', todo' := 1, [], todo[1 + |run|..];
    } else {
      if code < 0xFE { DataRound(rest, run); } else { FullRound(rest, run); }
      output[writeIndex] := value;
      writeIndex := writeIndex + 1;
      code, run' := code + 1, run + [value];
      if code == 0xFF {
        Advance(goal, codeIndex, todo, 2 + |run|);
        output[codeIndex] := code;
        codeIndex := writeIndex;
        writeIndex := writeIndex + 1;
        code, run', todo' := 1, [], todo[2 + |run|..];
      }
    }
  }

  /**
   The loop of cobs_encode. The code byte of a run is written last, at codeIndex, once the run is
   known. Everything behind the encoding keeps its old bytes.
   */
  method EncodeBlock(input: array<byte>, inputSize: nat, output: array<byte>, outputSize: nat)
    returns (writeIndex: nat)
    requires inputSize <= input.Length && outputSize <= output.Length
    requires inputSize + inputSize / 254 + 1 <= outputSize
    requires inputSize > 0 ==> input != output
    modifies output
    ensures var goal := Encoded(old(input[..inputSize]), []);
            && writeIndex == |goal| <= outputSize
            && output[..] == goal + old(output[writeIndex..])
  {
    ghost var x, original := input[..inputSize], output[..];
    ghost var goal := Encoded(x, []);
    EncodedLengthBound(x);
    ghost var rest, run: seq<byte>, todo := x, [], goal;
    var readIndex: nat, codeIndex: nat := 0, 0;
    writeIndex := 1;
    var code: byte := 1;
    while readIndex < inputSize
      invariant readIndex <= inputSize && rest == x[readIndex..]
      invariant Encoding(goal, original, output, rest, run, codeIndex, todo)
      invariant code as int == |run| + 1 && writeIndex == codeIndex + 1 + |run|
    {
      ghost var next := rest[1..];
      codeIndex, writeIndex, code, run, todo :=
        EncodeByte(goal, original, rest, run, todo, input[readIndex], output, codeIndex, writeIndex, code);
      rest := next;
      readIndex := readIndex + 1;
    }
    assert todo == [code] + run && goal[codeIndex] == code;
    output[codeIndex] := code;
  }

  /** cobs_encode: on failure nothing is written. */
  method Encode(input: array<byte>, inputSize: nat, output: array<byte>, outputSize: nat, sizeMax: nat)
    returns (status: FoundationStatus, encodedSize: Option<nat>)
    requires inputSize <= input.Length <= sizeMax && outputSize <= output.Length <= sizeMax
    requires LEAST_SIZE_MAX <= sizeMax
    modifies output
    ensures status ==
            if input == output && inputSize > 0 && outputSize > 0 then INVALID_ARGUMENT
            else if outputSize < inputSize + inputSize / 254 + 1 then BUFFER_TOO_SMALL
            else OK
    ensures status.OK? ==>
      && encodedSize == Some(|Encoded(old(input[..inputSize]), [])|)
      && encodedSize.value <= outputSize
      && output[..] == Encoded(old(input[..inputSize]), []) + old(output[encodedSize.value..])
    ensures !status.OK? ==> encodedSize.None? && output[..] == old(output[..])
  {
    if input == output && inputSize > 0 && outputSize > 0 {
      return INVALID_ARGUMENT, None;
    }
    var required := MaxEncodedSize(inputSize, sizeMax);
    if required.None? || outputSize < required.value {
      return BUFFER_TOO_SMALL, None;
    }
    var writeIndex := EncodeBlock(input, inputSize, output, outputSize);
    return OK, Some(writeIndex);
  }

  /** The copy loop of cobs_decode: a forward copy, exact even within one array when it moves bytes down. */
  method CopyRun(ghost e: seq<byte>, input: array<byte>, inIndex: nat, output: array<byte>, outIndex: nat,
                 ghost acc: seq<byte>, count: nat)
    requires inIndex + count <= |e| <= input.Length && outIndex + count <= output.Length
    requires input == output ==> outIndex <= inIndex
    requires forall k :: inIndex <= k < |e| ==> input[k] == e[k]
    requires outIndex == |acc| && forall k :: 0 <= k < |acc| ==> acc[k] == output[k]
    modifies output
    ensures forall k :: inIndex + count <= k < |e| ==> input[k] == e[k]
    ensures var longer := acc + e[inIndex..inIndex + count];
            forall k :: 0 <= k < |longer| ==> longer[k] == output[k]
    ensures forall k :: outIndex + count <= k < output.Length ==> output[k] == old(output[k])
  {
    ghost var longer := acc + e[inIndex..inIndex + count];
    for index := 0 to count
      invariant forall k :: inIndex + index <= k < |e| ==> input[k] == e[k]
      invariant forall k :: 0 <= k < outIndex + index ==> longer[k] == output[k]
      invariant forall k :: outIndex + count <= k < output.Length ==> output[k] == old(output[k])
    {
      assert longer[outIndex + index] == e[inIndex + index];
      output[outIndex + index] := input[inIndex + index];
    }
  }

  /** The input from index on is still that of e, and the output is acc followed by what it held before. */
  ghost predicate Arrays(e: seq<byte>, original: seq<byte>, input: array<byte>, output: array<byte>, index: nat,
                         acc: seq<byte>)
    reads input, output
  {
    && |acc| <= index <= |e| <= input.Length && |acc| <= output.Length == |original|
    && (forall k :: index <= k < |e| ==> input[k] == e[k])
    && (forall k :: 0 <= k < |acc| ==> acc[k] == output[k])
    && (forall k :: |acc| <= k < output.Length ==> output[k] == original[k])
  }

  /** The first half of a round of cobs_decode: the data behind a code byte. */
  method DecodeData(ghost e: seq<byte>, ghost original: seq<byte>, input: array<byte>, output: array<byte>,
                    start: nat, base: nat, ghost acc: seq<byte>)
    returns (code: int, inIndex: nat, outIndex: nat)
    requires Arrays(e, original, input, output, start, acc) && base == |acc|
    requires start < |e| && 0 < e[start] as int && start + e[start] as int <= |e|
    requires base + e[start] as int - 1 <= output.Length
    modifies output
    ensures code == e[start] as int && inIndex == start + code && outIndex == base + code - 1
    ensures Arrays(e, original, input, output, inIndex, acc + e[start + 1..start + code])
  {
    code := input[start] as int;
    var copySize := code - 1;
    CopyRun(e, input, start + 1, output, base, acc, copySize);
    inIndex, outIndex := start + 1 + copySize, base + copySize;
  }

  /** The zero byte behind a run. */
  method PutSeparator(ghost e: seq<byte>, ghost original: seq<byte>, input: array<byte>, output: array<byte>,
                      ghost inIndex: nat, outIndex: nat, ghost acc: seq<byte>)
    requires Arrays(e, original, input, output, inIndex, acc) && |acc| == outIndex < inIndex && outIndex < output.Length
    modifies output
    ensures Arrays(e, original, input, output, inIndex, acc + [0])
  {
    output[outIndex] := 0;
  }

  /** One round of the outer loop of cobs_decode: a run and its separator. */
  method DecodeRun(ghost e: seq<byte>, ghost original: seq<byte>, input: array<byte>, inputSize: nat,
                   output: array<byte>,
                   start: nat, base: nat, ghost acc: seq<byte>)
    returns (inIndex: nat, outIndex: nat)
    requires Arrays(e, original, input, output, start, acc) && RunInside(e, start)
    requires |acc + RunBytes(e, start)| <= output.Length && |e| == inputSize && base == |acc|
    modifies output
    ensures inIndex == start + e[start] as int && outIndex == |acc + RunBytes(e, start)|
    ensures Arrays(e, original, input, output, inIndex, acc + RunBytes(e, start))
  {
    var code;
    ghost var data := acc + e[start + 1..start + e[start] as int];
    code, inIndex, outIndex := DecodeData(e, original, input, output, start, base, acc);
    if code != 0xFF && inIndex < inputSize {
      PutSeparator(e, original, input, output, inIndex, outIndex, data);
      outIndex := outIndex + 1;
      assert data + [0] == acc + RunBytes(e, start);
    } else {
      assert data == acc + RunBytes(e, start);
    }
  }

  /**
   cobs_decode. The arrays may be one and the same: the write index never overtakes the read index,
   so the result is that of decoding the original bytes into another buffer.
   */
  method Decode(input: array<byte>, inputSize: nat, output: array<byte>, outputSize: nat, sizeMax: nat)
    returns (status: FoundationStatus, decodedSize: Option<nat>)
    requires inputSize <= input.Length <= sizeMax && outputSize <= output.Length <= sizeMax
    modifies output
    ensures status == var d := Decoded(old(input[..inputSize]));
                      if d.None? then INVALID_DATA
                      else if outputSize < |d.value| then BUFFER_TOO_SMALL else OK
    ensures status.OK? ==>
      && decodedSize == Some(|Decoded(old(input[..inputSize])).value|)
      && decodedSize.value <= outputSize
      && output[..] == Decoded(old(input[..inputSize])).value + old(output[decodedSize.value..])
    ensures !status.OK? ==> decodedSize.None? && output[..] == old(output[..])
  {
    var required;
    status, required := DecodedSize(input, inputSize, sizeMax);
    if !status.OK? {
      return status, None;
    }
    if outputSize < required.value {
      return BUFFER_TOO_SMALL, None;
    }
    ghost var e, original := input[..inputSize], output[..];
    ghost var acc: seq<byte> := [];
    var inIndex: nat, outIndex: nat := 0, 0;
    WholeBlock(e);
    NothingTaken(e);
    while inIndex < inputSize
      invariant Arrays(e, original, input, output, inIndex, acc) && Taken(e, inIndex, acc) && outIndex == |acc|
    {
      RunHasRoom(e, inIndex, acc);
      RunTaken(e, inIndex, acc);
      ghost var longer := acc + RunBytes(e, inIndex);
      inIndex, outIndex := DecodeRun(e, original, input, inputSize, output, inIndex, outIndex, acc);
      acc := longer;
    }
    AllTaken(e, acc);
    return OK, Some(outIndex);
  }

  /** Encoding into one buffer and decoding it in place gives the input back. */
  method EncodeThenDecodeInPlace(input: array<byte>, inputSize: nat, buffer: array<byte>, sizeMax: nat)
    returns (decodedSize: nat)
    requires input != buffer && inputSize <= input.Length <= sizeMax && LEAST_SIZE_MAX <= sizeMax
    requires inputSize + inputSize / 254 + 1 <= buffer.Length <= sizeMax
    modifies buffer
    ensures decodedSize == inputSize && buffer[..decodedSize] == input[..inputSize]
  {
    var status, encodedSize := Encode(input, inputSize, buffer, buffer.Length, sizeMax);
    RoundTrip(input[..inputSize]);
    DecodedShrinks(buffer[..encodedSize.value]);
    var size;
    status, size := Decode(buffer, encodedSize.value, buffer, buffer.Length, sizeMax);
    decodedSize := size.value;
  }
}
