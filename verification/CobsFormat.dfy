/**
 Consistent Overhead Byte Stuffing as a format: what an encoded block means (Decoded), which bytes
 an encoder without patching writes (Encoded), and the laws that connect the two.
 The in-place algorithms of cobs.c are proved against these functions in Cobs.dfy.
 */
module CobsFormat {
  import opened Integers
  import opened Options

  /** The longest run of data bytes behind one code byte. */
  const MAX_RUN: nat := 254

  ghost predicate ZeroFree(s: seq<byte>) {
    forall i :: 0 <= i < |s| ==> s[i] != 0
  }

  function Prepend(a: seq<byte>, o: Option<seq<byte>>): Option<seq<byte>> {
    match o
    case None => None
    case Some(y) => Some(a + y)
  }

  /** The zero that a code byte stands for: none after a full run and none at the end of the block. */
  function Separator(code: byte, rest: seq<byte>): seq<byte> {
    if code != 255 && rest != [] then [0] else []
  }

  /** The meaning of an encoded block; None when the block is malformed. */
  function Decoded(e: seq<byte>): Option<seq<byte>> {
    if e == [] || e[0] == 0 || e[0] as int > |e| then
      None
    else
      var data, rest := e[1..e[0]], e[e[0]..];
      if rest == [] then Some(data) else Prepend(data + Separator(e[0], rest), Decoded(rest))
  }

  /** The encoding of run + x, when the bytes of run are already collected behind an open code byte. */
  function Encoded(x: seq<byte>, run: seq<byte>): (e: seq<byte>)
    requires |run| < MAX_RUN
    ensures |e| >= |run| + |x| + 1
    decreases |x|
  {
    if x == [] then
      [(|run| + 1) as byte] + run
    else if x[0] == 0 then
      [(|run| + 1) as byte] + run + Encoded(x[1..], [])
    else if |run| + 1 == MAX_RUN then
      [255] + run + [x[0]] + Encoded(x[1..], [])
    else
      Encoded(x[1..], run + [x[0]])
  }

  // ---------------------------------------------------------------- round trip

  /** One well-formed block in front of a nonempty rest. */
  lemma {:induction false} DecodedBlock(code: byte, data: seq<byte>, rest: seq<byte>)
    requires code as int == |data| + 1
    ensures Decoded([code] + data + rest)
         == if rest == [] then Some(data) else Prepend(data + Separator(code, rest), Decoded(rest))
  {
    var e := [code] + data + rest;
    assert e[1..code] == data && e[code..] == rest;
  }

  /** A block is malformed when its code byte is missing, zero, or reaches behind its end, here or further on. */
  lemma {:induction false} DecodedMalformed(code: byte, rest: seq<byte>)
    ensures Decoded([]) == None
    ensures code == 0 || code as int > |rest| + 1 ==> Decoded([code] + rest) == None
    ensures 0 < code as int <= |rest| ==>
      (Decoded([code] + rest) == None <==> Decoded(rest[code as int - 1..]) == None)
  {
    if 0 < code as int <= |rest| {
      assert ([code] + rest)[code..] == rest[code as int - 1..];
    }
  }

  /** A run that the end closes; one that a zero byte closes; one that is closed at its full length. */
  lemma {:induction false} LastRun(run: seq<byte>)
    requires |run| < MAX_RUN
    ensures Decoded(Encoded([], run)) == Some(run)
  {
    DecodedBlock((|run| + 1) as byte, run, []);
    assert [(|run| + 1) as byte] + run + [] == Encoded([], run);
  }

  lemma {:induction false} RunBeforeZero(x: seq<byte>, run: seq<byte>)
    requires |run| < MAX_RUN && x != [] && x[0] == 0 && Decoded(Encoded(x[1..], [])) == Some(x[1..])
    ensures Decoded(Encoded(x, run)) == Some(run + x)
  {
    DecodedBlock((|run| + 1) as byte, run, Encoded(x[1..], []));
    assert run + [0] + x[1..] == run + x;
  }

  lemma {:induction false} FullRun(x: seq<byte>, run: seq<byte>)
    requires |run| + 1 == MAX_RUN && x != [] && x[0] != 0 && Decoded(Encoded(x[1..], [])) == Some(x[1..])
    ensures Decoded(Encoded(x, run)) == Some(run + x)
  {
    var data, tail := run + [x[0]], Encoded(x[1..], []);
    assert [255] + run + [x[0]] + tail == [255] + data + tail;
    DecodedBlock(255, data, tail);
    assert data + [] == data && data + x[1..] == run + x;
  }

  lemma {:induction false} DecodeEncodedRun(x: seq<byte>, run: seq<byte>)
    requires |run| < MAX_RUN
    ensures Decoded(Encoded(x, run)) == Some(run + x)
    decreases |x|
  {
    if x == [] {
      LastRun(run);
      assert run + x == run;
    } else if x[0] == 0 || |run| + 1 == MAX_RUN {
      DecodeEncodedRun(x[1..], []);
      assert [] + x[1..] == x[1..];
      if x[0] == 0 { RunBeforeZero(x, run); } else { FullRun(x, run); }
    } else {
      DecodeEncodedRun(x[1..], run + [x[0]]);
      assert run + [x[0]] + x[1..] == run + x;
    }
  }

  /** Decoding undoes encoding, for every byte sequence. */
  lemma {:induction false} RoundTrip(x: seq<byte>)
    ensures Decoded(Encoded(x, [])) == Some(x)
  {
    DecodeEncodedRun(x, []);
    assert [] + x == x;
  }

  // ---------------------------------------------------------------- no zero byte, exact length

  lemma {:induction false} EncodedHasNoZero(x: seq<byte>, run: seq<byte>)
    requires |run| < MAX_RUN && ZeroFree(run)
    ensures ZeroFree(Encoded(x, run))
    decreases |x|
  {
    if x == [] {
    } else if x[0] == 0 || |run| + 1 == MAX_RUN {
      EncodedHasNoZero(x[1..], []);
    } else {
      EncodedHasNoZero(x[1..], run + [x[0]]);
    }
  }

  /** The number of bytes before the first zero. */
  function LeadingRun(x: seq<byte>): (n: nat)
    ensures n <= |x|
    ensures n < |x| ==> x[n] == 0
    ensures ZeroFree(x[..n])
  {
    if x == [] || x[0] == 0 then 0
    else
      assert x[..1 + LeadingRun(x[1..])] == [x[0]] + x[1..][..LeadingRun(x[1..])];
      1 + LeadingRun(x[1..])
  }

  /** How many full runs the zero-free segments of x hold, the first of which has r bytes already. */
  function FullRuns(x: seq<byte>, r: nat): nat {
    var p := LeadingRun(x);
    (r + p) / MAX_RUN + if p == |x| then 0 else FullRuns(x[p + 1..], 0)
  }

  lemma {:induction false} EncodedLength(x: seq<byte>, run: seq<byte>)
    requires |run| < MAX_RUN
    ensures |Encoded(x, run)| == |run| + |x| + 1 + FullRuns(x, |run|)
    decreases |x|
  {
    if x == [] {
    } else if x[0] == 0 {
      EncodedLength(x[1..], []);
    } else {
      var p := LeadingRun(x[1..]);
      assert x[1..][p..] == x[p + 1..];
      if p < |x[1..]| { assert x[1..][p + 1..] == x[p + 2..]; }
      EncodedLength(x[1..], if |run| + 1 == MAX_RUN then [] else run + [x[0]]);
    }
  }

  lemma {:induction false} FullRunsBound(x: seq<byte>)
    ensures FullRuns(x, 0) <= |x| / MAX_RUN
    ensures ZeroFree(x) ==> FullRuns(x, 0) == |x| / MAX_RUN
    decreases |x|
  {
    var p := LeadingRun(x);
    if p < |x| {
      FullRunsBound(x[p + 1..]);
      assert p / MAX_RUN + (|x| - p - 1) / MAX_RUN <= |x| / MAX_RUN;
      assert !ZeroFree(x) by { assert x[p] == 0; }
    }
  }

  /** Every encoding fits the announced maximum, and zero-free inputs of every length reach it. */
  lemma {:induction false} EncodedLengthBound(x: seq<byte>)
    ensures |Encoded(x, [])| == |x| + 1 + FullRuns(x, 0)
    ensures |x| + 1 <= |Encoded(x, [])| <= |x| + |x| / MAX_RUN + 1
    ensures ZeroFree(x) ==> |Encoded(x, [])| == |x| + |x| / MAX_RUN + 1
  {
    EncodedLength(x, []);
    FullRunsBound(x);
  }

  // ---------------------------------------------------------------- which blocks an encoder produces

  /** The code byte of the last run of a well-formed block. */
  function LastCode(e: seq<byte>): byte
    requires Decoded(e).Some?
  {
    if e[e[0]..] == [] then e[0] else LastCode(e[e[0]..])
  }

  /** Blocks an encoder produces: well formed, without zero, and not ended by a full run. */
  ghost predicate Canonical(e: seq<byte>) {
    Decoded(e).Some? && ZeroFree(e) && LastCode(e) != 255
  }

  lemma {:induction false} EncodedIsCanonical(x: seq<byte>, run: seq<byte>)
    requires |run| < MAX_RUN && ZeroFree(run)
    ensures Canonical(Encoded(x, run))
    decreases |x|
  {
    DecodeEncodedRun(x, run);
    EncodedHasNoZero(x, run);
    var e := Encoded(x, run);
    if x == [] {
    } else if x[0] == 0 {
      EncodedIsCanonical(x[1..], []);
      assert e[e[0]..] == Encoded(x[1..], []);
    } else if |run| + 1 == MAX_RUN {
      EncodedIsCanonical(x[1..], []);
      assert e[e[0]..] == Encoded(x[1..], []);
    } else {
      EncodedIsCanonical(x[1..], run + [x[0]]);
    }
  }

  /** Zero-free bytes that do not fill a run move behind the open code byte. */
  lemma {:induction false} EncodedCollects(d: seq<byte>, y: seq<byte>, run: seq<byte>)
    requires ZeroFree(d) && |run| + |d| < MAX_RUN
    ensures Encoded(d + y, run) == Encoded(y, run + d)
    decreases |d|
  {
    if d == [] {
      assert d + y == y && run + d == run;
    } else {
      assert (d + y)[1..] == d[1..] + y && run + [d[0]] + d[1..] == run + d;
      EncodedCollects(d[1..], y, run + [d[0]]);
    }
  }

  /** A zero-free segment that does not fill a run becomes one block, closed by a zero or by the end. */
  lemma {:induction false} EncodedSegment(data: seq<byte>, y: seq<byte>)
    requires ZeroFree(data) && |data| < MAX_RUN
    ensures Encoded(data, []) == [(|data| + 1) as byte] + data
    ensures Encoded(data + [0] + y, []) == [(|data| + 1) as byte] + data + Encoded(y, [])
  {
    EncodedCollects(data, [], []);
    assert data + [] == data && [] + data == data;
    EncodedCollects(data, [0] + y, []);
    assert data + [0] + y == data + ([0] + y) && ([0] + y)[1..] == y;
  }

  /** A full run becomes one block by itself. */
  lemma {:induction false} EncodedFullRun(data: seq<byte>, y: seq<byte>)
    requires ZeroFree(data) && |data| == MAX_RUN
    ensures Encoded(data + y, []) == [255] + data + Encoded(y, [])
  {
    var last := data[253];
    EncodedCollects(data[..253], [last] + y, []);
    assert data + y == data[..253] + ([last] + y) && ([last] + y)[1..] == y;
    assert [] + data[..253] == data[..253] && data[..253] + [last] == data;
    assert [255] + data[..253] + [last] == [255] + data;
  }

  /** The parts of a canonical block. */
  lemma {:induction false} CanonicalParts(e: seq<byte>)
    requires Canonical(e)
    ensures 0 < e[0] as int <= |e|
    ensures var data, rest := e[1..e[0]], e[e[0]..];
            && e == [e[0]] + data + rest && ZeroFree(data) && |data| == e[0] as int - 1
            && (rest == [] ==> e[0] != 255 && Decoded(e).value == data)
            && (rest != [] ==>
                Canonical(rest) && Decoded(e).value == data + Separator(e[0], rest) + Decoded(rest).value)
  {
  }

  lemma {:induction false} EncodeDecoded(e: seq<byte>)
    requires Canonical(e)
    ensures Encoded(Decoded(e).value, []) == e
    decreases |e|
  {
    CanonicalParts(e);
    var data, rest := e[1..e[0]], e[e[0]..];
    if rest == [] {
      EncodedSegment(data, []);
      assert [e[0]] + data + [] == [e[0]] + data;
    } else {
      EncodeDecoded(rest);
      var y := Decoded(rest).value;
      if e[0] == 255 {
        assert data + Separator(e[0], rest) + y == data + y;
        EncodedFullRun(data, y);
      } else {
        EncodedSegment(data, y);
      }
    }
  }

  /** The range of the encoder: e is an encoding exactly when it is canonical. */
  lemma {:induction false} EncoderRange(e: seq<byte>)
    ensures (exists x :: Encoded(x, []) == e) <==> Canonical(e)
  {
    if x :| Encoded(x, []) == e {
      EncodedIsCanonical(x, []);
    }
    if Canonical(e) {
      EncodeDecoded(e);
    }
  }

  /** Re-encoding a well-formed block restores it exactly when the block was canonical. */
  lemma {:induction false} ReencodingRestores(e: seq<byte>)
    requires Decoded(e).Some?
    ensures Encoded(Decoded(e).value, []) == e <==> ZeroFree(e) && LastCode(e) != 255
  {
    if Encoded(Decoded(e).value, []) == e {
      EncodedIsCanonical(Decoded(e).value, []);
    } else if Canonical(e) {
      EncodeDecoded(e);
    }
  }

  /** A decoded block is strictly shorter than its encoding. */
  lemma {:induction false} DecodedShrinks(e: seq<byte>)
    requires Decoded(e).Some?
    ensures |Decoded(e).value| < |e|
    decreases |e|
  {
    if e[e[0]..] != [] {
      DecodedShrinks(e[e[0]..]);
    }
  }
}
