/** Consistent Overhead Byte Stuffing (Cheshire and Baker) with sentinel zero: the byte
    framing that shared/src/communication/mod.rs takes from a library. */
module Cobs {
  import opened Bytes

  /** Length of the leading zero-free run, at most `max`. */
  function RunLength(data: seq<Byte>, max: nat): (n: nat)
    ensures n <= |data| && n <= max
    ensures 0 !in data[..n]
    ensures n < |data| && n < max ==> data[n] == 0
  {
    if max == 0 || data == [] || data[0] == 0 then 0
    else
      assert forall k: nat | k < |data| :: data[..k + 1] == [data[0]] + data[1..][..k];
      1 + RunLength(data[1..], max - 1)
  }

  /** The first group's run. */
  function Run(data: seq<Byte>): (run: seq<Byte>)
    ensures run <= data && |run| <= 254 && 0 !in run
    ensures |run| < |data| && |run| < 254 ==> data[|run|] == 0
  {
    data[..RunLength(data, 254)]
  }

  /** The first group does not end the data. */
  predicate HasMore(data: seq<Byte>) {
    |Run(data)| == 254 || |Run(data)| < |data|
  }

  /** What is left after the first group; the zero that ends a short group is taken out. */
  function AfterRun(data: seq<Byte>): (after: seq<Byte>)
    requires HasMore(data)
    ensures |after| < |data|
  {
    var n := |Run(data)|;
    if n == 254 then data[n..] else data[n + 1..]
  }

  /** Groups of a code byte and up to 254 non-zero bytes; a full group swallows no zero. */
  function Encode(data: seq<Byte>): seq<Byte>
    decreases |data|
  {
    var run := Run(data);
    [|run| + 1] + run + if HasMore(data) then Encode(AfterRun(data)) else []
  }

  /** The receiver: bytes still to copy, in a group that ends in a zero or in a full one. */
  datatype Receiver = Idle | Grab(n: nat) | GrabChain(n: nat)

  datatype Fed = NoData | Data(b: Byte) | Complete | Bad

  function Group(code: Byte): Receiver
    requires code != 0
  {
    if code == 255 then GrabChain(254) else Grab(code - 1)
  }

  function Feed(rx: Receiver, b: Byte): (Receiver, Fed) {
    match rx
    case Idle => if b == 0 then (Idle, NoData) else (Group(b), NoData)
    case Grab(n) =>
      if n == 0 then (if b == 0 then (Idle, Complete) else (Group(b), Data(0)))
      else if b == 0 then (Idle, Bad) else (Grab(n - 1), Data(b))
    case GrabChain(n) =>
      if n == 0 then (if b == 0 then (Idle, Complete) else (Group(b), NoData))
      else if b == 0 then (Idle, Bad) else (GrabChain(n - 1), Data(b))
  }

  /** What a receiver with room for everything makes of a stream. */
  datatype Outcome =
    | Waiting(rx: Receiver, out: seq<Byte>)
    | Done(out: seq<Byte>, rest: seq<Byte>)
    | Invalid(rest: seq<Byte>)

  function Receive(rx: Receiver, out: seq<Byte>, input: seq<Byte>): Outcome
    decreases input
  {
    if input == [] then Waiting(rx, out)
    else
      var (rx1, fed) := Feed(rx, input[0]);
      match fed
      case NoData => Receive(rx1, out, input[1..])
      case Data(b) => Receive(rx1, out + [b], input[1..])
      case Complete => Done(out, input[1..])
      case Bad => Invalid(input[1..])
  }

  // ----- decoding inverts encoding

  lemma {:induction false} EncodeHasNoZero(data: seq<Byte>)
    ensures 0 !in Encode(data)
    decreases |data|
  {
    if HasMore(data) {
      EncodeHasNoZero(AfterRun(data));
    }
  }

  /** A group's bytes are copied as they are. */
  lemma {:induction false} CopyRun(rx: Receiver, out: seq<Byte>, run: seq<Byte>, tail: seq<Byte>)
    requires !rx.Idle? && rx.n >= |run| && 0 !in run
    ensures Receive(rx, out, run + tail)
         == Receive(if rx.Grab? then Grab(rx.n - |run|) else GrabChain(rx.n - |run|), out + run, tail)
    decreases run
  {
    if run == [] {
      assert run + tail == tail && out + run == out;
    } else {
      assert run[0] in run;
      assert (run + tail)[1..] == run[1..] + tail;
      var rx1 := if rx.Grab? then Grab(rx.n - 1) else GrabChain(rx.n - 1);
      CopyRun(rx1, out + [run[0]], run[1..], tail);
      assert out + [run[0]] + run[1..] == out + run;
    }
  }

  /** The zero a receiver owes from the group before. */
  function Owed(rx: Receiver): seq<Byte> {
    if rx == Grab(0) then [0] else []
  }

  lemma CodeByte(rx: Receiver, out: seq<Byte>, code: Byte, tail: seq<Byte>)
    requires code != 0 && (rx == Idle || rx == Grab(0) || rx == GrabChain(0))
    ensures Receive(rx, out, [code] + tail) == Receive(Group(code), out + Owed(rx), tail)
  {
    assert ([code] + tail)[1..] == tail;
    assert rx != Grab(0) ==> out + Owed(rx) == out;
  }

  /** One whole group: its code byte and its run. */
  lemma ReceiveGroup(rx: Receiver, out: seq<Byte>, run: seq<Byte>, tail: seq<Byte>)
    requires rx == Idle || rx == Grab(0) || rx == GrabChain(0)
    requires |run| <= 254 && 0 !in run
    ensures Receive(rx, out, [|run| + 1] + run + tail)
         == Receive(if |run| == 254 then GrabChain(0) else Grab(0), out + Owed(rx) + run, tail)
  {
    assert [|run| + 1] + run + tail == [|run| + 1] + (run + tail);
    CodeByte(rx, out, |run| + 1, run + tail);
    CopyRun(Group(|run| + 1), out + Owed(rx), run, tail);
  }

  /** Where a receiver stands after a run. */
  function AfterRunState(run: seq<Byte>): Receiver {
    if |run| == 254 then GrabChain(0) else Grab(0)
  }

  lemma EncodeParts(data: seq<Byte>, tail: seq<Byte>)
    ensures Encode(data) + tail
         == [|Run(data)| + 1] + Run(data) + ((if HasMore(data) then Encode(AfterRun(data)) else []) + tail)
  {
    var run, more := Run(data), if HasMore(data) then Encode(AfterRun(data)) else [];
    assert Encode(data) == [|run| + 1] + run + more;
    assert [|run| + 1] + run + more + tail == [|run| + 1] + run + (more + tail);
  }

  lemma DataParts(data: seq<Byte>)
    ensures data == Run(data) + if HasMore(data) then Owed(AfterRunState(Run(data))) + AfterRun(data) else []
  {}

  lemma Regroup(a: seq<Byte>, b: seq<Byte>, c: seq<Byte>, d: seq<Byte>)
    ensures a + b + c + d == a + (b + (c + d))
  {}

  lemma ReceiveSentinel(rx: Receiver, out: seq<Byte>, rest: seq<Byte>)
    requires rx == Grab(0) || rx == GrabChain(0)
    ensures Receive(rx, out, [0] + rest) == Done(out, rest)
  {
    assert ([0] + rest)[1..] == rest;
  }

  lemma {:induction false} ReceiveEncoded(rx: Receiver, out: seq<Byte>, data: seq<Byte>, rest: seq<Byte>)
    requires rx == Idle || rx == Grab(0) || rx == GrabChain(0)
    ensures Receive(rx, out, Encode(data) + ([0] + rest)) == Done(out + Owed(rx) + data, rest)
    decreases |data|
  {
    var run, next := Run(data), AfterRunState(Run(data));
    var out1 := out + Owed(rx) + run;
    EncodeParts(data, [0] + rest);
    DataParts(data);
    if HasMore(data) {
      var after := AfterRun(data);
      ReceiveGroup(rx, out, run, Encode(after) + ([0] + rest));
      ReceiveEncoded(next, out1, after, rest);
      Regroup(out + Owed(rx), run, Owed(next), after);
    } else {
      assert [] + ([0] + rest) == [0] + rest;
      ReceiveGroup(rx, out, run, [0] + rest);
      ReceiveSentinel(next, out1, rest);
      assert run + [] == run;
    }
  }

  /** Decoding what was encoded gives it back and stops right behind the sentinel. */
  lemma DecodeEncoded(data: seq<Byte>, rest: seq<Byte>)
    ensures Receive(Idle, [], Encode(data) + [0] + rest) == Done(data, rest)
  {
    ReceiveEncoded(Idle, [], data, rest);
    assert Encode(data) + [0] + rest == Encode(data) + ([0] + rest);
    assert [] + Owed(Idle) + data == data;
  }

  /** The overhead is one byte, and one more for each full 254 bytes at most. */
  lemma {:induction false} EncodeOverhead(data: seq<Byte>)
    ensures |data| + 1 <= |Encode(data)| <= |data| + 1 + |data| / 254
    decreases |data|
  {
    if HasMore(data) {
      EncodeOverhead(AfterRun(data));
    }
  }

  // ----- what decodes at all

  /** A sequence of whole groups: none is cut short. */
  predicate Whole(p: seq<Byte>)
    requires 0 !in p
    decreases |p|
  {
    p == [] || (p[0] <= |p| && Whole(p[p[0]..]))
  }

  lemma CutShort(rx: Receiver, out: seq<Byte>, p: seq<Byte>, rest: seq<Byte>)
    requires rx == Idle || rx == Grab(0) || rx == GrabChain(0)
    requires p != [] && 0 !in p && p[0] > |p|
    ensures Receive(rx, out, p + ([0] + rest)) == Invalid(rest)
  {
    var run := p[1..];
    assert p + ([0] + rest) == [p[0]] + (run + ([0] + rest));
    CodeByte(rx, out, p[0], run + ([0] + rest));
    CopyRun(Group(p[0]), out + Owed(rx), run, [0] + rest);
    assert ([0] + rest)[1..] == rest;
  }

  /** Up to the sentinel, whole groups decode, and a group cut short is an error there. */
  lemma {:induction false} ReceiveBlock(rx: Receiver, out: seq<Byte>, p: seq<Byte>, rest: seq<Byte>)
    requires rx == Grab(0) || rx == GrabChain(0) || (rx == Idle && p != [])
    requires 0 !in p
    ensures var o := Receive(rx, out, p + ([0] + rest));
      if Whole(p) then o.Done? && o.rest == rest else o == Invalid(rest)
    decreases |p|
  {
    if p == [] {
      assert p + ([0] + rest) == [0] + rest;
      ReceiveSentinel(rx, out, rest);
    } else if p[0] <= |p| {
      var run, tail := p[1..p[0]], p[p[0]..];
      assert p + ([0] + rest) == [|run| + 1] + run + (tail + ([0] + rest));
      ReceiveGroup(rx, out, run, tail + ([0] + rest));
      ReceiveBlock(AfterRunState(run), out + Owed(rx) + run, tail, rest);
    } else {
      CutShort(rx, out, p, rest);
    }
  }

  /** Without a sentinel a receiver that has begun waits for more. */
  lemma {:induction false} NoSentinel(rx: Receiver, out: seq<Byte>, p: seq<Byte>)
    requires 0 !in p
    ensures Receive(rx, out, p).Waiting?
    decreases p
  {
    if p != [] {
      var (rx1, fed) := Feed(rx, p[0]);
      NoSentinel(rx1, if fed.Data? then out + [fed.b] else out, p[1..]);
    }
  }

  // ----- reading in pieces

  lemma {:induction false} ReceiveSplit(rx: Receiver, out: seq<Byte>, a: seq<Byte>, b: seq<Byte>)
    requires Receive(rx, out, a).Waiting?
    ensures Receive(rx, out, a + b) == Receive(Receive(rx, out, a).rx, Receive(rx, out, a).out, b)
    decreases a
  {
    if a == [] {
      assert a + b == b;
    } else {
      assert (a + b)[1..] == a[1..] + b;
      var (rx1, fed) := Feed(rx, a[0]);
      ReceiveSplit(rx1, if fed.Data? then out + [fed.b] else out, a[1..], b);
    }
  }

  lemma {:induction false} ReceiveGrows(rx: Receiver, out: seq<Byte>, a: seq<Byte>)
    ensures Receive(rx, out, a).Waiting? ==> |out| <= |Receive(rx, out, a).out|
    decreases a
  {
    if a != [] {
      var (rx1, fed) := Feed(rx, a[0]);
      ReceiveGrows(rx1, if fed.Data? then out + [fed.b] else out, a[1..]);
    }
  }

  /** Output only grows, and a stream that is still waiting was waiting all along. */
  lemma {:induction false} ReceivePrefix(rx: Receiver, out: seq<Byte>, a: seq<Byte>, b: seq<Byte>)
    requires Receive(rx, out, a + b).Waiting?
    ensures Receive(rx, out, a).Waiting?
    ensures |Receive(rx, out, a).out| <= |Receive(rx, out, a + b).out|
    decreases a
  {
    if a == [] {
      ReceiveGrows(rx, out, a + b);
    } else {
      assert (a + b)[1..] == a[1..] + b;
      var (rx1, fed) := Feed(rx, a[0]);
      ReceivePrefix(rx1, if fed.Data? then out + [fed.b] else out, a[1..], b);
    }
  }
}
