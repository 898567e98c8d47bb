/** `write_frame` and `get_frame` of shared/src/communication/mod.rs. */
module Frames {
  import opened Bytes
  import opened Cobs

  datatype FeedResult = Pending | Finished(len: nat) | TargetBufTooSmall | InvalidFrame

  /** A receiver that writes into a buffer of fixed size. */
  class Decoder {
    const dest: array<Byte>
    var rx: Receiver
    var idx: nat

    constructor (dest: array<Byte>)
      ensures this.dest == dest && rx == Idle && idx == 0
    {
      this.dest := dest;
      rx := Idle;
      idx := 0;
    }

    /** `fed` has been taken in without a result. */
    ghost predicate Took(fed: seq<Byte>)
      reads this, dest
    {
      idx <= dest.Length && Receive(Idle, [], fed) == Waiting(rx, dest[..idx])
    }

    method FeedByte(b: Byte, ghost fed: seq<Byte>) returns (r: FeedResult)
      requires Took(fed)
      modifies this, dest
      ensures old(idx) <= idx <= dest.Length
      ensures var o := Receive(Idle, [], fed + [b]);
        match r
        case Pending => Took(fed + [b])
        case Finished(len) => len == idx && o == Done(dest[..len], [])
        case TargetBufTooSmall => old(idx) == dest.Length && o.Waiting? && |o.out| == dest.Length + 1
        case InvalidFrame => o == Invalid([])
    {
      ReceiveSplit(Idle, [], fed, [b]);
      var step := Feed(rx, b);
      rx := step.0;
      match step.1
      case NoData => r := Pending;
      case Data(x) =>
        if idx < dest.Length {
          dest[idx] := x;
          idx := idx + 1;
          assert dest[..idx] == old(dest[..idx]) + [x];
          r := Pending;
        } else {
          r := TargetBufTooSmall;
        }
      case Complete => r := Finished(idx);
      case Bad => r := InvalidFrame;
    }
  }

  /** `Blocked`: the call has read everything there is and waits for more. */
  datatype FrameResult = Frame(bytes: seq<Byte>) | DecodeError | Blocked

  /** The result of reading one frame with unbounded room, and what is left of the stream. */
  function FrameOf(input: seq<Byte>): (FrameResult, seq<Byte>) {
    match Receive(Idle, [], input)
    case Done(out, rest) => (Frame(out), rest)
    case Invalid(rest) => (DecodeError, rest)
    case Waiting(_, _) => (Blocked, [])
  }

  /** `size` is unit, 2 * unit, 3 * unit, ... */
  ghost predicate PositiveMultiple(unit: nat, size: nat)
    requires unit > 0
  {
    size == unit || (size > unit && PositiveMultiple(unit, size - unit))
  }

  /** `size` is the least positive multiple of `unit` that is at least `n`. */
  ghost predicate LeastMultiple(unit: nat, n: nat, size: nat)
    requires unit > 0
  {
    PositiveMultiple(unit, size) && n <= size && (size == unit || size - unit < n)
  }

  /** The push of `get_frame`: never a result, never an error, since it has room for what was read. */
  method Replay(decoder: Decoder, readBytes: seq<Byte>)
    requires decoder.rx == Idle && decoder.idx == 0
    requires Receive(Idle, [], readBytes).Waiting?
    requires |Receive(Idle, [], readBytes).out| <= decoder.dest.Length
    modifies decoder, decoder.dest
    ensures decoder.Took(readBytes)
  {
    var i := 0;
    while i < |readBytes|
      invariant 0 <= i <= |readBytes|
      invariant decoder.Took(readBytes[..i])
    {
      var x := decoder.FeedByte(readBytes[i], readBytes[..i]);
      assert readBytes[..i + 1] == readBytes[..i] + [readBytes[i]];
      assert readBytes == readBytes[..i + 1] + readBytes[i + 1..];
      ReceivePrefix(Idle, [], readBytes[..i + 1], readBytes[i + 1..]);
      assert x == Pending;
      i := i + 1;
    }
    assert readBytes[..i] == readBytes;
  }

  /** A stream that is decided by its first part is decided the same with more behind it. */
  lemma {:induction false} DecidedEarly(rx: Receiver, out: seq<Byte>, a: seq<Byte>, b: seq<Byte>)
    requires !Receive(rx, out, a).Waiting?
    ensures var o := Receive(rx, out, a);
      Receive(rx, out, a + b) == if o.Done? then Done(o.out, o.rest + b) else Invalid(o.rest + b)
    decreases a
  {
    assert (a + b)[1..] == a[1..] + b;
    var (rx1, fed) := Feed(rx, a[0]);
    if fed.NoData? || fed.Data? {
      DecidedEarly(rx1, if fed.Data? then out + [fed.b] else out, a[1..], b);
    }
  }

  lemma DoneSplit(a: seq<Byte>, b: seq<Byte>)
    requires !Receive(Idle, [], a).Waiting? && Receive(Idle, [], a).rest == []
    ensures var o := Receive(Idle, [], a);
      Receive(Idle, [], a + b) == if o.Done? then Done(o.out, b) else Invalid(b)
  {
    DecidedEarly(Idle, [], a, b);
    assert [] + b == b;
  }

  /** One frame behind another: reading gives exactly the bytes written and leaves the rest. */
  lemma FrameRoundTrip(data: seq<Byte>, rest: seq<Byte>)
    ensures FrameOf(Encode(data) + [0] + rest) == (Frame(data), rest)
  {
    DecodeEncoded(data, rest);
  }

  class Channel {
    var input: seq<Byte>     // bytes received and not yet read
    var output: seq<Byte>    // bytes written
    const frameBufSize: nat

    constructor (frameBufSize: nat, input: seq<Byte>)
      ensures this.frameBufSize == frameBufSize && this.input == input && output == []
    {
      this.frameBufSize := frameBufSize;
      this.input := input;
      output := [];
    }

    /** What is appended reads back as the frame, whatever comes behind it. */
    method WriteFrame(data: seq<Byte>)
      modifies this`output
      ensures output == old(output) + Encode(data) + [0]
      ensures forall rest :: FrameOf(output[|old(output)|..] + rest) == (Frame(data), rest)
    {
      var encoded := Encode(data);
      encoded := encoded + [0];
      output := output + encoded;
      assert output[|old(output)|..] == Encode(data) + [0];
      forall rest { FrameRoundTrip(data, rest); }
    }

    /** Restart with a bigger buffer whenever the frame does not fit, replaying what was read. */
    method GetFrame() returns (r: FrameResult, bufSize: nat)
      requires frameBufSize > 0
      modifies this`input
      ensures (r, input) == FrameOf(old(input))
      ensures r.Frame? ==> LeastMultiple(frameBufSize, |r.bytes|, bufSize)
    {
      bufSize := frameBufSize;
      var readBytes: seq<Byte> := [];
      while true
        invariant readBytes + input == old(input)
        invariant bufSize > 0 && Receive(Idle, [], readBytes).Waiting?
        invariant LeastMultiple(frameBufSize, |Receive(Idle, [], readBytes).out|, bufSize)
        decreases |input|
      {
        var frameBuf := new Byte[bufSize](_ => 0);
        var decoder := new Decoder(frameBuf);
        Replay(decoder, readBytes);
        while true
          invariant readBytes + input == old(input)
          invariant decoder.dest == frameBuf && frameBuf.Length == bufSize && fresh(decoder) && fresh(frameBuf)
          invariant decoder.Took(readBytes)
          invariant bufSize == frameBufSize || bufSize - frameBufSize < decoder.idx
          invariant PositiveMultiple(frameBufSize, bufSize)
          invariant |input| <= old(|input|)
          decreases |input|
        {
          if input == [] {
            assert readBytes == old(input);
            return Blocked, bufSize;
          }
          var b := input[0];
          input := input[1..];
          ghost var before := readBytes;
          readBytes := readBytes + [b];
          assert readBytes + input == old(input);
          var x := decoder.FeedByte(b, before);
          match x {
            case Pending =>
            case Finished(len) =>
              DoneSplit(readBytes, input);
              return Frame(frameBuf[..len]), bufSize;
            case TargetBufTooSmall =>
              bufSize := bufSize + frameBufSize;
              break;
            case InvalidFrame =>
              DoneSplit(readBytes, input);
              return DecodeError, bufSize;
          }
        }
      }
    }
  }

  /** What any bytes up to a sentinel are read as: a frame if they are whole groups, an error if
      a group is cut short; nothing before the sentinel has come, and leading ones are skipped. */
  lemma FrameKinds(p: seq<Byte>, rest: seq<Byte>)
    requires 0 !in p
    ensures FrameOf(p) == (Blocked, []) && FrameOf([0] + rest) == FrameOf(rest)
    ensures p != [] ==>
      if Whole(p) then FrameOf(p + [0] + rest).0.Frame? && FrameOf(p + [0] + rest).1 == rest
      else FrameOf(p + [0] + rest) == (DecodeError, rest)
  {
    NoSentinel(Idle, [], p);
    assert ([0] + rest)[1..] == rest;
    assert p + [0] + rest == p + ([0] + rest);
    if p != [] { ReceiveBlock(Idle, [], p, rest); }
  }

  /** A conversation: one frame after another. */
  function Stream(msgs: seq<seq<Byte>>): seq<Byte> {
    if msgs == [] then [] else Encode(msgs[0]) + [0] + Stream(msgs[1..])
  }

  /** The results of `n` reads, and what is left of the stream. */
  function ReadMany(input: seq<Byte>, n: nat): (seq<FrameResult>, seq<Byte>)
    decreases n
  {
    if n == 0 then ([], input)
    else
      var (r, rest) := FrameOf(input);
      var (rs, left) := ReadMany(rest, n - 1);
      ([r] + rs, left)
  }

  /** As many reads as writes give the messages back in order and nothing of what follows. */
  lemma {:induction false} ConversationRoundTrip(msgs: seq<seq<Byte>>, rest: seq<Byte>)
    ensures ReadMany(Stream(msgs) + rest, |msgs|).1 == rest
    ensures |ReadMany(Stream(msgs) + rest, |msgs|).0| == |msgs|
    ensures forall i | 0 <= i < |msgs| :: ReadMany(Stream(msgs) + rest, |msgs|).0[i] == Frame(msgs[i])
  {
    if msgs == [] {
      assert [] + rest == rest;
    } else {
      var later := Stream(msgs[1..]) + rest;
      assert Stream(msgs) + rest == Encode(msgs[0]) + [0] + later;
      FrameRoundTrip(msgs[0], later);
      ConversationRoundTrip(msgs[1..], rest);
    }
  }
}
