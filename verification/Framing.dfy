/** Length-prefixed framing on the data stream: the client's frames (src/client/transfer.rs) and the server's
    incremental two-state loop (src/server/transfer.rs). */
module Framing {
  import opened Bytes
  import opened Collections

  /** The length is cast to `u32` before it is written. */
  function FrameOf(packet: seq<byte>): seq<byte> {
    ToU32Be(|packet|) + packet
  }

  function FrameAll(packets: seq<seq<byte>>): seq<byte> {
    if |packets| == 0 then [] else FrameOf(packets[0]) + FrameAll(packets[1..])
  }

  function Concat(segments: seq<seq<byte>>): seq<byte> {
    if |segments| == 0 then [] else Concat(segments[..|segments| - 1]) + segments[|segments| - 1]
  }

  lemma {:induction false} ConcatCons(first: seq<byte>, rest: seq<seq<byte>>)
    ensures Concat([first] + rest) == first + Concat(rest)
  {
    if |rest| == 0 {
      assert [first] + rest == [first];
      assert [first][..0] == [];
      assert Concat([first]) == Concat([]) + first;
    } else {
      var front, last := rest[..|rest| - 1], rest[|rest| - 1];
      ConcatCons(first, front);
      assert ([first] + rest)[..|rest|] == [first] + front;
      ConcatAssoc(first, Concat(front), last);
    }
  }

  /** The loop's variables between two reads. */
  datatype Deframer = Deframer(buffer: seq<byte>, expectingLength: bool, expectedSize: nat)

  const FRESH: Deframer := Deframer([], true, 0)

  /** One turn of the inner loop, or `None` where it stops. */
  function Turn(d: Deframer): Option<(Option<seq<byte>>, Deframer)> {
    if d.expectingLength then
      if |d.buffer| < 4 then None
      else Some((None, Deframer(d.buffer[4..], false, FromU32Be(d.buffer[..4]))))
    else if |d.buffer| < d.expectedSize then None
    else Some((Some(d.buffer[..d.expectedSize]), Deframer(d.buffer[d.expectedSize..], true, d.expectedSize)))
  }

  /** Every turn makes progress: it takes bytes, or completes a frame. */
  function Measure(d: Deframer): nat {
    2 * |d.buffer| + if d.expectingLength then 0 else 1
  }

  lemma TurnProgress(d: Deframer)
    requires Turn(d).Some?
    ensures Measure(Turn(d).value.1) < Measure(d)
  {
  }

  /** The inner loop run until it stops: the packets handed over and the state left behind. */
  function Drain(d: Deframer): (seq<seq<byte>>, Deframer)
    decreases Measure(d)
  {
    match Turn(d)
    case None => ([], d)
    case Some((packet, next)) =>
      var (packets, last) := Drain(next);
      (if packet.Some? then [packet.value] + packets else packets, last)
  }

  function Append(d: Deframer, data: seq<byte>): Deframer {
    d.(buffer := d.buffer + data)
  }

  /** A sequence of reads, each appended to the buffer and drained. */
  function Feed(d: Deframer, segments: seq<seq<byte>>): (seq<seq<byte>>, Deframer) {
    if |segments| == 0 then ([], d)
    else
      var (before, mid) := Feed(d, segments[..|segments| - 1]);
      var (now, last) := Drain(Append(mid, segments[|segments| - 1]));
      (before + now, last)
  }

  /** The reference: parse the whole stream at once. */
  function ParseFrames(bytes: seq<byte>): (seq<seq<byte>>, seq<byte>)
    decreases |bytes|
  {
    if |bytes| < 4 then ([], bytes)
    else
      var n := FromU32Be(bytes[..4]);
      if |bytes| < 4 + n then ([], bytes)
      else
        var (packets, rest) := ParseFrames(bytes[4 + n..]);
        ([bytes[4..4 + n]] + packets, rest)
  }

  /** The loop variables after the whole frames `packets` and the incomplete frame `rest`. */
  function StateAfter(packets: seq<seq<byte>>, rest: seq<byte>, size: nat): Deframer {
    if |rest| < 4 then
      Deframer(rest, true, if |packets| == 0 then size else |packets[|packets| - 1]|)
    else
      Deframer(rest[4..], false, FromU32Be(rest[..4]))
  }

  lemma {:induction false} AppendTurn(d: Deframer, data: seq<byte>)
    requires Turn(d).Some?
    ensures Turn(Append(d, data)) == Some((Turn(d).value.0, Append(Turn(d).value.1, data)))
  {
    if d.expectingLength {
      assert (d.buffer + data)[..4] == d.buffer[..4];
      assert (d.buffer + data)[4..] == d.buffer[4..] + data;
    } else {
      assert (d.buffer + data)[..d.expectedSize] == d.buffer[..d.expectedSize];
      assert (d.buffer + data)[d.expectedSize..] == d.buffer[d.expectedSize..] + data;
    }
  }

  /** Draining early and draining once more after more bytes arrive is draining once at the end. */
  lemma {:induction false} DrainInTwo(d: Deframer, data: seq<byte>)
    ensures var (first, mid) := Drain(d);
            var (second, last) := Drain(Append(mid, data));
            Drain(Append(d, data)) == (first + second, last)
    decreases Measure(d)
  {
    if Turn(d).Some? {
      var (packet, next) := Turn(d).value;
      AppendTurn(d, data);
      DrainInTwo(next, data);
      var (first, mid) := Drain(next);
      var (second, last) := Drain(Append(mid, data));
      if packet.Some? {
        assert [packet.value] + (first + second) == [packet.value] + first + second;
      }
    } else {
      var (second, last) := Drain(Append(d, data));
      assert [] + second == second;
    }
  }

  lemma {:induction false} FeedIsDrain(d: Deframer, segments: seq<seq<byte>>)
    requires Turn(d).None?
    ensures Feed(d, segments) == Drain(Append(d, Concat(segments)))
  {
    if |segments| == 0 {
      assert Append(d, []) == d;
    } else {
      var front := segments[..|segments| - 1];
      FeedIsDrain(d, front);
      DrainInTwo(Append(d, Concat(front)), segments[|segments| - 1]);
      assert Append(Append(d, Concat(front)), segments[|segments| - 1]) == Append(d, Concat(segments));
    }
  }

  lemma {:induction false} DrainIsParse(bytes: seq<byte>, size: nat)
    ensures var (packets, rest) := ParseFrames(bytes);
            Drain(Deframer(bytes, true, size)) == (packets, StateAfter(packets, rest, size))
    decreases |bytes|
  {
    if |bytes| >= 4 {
      var n := FromU32Be(bytes[..4]);
      var d1 := Deframer(bytes[4..], false, n);
      assert Turn(Deframer(bytes, true, size)) == Some((None, d1));
      if |bytes| >= 4 + n {
        var d2 := Deframer(bytes[4..][n..], true, n);
        assert bytes[4..][n..] == bytes[4 + n..];
        assert bytes[4..][..n] == bytes[4..4 + n];
        assert Turn(d1) == Some((Some(bytes[4..4 + n]), d2));
        DrainIsParse(bytes[4 + n..], n);
        var (packets, rest) := ParseFrames(bytes[4 + n..]);
        var all := [bytes[4..4 + n]] + packets;
        assert |packets| > 0 ==> all[|all| - 1] == packets[|packets| - 1];
      }
    }
  }

  /** However the stream is cut into reads, the packets handed over and all three loop variables are those of
      parsing the concatenated bytes in one go. */
  lemma SegmentationIndependence(segments: seq<seq<byte>>)
    ensures var (packets, rest) := ParseFrames(Concat(segments));
            Feed(FRESH, segments) == (packets, StateAfter(packets, rest, 0))
  {
    FeedIsDrain(FRESH, segments);
    assert Append(FRESH, Concat(segments)) == Deframer(Concat(segments), true, 0);
    DrainIsParse(Concat(segments), 0);
  }

  /** What is left over is never a whole frame. */
  predicate Incomplete(rest: seq<byte>) {
    |rest| < 4 || |rest| < 4 + FromU32Be(rest[..4])
  }

  lemma ParseOne(prefix: seq<byte>, p: seq<byte>, tail: seq<byte>)
    requires |prefix| == 4 && FromU32Be(prefix) == |p|
    ensures ParseFrames(prefix + p + tail) == ([p] + ParseFrames(tail).0, ParseFrames(tail).1)
  {
    var bytes := prefix + p + tail;
    assert bytes[..4] == prefix;
    assert bytes[4..4 + |p|] == p;
    assert bytes[4 + |p|..] == tail;
  }

  lemma CutOne(bytes: seq<byte>, n: nat)
    requires |bytes| >= 4 + n && FromU32Be(bytes[..4]) == n
    ensures bytes == FrameOf(bytes[4..4 + n]) + bytes[4 + n..]
  {
    U32BeInjective(bytes[..4]);
    assert bytes == bytes[..4] + bytes[4..4 + n] + bytes[4 + n..];
  }

  lemma FrameAllCons(p: seq<byte>, packets: seq<seq<byte>>)
    ensures FrameAll([p] + packets) == FrameOf(p) + FrameAll(packets)
  {
    assert ([p] + packets)[1..] == packets;
  }

  /** Every byte is accounted for: the stream is the frames of the packets handed over, in order, followed by
      an incomplete frame. */
  lemma {:induction false} ParseAccountsForEveryByte(bytes: seq<byte>)
    ensures var (packets, rest) := ParseFrames(bytes);
            && bytes == FrameAll(packets) + rest
            && Incomplete(rest)
            && forall i: nat | i < |packets| :: |packets[i]| < U32_LIMIT
    decreases |bytes|
  {
    if |bytes| >= 4 {
      var n := FromU32Be(bytes[..4]);
      if |bytes| >= 4 + n {
        var (packets, rest) := ParseFrames(bytes[4 + n..]);
        ParseAccountsForEveryByte(bytes[4 + n..]);
        var p := bytes[4..4 + n];
        CutOne(bytes, n);
        FrameAllCons(p, packets);
        ConcatAssoc(FrameOf(p), FrameAll(packets), rest);
      }
    }
  }

  /** The frames of packets that fit the prefix parse back to those packets. */
  lemma {:induction false} FramesParse(packets: seq<seq<byte>>, rest: seq<byte>)
    requires forall i: nat | i < |packets| :: |packets[i]| < U32_LIMIT
    requires Incomplete(rest)
    ensures ParseFrames(FrameAll(packets) + rest) == (packets, rest)
  {
    if |packets| == 0 {
      assert FrameAll(packets) + rest == rest;
    } else {
      var p := packets[0];
      FramesParse(packets[1..], rest);
      var tail := FrameAll(packets[1..]) + rest;
      var prefix := ToU32Be(|p|);
      U32RoundTrip(|p|);
      ParseOne(prefix, p, tail);
      assert FrameAll(packets) + rest == prefix + p + tail;
      assert [p] + packets[1..] == packets;
    }
  }

  /** Framing one packet and parsing the frame gives the packet back exactly when its length fits the 32-bit
      prefix; otherwise the truncated prefix cuts it short. */
  lemma FrameRoundTripIff(packet: seq<byte>)
    ensures ParseFrames(FrameOf(packet)) == ([packet], []) <==> |packet| < U32_LIMIT
  {
    var bytes := FrameOf(packet);
    U32RoundTrip(|packet|);
    assert bytes[..4] == ToU32Be(|packet|);
    if |packet| < U32_LIMIT {
      FramesParse([packet], []);
      assert FrameAll([packet]) == bytes + FrameAll([]) == bytes;
      assert bytes + [] == bytes;
    } else {
      var n := |packet| % U32_LIMIT;
      assert n < |packet|;
      assert ParseFrames(bytes).0[0] == bytes[4..4 + n];
      assert |bytes[4..4 + n]| != |packet|;
    }
  }
}
