/** The server's receive loop as it runs (src/server/transfer.rs), proved against `Framing` and `ServerModel`. */
module UploadSessions {
  import opened Bytes
  import opened Collections
  import opened Packets
  import opened Framing
  import opened ChunkMarks
  import opened ChunkBitmaps
  import opened FileReceivers
  import opened ServerModel
  import R = ReceiverModel

  datatype UploadError = StreamClosed | NotFinalized(error: R.FinalizeError)

  /** How the receive phase ends, if it does: the loop has no time limit and does not look whether the connection is
      still there. */
  datatype Ending = Delivered(file: seq<byte>) | Refused(error: UploadError) | Waiting

  class UploadSession {
    const codec: Codec
    const total: nat
    const receiver: FileReceiver
    const chunkBitmap: ChunkBitmap
    var streamBuffer: seq<byte>
    var expectingLength: bool
    var expectedChunkSize: nat
    var chunksReceived: nat

    ghost function State(): Session
      reads this, receiver, receiver.missingTracker, chunkBitmap
    {
      Session(receiver.State(), chunkBitmap.View(), chunksReceived)
    }

    function Loop(): Deframer
      reads this
    {
      Deframer(streamBuffer, expectingLength, expectedChunkSize)
    }

    ghost predicate Valid()
      reads this, receiver, receiver.missingTracker, chunkBitmap
    {
      && receiver.Valid() && chunkBitmap.Valid()
      && Room(State(), total)
      && Turn(Loop()).None?
    }

    constructor (c: Codec, n: nat, r: FileReceiver, b: ChunkBitmap)
      requires r.Valid() && b.Valid() && r.expectedFileHash == None
      requires Room(Session(r.State(), b.View(), 0), n)
      ensures Valid() && codec == c && total == n && receiver == r && chunkBitmap == b
      ensures Loop() == FRESH && State() == Session(r.State(), b.View(), 0)
    {
      codec, total, receiver, chunkBitmap := c, n, r, b;
      streamBuffer, expectingLength, expectedChunkSize, chunksReceived := [], true, 0, 0;
    }

    /** One accepted or rejected packet. */
    method OnPacket(raw: seq<byte>)
      requires receiver.Valid() && chunkBitmap.Valid()
      requires Room(State(), total)
      modifies `chunksReceived, receiver, receiver.missingTracker, chunkBitmap
      ensures receiver.Valid() && chunkBitmap.Valid() && Room(State(), total)
      ensures receiver.missingTracker == old(receiver.missingTracker) || fresh(receiver.missingTracker)
      ensures State() == Arrive(old(State()), codec, total, raw)
      ensures receiver.expectedFileHash == old(receiver.expectedFileHash)
    {
      ArriveRoom(State(), codec, total, raw);
      var answer := receiver.ReceiveChunk(codec, raw);
      if answer.Ok? {
        CountPacket();
      }
    }

    /** The bitmap is indexed by the number of packets accepted before. */
    method CountPacket()
      requires chunkBitmap.Valid() && CapacityFor(chunkBitmap.View(), chunksReceived % U32_LIMIT) + 7 < U32_LIMIT
      modifies `chunksReceived, chunkBitmap
      ensures chunkBitmap.Valid() && chunksReceived == old(chunksReceived) + 1
      ensures chunkBitmap.View()
           == Mark(old(chunkBitmap.View()), old(chunksReceived) % U32_LIMIT, chunksReceived == total)
    {
      chunksReceived := chunksReceived + 1;
      var isLast := chunksReceived == total;
      var isNew := chunkBitmap.MarkReceived((chunksReceived - 1) % U32_LIMIT, isLast);
    }

    /** One read from the data stream: every whole frame in the buffer is handed over, and the loop stops with an
        incomplete one. */
    method OnRead(data: seq<byte>)
      requires Valid()
      modifies this, receiver, receiver.missingTracker, chunkBitmap
      ensures Valid()
      ensures receiver.missingTracker == old(receiver.missingTracker) || fresh(receiver.missingTracker)
      ensures Loop() == Drain(Append(old(Loop()), data)).1
      ensures State() == ArriveAll(old(State()), codec, total, Drain(Append(old(Loop()), data)).0)
      ensures receiver.expectedFileHash == old(receiver.expectedFileHash)
    {
      streamBuffer := streamBuffer + data;
      ghost var packets := DrainBuffer();
    }

    /** One turn of the inner loop up to the packet it cuts off, if any. */
    method TakeTurn() returns (turn: Option<Option<seq<byte>>>)
      modifies `streamBuffer, `expectingLength, `expectedChunkSize
      ensures match Turn(old(Loop()))
              case None => turn == None && Loop() == old(Loop())
              case Some((packet, next)) => turn == Some(packet) && Loop() == next
    {
      if expectingLength {
        if |streamBuffer| < 4 {
          return None;
        }
        expectedChunkSize := FromU32Be(streamBuffer[0..4]);
        streamBuffer := streamBuffer[4..];
        expectingLength := false;
        return Some(None);
      }
      if |streamBuffer| < expectedChunkSize {
        return None;
      }
      var chunkData := streamBuffer[..expectedChunkSize];
      streamBuffer := streamBuffer[expectedChunkSize..];
      expectingLength := true;
      return Some(Some(chunkData));
    }

    /** The packet after those already handed over. */
    method OnNextPacket(raw: seq<byte>, ghost start: Session, ghost before: seq<seq<byte>>)
      requires receiver.Valid() && chunkBitmap.Valid() && Room(State(), total)
      requires State() == ArriveAll(start, codec, total, before)
      modifies `chunksReceived, receiver, receiver.missingTracker, chunkBitmap
      ensures receiver.Valid() && chunkBitmap.Valid() && Room(State(), total)
      ensures receiver.missingTracker == old(receiver.missingTracker) || fresh(receiver.missingTracker)
      ensures State() == ArriveAll(start, codec, total, before + [raw])
      ensures receiver.expectedFileHash == old(receiver.expectedFileHash)
    {
      ArriveSnoc(start, codec, total, before, raw);
      OnPacket(raw);
    }

    /** One turn of the inner loop, and the packet it cuts off handed over. */
    method OneTurn(ghost start: Session, ghost before: seq<seq<byte>>)
      returns (more: bool, ghost after: seq<seq<byte>>)
      requires receiver.Valid() && chunkBitmap.Valid() && Room(State(), total)
      requires State() == ArriveAll(start, codec, total, before)
      modifies this, receiver, receiver.missingTracker, chunkBitmap
      ensures receiver.Valid() && chunkBitmap.Valid() && Room(State(), total)
      ensures receiver.missingTracker == old(receiver.missingTracker) || fresh(receiver.missingTracker)
      ensures State() == ArriveAll(start, codec, total, after)
      ensures receiver.expectedFileHash == old(receiver.expectedFileHash)
      ensures match Turn(old(Loop()))
              case None => !more && after == before && Loop() == old(Loop())
              case Some((packet, next)) =>
                more && after == (if packet.Some? then before + [packet.value] else before) && Loop() == next
    {
      var turn := TakeTurn();
      after := before;
      if turn.None? {
        return false, after;
      }
      if turn.value.Some? {
        OnNextPacket(turn.value.value, start, before);
        after := before + [turn.value.value];
      }
      more := true;
    }

    /** The inner loop. */
    method DrainBuffer() returns (ghost packets: seq<seq<byte>>)
      requires receiver.Valid() && chunkBitmap.Valid() && Room(State(), total)
      modifies this, receiver, receiver.missingTracker, chunkBitmap
      ensures Valid()
      ensures receiver.missingTracker == old(receiver.missingTracker) || fresh(receiver.missingTracker)
      ensures (packets, Loop()) == Drain(old(Loop()))
      ensures State() == ArriveAll(old(State()), codec, total, packets)
      ensures receiver.expectedFileHash == old(receiver.expectedFileHash)
    {
      ghost var whole, s0 := Drain(Loop()), State();
      packets := [];
      assert packets + whole.0 == whole.0;
      while true
        invariant receiver.Valid() && chunkBitmap.Valid() && Room(State(), total)
        invariant receiver.missingTracker == old(receiver.missingTracker) || fresh(receiver.missingTracker)
        invariant packets + Drain(Loop()).0 == whole.0 && Drain(Loop()).1 == whole.1
        invariant State() == ArriveAll(s0, codec, total, packets)
        invariant receiver.expectedFileHash == old(receiver.expectedFileHash)
        decreases Measure(Loop())
      {
        DrainTurn(Loop(), packets);
        var more;
        more, packets := OneTurn(s0, packets);
        if !more {
          break;
        }
      }
    }

    /** The outer loop: reads until the receiver is complete or there is no more to read. `used` is how many reads it
        took. */
    method ReadUntilComplete(segments: seq<seq<byte>>) returns (ghost used: nat)
      requires Valid() && Loop() == FRESH
      modifies this, receiver, receiver.missingTracker, chunkBitmap
      ensures Valid()
      ensures receiver.expectedFileHash == old(receiver.expectedFileHash)
      ensures used <= |segments|
      ensures State() == ArriveAll(old(State()), codec, total, Feed(FRESH, segments[..used]).0)
      ensures used == |segments| || R.IsComplete(receiver.State())
    {
      ghost var s0 := State();
      assert segments[..0] == [];
      used := 0;
      for i := 0 to |segments|
        invariant Valid()
        invariant receiver.missingTracker == old(receiver.missingTracker) || fresh(receiver.missingTracker)
        invariant receiver.expectedFileHash == old(receiver.expectedFileHash)
        invariant used == i
        invariant Loop() == Feed(FRESH, segments[..i]).1
        invariant State() == ArriveAll(s0, codec, total, Feed(FRESH, segments[..i]).0)
      {
        FeedStep(segments, i, s0, codec, total);
        OnRead(segments[i]);
        used := i + 1;
        if receiver.IsComplete() {
          break;
        }
      }
    }

    /** The whole receive phase. `fin` says whether the end of the stream is announced behind the last read. */
    method ReceiveStream(segments: seq<seq<byte>>, fin: bool) returns (r: Ending, ghost used: nat)
      requires Valid() && Loop() == FRESH && receiver.expectedFileHash == None
      modifies this, receiver, receiver.missingTracker, chunkBitmap
      ensures used <= |segments|
      ensures var s := ArriveAll(old(State()), codec, total, Feed(FRESH, segments[..used]).0);
              if !R.IsComplete(s.receiver)
              then r == (if fin then Refused(StreamClosed) else Waiting) && used == |segments|
              else match R.Finalize(s.receiver, codec, None).1
                   case Ok(file) => r == Delivered(file)
                   case Err(e) => r == Refused(NotFinalized(e))
    {
      used := ReadUntilComplete(segments);
      if !receiver.IsComplete() {
        return if fin then Refused(StreamClosed) else Waiting, used;
      }
      var final := receiver.FinalizeFile(codec);
      match final {
        case Ok(file) => return Delivered(file), used;
        case Err(e) => return Refused(NotFinalized(e)), used;
      }
    }
  }

  lemma FeedStep(segments: seq<seq<byte>>, i: nat, s0: Session, c: Codec, total: nat)
    requires i < |segments|
    ensures var (packets, d) := Feed(FRESH, segments[..i]);
            var (now, last) := Drain(Append(d, segments[i]));
            && Feed(FRESH, segments[..i + 1]).1 == last
            && ArriveAll(s0, c, total, Feed(FRESH, segments[..i + 1]).0) ==
               ArriveAll(ArriveAll(s0, c, total, packets), c, total, now)
  {
    assert segments[..i + 1][..i] == segments[..i];
    var (packets, d) := Feed(FRESH, segments[..i]);
    ArriveInTwo(s0, c, total, packets, Drain(Append(d, segments[i])).0);
  }

  /** A turn moves at most one packet from what is still to be drained to what has been handed over. */
  lemma DrainTurn(d: Deframer, packets: seq<seq<byte>>)
    ensures match Turn(d)
            case None => packets + Drain(d).0 == packets && Drain(d).1 == d
            case Some((packet, next)) =>
              && Measure(next) < Measure(d)
              && Drain(d).1 == Drain(next).1
              && packets + Drain(d).0 ==
                 (if packet.Some? then packets + [packet.value] else packets) + Drain(next).0
  {
    match Turn(d)
    case None => assert packets + [] == packets;
    case Some((packet, next)) =>
      TurnProgress(d);
      if packet.Some? {
        ConcatAssoc(packets, [packet.value], Drain(next).0);
      }
  }
}
