/** `FileReceiver` (src/client/receiver.rs), proved against `ReceiverModel`. */
module FileReceivers {
  import opened Bytes
  import opened Collections
  import opened Packets
  import TrackerModel
  import TrackerRuns
  import opened MissingChunks
  import opened ReceiverModel
  import opened ReceiverRuns

  class FileReceiver {
    const mode: Mode
    var partFile: seq<byte>
    var memoryBuffer: seq<byte>
    var receivedChunks: set<nat>
    var totalChunks: nat
    var bytesReceived: nat
    var endOfFileReceived: bool
    var expectedFileHash: Option<seq<byte>>
    var autoRetransmit: bool
    var missingTracker: MissingChunkTracker?
    var outbox: seq<ControlMessage>  // the messages handed to the control sender

    function State(): Receiver
      reads this, missingTracker
    {
      Receiver(mode, partFile, memoryBuffer, receivedChunks, totalChunks, bytesReceived, endOfFileReceived,
               autoRetransmit, if missingTracker == null then None else Some(missingTracker.State()), outbox)
    }

    ghost predicate Valid()
      reads this, missingTracker
    {
      Inside(State())
    }

    /** `stale` is what an earlier part file of that name holds. */
    constructor (syncMode: Mode, fileSize: nat, stale: seq<byte>)
      ensures Valid() && State() == Open(syncMode, fileSize, stale) && missingTracker == null
      ensures expectedFileHash == None
    {
      mode := syncMode;
      partFile := if syncMode == OnDisk && fileSize > 0 then Resize(stale, fileSize) else stale;
      memoryBuffer := if syncMode == Buffered then Zeros(fileSize) else [];
      receivedChunks, totalChunks, bytesReceived, endOfFileReceived := {}, 0, 0, false;
      expectedFileHash, autoRetransmit, missingTracker, outbox := None, false, null, [];
    }

    method EnableAutoRetransmit()
      requires Valid()
      modifies this
      ensures Valid() && State() == Enable(old(State()))
      ensures autoRetransmit && outbox == old(outbox)
      ensures missingTracker == old(missingTracker) || fresh(missingTracker)
      ensures expectedFileHash == old(expectedFileHash)
    {
      autoRetransmit := true;
      if totalChunks > 0 && missingTracker == null {
        missingTracker := new MissingChunkTracker(totalChunks);
      }
    }

    method DisableAutoRetransmit()
      modifies this
      ensures Valid() && State() == Disable(old(State()))
      ensures !autoRetransmit && missingTracker == null && outbox == old(outbox)
      ensures expectedFileHash == old(expectedFileHash)
    {
      autoRetransmit := false;
      missingTracker := null;
    }

    /** One packet from the stream. A damaged one is refused, and reported if retransmission is on. */
    method ReceiveChunk(c: Codec, raw: seq<byte>) returns (r: Result<View, ReceiveError>)
      requires Valid()
      modifies this, missingTracker
      ensures Valid()
      ensures (State(), r) == Receive(old(State()), c, raw)
      ensures var id := DamagedChunk(c, Deliver(raw));
              && (r == Err(ChecksumMismatch) <==> id.Some?)
              && outbox == if autoRetransmit && id.Some? then old(outbox) + [Nack(id.value)] else old(outbox)
      ensures missingTracker == old(missingTracker) || fresh(missingTracker)
      ensures expectedFileHash == old(expectedFileHash)
    {
      StepInside(State(), c, Deliver(raw));
      var parsed := Parse(c, raw);
      if parsed.Err? {
        return Err(BadPacket(parsed.error));
      }
      var chunk := parsed.value;
      if !SizesAgree(chunk) {
        return Err(SizeMismatch);
      }
      if !ChecksumMatches(c, chunk) {
        RejectChunk(chunk.chunkId);
        return Err(ChecksumMismatch);
      }
      if chunk.chunkId in receivedChunks {
        return Ok(chunk);
      }
      AcceptChunk(chunk);
      return Ok(chunk);
    }

    /** The checksum failed: tell the tracker and the sender, if retransmission is on. */
    method RejectChunk(id: nat)
      requires Valid()
      modifies this, missingTracker
      ensures State() == Reject(old(State()), id) && missingTracker == old(missingTracker)
      ensures expectedFileHash == old(expectedFileHash)
    {
      if autoRetransmit {
        if missingTracker != null {
          missingTracker.MarkCorrupted(id);
        }
        outbox := outbox + [Nack(id)];
      }
    }

    /** A verified new chunk is written and counted. */
    method AcceptChunk(chunk: View)
      requires Valid()
      modifies this, missingTracker
      ensures State() == Accept(old(State()), chunk)
      ensures missingTracker == old(missingTracker) || fresh(missingTracker)
      ensures expectedFileHash == old(expectedFileHash)
    {
      StoreChunk(chunk);
      receivedChunks := receivedChunks + {chunk.chunkId};
      bytesReceived := bytesReceived + |chunk.data|;
      if missingTracker != null {
        missingTracker.MarkReceived(chunk.chunkId);
      }
      if chunk.endOfFile {
        endOfFileReceived := true;
        totalChunks := chunk.chunkId + 1;
        if autoRetransmit && missingTracker == null {
          missingTracker := NewTracker();
        }
      }
    }

    method StoreChunk(chunk: View)
      modifies `partFile, `memoryBuffer
      ensures State() == Store(old(State()), chunk)
    {
      if mode == Buffered {
        memoryBuffer := Patch(memoryBuffer, chunk.byteOffset, chunk.data);
      } else if |chunk.data| > 0 {
        partFile := Patch(partFile, chunk.byteOffset, chunk.data);
      }
    }

    /** A fresh tracker that is told what has already arrived, in the set's own order. */
    method NewTracker() returns (tracker: MissingChunkTracker)
      ensures fresh(tracker)
      ensures tracker.State() == TrackerModel.New(totalChunks, 5, 5000).(received := receivedChunks)
    {
      tracker := new MissingChunkTracker(totalChunks);
      var rest := receivedChunks;
      while rest != {}
        invariant rest <= receivedChunks && tracker.Valid()
        invariant tracker.State() == TrackerModel.New(totalChunks, 5, 5000).(received := receivedChunks - rest)
        decreases rest
      {
        var id :| id in rest;
        tracker.MarkReceived(id);
        assert receivedChunks - (rest - {id}) == (receivedChunks - rest) + {id};
        rest := rest - {id};
      }
      assert receivedChunks - {} == receivedChunks;
    }

    predicate IsComplete()
      reads this, missingTracker
      ensures IsComplete() <==> ReceiverModel.IsComplete(State())
    {
      endOfFileReceived && |receivedChunks| == totalChunks
    }

    method FindMissing() returns (missing: seq<nat>)
      ensures missing == ReceiverModel.MissingChunks(State())
    {
      missing := [];
      if endOfFileReceived {
        for id := 0 to totalChunks
          invariant missing == Absent(receivedChunks, 0, id)
        {
          if id !in receivedChunks {
            missing := missing + [id];
          }
        }
      }
    }

    /** Marks everything missing for retransmission and requests a batch of it. `picked` is the part of the batch
        the tracker chose. */
    method RequestMissingChunks(batchSize: nat, now: nat, linkUp: bool)
      returns (r: Result<nat, RequestError>, ghost picked: seq<nat>)
      requires Valid()
      modifies this, missingTracker
      ensures Valid() && missingTracker == old(missingTracker)
      ensures Legal(old(State()), Ask(batchSize, now, picked, linkUp))
      ensures (State(), r) == RequestMissing(old(State()), now, picked, linkUp)
      ensures expectedFileHash == old(expectedFileHash)
    {
      picked := [];
      if !autoRetransmit {
        return Ok(0), [];
      }
      if missingTracker == null {
        return Err(NoTracker), [];
      }
      ghost var was := State();
      var chunkIds;
      chunkIds, picked := NextBatch(batchSize, now);
      AskInside(was, batchSize, now, picked, linkUp);
      if |chunkIds| == 0 {
        return Ok(0), picked;
      }
      outbox := outbox + [RetransmitRequest(chunkIds)];
      if !linkUp {
        return Err(SendFailed), picked;
      }
      return Ok(|chunkIds|), picked;
    }

    /** The batch to ask for, once everything missing has been marked. */
    method NextBatch(batchSize: nat, now: nat) returns (chunkIds: seq<nat>, ghost picked: seq<nat>)
      requires missingTracker != null && missingTracker.Valid()
      modifies missingTracker
      ensures unchanged(this)
      ensures var t := old(missingTracker.State());
              && TrackerModel.IsPick(TrackerRuns.MarkAll(t), batchSize, picked)
              && chunkIds == TrackerModel.BatchOf(TrackerRuns.MarkAll(t), now, picked)
              && missingTracker.State() == TrackerRuns.RequestAll(t, now, picked)
    {
      MarkAllMissing();
      ghost var m := missingTracker.State();
      chunkIds := missingTracker.GetNextBatch(batchSize, now);
      picked := chunkIds[..Min(batchSize, |TrackerModel.Ready(m)|)];
    }

    method MarkAllMissing()
      requires missingTracker != null && missingTracker.Valid()
      modifies missingTracker
      ensures missingTracker.Valid()
      ensures missingTracker.State() == TrackerRuns.MarkAll(old(missingTracker.State()))
      ensures unchanged(this)
    {
      ghost var t := missingTracker.State();
      var missing := missingTracker.GetMissing();
      for i := 0 to |missing|
        invariant missingTracker.Valid()
        invariant missingTracker.State() == TrackerRuns.MarkEach(t, missing[..i])
      {
        assert missing[..i + 1][..i] == missing[..i];
        missingTracker.MarkCorrupted(missing[i]);
      }
      assert missing[..|missing|] == missing;
    }

    method SetExpectedHash(hash: seq<byte>) returns (ok: bool)
      modifies `expectedFileHash
      ensures ok == (|hash| == 32)
      ensures expectedFileHash == if ok then Some(hash) else old(expectedFileHash)
    {
      ok := |hash| == 32;
      if ok {
        expectedFileHash := Some(hash);
      }
    }

    /** Refuses an incomplete transfer; otherwise leaves the assembled file, checked against the expected hash if
        one was set. */
    method FinalizeFile(c: Codec) returns (r: Result<seq<byte>, FinalizeError>)
      requires Valid()
      modifies `partFile
      ensures Valid()
      ensures (State(), r) == Finalize(old(State()), c, expectedFileHash)
    {
      if !IsComplete() {
        var missing := FindMissing();
        return Err(Incomplete(missing));
      }
      if mode == Buffered {
        partFile := Patch(partFile, 0, memoryBuffer);
      }
      if expectedFileHash.Some? && c.hash(partFile) != expectedFileHash.value {
        return Err(HashMismatch);
      }
      return Ok(partFile);
    }
  }
}
