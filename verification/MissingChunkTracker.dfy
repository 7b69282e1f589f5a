/** `MissingChunkTracker` (src/retransmission/missing.rs), proved against `TrackerModel`. */
module MissingChunks {
  import opened Bytes
  import opened Collections
  import opened TrackerModel
  import opened TrackerRuns

  class MissingChunkTracker {
    var totalChunks: nat
    var receivedChunks: set<nat>
    var pendingRetransmit: set<nat>
    var inFlight: Flight
    var maxRetries: nat
    var retryCounts: seq<nat>
    var timeout: nat

    function State(): Tracker
      reads this
    {
      Tracker(totalChunks, receivedChunks, pendingRetransmit, inFlight, maxRetries, retryCounts, timeout)
    }

    ghost predicate Valid()
      reads this
    {
      Inv(State())
    }

    /** Five retries and five seconds. */
    constructor (total: nat)
      ensures Valid() && State() == New(total, 5, 5000)
      ensures totalChunks == total && maxRetries == 5 && timeout == 5000
      ensures receivedChunks == pendingRetransmit == {} && inFlight == [] && retryCounts == seq(total, _ => 0)
    {
      totalChunks, receivedChunks, pendingRetransmit, inFlight := total, {}, {}, [];
      maxRetries, retryCounts, timeout := 5, seq(total, _ => 0), 5000;
      new;
      NewInv(total, 5, 5000);
    }

    constructor WithConfig(total: nat, retries: nat, limit: nat)
      ensures Valid() && State() == New(total, retries, limit)
      ensures totalChunks == total && maxRetries == retries && timeout == limit
      ensures receivedChunks == pendingRetransmit == {} && inFlight == [] && retryCounts == seq(total, _ => 0)
    {
      totalChunks, receivedChunks, pendingRetransmit, inFlight := total, {}, {}, [];
      maxRetries, retryCounts, timeout := retries, seq(total, _ => 0), limit;
      new;
      NewInv(total, retries, limit);
    }

    method MarkReceived(id: nat)
      requires Valid()
      modifies this
      ensures Valid() && State() == Received(old(State()), id)
    {
      MarkInv(State(), id);
      receivedChunks := receivedChunks + {id};
      pendingRetransmit := pendingRetransmit - {id};
      inFlight := Without(inFlight, {id});
    }

    method MarkCorrupted(id: nat)
      requires Valid()
      modifies this
      ensures Valid() && State() == Corrupted(old(State()), id)
    {
      MarkInv(State(), id);
      if id < totalChunks {
        receivedChunks := receivedChunks - {id};
        pendingRetransmit := pendingRetransmit + {id};
        inFlight := Without(inFlight, {id});
      }
    }

    method GetMissing() returns (missing: seq<nat>)
      requires Valid()
      ensures missing == Missing(State())
    {
      missing := [];
      for id := 0 to totalChunks
        invariant missing == Absent(receivedChunks, 0, id)
      {
        if id !in receivedChunks {
          missing := missing + [id];
        }
      }
    }

    /** The ready chunks, each once, in the set's own order; the retry counts are never indexed out of range. */
    method GetPendingRetransmit() returns (ids: seq<nat>)
      requires Valid()
      ensures Distinct(ids) && Elements(ids) == Ready(State())
    {
      ids := [];
      var rest := pendingRetransmit;
      while rest != {}
        invariant rest <= pendingRetransmit
        invariant Distinct(ids)
        invariant Elements(ids) == Ready(State()) - rest
        decreases rest
      {
        var id :| id in rest;
        var before := ids;
        if id !in FlightIds(inFlight) && retryCounts[id] < maxRetries {
          ids := ids + [id];
          assert id !in Elements(before);
          assert Elements(ids) == Elements(before) + {id};
        }
        rest := rest - {id};
      }
    }

    /** Requests a batch: up to `batchSize` ready chunks, and on top of them every timed-out request that may be
        retried. The batch size does not limit the latter. */
    method GetNextBatch(batchSize: nat, now: nat) returns (batch: seq<nat>)
      requires Valid()
      modifies this
      ensures Valid()
      ensures var n := Min(batchSize, |Ready(old(State()))|);
              && n <= |batch|
              && IsPick(old(State()), batchSize, batch[..n])
              && batch == BatchOf(old(State()), now, batch[..n])
              && State() == NextBatch(old(State()), now, batch[..n])
      ensures Aged(old(State()), State(), batch, now)
    {
      ghost var t := State();
      var all := GetPendingRetransmit();
      DistinctSize(all);
      ghost var n := Min(batchSize, |all|);
      var picked := all[..Min(batchSize, |all|)];
      assert forall id | id in picked :: id in all;
      BatchIs(t, now, picked);
      NextBatchInv(t, now, picked);
      BatchAges(t, now, picked);
      var retried := RequeueTimedOut(now);
      batch := picked + retried;
      assert batch[..n] == picked;
      MarkInFlight(batch, now);
    }

    /** Timed-out requests leave the in-flight list; those that may be retried are pending again. */
    method RequeueTimedOut(now: nat) returns (retried: seq<nat>)
      requires Valid()
      modifies `inFlight, `pendingRetransmit
      ensures State() == Sweep(old(State()), now)
      ensures retried == Retryable(old(State()), Expired(old(inFlight), now, timeout))
      ensures Swept(old(State()), State(), retried, now)
    {
      ghost var t := State();
      retried := [];
      var timedOut := Expired(inFlight, now, timeout);
      ExpiredInRange(t, now);
      SweepNone(t);
      for i := 0 to |timedOut|
        invariant State() == SweepTo(t, timedOut[..i])
        invariant retried == Retryable(t, timedOut[..i])
      {
        var id := timedOut[i];
        assert timedOut[..i + 1] == timedOut[..i] + [id];
        SweepOneMore(t, timedOut[..i], id);
        inFlight := Without(inFlight, {id});
        if retryCounts[id] < maxRetries {
          pendingRetransmit := pendingRetransmit + {id};
          retried := retried + [id];
        }
      }
      assert timedOut[..|timedOut|] == timedOut;
      SweptFlight(t, now);
    }

    method MarkInFlight(batch: seq<nat>, now: nat)
      requires forall id | id in batch :: id < |retryCounts|
      modifies `inFlight, `pendingRetransmit, `retryCounts
      ensures State() == Send(old(State()), batch, now)
    {
      ghost var t := State();
      SendNone(t, now);
      for i := 0 to |batch|
        invariant State() == Send(t, batch[..i], now)
      {
        var id := batch[i];
        assert id in batch;
        assert batch[..i + 1] == batch[..i] + [id];
        SendOneMore(t, batch[..i], id, now);
        inFlight := inFlight + [(id, now)];
        retryCounts := retryCounts[id := retryCounts[id] + 1];
        pendingRetransmit := pendingRetransmit - {id};
      }
      assert batch[..|batch|] == batch;
    }

    /** `get_failed_chunks`. */
    method GetFailedChunks() returns (failed: seq<nat>)
      requires Valid()
      ensures Ascending(failed)
      ensures forall id: nat :: id in failed <==> Failed(State(), id)
      ensures forall id: nat :: id in failed <==>
                id < totalChunks && id !in receivedChunks && retryCounts[id] >= maxRetries
    {
      failed := [];
      for id := 0 to totalChunks
        invariant Ascending(failed)
        invariant forall k: nat :: k in failed <==> k < id && Failed(State(), k)
      {
        if id !in receivedChunks && retryCounts[id] >= maxRetries {
          AscendingAppend(failed, id);
          failed := failed + [id];
        }
      }
    }

    predicate IsComplete()
      reads this
    {
      |receivedChunks| == totalChunks
    }
  }

  /** The sweep after the expired ids `done`. */
  function SweepTo(t: Tracker, done: seq<nat>): Tracker {
    t.(inFlight := Without(t.inFlight, Elements(done)), pending := t.pending + Elements(Retryable(t, done)))
  }

  lemma SweepNone(t: Tracker)
    ensures SweepTo(t, []) == t
  {
    KeepAll(t.inFlight);
    assert Elements<nat>([]) == {};
  }

  lemma ExpiredInRange(t: Tracker, now: nat)
    requires Inv(t)
    ensures forall i: nat | i < |Expired(t.inFlight, now, t.timeout)| ::
              Expired(t.inFlight, now, t.timeout)[i] < t.total
  {
    ExpiredIs(t.inFlight, now, t.timeout);
    forall i: nat | i < |Expired(t.inFlight, now, t.timeout)|
      ensures Expired(t.inFlight, now, t.timeout)[i] in FlightIds(t.inFlight)
    {
      assert Expired(t.inFlight, now, t.timeout)[i] in Expired(t.inFlight, now, t.timeout);
    }
  }

  lemma SweepOneMore(t: Tracker, done: seq<nat>, id: nat)
    ensures var s := SweepTo(t, done);
            SweepTo(t, done + [id]) ==
            s.(inFlight := Without(s.inFlight, {id}),
               pending := if CanRetry(t, id) then s.pending + {id} else s.pending)
    ensures Retryable(t, done + [id]) == Retryable(t, done) + if CanRetry(t, id) then [id] else []
  {
    assert (done + [id])[..|done|] == done;
    assert Elements(done + [id]) == Elements(done) + {id};
    WithoutTwice(t.inFlight, Elements(done), {id});
    var r := Retryable(t, done);
    assert Elements(r + [id]) == Elements(r) + {id};
    assert r + [] == r;
  }

  lemma SendNone(t: Tracker, now: nat)
    ensures Send(t, [], now) == t
  {
    assert Elements<nat>([]) == {};
    assert t.inFlight + Launched([], now) == t.inFlight;
  }

  lemma SendOneMore(t: Tracker, done: seq<nat>, id: nat, now: nat)
    requires id < |t.retries|
    ensures var s := Send(t, done, now);
            Send(t, done + [id], now) ==
            s.(inFlight := s.inFlight + [(id, now)], retries := s.retries[id := s.retries[id] + 1],
               pending := s.pending - {id})
  {
    assert (done + [id])[..|done|] == done;
    assert Elements(done + [id]) == Elements(done) + {id};
    assert Launched(done + [id], now) == Launched(done, now) + [(id, now)];
    ConcatAssoc(t.inFlight, Launched(done, now), [(id, now)]);
  }
}
