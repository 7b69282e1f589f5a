/** `RetransmissionQueue` (src/retransmission/queue.rs), proved against `QueueModel`. */
module RetransmissionQueues {
  import opened Bytes
  import opened Collections
  import opened QueueModel
  import opened QueueRuns

  class RetransmissionQueue {
    var queue: seq<Entry>
    var inFlight: seq<Entry>
    const maxQueueSize: nat
    const minRetryInterval: nat
    const maxInFlight: nat

    function State(): Queue
      reads this
    {
      Queue.Queue(queue, inFlight, maxQueueSize, minRetryInterval, maxInFlight)
    }

    ghost predicate Valid()
      reads this
    {
      Inv(State())
    }

    constructor ()
      ensures Valid() && State() == Empty(1000, 1000, 50)
      ensures queue == inFlight == [] && maxQueueSize == 1000 && minRetryInterval == 1000 && maxInFlight == 50
    {
      queue, inFlight, maxQueueSize, minRetryInterval, maxInFlight := [], [], 1000, 1000, 50;
    }

    constructor WithConfig(queueSize: nat, interval: nat, flying: nat)
      ensures Valid() && State() == Empty(queueSize, interval, flying)
      ensures queue == inFlight == []
      ensures maxQueueSize == queueSize && minRetryInterval == interval && maxInFlight == flying
    {
      queue, inFlight, maxQueueSize, minRetryInterval, maxInFlight := [], [], queueSize, interval, flying;
    }

    method EnqueueChunk(id: nat, session: string, now: nat) returns (accepted: bool)
      requires Valid()
      modifies this
      ensures Valid()
      ensures accepted == CanEnqueue(old(State()), id)
      ensures State() == Enqueue(old(State()), id, session, now)
      ensures accepted <==>
                old(|queue|) < maxQueueSize && forall e | e in old(queue) + old(inFlight) :: e.chunkId != id
      ensures queue == if accepted then old(queue) + [Entry(id, now, 0, session)] else old(queue)
    {
      EnqueueStep(State(), id, session, now);
      if exists e :: e in queue && e.chunkId == id {
        return false;
      }
      if exists e :: e in inFlight && e.chunkId == id {
        return false;
      }
      if |queue| >= maxQueueSize {
        return false;
      }
      queue := queue + [Entry(id, now, 0, session)];
      return true;
    }

    /** Enqueues one by one; the clock may advance in between. */
    method EnqueueBatch(ids: seq<nat>, session: string, times: seq<nat>) returns (count: nat)
      requires Valid() && |times| == |ids|
      modifies this
      ensures Valid()
      ensures (count, State()) == EnqueueAll(old(State()), ids, session, times)
    {
      count := 0;
      for i := 0 to |ids|
        invariant Valid()
        invariant (count, State()) == EnqueueAll(old(State()), ids[..i], session, times[..i])
      {
        assert ids[..i + 1][..i] == ids[..i] && times[..i + 1][..i] == times[..i];
        var accepted := EnqueueChunk(ids[i], session, times[i]);
        if accepted {
          count := count + 1;
        }
      }
      assert ids[..|ids|] == ids && times[..|ids|] == times;
    }

    /** Takes the first ready entries, as many as limits allow, and rotates past the others. The call returns only
        if enough queued entries are ready or all are (`EndsIff`); the requires says so. */
    method DequeueNext(batchSize: nat, now: nat) returns (batch: seq<Entry>)
      requires Valid() && Returns(State(), batchSize, now)
      modifies this
      ensures Valid()
      ensures batch == Batch(old(State()), batchSize, now)
      ensures State() == Dequeue(old(State()), batchSize, now)
      ensures Dequeued(old(State()), State(), batch, batchSize, now)
    {
      DequeueIs(State(), batchSize, now);
      DequeueStep(State(), batchSize, now);
      inFlight := Filter(LiveAt(now), inFlight);
      var availableSlots := Max(maxInFlight - |inFlight|, 0);
      batch := FillBatch(Min(batchSize, availableSlots), now);
    }

    /** The rotation loop. */
    method FillBatch(batchLimit: nat, now: nat) returns (batch: seq<Entry>)
      requires Suffices(ReadyAt(now, minRetryInterval), queue, batchLimit)
      modifies `queue, `inFlight
      ensures batch == StampAll(Taken(ReadyAt(now, minRetryInterval), old(queue), batchLimit), now)
      ensures queue == Left(ReadyAt(now, minRetryInterval), old(queue), batchLimit)
      ensures inFlight == old(inFlight) + batch
    {
      batch := [];
      ghost var p, es, v := ReadyAt(now, minRetryInterval), queue, 0;
      ghost var live := inFlight;
      LoopStart(p, es);
      while |batch| < batchLimit
        invariant v <= Visited(p, es, batchLimit)
        invariant queue == LoopAt(p, es, v).queue
        invariant batch == StampAll(LoopAt(p, es, v).taken, now)
        invariant inFlight == live + batch
        decreases |es| - v
      {
        if |queue| == 0 {
          break;
        }
        StillVisiting(p, es, batchLimit, v);
        TurnStamped(p, es, v, now);
        var entry := queue[0];
        ConcatAssoc(live, batch, [Stamp(entry, now)]);
        queue := queue[1..];
        v := v + 1;
        if entry.retryCount > 0 {
          var elapsed := Since(now, entry.requestedAt);
          if elapsed < minRetryInterval {
            queue := queue + [entry];
            continue;
          }
        }
        entry := Stamp(entry, now);
        inFlight := inFlight + [entry];
        batch := batch + [entry];
      }
      LoopDone(p, es, batchLimit, v);
    }

    method ChunkReceived(id: nat)
      requires Valid()
      modifies this
      ensures Valid() && State() == MarkReceived(old(State()), id)
      ensures forall e :: e in queue <==> e in old(queue) && e.chunkId != id
      ensures forall e :: e in inFlight <==> e in old(inFlight) && e.chunkId != id
    {
      FilterIs(OtherThan(id), inFlight);
      FilterIs(OtherThan(id), queue);
      ReceivedStep(State(), id);
      inFlight := Filter(OtherThan(id), inFlight);
      queue := Filter(OtherThan(id), queue);
    }

    /** The request goes back to the front of the queue, keeping its time and its retry count. */
    method ChunkFailed(id: nat)
      requires Valid()
      modifies this
      ensures Valid() && State() == MarkFailed(old(State()), id)
      ensures id in ChunkIds(old(inFlight)) ==>
                |queue| > 0 && queue[0] in old(inFlight) && queue[0].chunkId == id && queue[1..] == old(queue)
    {
      FailedStep(State(), id);
      var pos := Position(inFlight, id);
      if pos < |inFlight| {
        var entry := inFlight[pos];
        inFlight := inFlight[..pos] + inFlight[pos + 1..];
        queue := [entry] + queue;
      }
    }

    /** Overdue requests go back to the front of the queue, the last of them first. */
    method RequeueTimeouts(timeout: nat, now: nat) returns (count: nat)
      requires Valid()
      modifies this
      ensures Valid() && State() == CheckTimeouts(old(State()), timeout, now)
      ensures count == old(|inFlight|) - |inFlight|
      ensures TimedOut(old(State()), State(), timeout, now)
    {
      TimeoutsAre(State(), timeout, now);
      FilterSplitsIds(OverdueAt(now, timeout), inFlight);
      TimeoutStep(State(), timeout, now);
      var timedOut := Filter(OverdueAt(now, timeout), inFlight);
      inFlight := Filter(Not(OverdueAt(now, timeout)), inFlight);
      count := |timedOut|;
      PushFront(timedOut);
    }

    method PushFront(es: seq<Entry>)
      modifies `queue
      ensures queue == Reverse(es) + old(queue)
      ensures |es| <= |queue| && forall i: nat | i < |es| :: queue[i] == es[|es| - 1 - i]
    {
      for i := 0 to |es|
        invariant queue == Reverse(es[..i]) + old(queue)
      {
        assert es[..i + 1] == es[..i] + [es[i]];
        ReverseSnoc(es[..i], es[i]);
        ConcatAssoc([es[i]], Reverse(es[..i]), old(queue));
        queue := [es[i]] + queue;
      }
      assert es[..|es|] == es;
      ReverseLength(es);
      forall i: nat | i < |es| ensures queue[i] == es[|es| - 1 - i] {
        ReverseAt(es, i);
      }
    }

    method ClearQueues()
      requires Valid()
      modifies this
      ensures Valid() && State() == Clear(old(State()))
    {
      queue, inFlight := [], [];
    }

    predicate IsEmpty()
      reads this
      ensures IsEmpty() <==> Ids(State()) == {}
    {
      assert |queue| > 0 ==> queue[0] in queue && queue[0].chunkId in ChunkIds(queue);
      assert |inFlight| > 0 ==> inFlight[0] in inFlight && inFlight[0].chunkId in ChunkIds(inFlight);
      |queue| == 0 && |inFlight| == 0
    }
  }

  function EnqueueAll(q: Queue, ids: seq<nat>, session: string, times: seq<nat>): (nat, Queue)
    requires |times| == |ids|
  {
    if |ids| == 0 then (0, q)
    else
      var n := |ids| - 1;
      var (count, r) := EnqueueAll(q, ids[..n], session, times[..n]);
      (count + if CanEnqueue(r, ids[n]) then 1 else 0, Enqueue(r, ids[n], session, times[n]))
  }

  /** Enqueueing a list of ids adds exactly as many chunks as it counts. */
  lemma {:induction false} EnqueueAllCounts(q: Queue, ids: seq<nat>, session: string, times: seq<nat>)
    requires Inv(q) && |times| == |ids|
    ensures var (count, r) := EnqueueAll(q, ids, session, times);
            && Inv(r) && |r.queue| == |q.queue| + count && r.inFlight == q.inFlight
            && Ids(q) <= Ids(r) <= Ids(q) + Elements(ids)
  {
    if |ids| > 0 {
      var n := |ids| - 1;
      EnqueueAllCounts(q, ids[..n], session, times[..n]);
      EnqueueStep(EnqueueAll(q, ids[..n], session, times[..n]).1, ids[n], session, times[n]);
      assert forall id :: id in ids[..n] ==> id in ids;
      assert ids[n] in ids;
    }
  }

  lemma TurnStamped(p: Entry -> bool, es: seq<Entry>, v: nat, now: nat)
    requires v < |es|
    ensures var l, next := LoopAt(p, es, v), LoopAt(p, es, v + 1);
            && |l.queue| > 0
            && next.queue == (if p(l.queue[0]) then l.queue[1..] else l.queue[1..] + [l.queue[0]])
            && StampAll(next.taken, now) ==
               StampAll(l.taken, now) + if p(l.queue[0]) then [Stamp(l.queue[0], now)] else []
  {
    TurnLooks(p, es, v);
  }

  /** The loop goes on only while there are entries it has to look at. */
  lemma StillVisiting(p: Entry -> bool, es: seq<Entry>, limit: nat, v: nat)
    requires Suffices(p, es, limit) && v <= Visited(p, es, limit)
    requires |LoopAt(p, es, v).taken| < limit && |LoopAt(p, es, v).queue| > 0
    ensures v < Visited(p, es, limit)
  {
    LoopResult(p, es, limit);
  }

  /** Where it stops it has looked at all of them. */
  lemma LoopDone(p: Entry -> bool, es: seq<Entry>, limit: nat, v: nat)
    requires Suffices(p, es, limit) && v <= Visited(p, es, limit)
    requires |LoopAt(p, es, v).taken| >= limit || |LoopAt(p, es, v).queue| == 0
    ensures LoopAt(p, es, v) == Loop(Left(p, es, limit), Taken(p, es, limit))
  {
    if v < Visited(p, es, limit) {
      NotYetFull(p, es, limit, v);
    }
  }

  lemma {:induction false} ReverseSnoc(es: seq<Entry>, e: Entry)
    ensures Reverse(es + [e]) == [e] + Reverse(es)
  {
    if |es| == 0 {
      assert es + [e] == [e];
      assert Reverse([e]) == Reverse([]) + [e];
    } else {
      ReverseSnoc(es[1..], e);
      assert (es + [e])[1..] == es[1..] + [e];
    }
  }
}
