/** What holds over every run of the retransmission queue. */
module QueueRuns {
  import opened Bytes
  import opened Collections
  import opened QueueModel

  /** No chunk occurs twice across queue and in-flight list, and both stay within their limits; requeueing may
      push the queue beyond its own limit, but never the two together. */
  ghost predicate Inv(q: Queue) {
    && DistinctIds(q.queue)
    && DistinctIds(q.inFlight)
    && ChunkIds(q.queue) !! ChunkIds(q.inFlight)
    && |q.inFlight| <= q.maxInFlight
    && |q.queue| + |q.inFlight| <= q.maxQueueSize + q.maxInFlight
  }

  function Empty(maxQueueSize: nat, minRetryInterval: nat, maxInFlight: nat): Queue {
    Queue([], [], maxQueueSize, minRetryInterval, maxInFlight)
  }

  // ----- lists without repeated ids -----

  lemma ConcatIds(a: seq<Entry>, b: seq<Entry>)
    ensures ChunkIds(a + b) == ChunkIds(a) + ChunkIds(b)
    ensures DistinctIds(a + b) <==> DistinctIds(a) && DistinctIds(b) && ChunkIds(a) !! ChunkIds(b)
  {
    forall id | id in ChunkIds(a) + ChunkIds(b) ensures id in ChunkIds(a + b) {
      var e :| (e in a || e in b) && e.chunkId == id;
      assert e in a + b;
    }
    if DistinctIds(a + b) {
      forall i: nat, k: nat | i < k < |a| ensures a[i].chunkId != a[k].chunkId {
        assert (a + b)[i].chunkId != (a + b)[k].chunkId;
      }
      forall i: nat, k: nat | i < k < |b| ensures b[i].chunkId != b[k].chunkId {
        assert (a + b)[|a| + i].chunkId != (a + b)[|a| + k].chunkId;
      }
      forall x, y | x in a && y in b ensures x.chunkId != y.chunkId {
        var i :| 0 <= i < |a| && a[i] == x;
        var k :| 0 <= k < |b| && b[k] == y;
        assert (a + b)[i].chunkId != (a + b)[|a| + k].chunkId;
      }
    }
    if DistinctIds(a) && DistinctIds(b) && ChunkIds(a) !! ChunkIds(b) {
      forall i: nat, k: nat | i < k < |a + b| ensures (a + b)[i].chunkId != (a + b)[k].chunkId {
        if i < |a| <= k {
          assert a[i] in a && b[k - |a|] in b;
          assert a[i].chunkId in ChunkIds(a) && b[k - |a|].chunkId in ChunkIds(b);
        }
      }
    }
  }

  lemma {:induction false} FilterKeepsDistinct(p: Entry -> bool, es: seq<Entry>)
    requires DistinctIds(es)
    ensures DistinctIds(Filter(p, es)) && ChunkIds(Filter(p, es)) <= ChunkIds(es)
  {
    FilterIs(p, es);
    if |es| > 0 {
      var front, last := es[..|es| - 1], es[|es| - 1];
      assert es == front + [last];
      ConcatIds(front, [last]);
      FilterKeepsDistinct(p, front);
      if p(last) {
        ConcatIds(Filter(p, front), [last]);
      }
    }
  }

  /** A filter and its complement split the ids. */
  lemma {:induction false} FilterSplitsIds(p: Entry -> bool, es: seq<Entry>)
    requires DistinctIds(es)
    ensures ChunkIds(Filter(p, es)) + ChunkIds(Filter(Not(p), es)) == ChunkIds(es)
    ensures ChunkIds(Filter(p, es)) !! ChunkIds(Filter(Not(p), es))
    ensures |Filter(p, es)| + |Filter(Not(p), es)| == |es|
  {
    FilterKeepsDistinct(p, es);
    FilterKeepsDistinct(Not(p), es);
    if |es| > 0 {
      var front, last := es[..|es| - 1], es[|es| - 1];
      assert es == front + [last];
      ConcatIds(front, [last]);
      FilterSplitsIds(p, front);
      FilterKeepsDistinct(p, front);
      FilterKeepsDistinct(Not(p), front);
      ConcatIds(Filter(p, front), [last]);
      ConcatIds(Filter(Not(p), front), [last]);
    }
  }

  lemma {:induction false} ReverseKeeps(es: seq<Entry>)
    ensures ChunkIds(Reverse(es)) == ChunkIds(es) && |Reverse(es)| == |es|
    ensures DistinctIds(es) ==> DistinctIds(Reverse(es))
  {
    if |es| > 0 {
      assert es == [es[0]] + es[1..];
      ReverseKeeps(es[1..]);
      ConcatIds([es[0]], es[1..]);
      ConcatIds(Reverse(es[1..]), [es[0]]);
    }
  }

  lemma StampKeeps(es: seq<Entry>, now: nat)
    ensures ChunkIds(StampAll(es, now)) == ChunkIds(es)
    ensures DistinctIds(es) ==> DistinctIds(StampAll(es, now))
  {
    var r := StampAll(es, now);
    forall e | e in es ensures e.chunkId in ChunkIds(r) {
      var i :| 0 <= i < |es| && es[i] == e;
      assert r[i] in r;
    }
    forall e | e in r ensures e.chunkId in ChunkIds(es) {
      var i :| 0 <= i < |r| && r[i] == e;
      assert es[i] in es;
    }
  }

  // ----- events -----

  datatype Event =
    | EnqueueOne(id: nat, session: string, now: nat)
    | DequeueBatch(batchSize: nat, now: nat)
    | GotChunk(id: nat)
    | GotFailure(id: nat)
    | Timeouts(timeout: nat, now: nat)
    | ClearAll

  function Apply(q: Queue, e: Event): Queue {
    match e
    case EnqueueOne(id, session, now) => Enqueue(q, id, session, now)
    case DequeueBatch(batchSize, now) => Dequeue(q, batchSize, now)
    case GotChunk(id) => MarkReceived(q, id)
    case GotFailure(id) => MarkFailed(q, id)
    case Timeouts(timeout, now) => CheckTimeouts(q, timeout, now)
    case ClearAll => Clear(q)
  }

  /** A dequeue that returns at all. */
  predicate Returns(q: Queue, batchSize: nat, now: nat) {
    Suffices(ReadyAt(now, q.minRetryInterval), q.queue, Limit(q, batchSize, now))
  }

  predicate Legal(q: Queue, e: Event) {
    e.DequeueBatch? ==> Returns(q, e.batchSize, e.now)
  }

  /** Requests in flight too long, which `dequeue_batch` drops from both lists. */
  function Dropped(q: Queue, now: nat): set<nat> {
    set e | e in q.inFlight && e.requestedAt + 30000 <= now :: e.chunkId
  }

  /** What an event takes out of the union of queue and in-flight list. */
  function Removed(q: Queue, e: Event): set<nat> {
    match e
    case EnqueueOne(_, _, _) => {}
    case DequeueBatch(_, now) => Dropped(q, now)
    case GotChunk(id) => {id}
    case GotFailure(_) => {}
    case Timeouts(_, _) => {}
    case ClearAll => Ids(q)
  }

  function Added(q: Queue, e: Event): set<nat> {
    if e.EnqueueOne? && CanEnqueue(q, e.id) then {e.id} else {}
  }

  lemma EnqueueStep(q: Queue, id: nat, session: string, now: nat)
    requires Inv(q)
    ensures Inv(Enqueue(q, id, session, now))
    ensures Ids(Enqueue(q, id, session, now)) == Ids(q) + if CanEnqueue(q, id) then {id} else {}
  {
    var e := Entry(id, now, 0, session);
    assert ChunkIds([e]) == {id};
    ConcatIds(q.queue, [e]);
  }

  lemma {:induction false} TakenLimit(p: Entry -> bool, es: seq<Entry>, limit: nat)
    requires Suffices(p, es, limit)
    ensures |Taken(p, es, limit)| <= limit
  {
    VisitedIs(p, es, limit);
  }

  lemma LoopKeepsIds(p: Entry -> bool, es: seq<Entry>, limit: nat)
    requires DistinctIds(es)
    ensures DistinctIds(Taken(p, es, limit)) && DistinctIds(Left(p, es, limit))
    ensures ChunkIds(Taken(p, es, limit)) + ChunkIds(Left(p, es, limit)) == ChunkIds(es)
    ensures ChunkIds(Taken(p, es, limit)) !! ChunkIds(Left(p, es, limit))
    ensures |Taken(p, es, limit)| + |Left(p, es, limit)| == |es|
  {
    var v := Visited(p, es, limit);
    assert es == es[..v] + es[v..];
    ConcatIds(es[..v], es[v..]);
    FilterKeepsDistinct(p, es[..v]);
    FilterKeepsDistinct(Not(p), es[..v]);
    FilterSplitsIds(p, es[..v]);
    ConcatIds(es[v..], Filter(Not(p), es[..v]));
  }

  lemma DequeueStep(q: Queue, batchSize: nat, now: nat)
    requires Inv(q) && Returns(q, batchSize, now)
    ensures Inv(Dequeue(q, batchSize, now))
    ensures Ids(Dequeue(q, batchSize, now)) == Ids(q) - Dropped(q, now)
  {
    var p := ReadyAt(now, q.minRetryInterval);
    var limit := Limit(q, batchSize, now);
    var live := Filter(LiveAt(now), q.inFlight);
    FilterIs(Not(LiveAt(now)), q.inFlight);
    assert Dropped(q, now) == ChunkIds(Filter(Not(LiveAt(now)), q.inFlight));
    FilterKeepsDistinct(LiveAt(now), q.inFlight);
    FilterSplitsIds(LiveAt(now), q.inFlight);
    LoopKeepsIds(p, q.queue, limit);
    TakenLimit(p, q.queue, limit);
    StampKeeps(Taken(p, q.queue, limit), now);
    ConcatIds(live, Batch(q, batchSize, now));
  }

  lemma ReceivedStep(q: Queue, id: nat)
    requires Inv(q)
    ensures Inv(MarkReceived(q, id))
    ensures Ids(MarkReceived(q, id)) == Ids(q) - {id}
  {
    FilterKeepsDistinct(OtherThan(id), q.queue);
    FilterKeepsDistinct(OtherThan(id), q.inFlight);
    FilterIs(OtherThan(id), q.queue);
    FilterIs(OtherThan(id), q.inFlight);
  }

  lemma FailedStep(q: Queue, id: nat)
    requires Inv(q)
    ensures Inv(MarkFailed(q, id)) && Ids(MarkFailed(q, id)) == Ids(q)
    ensures id in ChunkIds(q.inFlight) ==> MarkFailed(q, id).queue[..1] == [q.inFlight[Position(q.inFlight, id)]]
  {
    var i := Position(q.inFlight, id);
    if i < |q.inFlight| {
      var e := q.inFlight[i];
      var a, b := q.inFlight[..i], q.inFlight[i + 1..];
      assert q.inFlight == a + ([e] + b);
      ConcatIds(a, [e] + b);
      ConcatIds([e], b);
      ConcatIds(a, b);
      ConcatIds([e], q.queue);
    }
  }

  lemma TimeoutStep(q: Queue, timeout: nat, now: nat)
    requires Inv(q)
    ensures Inv(CheckTimeouts(q, timeout, now)) && Ids(CheckTimeouts(q, timeout, now)) == Ids(q)
  {
    var p := OverdueAt(now, timeout);
    FilterKeepsDistinct(p, q.inFlight);
    FilterKeepsDistinct(Not(p), q.inFlight);
    FilterSplitsIds(p, q.inFlight);
    ReverseKeeps(Filter(p, q.inFlight));
    ConcatIds(Reverse(Filter(p, q.inFlight)), q.queue);
  }

  /** Every operation keeps the invariant and changes the set of known chunks by exactly what it adds and
      removes. */
  lemma Step(q: Queue, e: Event)
    requires Inv(q) && Legal(q, e)
    ensures Inv(Apply(q, e))
    ensures Ids(Apply(q, e)) == Ids(q) - Removed(q, e) + Added(q, e)
  {
    match e
    case EnqueueOne(id, session, now) => EnqueueStep(q, id, session, now);
    case DequeueBatch(batchSize, now) => DequeueStep(q, batchSize, now);
    case GotChunk(id) => ReceivedStep(q, id);
    case GotFailure(id) => FailedStep(q, id);
    case Timeouts(timeout, now) => TimeoutStep(q, timeout, now);
    case ClearAll =>
  }

  // ----- times -----

  /** Never requested, or requested long enough ago. */
  predicate Due(e: Entry, interval: nat, now: nat) {
    e.retryCount == 0 || interval == 0 || e.requestedAt + interval <= now
  }

  /** What a dequeue does, in terms of times. It drops exactly the requests made thirty seconds ago or earlier and
      leaves the others alone. Of the entries that are due it takes as many as the batch size and the free slots
      allow, and no other; those taken are requested now, for one more time, and are in flight. */
  ghost predicate Dequeued(q: Queue, r: Queue, batch: seq<Entry>, batchSize: nat, now: nat) {
    var live := set e | e in q.inFlight && now < e.requestedAt + 30000;
    var due := set e | e in q.queue && Due(e, q.minRetryInterval, now);
    && (forall e :: e in r.inFlight <==> e in live || e in batch)
    && (forall b | b in batch :: exists e :: e in due && b == Entry(e.chunkId, now, e.retryCount + 1, e.sessionId))
    && |batch| == Min(Min(batchSize, Max(q.maxInFlight - |live|, 0)), |due|)
    && |r.queue| == |q.queue| - |batch|
    && forall e | e in r.queue :: e in q.queue
  }

  lemma FilterSet(p: Entry -> bool, es: seq<Entry>)
    requires DistinctIds(es)
    ensures |set e | e in es && p(e)| == |Filter(p, es)|
  {
    var kept := Filter(p, es);
    FilterKeepsDistinct(p, es);
    FilterIs(p, es);
    assert Distinct(kept);
    DistinctSize(kept);
    assert Elements(kept) == set e | e in es && p(e);
  }

  lemma StampAllAre(es: seq<Entry>, now: nat)
    ensures forall b | b in StampAll(es, now) ::
              exists e :: e in es && b == Entry(e.chunkId, now, e.retryCount + 1, e.sessionId)
  {
    var r := StampAll(es, now);
    forall b | b in r ensures exists e :: e in es && b == Entry(e.chunkId, now, e.retryCount + 1, e.sessionId) {
      var i :| 0 <= i < |r| && r[i] == b;
      assert es[i] in es;
    }
  }

  lemma TakenAre(p: Entry -> bool, es: seq<Entry>, limit: nat)
    ensures forall e | e in Taken(p, es, limit) :: e in es && p(e)
    ensures forall e | e in Left(p, es, limit) :: e in es
  {
    var v := Visited(p, es, limit);
    FilterIs(p, es[..v]);
    FilterIs(Not(p), es[..v]);
  }

  /** The rotation loop's part of it. */
  lemma BatchIsDue(q: Queue, batchSize: nat, now: nat)
    requires Inv(q) && Returns(q, batchSize, now)
    ensures var due := set e | e in q.queue && Due(e, q.minRetryInterval, now);
            var (r, batch) := (Dequeue(q, batchSize, now), Batch(q, batchSize, now));
            && (forall b | b in batch ::
                  exists e :: e in due && b == Entry(e.chunkId, now, e.retryCount + 1, e.sessionId))
            && |batch| == Min(Limit(q, batchSize, now), |due|)
            && |r.queue| == |q.queue| - |batch|
            && forall e | e in r.queue :: e in q.queue
  {
    var p, limit := ReadyAt(now, q.minRetryInterval), Limit(q, batchSize, now);
    var due := set e | e in q.queue && Due(e, q.minRetryInterval, now);
    FilterSet(p, q.queue);
    assert due == set e | e in q.queue && p(e);
    TakenIsFirstReady(p, q.queue, limit);
    TakenAre(p, q.queue, limit);
    LoopKeepsIds(p, q.queue, limit);
    StampAllAre(Taken(p, q.queue, limit), now);
  }

  lemma DequeueIs(q: Queue, batchSize: nat, now: nat)
    requires Inv(q) && Returns(q, batchSize, now)
    ensures Dequeued(q, Dequeue(q, batchSize, now), Batch(q, batchSize, now), batchSize, now)
  {
    FilterSet(LiveAt(now), q.inFlight);
    FilterIs(LiveAt(now), q.inFlight);
    assert (set e | e in q.inFlight && now < e.requestedAt + 30000) == set e | e in q.inFlight && LiveAt(now)(e);
    BatchIsDue(q, batchSize, now);
  }

  /** What checking for timeouts does: exactly the requests made more than the timeout ago move to the front of the
      queue, unchanged. */
  ghost predicate TimedOut(q: Queue, r: Queue, timeout: nat, now: nat) {
    var n := |q.inFlight| - |r.inFlight|;
    && (forall e :: e in r.inFlight <==> e in q.inFlight && now <= e.requestedAt + timeout)
    && 0 <= n <= |r.queue| && r.queue[n..] == q.queue
    && forall e :: e in r.queue[..n] <==> e in q.inFlight && e.requestedAt + timeout < now
  }

  lemma TimeoutsAre(q: Queue, timeout: nat, now: nat)
    requires Inv(q)
    ensures TimedOut(q, CheckTimeouts(q, timeout, now), timeout, now)
  {
    var p := OverdueAt(now, timeout);
    var late := Filter(p, q.inFlight);
    FilterIs(p, q.inFlight);
    FilterIs(Not(p), q.inFlight);
    FilterSplitsIds(p, q.inFlight);
    ReverseKeeps(late);
    ReversedSame(late);
    var r := CheckTimeouts(q, timeout, now);
    assert r.queue[..|late|] == Reverse(late) && r.queue[|late|..] == q.queue;
  }

  lemma ReversedSame(es: seq<Entry>)
    ensures forall e :: e in Reverse(es) <==> e in es
  {
    if |es| > 0 {
      assert es == [es[0]] + es[1..];
      ReversedSame(es[1..]);
    }
  }

  // ----- runs -----

  function Run(q: Queue, es: seq<Event>): Queue {
    if |es| == 0 then q else Apply(Run(q, es[..|es| - 1]), es[|es| - 1])
  }

  ghost predicate LegalRun(q: Queue, es: seq<Event>) {
    |es| > 0 ==> LegalRun(q, es[..|es| - 1]) && Legal(Run(q, es[..|es| - 1]), es[|es| - 1])
  }

  /** Safety over every run. */
  lemma {:induction false} RunInv(q: Queue, es: seq<Event>)
    requires Inv(q) && LegalRun(q, es)
    ensures Inv(Run(q, es))
  {
    if |es| > 0 {
      RunInv(q, es[..|es| - 1]);
      Step(Run(q, es[..|es| - 1]), es[|es| - 1]);
    }
  }

  /** Some event of the run reports `id` received, clears the queue, or sweeps the request for `id` away. */
  predicate Lost(q: Queue, es: seq<Event>, id: nat) {
    |es| > 0 &&
    var before := Run(q, es[..|es| - 1]);
    Lost(q, es[..|es| - 1], id) || id in Removed(before, es[|es| - 1])
  }

  /** The chunk is queued or in flight after every event. */
  ghost predicate AlwaysKnown(q: Queue, es: seq<Event>, id: nat) {
    forall n: nat | n <= |es| :: id in Ids(Run(q, es[..n]))
  }

  lemma KnownBefore(q: Queue, es: seq<Event>, id: nat)
    requires |es| > 0
    ensures AlwaysKnown(q, es, id) <==> AlwaysKnown(q, es[..|es| - 1], id) && id in Ids(Run(q, es))
  {
    var front := es[..|es| - 1];
    assert es[..|es|] == es;
    if AlwaysKnown(q, es, id) {
      forall n: nat | n <= |front| ensures id in Ids(Run(q, front[..n])) {
        assert front[..n] == es[..n];
      }
    }
    if AlwaysKnown(q, front, id) && id in Ids(Run(q, es)) {
      forall n: nat | n <= |es| ensures id in Ids(Run(q, es[..n])) {
        assert n < |es| ==> es[..n] == front[..n];
      }
    }
  }

  /** A chunk once queued stays queued or in flight exactly as long as it is not received, cleared, or in flight for
      thirty seconds. */
  lemma {:induction false} StaysKnownIff(q: Queue, es: seq<Event>, id: nat)
    requires Inv(q) && LegalRun(q, es) && id in Ids(q)
    ensures AlwaysKnown(q, es, id) <==> !Lost(q, es, id)
  {
    if |es| == 0 {
      assert forall n: nat | n <= |es| :: es[..n] == es;
    } else {
      var front, last := es[..|es| - 1], es[|es| - 1];
      StaysKnownIff(q, front, id);
      RunInv(q, front);
      Step(Run(q, front), last);
      KnownBefore(q, es, id);
      if AlwaysKnown(q, front, id) {
        assert front[..|front|] == front;
        assert last.EnqueueOne? || Added(Run(q, front), last) == {};
      }
    }
  }

  /** A chunk queued and requested at once is in flight. */
  lemma FirstRequest(id: nat, session: string, start: nat)
    ensures var es := [EnqueueOne(id, session, start), DequeueBatch(1, start)];
            var q := Empty(1000, 1000, 50);
            LegalRun(q, es) && Run(q, es) == q.(inFlight := [Stamp(Entry(id, start, 0, session), start)])
  {
    var q0 := Empty(1000, 1000, 50);
    var e := Entry(id, start, 0, session);
    var es := [EnqueueOne(id, session, start), DequeueBatch(1, start)];
    assert es[..1] == [es[0]] && es[..1][..0] == [];
    assert Run(q0, []) == q0;
    var q1 := Run(q0, es[..1]);
    assert q1 == q0.(queue := [e]);
    var p := ReadyAt(start, 1000);
    assert [e][..0] == [] && [e][..1] == [e] && [e][1..] == [];
    assert Filter(p, [e]) == [e] && Filter(Not(p), [e]) == [];
    assert Visited(p, [e], 1) == 1;
    assert Limit(q1, 1, start) == 1;
    assert Legal(q0, es[0]) && Legal(q1, es[1]);
    assert LegalRun(q0, []);
    assert LegalRun(q0, es[..1]);
  }

  lemma SweepStep(f: Entry, now: nat)
    ensures var q := Empty(1000, 1000, 50).(inFlight := [f]);
            Returns(q, 1, now) &&
            Dequeue(q, 1, now) == if now < f.requestedAt + 30000 then q else Empty(1000, 1000, 50)
  {
    assert [f][..0] == [];
    assert Filter(LiveAt(now), [f]) == if now < f.requestedAt + 30000 then [f] else [];
    assert Filter(ReadyAt(now, 1000), []) == [];
  }

  /** The sweep loses a chunk that was never received: requested, unanswered, and at the next dequeue still in flight
      exactly if less than thirty seconds have passed. Otherwise neither list knows it, so that nothing requests it
      again. */
  lemma SweepLosesChunkIff(id: nat, session: string, start: nat, delay: nat)
    ensures var es := [EnqueueOne(id, session, start), DequeueBatch(1, start), DequeueBatch(1, start + delay)];
            var q := Empty(1000, 1000, 50);
            && LegalRun(q, es) && id in Ids(Run(q, es[..2]))
            && (id in Ids(Run(q, es)) <==> delay < 30000)
  {
    var q0 := Empty(1000, 1000, 50);
    var es := [EnqueueOne(id, session, start), DequeueBatch(1, start), DequeueBatch(1, start + delay)];
    var f := Stamp(Entry(id, start, 0, session), start);
    FirstRequest(id, session, start);
    assert es[..2] == [EnqueueOne(id, session, start), DequeueBatch(1, start)];
    assert f in Run(q0, es[..2]).inFlight;
    SweepStep(f, start + delay);
  }

  lemma RunSnoc(q: Queue, es: seq<Event>, e: Event)
    ensures Run(q, es + [e]) == Apply(Run(q, es), e)
    ensures LegalRun(q, es + [e]) <==> LegalRun(q, es) && Legal(Run(q, es), e)
  {
    assert (es + [e])[..|es|] == es;
  }

  lemma FailStep(f: Entry, now: nat)
    requires f.retryCount > 0 && Since(now, f.requestedAt) < 1000
    ensures var q := MarkFailed(Empty(1000, 1000, 50).(inFlight := [f]), f.chunkId);
            && q == Empty(1000, 1000, 50).(queue := [f])
            && !Ends(ReadyAt(now, 1000), q.queue, Limit(q, 1, now))
  {
    var p := ReadyAt(now, 1000);
    assert [f][..0] == [] && [f][1..] == [];
    assert Filter(p, [f]) == [];
    assert Filter(LiveAt(now), []) == [];
    EndsIff(p, [f], 1);
  }

  /** One chunk is queued, requested, put back as failed, and asked for again before the retry interval is over: the
      loop never ends. */
  lemma RetryTooSoonHangs(id: nat, session: string, start: nat, now: nat)
    requires now < start + 1000
    ensures var es := [EnqueueOne(id, session, start), DequeueBatch(1, start), GotFailure(id)];
            var q := Run(Empty(1000, 1000, 50), es);
            && LegalRun(Empty(1000, 1000, 50), es)
            && !Ends(ReadyAt(now, q.minRetryInterval), q.queue, Limit(q, 1, now))
  {
    var es := [EnqueueOne(id, session, start), DequeueBatch(1, start), GotFailure(id)];
    var f := Stamp(Entry(id, start, 0, session), start);
    FirstRequest(id, session, start);
    var first := [EnqueueOne(id, session, start), DequeueBatch(1, start)];
    RunSnoc(Empty(1000, 1000, 50), first, GotFailure(id));
    assert es == first + [GotFailure(id)];
    FailStep(f, now);
  }
}
