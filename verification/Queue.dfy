/** The retransmission queue (src/retransmission/queue.rs) as a value: its operations, when its rotation loop
    ends, and what holds over every run. */
module QueueModel {
  import opened Bytes
  import opened Collections

  datatype Entry = Entry(chunkId: nat, requestedAt: nat, retryCount: nat, sessionId: string)

  datatype Queue = Queue(
    queue: seq<Entry>,
    inFlight: seq<Entry>,
    maxQueueSize: nat,
    minRetryInterval: nat,
    maxInFlight: nat)

  /** Milliseconds after which an in-flight request is dropped by `dequeue_batch`. */
  const SWEEP_AFTER: nat := 30000

  function ChunkIds(es: seq<Entry>): set<nat> {
    set e | e in es :: e.chunkId
  }

  predicate DistinctIds(es: seq<Entry>) {
    forall i: nat, k: nat | i < k < |es| :: es[i].chunkId != es[k].chunkId
  }

  function Not(p: Entry -> bool): Entry -> bool {
    (e: Entry) => !p(e)
  }

  /** Never tried, or past the retry interval. */
  function ReadyAt(now: nat, interval: nat): Entry -> bool {
    (e: Entry) => e.retryCount == 0 || Since(now, e.requestedAt) >= interval
  }

  function LiveAt(now: nat): Entry -> bool {
    (e: Entry) => Since(now, e.requestedAt) < SWEEP_AFTER
  }

  function OverdueAt(now: nat, timeout: nat): Entry -> bool {
    (e: Entry) => Since(now, e.requestedAt) > timeout
  }

  function OtherThan(id: nat): Entry -> bool {
    (e: Entry) => e.chunkId != id
  }

  function Stamp(e: Entry, now: nat): Entry {
    e.(requestedAt := now, retryCount := e.retryCount + 1)
  }

  function StampAll(es: seq<Entry>, now: nat): (r: seq<Entry>)
    ensures |r| == |es|
  {
    seq(|es|, i requires 0 <= i < |es| => Stamp(es[i], now))
  }

  function Reverse(es: seq<Entry>): seq<Entry> {
    if |es| == 0 then [] else Reverse(es[1..]) + [es[0]]
  }

  lemma ReverseLength(es: seq<Entry>)
    ensures |Reverse(es)| == |es|
  {
  }

  lemma {:induction false} ReverseAt(es: seq<Entry>, i: nat)
    requires i < |es|
    ensures |Reverse(es)| == |es| && Reverse(es)[i] == es[|es| - 1 - i]
  {
    if |es| > 1 {
      ReverseAt(es[1..], if i < |es| - 1 then i else 0);
    }
  }

  // ----- operations -----

  function Ids(q: Queue): set<nat> {
    ChunkIds(q.queue) + ChunkIds(q.inFlight)
  }

  predicate CanEnqueue(q: Queue, id: nat) {
    id !in Ids(q) && |q.queue| < q.maxQueueSize
  }

  function Enqueue(q: Queue, id: nat, session: string, now: nat): Queue {
    if CanEnqueue(q, id) then q.(queue := q.queue + [Entry(id, now, 0, session)]) else q
  }

  function Swept(q: Queue, now: nat): Queue {
    q.(inFlight := Filter(LiveAt(now), q.inFlight))
  }

  /** How many entries one call may take. */
  function Limit(q: Queue, batchSize: nat, now: nat): nat {
    Min(batchSize, Max(q.maxInFlight - |Swept(q, now).inFlight|, 0))
  }

  /** How many entries the loop looks at: up to the one that fills the batch, or all of them. */
  function Visited(p: Entry -> bool, es: seq<Entry>, limit: nat): (v: nat)
    ensures v <= |es|
  {
    if limit == 0 || |es| == 0 then 0
    else 1 + Visited(p, es[1..], if p(es[0]) then limit - 1 else limit)
  }

  /** The batch is the ready entries among those looked at, in queue order. */
  function Taken(p: Entry -> bool, es: seq<Entry>, limit: nat): seq<Entry> {
    Filter(p, es[..Visited(p, es, limit)])
  }

  /** The queue is left as the entries not looked at, then those skipped. */
  function Left(p: Entry -> bool, es: seq<Entry>, limit: nat): seq<Entry> {
    es[Visited(p, es, limit)..] + Filter(Not(p), es[..Visited(p, es, limit)])
  }

  function Batch(q: Queue, batchSize: nat, now: nat): seq<Entry> {
    StampAll(Taken(ReadyAt(now, q.minRetryInterval), q.queue, Limit(q, batchSize, now)), now)
  }

  function Dequeue(q: Queue, batchSize: nat, now: nat): Queue {
    var s := Swept(q, now);
    s.(queue := Left(ReadyAt(now, q.minRetryInterval), q.queue, Limit(q, batchSize, now)),
       inFlight := s.inFlight + Batch(q, batchSize, now))
  }

  function MarkReceived(q: Queue, id: nat): Queue {
    q.(inFlight := Filter(OtherThan(id), q.inFlight), queue := Filter(OtherThan(id), q.queue))
  }

  /** The position of a chunk id, or the length. */
  function Position(es: seq<Entry>, id: nat): (i: nat)
    ensures i <= |es|
    ensures i < |es| ==> es[i].chunkId == id
    ensures i == |es| ==> id !in ChunkIds(es)
  {
    if |es| == 0 then 0
    else if es[0].chunkId == id then 0
    else
      assert es == [es[0]] + es[1..];
      1 + Position(es[1..], id)
  }

  function MarkFailed(q: Queue, id: nat): Queue {
    var i := Position(q.inFlight, id);
    if i == |q.inFlight| then q
    else q.(inFlight := q.inFlight[..i] + q.inFlight[i + 1..], queue := [q.inFlight[i]] + q.queue)
  }

  function CheckTimeouts(q: Queue, timeout: nat, now: nat): Queue {
    q.(inFlight := Filter(Not(OverdueAt(now, timeout)), q.inFlight),
       queue := Reverse(Filter(OverdueAt(now, timeout), q.inFlight)) + q.queue)
  }

  function Clear(q: Queue): Queue {
    q.(queue := [], inFlight := [])
  }

  // ----- when the rotation loop ends -----

  /** The loop's variables: what is queued and what has been taken. */
  datatype Loop = Loop(queue: seq<Entry>, taken: seq<Entry>)

  predicate Stopped(l: Loop, limit: nat) {
    |l.taken| >= limit || |l.queue| == 0
  }

  /** One iteration with the clock standing still: an entry that is not ready goes to the back. */
  function Turn(p: Entry -> bool, l: Loop): Loop
    requires |l.queue| > 0
  {
    var e := l.queue[0];
    if p(e) then Loop(l.queue[1..], l.taken + [e]) else Loop(l.queue[1..] + [e], l.taken)
  }

  function Turns(p: Entry -> bool, l: Loop, limit: nat, n: nat): Loop
    decreases n
  {
    if n == 0 || Stopped(l, limit) then l else Turns(p, Turn(p, l), limit, n - 1)
  }

  ghost predicate Ends(p: Entry -> bool, es: seq<Entry>, limit: nat) {
    exists n: nat :: Stopped(Turns(p, Loop(es, []), limit, n), limit)
  }

  /** Enough entries are ready, or all of them are. */
  predicate Suffices(p: Entry -> bool, es: seq<Entry>, limit: nat) {
    limit <= |Filter(p, es)| || |Filter(p, es)| == |es|
  }

  lemma FilterCons(p: Entry -> bool, es: seq<Entry>)
    requires |es| > 0
    ensures Filter(p, es) == (if p(es[0]) then [es[0]] else []) + Filter(p, es[1..])
  {
    FilterAppend(p, [es[0]], es[1..]);
    FilterOne(p, es[0]);
    assert es == [es[0]] + es[1..];
  }

  /** The state after looking at the first `v` entries. */
  function LoopAt(p: Entry -> bool, es: seq<Entry>, v: nat): Loop
    requires v <= |es|
  {
    Loop(es[v..] + Filter(Not(p), es[..v]), Filter(p, es[..v]))
  }

  lemma TurnLooks(p: Entry -> bool, es: seq<Entry>, v: nat)
    requires v < |es|
    ensures LoopAt(p, es, v + 1) == Turn(p, LoopAt(p, es, v))
  {
    assert es[..v + 1] == es[..v] + [es[v]];
    FilterSnoc(p, es[..v], es[v]);
    FilterSnoc(Not(p), es[..v], es[v]);
    var l := LoopAt(p, es, v);
    assert l.queue[0] == es[v];
    assert l.queue[1..] == es[v + 1..] + Filter(Not(p), es[..v]);
  }

  lemma FilterCounts(p: Entry -> bool, x: Entry, es: seq<Entry>)
    ensures |Filter(p, [x] + es)| == |Filter(p, es)| + if p(x) then 1 else 0
  {
    FilterAppend(p, [x], es);
    FilterOne(p, x);
  }

  lemma {:induction false} VisitedCount(p: Entry -> bool, es: seq<Entry>, limit: nat)
    requires Suffices(p, es, limit)
    ensures |Filter(p, es[..Visited(p, es, limit)])| == Min(limit, |Filter(p, es)|)
    ensures limit > |Filter(p, es)| ==> Visited(p, es, limit) == |es|
  {
    if limit > 0 && |es| > 0 {
      var x, rest := es[0], es[1..];
      var less := if p(x) then limit - 1 else limit;
      var w := Visited(p, rest, less);
      assert es == [x] + rest && es[..w + 1] == [x] + rest[..w];
      FilterCounts(p, x, rest);
      FilterCounts(p, x, rest[..w]);
      VisitedCount(p, rest, less);
    }
  }

  /** It stops as soon as the batch is full. */
  lemma {:induction false} VisitedOnly(p: Entry -> bool, es: seq<Entry>, limit: nat)
    requires Visited(p, es, limit) > 0
    ensures |Filter(p, es[..Visited(p, es, limit) - 1])| < limit
  {
    var x, rest := es[0], es[1..];
    var less := if p(x) then limit - 1 else limit;
    var w := Visited(p, rest, less);
    if w > 0 {
      VisitedOnly(p, rest, less);
      assert es[..w] == [x] + rest[..w - 1];
      FilterCounts(p, x, rest[..w - 1]);
    } else {
      assert es[..w] == [];
    }
  }

  lemma VisitedIs(p: Entry -> bool, es: seq<Entry>, limit: nat)
    requires Suffices(p, es, limit)
    ensures var v := Visited(p, es, limit);
            && |Filter(p, es[..v])| == Min(limit, |Filter(p, es)|)
            && (limit > |Filter(p, es)| ==> v == |es|)
            && (v > 0 && limit <= |Filter(p, es)| ==> |Filter(p, es[..v - 1])| < limit)
  {
    VisitedCount(p, es, limit);
    if Visited(p, es, limit) > 0 {
      VisitedOnly(p, es, limit);
    }
  }

  lemma {:induction false} TurnsReach(p: Entry -> bool, es: seq<Entry>, limit: nat, v: nat, n: nat)
    requires v + n <= |es|
    requires forall w: nat | v <= w < v + n :: |Filter(p, es[..w])| < limit
    ensures Turns(p, LoopAt(p, es, v), limit, n) == LoopAt(p, es, v + n)
    decreases n
  {
    if n > 0 {
      assert |Filter(p, es[..v])| < limit;
      TurnLooks(p, es, v);
      TurnsReach(p, es, limit, v + 1, n - 1);
    }
  }

  lemma FilterGrows(p: Entry -> bool, es: seq<Entry>, v: nat, w: nat)
    requires v <= w <= |es|
    ensures |Filter(p, es[..v])| <= |Filter(p, es[..w])|
  {
    FilterPrefix(p, es[..w], v);
    assert es[..w][..v] == es[..v];
  }

  /** While ready entries are too few and some entry is not ready, the loop turns for ever. */
  lemma {:induction false} NeverStops(p: Entry -> bool, l: Loop, limit: nat, n: nat)
    requires |l.taken| + |Filter(p, l.queue)| < limit && exists e :: e in l.queue && !p(e)
    ensures !Stopped(Turns(p, l, limit, n), limit)
    decreases n
  {
    if n > 0 {
      var e := l.queue[0];
      FilterCons(p, l.queue);
      FilterSnoc(p, l.queue[1..], e);
      var next := Turn(p, l);
      var x :| x in l.queue && !p(x);
      assert x in next.queue by {
        assert l.queue == [e] + l.queue[1..];
      }
      NeverStops(p, next, limit, n - 1);
    }
  }

  /** When it ends, the loop leaves the batch and the queue described by `Taken` and `Left`. */
  lemma LoopResult(p: Entry -> bool, es: seq<Entry>, limit: nat)
    requires Suffices(p, es, limit)
    ensures var l := Loop(Left(p, es, limit), Taken(p, es, limit));
            Turns(p, Loop(es, []), limit, Visited(p, es, limit)) == l && Stopped(l, limit)
  {
    var v := Visited(p, es, limit);
    LoopStart(p, es);
    VisitedIs(p, es, limit);
    forall w: nat | w < v ensures |Filter(p, es[..w])| < limit {
      NotYetFull(p, es, limit, w);
    }
    TurnsReach(p, es, limit, 0, v);
    if limit > |Filter(p, es)| {
      assert es[..|es|] == es;
      FilterAll(p, es);
      NoneLeft(p, es);
    }
  }

  lemma LoopStart(p: Entry -> bool, es: seq<Entry>)
    ensures LoopAt(p, es, 0) == Loop(es, [])
  {
    assert es[..0] == [] && es[0..] == es;
  }

  lemma NotYetFull(p: Entry -> bool, es: seq<Entry>, limit: nat, w: nat)
    requires Suffices(p, es, limit) && w < Visited(p, es, limit)
    ensures |Filter(p, es[..w])| < limit
  {
    VisitedIs(p, es, limit);
    if limit <= |Filter(p, es)| {
      FilterGrows(p, es, w, Visited(p, es, limit) - 1);
    } else {
      FilterGrows(p, es, w, |es|);
      assert es[..|es|] == es;
    }
  }

  /** With the clock fixed, as in the source, the loop ends exactly when enough queued entries are ready or all of
      them are. */
  lemma EndsIff(p: Entry -> bool, es: seq<Entry>, limit: nat)
    ensures Ends(p, es, limit) <==> Suffices(p, es, limit)
  {
    if Suffices(p, es, limit) {
      LoopResult(p, es, limit);
    } else {
      FilterAll(p, es);
      AllReady(p, es);
      forall n: nat ensures !Stopped(Turns(p, Loop(es, []), limit, n), limit) {
        NeverStops(p, Loop(es, []), limit, n);
      }
    }
  }

  /** The batch is the first ready entries in queue order, as many as the limit and the queue allow. */
  lemma TakenIsFirstReady(p: Entry -> bool, es: seq<Entry>, limit: nat)
    requires Suffices(p, es, limit)
    ensures Taken(p, es, limit) <= Filter(p, es)
    ensures |Taken(p, es, limit)| == Min(limit, |Filter(p, es)|)
  {
    VisitedIs(p, es, limit);
    FilterPrefix(p, es, Visited(p, es, limit));
  }

  lemma {:induction false} FilterPrefix(p: Entry -> bool, es: seq<Entry>, v: nat)
    requires v <= |es|
    ensures Filter(p, es[..v]) <= Filter(p, es)
  {
    if v == |es| {
      assert es[..v] == es;
    } else {
      var front := es[..|es| - 1];
      FilterPrefix(p, front, v);
      assert front[..v] == es[..v];
    }
  }

  lemma {:induction false} NoneLeft(p: Entry -> bool, es: seq<Entry>)
    requires forall e | e in es :: p(e)
    ensures Filter(Not(p), es) == []
  {
    if |es| > 0 {
      assert forall e :: e in es[..|es| - 1] ==> e in es;
      NoneLeft(p, es[..|es| - 1]);
    }
  }

  lemma AllReady(p: Entry -> bool, es: seq<Entry>)
    ensures |Filter(p, es)| < |es| ==> exists e :: e in es && !p(e)
  {
    FilterAll(p, es);
  }
}
