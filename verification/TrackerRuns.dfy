/** What holds over every run of a missing-chunk tracker, including the receiver's `request_missing_chunks`
    (src/client/receiver.rs). */
module TrackerRuns {
  import opened Bytes
  import opened Collections
  import opened TrackerModel

  // ----- requesting everything that is missing -----

  function MarkEach(t: Tracker, ids: seq<nat>): Tracker {
    if |ids| == 0 then t else Corrupted(MarkEach(t, ids[..|ids| - 1]), ids[|ids| - 1])
  }

  function Missing(t: Tracker): seq<nat> {
    Absent(t.received, 0, t.total)
  }

  /** Every missing chunk is marked corrupted first. */
  function MarkAll(t: Tracker): Tracker {
    MarkEach(t, Missing(t))
  }

  function RequestAll(t: Tracker, now: nat, picked: seq<nat>): Tracker {
    NextBatch(MarkAll(t), now, picked)
  }

  lemma {:induction false} MarkEachIs(t: Tracker, ids: seq<nat>)
    requires forall id | id in ids :: id < t.total && id !in t.received
    ensures MarkEach(t, ids) ==
            t.(pending := t.pending + Elements(ids), inFlight := Without(t.inFlight, Elements(ids)))
  {
    if |ids| == 0 {
      KeepAll(t.inFlight);
      assert Elements(ids) == {};
    } else {
      var front, last := ids[..|ids| - 1], ids[|ids| - 1];
      assert ids == front + [last];
      assert forall id :: id in front ==> id in ids;
      MarkEachIs(t, front);
      WithoutTwice(t.inFlight, Elements(front), {last});
      assert Elements(ids) == Elements(front) + {last};
      MarkOneMore(t, MarkEach(t, front), Elements(front), last);
    }
  }

  lemma MarkOneMore(t: Tracker, u: Tracker, ids: set<nat>, id: nat)
    requires id < t.total && id !in t.received
    requires u == t.(pending := t.pending + ids, inFlight := Without(t.inFlight, ids))
    requires Without(u.inFlight, {id}) == Without(t.inFlight, ids + {id})
    ensures Corrupted(u, id) ==
            t.(pending := t.pending + (ids + {id}), inFlight := Without(t.inFlight, ids + {id}))
  {
    assert u.received - {id} == t.received;
    assert u.pending + {id} == t.pending + (ids + {id});
  }

  lemma {:induction false} KeepAll(f: Flight)
    ensures Without(f, {}) == f
  {
    if |f| > 0 {
      KeepAll(f[..|f| - 1]);
      assert f == f[..|f| - 1] + [f[|f| - 1]];
    }
  }

  lemma {:induction false} DropAll(f: Flight, ids: set<nat>)
    requires FlightIds(f) <= ids
    ensures Without(f, ids) == []
  {
    if |f| > 0 {
      assert f[|f| - 1].0 in FlightIds(f);
      DropAll(f[..|f| - 1], ids);
    }
  }

  /** Afterwards exactly the missing chunks are pending and nothing is in flight. */
  lemma MarkAllIs(t: Tracker)
    requires Inv(t)
    ensures MarkAll(t) == t.(pending := Elements(Missing(t)), inFlight := [])
    ensures Inv(MarkAll(t))
    ensures forall id: nat :: id in MarkAll(t).pending <==> id < t.total && id !in t.received
  {
    var missing := Missing(t);
    AbsentIs(t.received, 0, t.total);
    MarkEachIs(t, missing);
    assert forall id: nat :: id in Elements(missing) <==> id < t.total && id !in t.received;
    DropAll(t.inFlight, Elements(missing));
    assert t.pending + Elements(missing) == Elements(missing);
    assert FlightIds([]) == {};
  }

  /** Retries left, summed over the missing chunks below `n`. */
  function Remaining(t: Tracker, n: nat): int
    requires n <= |t.retries|
  {
    if n == 0 then 0
    else Remaining(t, n - 1) + if n - 1 in t.received then 0 else t.maxRetries - t.retries[n - 1]
  }

  function Hits(ids: seq<nat>, n: nat): set<nat> {
    set id | id in ids && id < n
  }

  lemma {:induction false} RemainingFalls(t: Tracker, u: Tracker, ids: seq<nat>, n: nat)
    requires n <= |t.retries| == |u.retries| && u.received == t.received && u.maxRetries == t.maxRetries
    requires forall id | id in ids :: id !in t.received
    requires forall id: nat | id < n :: u.retries[id] == t.retries[id] + if id in ids then 1 else 0
    ensures Remaining(u, n) == Remaining(t, n) - |Hits(ids, n)|
  {
    if n == 0 {
      assert Hits(ids, 0) == {};
    } else {
      RemainingFalls(t, u, ids, n - 1);
      if n - 1 in ids {
        assert Hits(ids, n) == Hits(ids, n - 1) + {n - 1};
      } else {
        assert Hits(ids, n) == Hits(ids, n - 1);
      }
    }
  }

  /** A request for everything missing asks for exactly what it picked, all of it missing and with retries left,
      and makes nothing received. A batch limit of at least the chunk count asks for every such chunk. */
  lemma RequestAllIs(t: Tracker, batchSize: nat, now: nat, picked: seq<nat>)
    requires Inv(t) && IsPick(MarkAll(t), batchSize, picked)
    ensures BatchOf(MarkAll(t), now, picked) == picked
    ensures Inv(RequestAll(t, now, picked))
    ensures RequestAll(t, now, picked).received == t.received
    ensures forall id | id in picked :: id < t.total && id !in t.received && CanRetry(t, id)
    ensures batchSize >= t.total ==>
              forall id: nat | id < t.total && id !in t.received && CanRetry(t, id) :: id in picked
  {
    MarkAllIs(t);
    var m := MarkAll(t);
    NextBatchInv(m, now, picked);
    assert Expired(m.inFlight, now, m.timeout) == [];
    assert Retryable(m, []) == [];
    assert picked + [] == picked;
    forall id | id in picked ensures id in Ready(m) {
      assert id in Elements(picked);
    }
    if batchSize >= t.total {
      TakesAllReady(m, batchSize, picked);
      forall id: nat | id < t.total && id !in t.received && CanRetry(t, id) ensures id in picked {
        assert id in Ready(m);
      }
    }
  }

  lemma TakesAllReady(t: Tracker, batchSize: nat, picked: seq<nat>)
    requires Inv(t) && batchSize >= t.total && IsPick(t, batchSize, picked)
    ensures Elements(picked) == Ready(t)
  {
    ReadyFits(t);
    DistinctSize(picked);
    SubsetSize(Elements(picked), Ready(t));
  }

  /** Each chunk asked for uses up one of the retries left over all missing chunks. */
  lemma RequestAllPays(t: Tracker, batchSize: nat, now: nat, picked: seq<nat>)
    requires Inv(t) && IsPick(MarkAll(t), batchSize, picked)
    ensures |RequestAll(t, now, picked).retries| == t.total
    ensures Remaining(RequestAll(t, now, picked), t.total) == Remaining(t, t.total) - |picked|
  {
    MarkAllIs(t);
    RequestAllIs(t, batchSize, now, picked);
    RetriesAfter(MarkAll(t), now, picked);
    RemainingFalls(t, RequestAll(t, now, picked), picked, t.total);
    assert Hits(picked, t.total) == Elements(picked);
    DistinctSize(picked);
  }

  lemma ReadyFits(t: Tracker)
    requires Inv(t)
    ensures |Ready(t)| <= t.total
  {
    RangeSize(0, t.total);
    SubsetSize(Ready(t), Range(0, t.total));
  }

  lemma RetriesAfter(t: Tracker, now: nat, picked: seq<nat>)
    requires Inv(t) && Distinct(picked) && Elements(picked) <= Ready(t)
    ensures forall id: nat | id < t.total ::
              NextBatch(t, now, picked).retries[id] ==
              t.retries[id] + if id in BatchOf(t, now, picked) then 1 else 0
  {
    BatchIs(t, now, picked);
    BumpIs(t.retries, BatchOf(t, now, picked));
  }

  // ----- runs -----

  datatype Event =
    | GotChunk(id: nat)
    | GotCorrupt(id: nat)
    | BatchRequest(now: nat, picked: seq<nat>)
    | FullRequest(batchSize: nat, now: nat, picked: seq<nat>)

  function Apply(t: Tracker, e: Event): Tracker {
    match e
    case GotChunk(id) => Received(t, id)
    case GotCorrupt(id) => Corrupted(t, id)
    case BatchRequest(now, picked) => NextBatch(t, now, picked)
    case FullRequest(_, now, picked) => RequestAll(t, now, picked)
  }

  /** Which chunks a request may pick. */
  ghost predicate Legal(t: Tracker, e: Event) {
    match e
    case GotChunk(_) => true
    case GotCorrupt(_) => true
    case BatchRequest(_, picked) => Distinct(picked) && Elements(picked) <= Ready(t)
    case FullRequest(batchSize, _, picked) => IsPick(MarkAll(t), batchSize, picked)
  }

  /** How many chunks an event requests. */
  function Requested(t: Tracker, e: Event): nat {
    match e
    case GotChunk(_) => 0
    case GotCorrupt(_) => 0
    case BatchRequest(now, picked) => |BatchOf(t, now, picked)|
    case FullRequest(_, now, picked) => |BatchOf(MarkAll(t), now, picked)|
  }

  function Run(t: Tracker, es: seq<Event>): Tracker {
    if |es| == 0 then t else Apply(Run(t, es[..|es| - 1]), es[|es| - 1])
  }

  ghost predicate LegalRun(t: Tracker, es: seq<Event>) {
    |es| > 0 ==> LegalRun(t, es[..|es| - 1]) && Legal(Run(t, es[..|es| - 1]), es[|es| - 1])
  }

  function TotalRequested(t: Tracker, es: seq<Event>): nat {
    if |es| == 0 then 0
    else TotalRequested(t, es[..|es| - 1]) + Requested(Run(t, es[..|es| - 1]), es[|es| - 1])
  }

  lemma StepInv(t: Tracker, e: Event)
    requires Inv(t) && Legal(t, e)
    ensures var u := Apply(t, e);
            && Inv(u) && u.total == t.total && u.maxRetries == t.maxRetries
            && Sum(u.retries) == Sum(t.retries) + Requested(t, e)
            && forall id: nat | id < t.total :: t.retries[id] <= u.retries[id]
  {
    match e
    case GotChunk(id) => MarkInv(t, id);
    case GotCorrupt(id) => MarkInv(t, id);
    case BatchRequest(now, picked) =>
      NextBatchInv(t, now, picked);
      RetriesAfter(t, now, picked);
    case FullRequest(_, now, picked) =>
      MarkAllIs(t);
      NextBatchInv(MarkAll(t), now, picked);
      RetriesAfter(MarkAll(t), now, picked);
  }

  lemma {:induction false} RunInv(t: Tracker, es: seq<Event>)
    requires Inv(t) && LegalRun(t, es)
    ensures var u := Run(t, es);
            && Inv(u) && u.total == t.total && u.maxRetries == t.maxRetries
            && Sum(u.retries) == Sum(t.retries) + TotalRequested(t, es)
  {
    if |es| > 0 {
      RunInv(t, es[..|es| - 1]);
      StepInv(Run(t, es[..|es| - 1]), es[|es| - 1]);
    }
  }

  lemma {:induction false} ZeroSum(n: nat)
    ensures Sum(seq(n, _ => 0)) == 0
  {
    if n > 0 {
      ZeroSum(n - 1);
      assert seq(n, _ => 0)[..n - 1] == seq(n - 1, _ => 0);
    }
  }

  /** Over a whole run, whatever arrives or goes missing, the retransmission requests number at most the chunk
      count times the retry limit. */
  lemma RequestsBounded(total: nat, maxRetries: nat, timeout: nat, es: seq<Event>)
    requires LegalRun(New(total, maxRetries, timeout), es)
    ensures TotalRequested(New(total, maxRetries, timeout), es) <= total * maxRetries
  {
    var t := New(total, maxRetries, timeout);
    NewInv(total, maxRetries, timeout);
    RunInv(t, es);
    ZeroSum(total);
    SumBound(Run(t, es).retries, maxRetries);
  }

  // ----- one request after another -----

  /** A damaged chunk is requested; the next batch asks for it again exactly if more than the timeout has passed and a
      second retry is allowed. */
  lemma RequestedAgainIff(total: nat, maxRetries: nat, timeout: nat, id: nat, first: nat, second: nat)
    requires id < total && maxRetries > 0
    ensures var t := Run(New(total, maxRetries, timeout), [GotCorrupt(id), BatchRequest(first, [id])]);
            && LegalRun(New(total, maxRetries, timeout), [GotCorrupt(id), BatchRequest(first, [id])])
            && t.inFlight == [(id, first)]
            && BatchOf(t, second, []) == if first + timeout < second && maxRetries > 1 then [id] else []
  {
    var t0, es := New(total, maxRetries, timeout), [GotCorrupt(id), BatchRequest(first, [id])];
    var t1 := Corrupted(t0, id);
    assert es[..1] == [es[0]] && es[..1][..0] == [];
    assert Run(t0, es[..1]) == Apply(t0, es[0]) == t1;
    assert LegalRun(t0, es[..1]);
    assert Elements([id]) == {id} && id in Ready(t1);
    assert Expired([], first, timeout) == [] && Retryable(t1, []) == [];
    assert BatchOf(t1, first, [id]) == [id];
    assert Launched([id], first) == [(id, first)];
    var t := NextBatch(t1, first, [id]);
    NewInv(total, maxRetries, timeout);
    RunInv(t0, es);
    RetriesAfter(t1, first, [id]);
    assert t.inFlight == [(id, first)];
    OneInFlight(t, second, id, first);
  }

  lemma OneInFlight(t: Tracker, now: nat, id: nat, start: nat)
    requires t.inFlight == [(id, start)] && id < |t.retries|
    ensures BatchOf(t, now, []) == if start + t.timeout < now && CanRetry(t, id) then [id] else []
  {
    assert [(id, start)][..0] == [];
    assert Expired([(id, start)][..0], now, t.timeout) == [];
    var expired := Expired(t.inFlight, now, t.timeout);
    assert expired == if start + t.timeout < now then [id] else [];
    assert [id][..0] == [];
    assert Retryable(t, []) == [];
  }

  // ----- nothing corrupted is forgotten -----

  /** The last thing heard of `id` was a corrupted copy. */
  predicate Outstanding(es: seq<Event>, id: nat) {
    |es| > 0 &&
    match es[|es| - 1]
    case GotChunk(k) => k != id && Outstanding(es[..|es| - 1], id)
    case GotCorrupt(k) => k == id || Outstanding(es[..|es| - 1], id)
    case BatchRequest(_, _) => Outstanding(es[..|es| - 1], id)
    case FullRequest(_, _, _) => Outstanding(es[..|es| - 1], id)
  }

  predicate Accounted(t: Tracker, id: nat) {
    id in t.pending || id in FlightIds(t.inFlight) || Failed(t, id)
  }

  lemma BatchKeepsAccounted(t: Tracker, now: nat, picked: seq<nat>, id: nat)
    requires Inv(t) && Distinct(picked) && Elements(picked) <= Ready(t) && Accounted(t, id)
    ensures Accounted(NextBatch(t, now, picked), id)
  {
    var batch := BatchOf(t, now, picked);
    var u := NextBatch(t, now, picked);
    NextBatchInv(t, now, picked);
    RetriesAfter(t, now, picked);
    BatchIs(t, now, picked);
    SweepInv(t, now);
    var s := Sweep(t, now);
    LaunchIs(s.inFlight, batch, now);
    if id in FlightIds(t.inFlight) && id !in batch {
      var expired := Expired(t.inFlight, now, t.timeout);
      var e :| e in t.inFlight && e.0 == id;
      WithoutIs(t.inFlight, Elements(expired));
      RetryableIs(t, expired);
      if id !in expired {
        assert e in s.inFlight;
      }
    }
  }

  lemma StepKeepsAccounted(t: Tracker, e: Event, id: nat)
    requires Inv(t) && Legal(t, e) && Accounted(t, id) && e != GotChunk(id)
    ensures Accounted(Apply(t, e), id)
  {
    match e
    case GotChunk(k) => MarkKeepsFlight(t, k, id);
    case GotCorrupt(k) =>
      if k != id {
        MarkKeepsFlight(t, k, id);
      }
    case BatchRequest(now, picked) => BatchKeepsAccounted(t, now, picked, id);
    case FullRequest(_, now, picked) =>
      MarkAllIs(t);
      BatchKeepsAccounted(MarkAll(t), now, picked, id);
  }

  lemma MarkKeepsFlight(t: Tracker, k: nat, id: nat)
    requires k != id
    ensures id in FlightIds(t.inFlight) <==> id in FlightIds(Without(t.inFlight, {k}))
  {
    WithoutIs(t.inFlight, {k});
    if id in FlightIds(t.inFlight) {
      var e :| e in t.inFlight && e.0 == id;
      assert e in Without(t.inFlight, {k});
    }
  }

  /** A chunk heard of last as corrupted is pending, in flight, or reported as failed, also when its request
      timed out with its retries spent. */
  lemma {:induction false} NothingForgotten(t: Tracker, es: seq<Event>, id: nat)
    requires Inv(t) && LegalRun(t, es) && id < t.total && Outstanding(es, id)
    ensures Accounted(Run(t, es), id)
  {
    var front, last := es[..|es| - 1], es[|es| - 1];
    RunInv(t, front);
    if last != GotCorrupt(id) {
      NothingForgotten(t, front, id);
      StepKeepsAccounted(Run(t, front), last, id);
    }
  }

  // ----- liveness -----

  /** Requests for everything, with a limit of at least the chunk count, made while `id` was missing. */
  function MissedRequests(t: Tracker, es: seq<Event>, id: nat): nat {
    if |es| == 0 then 0
    else
      var front := es[..|es| - 1];
      var e := es[|es| - 1];
      MissedRequests(t, front, id) +
      if e.FullRequest? && e.batchSize >= t.total && id !in Run(t, front).received then 1 else 0
  }

  lemma {:induction false} RetriesSpent(t: Tracker, es: seq<Event>, id: nat)
    requires Inv(t) && LegalRun(t, es) && id < t.total
    ensures |Run(t, es).retries| == t.total
    ensures Run(t, es).retries[id] >= Min(t.maxRetries, MissedRequests(t, es, id))
  {
    RunInv(t, es);
    if |es| > 0 {
      var front, e := es[..|es| - 1], es[|es| - 1];
      RetriesSpent(t, front, id);
      RunInv(t, front);
      var u := Run(t, front);
      StepInv(u, e);
      if e.FullRequest? && e.batchSize >= t.total && id !in u.received && CanRetry(u, id) {
        RequestAllIs(u, e.batchSize, e.now, e.picked);
        MarkAllIs(u);
        RetriesAfter(MarkAll(u), e.now, e.picked);
      }
    }
  }

  /** Once a chunk has been missing at as many full requests as the retry limit, it is received or reported as
      failed: requesting does not go on for ever. */
  lemma ReceivedOrFailed(t: Tracker, es: seq<Event>, id: nat)
    requires Inv(t) && LegalRun(t, es) && id < t.total
    requires MissedRequests(t, es, id) >= t.maxRetries
    ensures id in Run(t, es).received || Failed(Run(t, es), id)
  {
    RunInv(t, es);
    RetriesSpent(t, es, id);
  }
}
