/** The state of a `MissingChunkTracker` (src/retransmission/missing.rs) as a value, its operations, and what holds
    over every run of them. */
module TrackerModel {
  import opened Bytes
  import opened Collections

  type Flight = seq<(nat, nat)>  // chunk id and time of the request

  datatype Tracker = Tracker(
    total: nat,
    received: set<nat>,
    pending: set<nat>,
    inFlight: Flight,
    maxRetries: nat,
    retries: seq<nat>,
    timeout: nat)

  function FlightIds(f: Flight): set<nat> {
    set e | e in f :: e.0
  }

  predicate DistinctFlight(f: Flight) {
    forall i: nat, k: nat | i < k < |f| :: f[i].0 != f[k].0
  }

  /** `retain(|(id, _)| !ids.contains(id))`. */
  function Without(f: Flight, ids: set<nat>): Flight {
    if |f| == 0 then []
    else Without(f[..|f| - 1], ids) + if f[|f| - 1].0 in ids then [] else [f[|f| - 1]]
  }

  lemma {:induction false} WithoutIs(f: Flight, ids: set<nat>)
    ensures forall e :: e in Without(f, ids) <==> e in f && e.0 !in ids
    ensures DistinctFlight(f) ==> DistinctFlight(Without(f, ids))
  {
    if |f| > 0 {
      var front, last := f[..|f| - 1], f[|f| - 1];
      WithoutIs(front, ids);
      assert f == front + [last];
      if DistinctFlight(f) {
        forall i: nat | i < |Without(front, ids)| ensures Without(front, ids)[i].0 != last.0 {
          assert Without(front, ids)[i] in front;
        }
      }
    }
  }

  lemma WithoutSnoc(f: Flight, e: (nat, nat), ids: set<nat>)
    ensures Without(f + [e], ids) == Without(f, ids) + if e.0 in ids then [] else [e]
  {
    assert (f + [e])[..|f|] == f;
  }

  lemma {:induction false} WithoutTwice(f: Flight, a: set<nat>, b: set<nat>)
    ensures Without(Without(f, a), b) == Without(f, a + b)
  {
    if |f| > 0 {
      var front, last := f[..|f| - 1], f[|f| - 1];
      WithoutTwice(front, a, b);
      if last.0 in a {
        assert Without(f, a) == Without(front, a);
      } else {
        WithoutSnoc(Without(front, a), last, b);
      }
    }
  }

  /** Ids whose request is older than the timeout, in request order. */
  function Expired(f: Flight, now: nat, timeout: nat): seq<nat> {
    if |f| == 0 then []
    else Expired(f[..|f| - 1], now, timeout) + if Since(now, f[|f| - 1].1) > timeout then [f[|f| - 1].0] else []
  }

  lemma {:induction false} ExpiredIs(f: Flight, now: nat, timeout: nat)
    ensures forall e | e in f && Since(now, e.1) > timeout :: e.0 in Expired(f, now, timeout)
    ensures forall id | id in Expired(f, now, timeout) :: id in FlightIds(f)
    ensures DistinctFlight(f) ==> Distinct(Expired(f, now, timeout))
  {
    if |f| > 0 {
      var front, last := f[..|f| - 1], f[|f| - 1];
      ExpiredIs(front, now, timeout);
      assert f == front + [last];
      assert FlightIds(f) == FlightIds(front) + {last.0};
      if DistinctFlight(f) {
        assert last.0 !in FlightIds(front);
      }
    }
  }

  /** Timed out are exactly the requests made more than the timeout ago. */
  lemma {:induction false} ExpiredExactly(f: Flight, now: nat, timeout: nat)
    ensures forall id :: id in Expired(f, now, timeout) <==> exists e :: e in f && e.0 == id && e.1 + timeout < now
  {
    if |f| > 0 {
      var front, last := f[..|f| - 1], f[|f| - 1];
      ExpiredExactly(front, now, timeout);
      assert f == front + [last];
    }
  }

  /** An id that is in flight once timed out exactly if that request is old enough. */
  lemma ExpiredOnceIff(f: Flight, now: nat, timeout: nat, e: (nat, nat))
    requires DistinctFlight(f) && e in f
    ensures e.0 in Expired(f, now, timeout) <==> e.1 + timeout < now
  {
    ExpiredExactly(f, now, timeout);
    forall x | x in f && x.0 == e.0 ensures x == e {
      var i, k :| 0 <= i < |f| && 0 <= k < |f| && f[i] == x && f[k] == e;
      assert i == k;
    }
  }

  ghost predicate Inv(t: Tracker) {
    && |t.retries| == t.total
    && (forall id | id in t.pending :: id < t.total && id !in t.received)
    && DistinctFlight(t.inFlight)
    && (forall id | id in FlightIds(t.inFlight) :: id < t.total && id !in t.received && id !in t.pending)
    && (forall id: nat | id < t.total :: t.retries[id] <= t.maxRetries)
  }

  // ----- operations -----

  function New(total: nat, maxRetries: nat, timeout: nat): Tracker {
    Tracker(total, {}, {}, [], maxRetries, seq(total, _ => 0), timeout)
  }

  function Received(t: Tracker, id: nat): Tracker {
    t.(received := t.received + {id}, pending := t.pending - {id}, inFlight := Without(t.inFlight, {id}))
  }

  function Corrupted(t: Tracker, id: nat): Tracker {
    if id < t.total then
      t.(received := t.received - {id}, pending := t.pending + {id}, inFlight := Without(t.inFlight, {id}))
    else t
  }

  predicate CanRetry(t: Tracker, id: nat) {
    id < |t.retries| && t.retries[id] < t.maxRetries
  }

  /** Chunks waiting to be requested that still may be. */
  ghost function Ready(t: Tracker): set<nat> {
    set id | id in t.pending && id !in FlightIds(t.inFlight) && CanRetry(t, id)
  }

  /** `get_failed_chunks`. */
  predicate Failed(t: Tracker, id: nat) {
    id < t.total && id !in t.received && !CanRetry(t, id)
  }

  /** The sets are unordered, so which ready chunks a limited batch takes is open. */
  ghost predicate IsPick(t: Tracker, batchSize: nat, picked: seq<nat>) {
    Distinct(picked) && Elements(picked) <= Ready(t) && |picked| == Min(batchSize, |Ready(t)|)
  }

  function Retryable(t: Tracker, ids: seq<nat>): seq<nat> {
    if |ids| == 0 then []
    else Retryable(t, ids[..|ids| - 1]) + if CanRetry(t, ids[|ids| - 1]) then [ids[|ids| - 1]] else []
  }

  lemma {:induction false} RetryableIs(t: Tracker, ids: seq<nat>)
    ensures forall id :: id in Retryable(t, ids) <==> id in ids && CanRetry(t, id)
    ensures Distinct(ids) ==> Distinct(Retryable(t, ids))
  {
    if |ids| > 0 {
      var front, last := ids[..|ids| - 1], ids[|ids| - 1];
      RetryableIs(t, front);
      assert ids == front + [last];
      assert Distinct(ids) ==> last !in front;
    }
  }

  /** The batch: the picked chunks, then the timed-out ones that may be retried. */
  function BatchOf(t: Tracker, now: nat, picked: seq<nat>): seq<nat> {
    picked + Retryable(t, Expired(t.inFlight, now, t.timeout))
  }

  function Bump(retries: seq<nat>, ids: seq<nat>): (r: seq<nat>)
    ensures |r| == |retries|
  {
    if |ids| == 0 then retries
    else
      var r := Bump(retries, ids[..|ids| - 1]);
      var id := ids[|ids| - 1];
      if id < |r| then r[id := r[id] + 1] else r
  }

  function Launched(ids: seq<nat>, now: nat): Flight {
    seq(|ids|, i requires 0 <= i < |ids| => (ids[i], now))
  }

  function Sweep(t: Tracker, now: nat): Tracker {
    var expired := Expired(t.inFlight, now, t.timeout);
    t.(inFlight := Without(t.inFlight, Elements(expired)), pending := t.pending + Elements(Retryable(t, expired)))
  }

  function Send(t: Tracker, ids: seq<nat>, now: nat): Tracker {
    t.(inFlight := t.inFlight + Launched(ids, now),
       retries := Bump(t.retries, ids),
       pending := t.pending - Elements(ids))
  }

  /** `get_next_batch`. */
  function NextBatch(t: Tracker, now: nat, picked: seq<nat>): Tracker {
    Send(Sweep(t, now), BatchOf(t, now, picked), now)
  }

  // ----- invariant -----

  lemma NewInv(total: nat, maxRetries: nat, timeout: nat)
    ensures Inv(New(total, maxRetries, timeout))
  {
  }

  lemma MarkInv(t: Tracker, id: nat)
    requires Inv(t)
    ensures Inv(Received(t, id)) && Inv(Corrupted(t, id))
  {
    WithoutIs(t.inFlight, {id});
  }

  lemma {:induction false} BumpIs(retries: seq<nat>, ids: seq<nat>)
    requires Distinct(ids)
    ensures forall id: nat | id < |retries| ::
              Bump(retries, ids)[id] == retries[id] + if id in ids then 1 else 0
  {
    if |ids| > 0 {
      var front, last := ids[..|ids| - 1], ids[|ids| - 1];
      BumpIs(retries, front);
      assert ids == front + [last];
    }
  }

  /** Sweeping takes the expired ids out of flight. */
  lemma SweepInv(t: Tracker, now: nat)
    requires Inv(t)
    ensures Inv(Sweep(t, now))
    ensures forall id | id in Expired(t.inFlight, now, t.timeout) ::
              id < t.total && id !in t.received && id !in t.pending && id !in FlightIds(Sweep(t, now).inFlight)
    ensures FlightIds(Sweep(t, now).inFlight) <= FlightIds(t.inFlight)
  {
    var expired := Expired(t.inFlight, now, t.timeout);
    ExpiredIs(t.inFlight, now, t.timeout);
    WithoutIs(t.inFlight, Elements(expired));
    RetryableIs(t, expired);
  }

  lemma DistinctJoin(a: seq<nat>, b: seq<nat>)
    requires Distinct(a) && Distinct(b) && forall x | x in a :: x !in b
    ensures Distinct(a + b)
  {
    forall i: nat, k: nat | i < k < |a + b| ensures (a + b)[i] != (a + b)[k] {
      if i < |a| <= k {
        assert a[i] in a && b[k - |a|] in b;
      }
    }
  }

  /** A batch names no chunk twice, and only chunks that are missing and have retries left. */
  lemma BatchIs(t: Tracker, now: nat, picked: seq<nat>)
    requires Inv(t) && Distinct(picked) && Elements(picked) <= Ready(t)
    ensures Distinct(BatchOf(t, now, picked))
    ensures forall id | id in BatchOf(t, now, picked) ::
              && id < t.total && id !in t.received && CanRetry(t, id)
              && id in Sweep(t, now).pending && id !in FlightIds(Sweep(t, now).inFlight)
  {
    var expired := Expired(t.inFlight, now, t.timeout);
    ExpiredIs(t.inFlight, now, t.timeout);
    SweepInv(t, now);
    RetryableIs(t, expired);
    forall id | id in picked ensures id in Ready(t) {
      assert id in Elements(picked);
    }
    DistinctJoin(picked, Retryable(t, expired));
  }

  lemma LaunchIs(f: Flight, ids: seq<nat>, now: nat)
    requires DistinctFlight(f) && Distinct(ids) && forall id | id in ids :: id !in FlightIds(f)
    ensures DistinctFlight(f + Launched(ids, now))
    ensures FlightIds(f + Launched(ids, now)) == FlightIds(f) + Elements(ids)
  {
    var g := Launched(ids, now);
    forall i: nat, k: nat | i < k < |f + g| ensures (f + g)[i].0 != (f + g)[k].0 {
      if i < |f| <= k {
        assert f[i] in f && ids[k - |f|] in ids;
      }
    }
    forall id | id in ids ensures id in FlightIds(f + g) {
      var i :| 0 <= i < |ids| && ids[i] == id;
      assert (f + g)[|f| + i] == (id, now);
      assert (id, now) in f + g;
    }
    forall e | e in f + g ensures e.0 in FlightIds(f) + Elements(ids) {
      if e !in f {
        var i :| 0 <= i < |g| && g[i] == e;
        assert ids[i] in ids;
      }
    }
    forall id | id in FlightIds(f) ensures id in FlightIds(f + g) {
      var e :| e in f && e.0 == id;
      assert e in f + g;
    }
  }

  lemma SendInv(t: Tracker, ids: seq<nat>, now: nat)
    requires Inv(t) && Distinct(ids)
    requires forall id | id in ids ::
               id < t.total && id !in t.received && CanRetry(t, id) && id !in FlightIds(t.inFlight)
    ensures Inv(Send(t, ids, now))
  {
    BumpIs(t.retries, ids);
    LaunchIs(t.inFlight, ids, now);
  }

  /** The invariant is kept, and every request is paid for by one retry of one chunk. */
  lemma NextBatchInv(t: Tracker, now: nat, picked: seq<nat>)
    requires Inv(t) && Distinct(picked) && Elements(picked) <= Ready(t)
    ensures Inv(NextBatch(t, now, picked))
    ensures Sum(NextBatch(t, now, picked).retries) == Sum(t.retries) + |BatchOf(t, now, picked)|
  {
    SweepInv(t, now);
    BatchIs(t, now, picked);
    var batch := BatchOf(t, now, picked);
    forall id | id in batch ensures CanRetry(Sweep(t, now), id) {
      assert CanRetry(t, id);
    }
    SendInv(Sweep(t, now), batch, now);
    BumpSum(t.retries, batch);
  }

  lemma LaunchedAre(f: Flight, ids: seq<nat>, now: nat)
    ensures forall e :: e in f + Launched(ids, now) <==> e in f || (e.0 in ids && e.1 == now)
  {
    var g := Launched(ids, now);
    forall e ensures e in g <==> e.0 in ids && e.1 == now {
      if e.0 in ids && e.1 == now {
        var i :| 0 <= i < |ids| && ids[i] == e.0;
        assert g[i] == e;
      }
    }
  }

  /** A sweep leaves in flight the requests made no longer ago than the timeout; of the others, those with retries left
      are to be repeated. */
  ghost predicate Swept(t: Tracker, u: Tracker, retried: seq<nat>, now: nat) {
    && (forall e :: e in u.inFlight <==> e in t.inFlight && now <= e.1 + t.timeout)
    && forall id: nat :: id in retried <==>
         id < |t.retries| && t.retries[id] < t.maxRetries
         && exists e :: e in t.inFlight && e.0 == id && e.1 + t.timeout < now
  }

  lemma SweptFlight(t: Tracker, now: nat)
    requires Inv(t)
    ensures Swept(t, Sweep(t, now), Retryable(t, Expired(t.inFlight, now, t.timeout)), now)
  {
    ExpiredExactly(t.inFlight, now, t.timeout);
    RetryableIs(t, Expired(t.inFlight, now, t.timeout));
    WithoutIs(t.inFlight, Elements(Expired(t.inFlight, now, t.timeout)));
    forall e | e in t.inFlight ensures e in Sweep(t, now).inFlight <==> now <= e.1 + t.timeout {
      ExpiredOnceIff(t.inFlight, now, t.timeout, e);
    }
  }

  /** What a batch does to the requests in flight: one is repeated exactly if it was made more than the timeout ago and
      the chunk has retries left; until then neither it nor the chunk's retry count changes. Everything in the batch is
      in flight since now, and nothing else is new. */
  ghost predicate Aged(t: Tracker, u: Tracker, batch: seq<nat>, now: nat) {
    && |u.retries| == |t.retries|
    && (forall e | e in t.inFlight ::
          e.0 in batch <==> e.1 + t.timeout < now && e.0 < |t.retries| && t.retries[e.0] < t.maxRetries)
    && (forall e :: e in u.inFlight <==>
          (e in t.inFlight && now <= e.1 + t.timeout) || (e.0 in batch && e.1 == now))
    && forall id: nat | id < |t.retries| :: u.retries[id] == t.retries[id] + if id in batch then 1 else 0
  }

  lemma BatchAges(t: Tracker, now: nat, picked: seq<nat>)
    requires Inv(t) && Distinct(picked) && Elements(picked) <= Ready(t)
    ensures Aged(t, NextBatch(t, now, picked), BatchOf(t, now, picked), now)
  {
    var batch := BatchOf(t, now, picked);
    var expired := Expired(t.inFlight, now, t.timeout);
    BatchIs(t, now, picked);
    BumpIs(t.retries, batch);
    SweptFlight(t, now);
    LaunchedAre(Sweep(t, now).inFlight, batch, now);
    RetryableIs(t, expired);
    forall e | e in t.inFlight ensures e.0 in batch <==> e.1 + t.timeout < now && CanRetry(t, e.0) {
      ExpiredOnceIff(t.inFlight, now, t.timeout, e);
      assert e.0 in FlightIds(t.inFlight);
      forall id | id in picked ensures id in Ready(t) {
        assert id in Elements(picked);
      }
    }
  }

  function Sum(s: seq<nat>): nat {
    if |s| == 0 then 0 else Sum(s[..|s| - 1]) + s[|s| - 1]
  }

  lemma {:induction false} SumUpdate(s: seq<nat>, i: nat, x: nat)
    requires i < |s|
    ensures Sum(s[i := x]) == Sum(s) - s[i] + x
  {
    var front := s[..|s| - 1];
    if i < |front| {
      SumUpdate(front, i, x);
      assert s[i := x][..|s| - 1] == front[i := x];
    } else {
      assert s[i := x][..|s| - 1] == front;
    }
  }

  lemma {:induction false} BumpSum(retries: seq<nat>, ids: seq<nat>)
    requires forall id | id in ids :: id < |retries|
    ensures Sum(Bump(retries, ids)) == Sum(retries) + |ids|
  {
    if |ids| > 0 {
      var front, last := ids[..|ids| - 1], ids[|ids| - 1];
      assert forall id :: id in front ==> id in ids;
      assert last in ids;
      BumpSum(retries, front);
      var r := Bump(retries, front);
      SumUpdate(r, last, r[last] + 1);
    }
  }

  lemma {:induction false} SumBound(s: seq<nat>, bound: nat)
    requires forall i: nat | i < |s| :: s[i] <= bound
    ensures Sum(s) <= |s| * bound
  {
    if |s| > 0 {
      SumBound(s[..|s| - 1], bound);
      assert |s| * bound == (|s| - 1) * bound + bound;
    }
  }
}
