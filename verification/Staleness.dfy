/** When a receiver and its tracker agree on what has arrived, and what becomes of a chunk on which they do not. */
module Staleness {
  import opened Bytes
  import opened Collections
  import opened Packets
  import opened TrackerModel
  import T = TrackerRuns
  import opened ReceiverModel
  import opened ReceiverRuns

  /** The receiver has the chunk and its tracker believes it missing. */
  predicate Stale(r: Receiver, id: nat) {
    r.tracker.Some? && id < r.tracker.value.total && id in r.received && id !in r.tracker.value.received
  }

  ghost predicate InStep(r: Receiver) {
    forall id: nat :: !Stale(r, id)
  }

  /** The packet is a damaged copy of a chunk already accepted, and a tracker hears of it. */
  predicate DamagesAccepted(r: Receiver, c: Codec, raw: seq<byte>) {
    r.tracker.Some? && Parse(c, raw).Ok? &&
    var v := Parse(c, raw).value;
    SizesAgree(v) && !ChecksumMatches(c, v) && v.chunkId in r.received && v.chunkId < r.tracker.value.total
  }

  /** A packet puts the tracker out of step exactly when it is a damaged copy of a chunk already accepted. */
  lemma DeliveryKeepsInStepIff(r: Receiver, c: Codec, raw: seq<byte>)
    requires Inside(r) && InStep(r)
    ensures InStep(Receive(r, c, raw).0) <==> !DamagesAccepted(r, c, raw)
  {
    var s := Receive(r, c, raw).0;
    if DamagesAccepted(r, c, raw) {
      assert Stale(s, Parse(c, raw).value.chunkId);
    } else {
      forall id: nat ensures !Stale(s, id) {
        assert !Stale(r, id);
      }
    }
  }

  /** Switching retransmission on after the last chunk has arrived does so exactly when some chunk below the total
      has been received: the new tracker is not told. */
  lemma LateSwitchOnIff(r: Receiver)
    requires r.tracker.None?
    ensures InStep(Enable(r)) <==> forall id | id in r.received :: r.totalChunks <= id
  {
    var s := Enable(r);
    forall id: nat ensures Stale(s, id) <==> r.totalChunks > id && id in r.received {
    }
  }

  /** What puts the tracker out of step: a damaged copy of an accepted chunk, or switching on with the last chunk and
      another one already there. */
  predicate Breaks(r: Receiver, c: Codec, e: Event) {
    match e
    case Deliver(raw) => DamagesAccepted(r, c, raw)
    case SwitchOn => r.tracker.None? && exists id | id in r.received :: id < r.totalChunks
    case Ask(_, _, _, _) => false
    case SwitchOff => false
  }

  /** No other event does, requests and switching off included. */
  lemma StepInStepIff(r: Receiver, c: Codec, e: Event)
    requires Inside(r) && Legal(r, e) && InStep(r)
    ensures InStep(Apply(r, c, e)) <==> !Breaks(r, c, e)
  {
    match e
    case Deliver(raw) => DeliveryKeepsInStepIff(r, c, raw);
    case Ask(batchSize, now, picked, _) =>
      if r.tracker.Some? {
        T.RequestAllIs(r.tracker.value, batchSize, now, picked);
        T.MarkAllIs(r.tracker.value);
        forall id: nat ensures !Stale(Apply(r, c, e), id) {
          assert !Stale(r, id);
        }
      }
    case SwitchOn =>
      if r.tracker.None? {
        LateSwitchOnIff(r);
      } else {
        forall id: nat ensures !Stale(Apply(r, c, e), id) {
          assert !Stale(r, id);
        }
      }
    case SwitchOff =>
  }

  ghost predicate AlwaysInStep(r: Receiver, c: Codec, es: seq<Event>) {
    forall n: nat | n <= |es| :: InStep(Run(r, c, es[..n]))
  }

  predicate NeverBreaks(r: Receiver, c: Codec, es: seq<Event>) {
    |es| > 0 ==>
      NeverBreaks(r, c, es[..|es| - 1]) && !Breaks(Run(r, c, es[..|es| - 1]), c, es[|es| - 1])
  }

  /** Over every run tracker and receiver stay in step exactly when no event is a damaged copy of an accepted chunk or
      a late switch-on. */
  lemma {:induction false} RunInStepIff(r: Receiver, c: Codec, es: seq<Event>)
    requires Inside(r) && InStep(r) && LegalRun(r, c, es)
    ensures AlwaysInStep(r, c, es) <==> NeverBreaks(r, c, es)
  {
    if |es| == 0 {
      assert forall n: nat | n <= |es| :: es[..n] == es;
    } else {
      var front := es[..|es| - 1];
      RunInStepIff(r, c, front);
      RunInside(r, c, front);
      InStepBefore(r, c, es);
      if AlwaysInStep(r, c, front) {
        assert front[..|front|] == front;
        StepInStepIff(Run(r, c, front), c, es[|es| - 1]);
      }
    }
  }

  lemma InStepBefore(r: Receiver, c: Codec, es: seq<Event>)
    requires |es| > 0
    ensures AlwaysInStep(r, c, es) <==> AlwaysInStep(r, c, es[..|es| - 1]) && InStep(Run(r, c, es))
  {
    var front := es[..|es| - 1];
    assert es[..|es|] == es;
    if AlwaysInStep(r, c, es) {
      forall n: nat | n <= |front| ensures InStep(Run(r, c, front[..n])) {
        assert front[..n] == es[..n];
      }
    }
    if AlwaysInStep(r, c, front) && InStep(Run(r, c, es)) {
      forall n: nat | n <= |es| ensures InStep(Run(r, c, es[..n])) {
        assert n < |es| ==> es[..n] == front[..n];
      }
    }
  }

  /** Once out of step, always out of step while retransmission stays on: the chunk's good copies are now duplicates
      and are not reported to the tracker. */
  lemma StaleForever(r: Receiver, c: Codec, e: Event, id: nat)
    requires Inside(r) && Legal(r, e) && e != SwitchOff && Stale(r, id)
    ensures Stale(Apply(r, c, e), id)
  {
    match e
    case Deliver(raw) =>
    case Ask(batchSize, now, picked, _) =>
      T.MarkAllIs(r.tracker.value);
      T.RequestAllIs(r.tracker.value, batchSize, now, picked);
    case SwitchOn =>
  }

  lemma {:induction false} StaleThroughout(r: Receiver, c: Codec, es: seq<Event>, id: nat)
    requires Inside(r) && LegalRun(r, c, es) && SwitchOff !in es && Stale(r, id)
    ensures Stale(Run(r, c, es), id)
  {
    if |es| > 0 {
      var front, last := es[..|es| - 1], es[|es| - 1];
      assert forall e :: e in front ==> e in es;
      assert last in es;
      StaleThroughout(r, c, front, id);
      RunInside(r, c, front);
      StaleForever(Run(r, c, front), c, last, id);
    }
  }

  /** Such a chunk ends up reported as failed although it was received. */
  lemma StaleIsReportedFailed(r: Receiver, c: Codec, es: seq<Event>, id: nat)
    requires Inside(r) && LegalRun(r, c, es) && SwitchOff !in es && Stale(r, id)
    requires T.MissedRequests(r.tracker.value, AllSeen(r, c, es), id) >= r.tracker.value.maxRetries
    ensures id in Run(r, c, es).received
    ensures Run(r, c, es).tracker.Some? && Failed(Run(r, c, es).tracker.value, id)
  {
    var t, seen := r.tracker.value, AllSeen(r, c, es);
    StaleThroughout(r, c, es, id);
    RunSeen(r, c, es);
    T.ReceivedOrFailed(t, seen, id);
  }
}
