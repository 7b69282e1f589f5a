/** What holds over every run of a file receiver: deliveries in any order, retransmission requests, and switching
    automatic retransmission on and off. */
module ReceiverRuns {
  import opened Bytes
  import opened Chunking
  import opened Collections
  import opened Packets
  import opened Chunkers
  import opened TrackerModel
  import T = TrackerRuns
  import opened ReceiverModel

  datatype Event =
    | Deliver(raw: seq<byte>)
    | Ask(batchSize: nat, now: nat, picked: seq<nat>, linkUp: bool)
    | SwitchOn
    | SwitchOff

  function Apply(r: Receiver, c: Codec, e: Event): Receiver {
    match e
    case Deliver(raw) => Receive(r, c, raw).0
    case Ask(_, now, picked, linkUp) => RequestMissing(r, now, picked, linkUp).0
    case SwitchOn => Enable(r)
    case SwitchOff => Disable(r)
  }

  function Run(r: Receiver, c: Codec, es: seq<Event>): Receiver {
    if |es| == 0 then r else Apply(Run(r, c, es[..|es| - 1]), c, es[|es| - 1])
  }

  // ----- assembly -----

  ghost predicate AllGenuine(j: Job, es: seq<Event>) {
    forall e | e in es :: e.Deliver? ==> Genuine(j, e.raw)
  }

  /** The chunk an event delivers undamaged, if any. */
  function DeliveredBy(c: Codec, e: Event): set<nat> {
    if !e.Deliver? then {}
    else
      match Parse(c, e.raw)
      case Err(_) => {}
      case Ok(v) => if SizesAgree(v) && ChecksumMatches(c, v) then {v.chunkId} else {}
  }

  function Delivered(c: Codec, es: seq<Event>): set<nat> {
    if |es| == 0 then {} else Delivered(c, es[..|es| - 1]) + DeliveredBy(c, es[|es| - 1])
  }

  lemma StepAssembles(j: Job, r: Receiver, initial: seq<byte>, e: Event)
    requires Assembled(j, r, initial) && (e.Deliver? ==> Genuine(j, e.raw))
    ensures var s := Apply(r, j.codec, e);
            && Assembled(j, s, initial)
            && s.received == r.received + DeliveredBy(j.codec, e)
            && s.mode == r.mode && (r.mode == Buffered ==> s.partFile == r.partFile)
  {
    match e
    case Deliver(raw) =>
      ReceiveAssembles(j, r, initial, raw);
      match Parse(j.codec, raw) {
        case Err(_) =>
        case Ok(v) =>
          if SizesAgree(v) && ChecksumMatches(j.codec, v) {
            assert Delivers(j, raw, v.chunkId);
          }
      }
    case Ask(_, now, picked, linkUp) =>
    case SwitchOn =>
    case SwitchOff =>
  }

  lemma {:induction false} RunAssembles(j: Job, r: Receiver, initial: seq<byte>, es: seq<Event>)
    requires Assembled(j, r, initial) && AllGenuine(j, es)
    ensures var s := Run(r, j.codec, es);
            && Assembled(j, s, initial)
            && s.received == r.received + Delivered(j.codec, es)
            && s.mode == r.mode && (r.mode == Buffered ==> s.partFile == r.partFile)
  {
    if |es| > 0 {
      var front, last := es[..|es| - 1], es[|es| - 1];
      assert forall e :: e in front ==> e in es;
      assert last in es;
      RunAssembles(j, r, initial, front);
      StepAssembles(j, Run(r, j.codec, front), initial, last);
    }
  }

  /** Assembly under disorder. Whatever the order, the duplicates, the damaged payloads and the requests in
      between: the chunks received are exactly those delivered undamaged, each in its place; the byte count is the
      sum of their lengths; and the receiver is complete exactly when all chunks of a non-empty file have been
      delivered. Its content is then the file, unless something longer was there before. */
  lemma Assembly(j: Job, mode: Mode, fileSize: nat, stale: seq<byte>, es: seq<Event>)
    requires AllGenuine(j, es)
    ensures var r := Open(mode, fileSize, stale);
            var s := Run(r, j.codec, es);
            && s.received == Delivered(j.codec, es)
            && (forall k | k in s.received :: k < Count(j) && Holds(j, Content(s), k))
            && s.bytesReceived == Lengths(j, s.received, Count(j))
            && (IsComplete(s) <==> Count(j) > 0 && Delivered(j.codec, es) == Range(0, Count(j)))
            && (IsComplete(s) ==> (Content(s) == j.file <==> |Content(r)| <= |j.file|))
  {
    var r := Open(mode, fileSize, stale);
    OpenAssembled(j, mode, fileSize, stale);
    RunAssembles(j, r, Content(r), es);
    CompleteIsFile(j, Run(r, j.codec, es), Content(r));
    if |Content(r)| <= |j.file| {
      assert j.file + [] == j.file;
    } else {
      assert |j.file + Tail(j, Content(r))| > |j.file|;
    }
  }

  /** What has been accepted stays accepted, and stays in place. */
  lemma {:induction false} AcceptedForever(j: Job, r: Receiver, initial: seq<byte>, es: seq<Event>, n: nat, k: nat)
    requires Assembled(j, r, initial) && AllGenuine(j, es) && n <= |es|
    requires k in Run(r, j.codec, es[..n]).received
    ensures k in Run(r, j.codec, es).received
    ensures k < Count(j) && Holds(j, Content(Run(r, j.codec, es)), k)
  {
    RunAssembles(j, r, initial, es);
    if n < |es| {
      var front := es[..|es| - 1];
      assert front[..n] == es[..n];
      assert forall e :: e in front ==> e in es;
      AcceptedForever(j, r, initial, front, n, k);
      RunAssembles(j, r, initial, front);
      assert es[|es| - 1] in es;
      StepAssembles(j, Run(r, j.codec, front), initial, es[|es| - 1]);
    } else {
      assert es[..n] == es;
    }
  }

  lemma PatchWhole(s: seq<byte>, data: seq<byte>)
    ensures Patch(s, 0, data) == data + if |s| > |data| then s[|data|..] else []
  {
  }

  /** `finalize` succeeds exactly on a complete transfer, and the file it leaves is the one that was sent exactly
      when neither the announced size nor, where it was not cut to size, an old part file was longer. */
  lemma FinalizeIff(j: Job, mode: Mode, fileSize: nat, stale: seq<byte>, es: seq<Event>)
    requires AllGenuine(j, es)
    ensures var s := Run(Open(mode, fileSize, stale), j.codec, es);
            var (f, answer) := Finalize(s, j.codec, None);
            && (answer.Ok? <==> IsComplete(s))
            && (answer.Err? ==> f == s && answer.error == Incomplete(MissingChunks(s)))
            && (answer.Ok? ==> f.partFile == answer.value)
            && (answer.Ok? ==>
                  (answer.value == j.file <==>
                     fileSize <= |j.file| && (mode == Buffered || fileSize == 0 ==> |stale| <= |j.file|)))
  {
    var r := Open(mode, fileSize, stale);
    var s := Run(r, j.codec, es);
    OpenAssembled(j, mode, fileSize, stale);
    RunAssembles(j, r, Content(r), es);
    Assembly(j, mode, fileSize, stale, es);
    if IsComplete(s) {
      CompleteIsFile(j, s, Content(r));
      if mode == Buffered {
        PatchWhole(s.partFile, s.buffer);
        FinalBuffer(j, s, Content(r), stale);
      }
    }
  }

  lemma FinalBuffer(j: Job, s: Receiver, initial: seq<byte>, stale: seq<byte>)
    requires s.mode == Buffered && s.partFile == stale && s.buffer == j.file + Tail(j, initial)
    ensures Patch(stale, 0, s.buffer) == j.file <==> |initial| <= |j.file| && |stale| <= |j.file|
  {
    PatchWhole(stale, s.buffer);
    if |initial| <= |j.file| {
      assert j.file + [] == j.file;
      if |stale| <= |j.file| {
        assert s.buffer + [] == j.file;
      }
    }
  }

  /** What `finalize` leaves when the announced size is the file's: the file, and where it was not cut to size the end
      of a longer old part file. */
  function FinalContent(j: Job, mode: Mode, stale: seq<byte>): seq<byte> {
    if mode == Buffered && |stale| > |j.file| then j.file + stale[|j.file|..] else j.file
  }

  lemma FinalContentIs(j: Job, r: Receiver, initial: seq<byte>, stale: seq<byte>)
    requires IsComplete(r) && |initial| == |j.file| && Content(r) == j.file + Tail(j, initial)
    requires r.mode == Buffered ==> r.partFile == stale
    ensures forall expected :: Finalize(r, j.codec, expected).0.partFile == FinalContent(j, r.mode, stale)
    ensures Finalize(r, j.codec, None).1 == Ok(FinalContent(j, r.mode, stale))
  {
    assert j.file + [] == j.file;
    if r.mode == Buffered {
      PatchWhole(stale, r.buffer);
    }
  }

  /** With the file's hash expected, and that hash telling the file from what an old part file would add, `finalize`
      succeeds exactly on a complete transfer without such an addition, and the file it leaves is the one sent. */
  lemma FinalizeChecksHash(j: Job, mode: Mode, stale: seq<byte>, es: seq<Event>)
    requires AllGenuine(j, es)
    requires j.codec.hash(FinalContent(j, mode, stale)) == j.codec.hash(j.file) ==>
               FinalContent(j, mode, stale) == j.file
    ensures var s := Run(Open(mode, |j.file|, stale), j.codec, es);
            var answer := Finalize(s, j.codec, Some(j.codec.hash(j.file))).1;
            && (answer.Ok? <==> IsComplete(s) && (mode == Buffered ==> |stale| <= |j.file|))
            && (answer.Ok? ==> answer.value == j.file)
            && (IsComplete(s) && answer.Err? ==> answer == Err(HashMismatch))
  {
    if IsComplete(Run(Open(mode, |j.file|, stale), j.codec, es)) {
      CompleteRunLeaves(j, mode, stale, es);
      FinalContentIsFileIff(j, mode, stale);
    }
  }

  lemma CompleteRunLeaves(j: Job, mode: Mode, stale: seq<byte>, es: seq<Event>)
    requires AllGenuine(j, es) && IsComplete(Run(Open(mode, |j.file|, stale), j.codec, es))
    ensures var s := Run(Open(mode, |j.file|, stale), j.codec, es);
            forall expected :: Finalize(s, j.codec, expected).0.partFile == FinalContent(j, mode, stale)
  {
    var r := Open(mode, |j.file|, stale);
    OpenAssembled(j, mode, |j.file|, stale);
    RunAssembles(j, r, Content(r), es);
    CompleteIsFile(j, Run(r, j.codec, es), Content(r));
    CountBounds(|j.file|, j.chunkSize);
    FinalContentIs(j, Run(r, j.codec, es), Content(r), stale);
  }

  lemma FinalContentIsFileIff(j: Job, mode: Mode, stale: seq<byte>)
    ensures FinalContent(j, mode, stale) == j.file <==> (mode == Buffered ==> |stale| <= |j.file|)
  {
  }

  // ----- when the completeness test is right -----

  /** Chunks of the file other than its last, requests and switches; damaged and unreadable packets too. */
  predicate Follows(c: Codec, total: nat, e: Event) {
    e.Deliver? ==>
      match Parse(c, e.raw)
      case Err(_) => true
      case Ok(v) => !v.endOfFile && v.chunkId < total
  }

  ghost predicate AllFollow(c: Codec, total: nat, es: seq<Event>) {
    forall e | e in es :: Follows(c, total, e)
  }

  /** Nothing received lies beyond the end. */
  predicate Within(r: Receiver) {
    forall k | k in r.received :: k < r.totalChunks
  }

  lemma {:induction false} FollowingKeeps(r: Receiver, c: Codec, es: seq<Event>)
    requires r.eofReceived && Within(r) && AllFollow(c, r.totalChunks, es)
    ensures var s := Run(r, c, es);
            s.eofReceived && s.totalChunks == r.totalChunks && Within(s)
  {
    if |es| > 0 {
      var front, last := es[..|es| - 1], es[|es| - 1];
      assert es == front + [last];
      FollowingKeeps(r, c, front);
      assert Follows(c, r.totalChunks, last);
    }
  }

  /** A packet with chunk `k` that is empty and not the last. */
  function EmptyPacket(c: Codec, k: nat): seq<byte> {
    c.encode(WirePacket(k, 0, 0, c.hash([]), false, [], 0, 0))
  }

  lemma EmptyPacketIs(c: Codec, r: Receiver, k: nat)
    requires Lawful(c)
    ensures Parse(c, EmptyPacket(c, k)) == Ok(View(k, 0, 0, c.hash([]), false, []))
    ensures var s := Receive(r, c, EmptyPacket(c, k)).0;
            s.received == r.received + {k} && s.eofReceived == r.eofReceived && s.totalChunks == r.totalChunks
  {
    assert c.decode(EmptyPacket(c, k)) == Some(WirePacket(k, 0, 0, c.hash([]), false, [], 0, 0));
    assert k in r.received ==> r.received + {k} == r.received;
  }

  function Filling(c: Codec, n: nat): (es: seq<Event>)
    ensures |es| == n
  {
    if n == 0 then [] else Filling(c, n - 1) + [Deliver(EmptyPacket(c, n - 1))]
  }

  lemma {:induction false} FillingFills(r: Receiver, c: Codec, total: nat, n: nat)
    requires Lawful(c) && n <= total
    ensures AllFollow(c, total, Filling(c, n))
    ensures var s := Run(r, c, Filling(c, n));
            s.received == r.received + Range(0, n) && s.eofReceived == r.eofReceived && s.totalChunks == r.totalChunks
  {
    if n > 0 {
      FillingFills(r, c, total, n - 1);
      assert Filling(c, n)[..n - 1] == Filling(c, n - 1);
      EmptyPacketIs(c, Run(r, c, Filling(c, n - 1)), n - 1);
      assert r.received + Range(0, n - 1) + {n - 1} == r.received + Range(0, n);
    }
  }

  /** The test is right whatever chunks of the file follow exactly when nothing was received beyond the end. Unlike
      the bitmap, the receiver goes on accepting such chunks after EOF. */
  lemma ExactForeverIff(r: Receiver, c: Codec)
    requires Lawful(c) && r.eofReceived
    ensures Within(r) <==> forall es | AllFollow(c, r.totalChunks, es) :: Exact(Run(r, c, es))
  {
    if Within(r) {
      forall es | AllFollow(c, r.totalChunks, es) ensures Exact(Run(r, c, es)) {
        FollowingKeeps(r, c, es);
        WithinCount(Run(r, c, es).received, r.totalChunks);
      }
    } else {
      var es := Filling(c, r.totalChunks);
      FillingFills(r, c, r.totalChunks, r.totalChunks);
      var k :| k in r.received && r.totalChunks <= k;
      assert k in Run(r, c, es).received;
      FilledCount(Run(r, c, es).received, r.totalChunks);
      assert !Exact(Run(r, c, es));
    }
  }

  // ----- the tracker -----

  /** The tracker never believes more than the receiver has. */
  ghost predicate Inside(r: Receiver) {
    r.tracker.Some? ==>
      r.auto && TrackerModel.Inv(r.tracker.value) && r.tracker.value.received <= r.received
  }

  /** Which chunks a request may pick. */
  ghost predicate Legal(r: Receiver, e: Event) {
    e.Ask? && r.tracker.Some? ==> IsPick(T.MarkAll(r.tracker.value), e.batchSize, e.picked)
  }

  lemma AskInside(r: Receiver, batchSize: nat, now: nat, picked: seq<nat>, linkUp: bool)
    requires Inside(r) && Legal(r, Ask(batchSize, now, picked, linkUp))
    ensures Inside(RequestMissing(r, now, picked, linkUp).0)
  {
    if r.tracker.Some? {
      T.RequestAllIs(r.tracker.value, batchSize, now, picked);
    }
  }

  lemma StepInside(r: Receiver, c: Codec, e: Event)
    requires Inside(r) && Legal(r, e)
    ensures Inside(Apply(r, c, e))
  {
    match e
    case Deliver(raw) =>
      match Parse(c, raw) {
        case Err(_) =>
        case Ok(v) =>
          NewInv(v.chunkId + 1, 5, 5000);
          if r.tracker.Some? {
            MarkInv(r.tracker.value, v.chunkId);
          }
      }
    case Ask(batchSize, now, picked, linkUp) => AskInside(r, batchSize, now, picked, linkUp);
    case SwitchOn =>
      NewInv(r.totalChunks, 5, 5000);
    case SwitchOff =>
  }

  ghost predicate LegalRun(r: Receiver, c: Codec, es: seq<Event>) {
    |es| > 0 ==> LegalRun(r, c, es[..|es| - 1]) && Legal(Run(r, c, es[..|es| - 1]), es[|es| - 1])
  }

  /** Over every run, also with packets that are not genuine. */
  lemma {:induction false} RunInside(r: Receiver, c: Codec, es: seq<Event>)
    requires Inside(r) && LegalRun(r, c, es)
    ensures Inside(Run(r, c, es))
  {
    if |es| > 0 {
      RunInside(r, c, es[..|es| - 1]);
      StepInside(Run(r, c, es[..|es| - 1]), c, es[|es| - 1]);
    }
  }

  /** A request with a large enough batch limit skips no chunk that is missing and has retries left, and names only
      chunks the tracker misses. */
  lemma RequestCoversMissing(r: Receiver, batchSize: nat, now: nat, picked: seq<nat>, linkUp: bool)
    requires Inside(r) && r.tracker.Some? && Legal(r, Ask(batchSize, now, picked, linkUp))
    requires batchSize >= r.tracker.value.total
    ensures var (s, answer) := RequestMissing(r, now, picked, linkUp);
            var t := r.tracker.value;
            && (forall id: nat | id < t.total && id !in r.received && CanRetry(t, id) :: id in picked)
            && (forall id: nat :: id in picked <==> id < t.total && id !in t.received && CanRetry(t, id))
            && s.outbox == (if picked == [] then r.outbox else r.outbox + [RetransmitRequest(picked)])
            && answer == (if linkUp || picked == [] then Ok(|picked|) else Err(SendFailed))
  {
    T.RequestAllIs(r.tracker.value, batchSize, now, picked);
  }

  /** What a request answers and sends: nothing without retransmission, an error without a tracker, and otherwise the
      chunks it picked, in one message if there are any. */
  lemma RequestAnswers(r: Receiver, batchSize: nat, now: nat, picked: seq<nat>, linkUp: bool)
    requires Inside(r) && Legal(r, Ask(batchSize, now, picked, linkUp))
    ensures var (s, answer) := RequestMissing(r, now, picked, linkUp);
            && (!r.auto ==> answer == Ok(0) && s == r)
            && (r.auto && r.tracker.None? ==> answer == Err(NoTracker) && s == r)
            && (r.auto && r.tracker.Some? ==>
                  && answer == (if linkUp || picked == [] then Ok(|picked|) else Err(SendFailed))
                  && s.outbox == (if picked == [] then r.outbox else r.outbox + [RetransmitRequest(picked)]))
  {
    if r.tracker.Some? {
      T.RequestAllIs(r.tracker.value, batchSize, now, picked);
    }
  }

  // ----- damaged packets are reported -----

  function Switched(on: bool, e: Event): bool {
    e == SwitchOn || (on && e != SwitchOff)
  }

  /** Whether retransmission is on after the events. */
  function OnAfter(on: bool, es: seq<Event>): bool {
    if |es| == 0 then on else Switched(OnAfter(on, es[..|es| - 1]), es[|es| - 1])
  }

  /** The chunk of a packet that can be read, has the length it says, and does not have the checksum it says. */
  function DamagedChunk(c: Codec, e: Event): Option<nat> {
    if !e.Deliver? || Parse(c, e.raw).Err? then None
    else
      var v := Parse(c, e.raw).value;
      if |v.data| == v.chunkLength && c.hash(v.data) != v.checksum then Some(v.chunkId) else None
  }

  /** What one event reports. */
  function Reported(c: Codec, on: bool, e: Event): seq<nat> {
    if on && DamagedChunk(c, e).Some? then [DamagedChunk(c, e).value] else []
  }

  /** The chunks of the damaged packets delivered while retransmission was on, in order. */
  function Damaged(c: Codec, on: bool, es: seq<Event>): seq<nat> {
    if |es| == 0 then []
    else
      var front := es[..|es| - 1];
      Damaged(c, on, front) + Reported(c, OnAfter(on, front), es[|es| - 1])
  }

  /** The chunks reported in the messages sent. */
  function Nacked(outbox: seq<ControlMessage>): seq<nat> {
    if |outbox| == 0 then []
    else
      Nacked(outbox[..|outbox| - 1]) +
      match outbox[|outbox| - 1] case Nack(id) => [id] case RetransmitRequest(_) => []
  }

  lemma NackedSnoc(outbox: seq<ControlMessage>, m: ControlMessage)
    ensures Nacked(outbox + [m]) == Nacked(outbox) + match m case Nack(id) => [id] case RetransmitRequest(_) => []
  {
    assert (outbox + [m])[..|outbox|] == outbox;
  }

  lemma DeliveryReports(r: Receiver, c: Codec, raw: seq<byte>)
    ensures var (s, id) := (Receive(r, c, raw).0, DamagedChunk(c, Deliver(raw)));
            && s.auto == r.auto
            && s.outbox == if r.auto && id.Some? then r.outbox + [Nack(id.value)] else r.outbox
  {
  }

  lemma RequestReports(r: Receiver, now: nat, picked: seq<nat>, linkUp: bool)
    ensures var s := RequestMissing(r, now, picked, linkUp).0;
            s.auto == r.auto && Nacked(s.outbox) == Nacked(r.outbox)
  {
    if r.auto && r.tracker.Some? {
      NackedSnoc(r.outbox, RetransmitRequest(BatchOf(T.MarkAll(r.tracker.value), now, picked)));
    }
  }

  lemma StepReports(r: Receiver, c: Codec, e: Event)
    ensures Apply(r, c, e).auto == Switched(r.auto, e)
    ensures Nacked(Apply(r, c, e).outbox) == Nacked(r.outbox) + Reported(c, r.auto, e)
  {
    assert Nacked(r.outbox) + [] == Nacked(r.outbox);
    match e
    case Deliver(raw) =>
      DeliveryReports(r, c, raw);
      if DamagedChunk(c, e).Some? {
        NackedSnoc(r.outbox, Nack(DamagedChunk(c, e).value));
      }
    case Ask(_, now, picked, linkUp) => RequestReports(r, now, picked, linkUp);
    case SwitchOn =>
    case SwitchOff =>
  }

  /** Over every run, the chunks reported as damaged are those of the damaged packets delivered while retransmission was
      on, each once for every such packet and in their order. */
  lemma {:induction false} DamageIsReported(r: Receiver, c: Codec, es: seq<Event>)
    ensures var s := Run(r, c, es);
            s.auto == OnAfter(r.auto, es) && Nacked(s.outbox) == Nacked(r.outbox) + Damaged(c, r.auto, es)
  {
    if |es| == 0 {
      assert Nacked(r.outbox) + [] == Nacked(r.outbox);
    } else {
      var front, last := es[..|es| - 1], es[|es| - 1];
      DamageIsReported(r, c, front);
      StepReports(Run(r, c, front), c, last);
      ConcatAssoc(Nacked(r.outbox), Damaged(c, r.auto, front), Reported(c, OnAfter(r.auto, front), last));
    }
  }

  /** The receiver's events as its tracker sees them. */
  function Seen(r: Receiver, c: Codec, e: Event): seq<T.Event> {
    match e
    case Deliver(raw) =>
      (match Parse(c, raw)
       case Err(_) => []
       case Ok(v) =>
         if !SizesAgree(v) then []
         else if !ChecksumMatches(c, v) then [T.GotCorrupt(v.chunkId)]
         else if v.chunkId in r.received then []
         else [T.GotChunk(v.chunkId)])
    case Ask(batchSize, now, picked, _) => [T.FullRequest(batchSize, now, picked)]
    case SwitchOn => []
    case SwitchOff => []
  }

  function AllSeen(r: Receiver, c: Codec, es: seq<Event>): seq<T.Event> {
    if |es| == 0 then []
    else AllSeen(r, c, es[..|es| - 1]) + Seen(Run(r, c, es[..|es| - 1]), c, es[|es| - 1])
  }

  /** Chunks asked for in the messages sent. */
  function AskedFor(outbox: seq<ControlMessage>): nat {
    if |outbox| == 0 then 0
    else AskedFor(outbox[..|outbox| - 1]) +
         match outbox[|outbox| - 1] case Nack(_) => 0 case RetransmitRequest(ids) => |ids|
  }

  lemma AskedForSnoc(outbox: seq<ControlMessage>, m: ControlMessage)
    ensures AskedFor(outbox + [m]) == AskedFor(outbox) + match m case Nack(_) => 0 case RetransmitRequest(ids) => |ids|
  {
    assert (outbox + [m])[..|outbox|] == outbox;
  }

  lemma StepSeen(r: Receiver, c: Codec, e: Event)
    requires Inside(r) && r.tracker.Some? && Legal(r, e) && e != SwitchOff
    ensures var s, t := Apply(r, c, e), r.tracker.value;
            var seen := Seen(r, c, e);
            if seen == [] then s.tracker == Some(t) && AskedFor(s.outbox) == AskedFor(r.outbox)
            else
              && |seen| == 1 && T.Legal(t, seen[0]) && s.tracker == Some(T.Apply(t, seen[0]))
              && AskedFor(s.outbox) == AskedFor(r.outbox) + T.Requested(t, seen[0])
  {
    match e
    case Deliver(raw) =>
      match Parse(c, raw) {
        case Err(_) =>
        case Ok(v) => AskedForSnoc(r.outbox, Nack(v.chunkId));
      }
    case Ask(batchSize, now, picked, _) =>
      AskedForSnoc(r.outbox, RetransmitRequest(BatchOf(T.MarkAll(r.tracker.value), now, picked)));
    case SwitchOn =>
  }

  /** As long as retransmission stays on, the receiver's tracker is a tracker run. */
  lemma {:induction false} RunSeen(r: Receiver, c: Codec, es: seq<Event>)
    requires Inside(r) && r.tracker.Some? && LegalRun(r, c, es) && SwitchOff !in es
    ensures var t := r.tracker.value;
            && T.LegalRun(t, AllSeen(r, c, es))
            && Run(r, c, es).tracker == Some(T.Run(t, AllSeen(r, c, es)))
            && AskedFor(Run(r, c, es).outbox) == AskedFor(r.outbox) + T.TotalRequested(t, AllSeen(r, c, es))
  {
    if |es| > 0 {
      var front, last := es[..|es| - 1], es[|es| - 1];
      assert forall e :: e in front ==> e in es;
      assert last in es;
      RunSeen(r, c, front);
      RunInside(r, c, front);
      StepSeen(Run(r, c, front), c, last);
      var before, now := AllSeen(r, c, front), Seen(Run(r, c, front), c, last);
      if now == [] {
        assert before + now == before;
      } else {
        assert (before + now)[..|before + now| - 1] == before;
      }
    }
  }

  /** Bounded retransmission: however a run goes, the receiver asks for at most the chunk count times the retry
      limit, and a chunk missing at as many full requests as the retry limit has been received or is reported as
      failed. */
  lemma RetransmissionIsBounded(r: Receiver, c: Codec, es: seq<Event>, id: nat)
    requires Inside(r) && r.tracker.Some? && LegalRun(r, c, es) && SwitchOff !in es
    ensures var t := r.tracker.value;
            && Run(r, c, es).tracker.Some?
            && AskedFor(Run(r, c, es).outbox) - AskedFor(r.outbox) <= t.total * t.maxRetries
            && (id < t.total && T.MissedRequests(t, AllSeen(r, c, es), id) >= t.maxRetries ==>
                  id in Run(r, c, es).received || Failed(Run(r, c, es).tracker.value, id))
  {
    var t, seen := r.tracker.value, AllSeen(r, c, es);
    RunSeen(r, c, es);
    RunInside(r, c, es);
    T.RunInv(t, seen);
    SumBound(T.Run(t, seen).retries, t.maxRetries);
    if id < t.total && T.MissedRequests(t, seen, id) >= t.maxRetries {
      T.ReceivedOrFailed(t, seen, id);
    }
  }

  // ----- the budget across switches -----

  /** How often retransmission is switched off, which discards the tracker and its counts. */
  function SwitchesOff(es: seq<Event>): nat {
    if |es| == 0 then 0 else SwitchesOff(es[..|es| - 1]) + if es[|es| - 1] == SwitchOff then 1 else 0
  }

  function Spent(r: Receiver): nat {
    if r.tracker.Some? then Sum(r.tracker.value.retries) else 0
  }

  /** The tracker, if any, is for `total` chunks, and accounts for all requests but the first `base`. */
  ghost predicate Budgeted(r: Receiver, total: nat, base: nat) {
    && Inside(r)
    && (r.tracker.Some? ==> r.tracker.value.total == total && r.tracker.value.maxRetries == 5)
    && AskedFor(r.outbox) <= base + Spent(r)
  }

  lemma SpentBound(r: Receiver, total: nat, base: nat)
    requires Budgeted(r, total, base)
    ensures Spent(r) <= total * 5
  {
    if r.tracker.Some? {
      SumBound(r.tracker.value.retries, 5);
    }
  }

  lemma BudgetStep(j: Job, r: Receiver, initial: seq<byte>, e: Event, base: nat)
    requires Assembled(j, r, initial) && (e.Deliver? ==> Genuine(j, e.raw))
    requires Legal(r, e) && Budgeted(r, Count(j), base)
    ensures Budgeted(Apply(r, j.codec, e), Count(j), if e == SwitchOff then base + Count(j) * 5 else base)
  {
    StepInside(r, j.codec, e);
    if e == SwitchOff {
      SpentBound(r, Count(j), base);
    } else if r.tracker.Some? {
      BudgetGoesOn(r, j.codec, e, Count(j), base);
    } else {
      BudgetOpens(j, r, initial, e);
    }
  }

  /** With a tracker, what is asked for is spent. */
  lemma BudgetGoesOn(r: Receiver, c: Codec, e: Event, total: nat, base: nat)
    requires Legal(r, e) && Budgeted(r, total, base) && r.tracker.Some? && e != SwitchOff
    ensures Budgeted(Apply(r, c, e), total, base)
  {
    StepInside(r, c, e);
    StepSeen(r, c, e);
    var seen := Seen(r, c, e);
    if seen != [] {
      T.StepInv(r.tracker.value, seen[0]);
    }
  }

  /** A new tracker starts with nothing spent. */
  lemma BudgetOpens(j: Job, r: Receiver, initial: seq<byte>, e: Event)
    requires Assembled(j, r, initial) && (e.Deliver? ==> Genuine(j, e.raw)) && r.tracker.None?
    ensures var s := Apply(r, j.codec, e);
            && AskedFor(s.outbox) == AskedFor(r.outbox)
            && (s.tracker.Some? ==> s.tracker.value.total == Count(j) && s.tracker.value.maxRetries == 5)
  {
    match e
    case Deliver(raw) => DeliveryOpens(j, r, raw);
    case Ask(_, _, _, _) =>
    case SwitchOn =>
    case SwitchOff =>
  }

  lemma DeliveryOpens(j: Job, r: Receiver, raw: seq<byte>)
    requires Genuine(j, raw) && r.tracker.None?
    ensures var s := Receive(r, j.codec, raw).0;
            && AskedFor(s.outbox) == AskedFor(r.outbox)
            && (s.tracker.Some? ==> s.tracker.value.total == Count(j) && s.tracker.value.maxRetries == 5)
  {
    if Parse(j.codec, raw).Ok? {
      AskedForSnoc(r.outbox, Nack(Parse(j.codec, raw).value.chunkId));
    }
  }

  lemma {:induction false} BudgetRun(j: Job, r: Receiver, initial: seq<byte>, es: seq<Event>)
    requires Assembled(j, r, initial) && AllGenuine(j, es) && LegalRun(r, j.codec, es) && Budgeted(r, Count(j), 0)
    ensures Budgeted(Run(r, j.codec, es), Count(j), Budget(SwitchesOff(es), Count(j)))
  {
    if |es| > 0 {
      var front, last := es[..|es| - 1], es[|es| - 1];
      assert es == front + [last];
      BudgetRun(j, r, initial, front);
      RunAssembles(j, r, initial, front);
      BudgetStep(j, Run(r, j.codec, front), initial, last, Budget(SwitchesOff(front), Count(j)));
    }
  }

  /** What `lost` trackers for `total` chunks may have asked for. */
  function Budget(lost: nat, total: nat): nat {
    if lost == 0 then 0 else Budget(lost - 1, total) + total * 5
  }

  lemma {:induction false} BudgetIs(lost: nat, total: nat)
    ensures Budget(lost, total) == lost * (total * 5)
  {
    if lost > 0 {
      BudgetIs(lost - 1, total);
      assert lost * (total * 5) == (lost - 1) * (total * 5) + total * 5;
    }
  }

  lemma WithinBudget(r: Receiver, total: nat, lost: nat)
    requires Budgeted(r, total, Budget(lost, total))
    ensures AskedFor(r.outbox) <= (lost + 1) * (total * 5)
  {
    SpentBound(r, total, Budget(lost, total));
    BudgetIs(lost + 1, total);
  }

  /** Over every run of genuine packets, requests and switches, the chunks asked for number at most the chunk count
      times the retry limit, once more for every time that retransmission is switched off. */
  lemma RequestsBoundedAcrossSwitches(j: Job, mode: Mode, fileSize: nat, stale: seq<byte>, es: seq<Event>)
    requires AllGenuine(j, es) && LegalRun(Open(mode, fileSize, stale), j.codec, es)
    ensures AskedFor(Run(Open(mode, fileSize, stale), j.codec, es).outbox) <= (SwitchesOff(es) + 1) * (Count(j) * 5)
  {
    var r := Open(mode, fileSize, stale);
    OpenAssembled(j, mode, fileSize, stale);
    BudgetRun(j, r, Content(r), es);
    WithinBudget(Run(r, j.codec, es), Count(j), SwitchesOff(es));
  }

  lemma {:induction false} RunAppend(r: Receiver, c: Codec, a: seq<Event>, b: seq<Event>)
    ensures Run(r, c, a + b) == Run(Run(r, c, a), c, b)
    ensures LegalRun(r, c, a) && LegalRun(Run(r, c, a), c, b) ==> LegalRun(r, c, a + b)
    decreases |b|
  {
    if |b| == 0 {
      assert a + b == a;
    } else {
      RunAppend(r, c, a, b[..|b| - 1]);
      assert (a + b)[..|a + b| - 1] == a + b[..|b| - 1];
    }
  }
}
