/** The server's receive loop (src/server/transfer.rs, `receive_file_integrated`): reads are deframed, packets go to
    the file receiver, and accepted packets are counted into a bitmap. */
module ServerModel {
  import opened Bytes
  import opened Chunking
  import opened Collections
  import opened Packets
  import opened Chunkers
  import opened Framing
  import opened ChunkMarks
  import R = ReceiverModel
  import RR = ReceiverRuns

  datatype Session = Session(receiver: R.Receiver, marks: Marks, accepted: nat)

  /** One packet: the bitmap is indexed by the number of packets accepted so far, duplicates included. */
  function Arrive(s: Session, c: Codec, total: nat, raw: seq<byte>): Session {
    var (r, answer) := R.Receive(s.receiver, c, raw);
    if answer.Err? then s.(receiver := r)
    else Session(r, Mark(s.marks, s.accepted % U32_LIMIT, s.accepted + 1 == total), s.accepted + 1)
  }

  function ArriveAll(s: Session, c: Codec, total: nat, packets: seq<seq<byte>>): Session
    decreases |packets|
  {
    if |packets| == 0 then s else ArriveAll(Arrive(s, c, total, packets[0]), c, total, packets[1..])
  }

  lemma {:induction false} ArriveSnoc(s: Session, c: Codec, total: nat, packets: seq<seq<byte>>, raw: seq<byte>)
    ensures ArriveAll(s, c, total, packets + [raw]) == Arrive(ArriveAll(s, c, total, packets), c, total, raw)
    decreases |packets|
  {
    if |packets| == 0 {
      assert packets + [raw] == [raw];
      assert ArriveAll(Arrive(s, c, total, raw), c, total, [raw][1..]) == Arrive(s, c, total, raw);
    } else {
      ArriveSnoc(Arrive(s, c, total, packets[0]), c, total, packets[1..], raw);
      assert (packets + [raw])[1..] == packets[1..] + [raw];
    }
  }

  lemma ArriveNext(s: Session, c: Codec, total: nat, packets: seq<seq<byte>>, n: nat)
    requires n < |packets|
    ensures ArriveAll(s, c, total, packets[..n + 1])
         == Arrive(ArriveAll(s, c, total, packets[..n]), c, total, packets[n])
  {
    ArriveSnoc(s, c, total, packets[..n], packets[n]);
    assert packets[..n + 1] == packets[..n] + [packets[n]];
  }

  lemma {:induction false} ArriveInTwo(s: Session, c: Codec, total: nat, a: seq<seq<byte>>, b: seq<seq<byte>>)
    ensures ArriveAll(s, c, total, a + b) == ArriveAll(ArriveAll(s, c, total, a), c, total, b)
    decreases |b|
  {
    if |b| == 0 {
      assert a + b == a;
    } else {
      ArriveSnoc(s, c, total, a, b[0]);
      ArriveInTwo(s, c, total, a + [b[0]], b[1..]);
      assert a + b == a + [b[0]] + b[1..];
    }
  }

  // ----- the arrival bitmap -----

  /** The bitmap never has to grow: by the time the counter passes the chunk count, EOF has been recorded. */
  predicate Room(s: Session, total: nat) {
    && 0 < total && total + 7 < U32_LIMIT
    && s.marks.total == Some(total) && s.marks.capacity == total
    && (total - 1 in s.marks.ids ==> s.marks.haveEof)
    && (s.accepted >= total ==> s.marks.haveEof)
  }

  lemma ArriveRoom(s: Session, c: Codec, total: nat, raw: seq<byte>)
    requires Room(s, total)
    ensures Room(Arrive(s, c, total, raw), total)
    ensures CapacityFor(s.marks, s.accepted % U32_LIMIT) == total
  {
    if s.accepted < total {
      assert s.accepted % U32_LIMIT == s.accepted;
    }
  }

  /** The bitmap records the first chunks up to the number accepted, on top of what it was told at the start. */
  ghost predicate Counts(s: Session, total: nat, ids: set<nat>) {
    && 0 < total && total + 7 < U32_LIMIT
    && Tracks(s.marks, Some(total), total, ids + Range(0, Min(s.accepted, total)))
    && s.marks.capacity == total
  }

  lemma ArriveCounts(s: Session, c: Codec, total: nat, ids: set<nat>, raw: seq<byte>)
    requires Counts(s, total, ids)
    ensures Counts(Arrive(s, c, total, raw), total, ids)
    ensures CapacityFor(s.marks, s.accepted % U32_LIMIT) == total
  {
    var n := s.accepted;
    var now := ids + Range(0, Min(n, total));
    if n < total {
      assert n % U32_LIMIT == n;
      TracksStep(s.marks, Some(total), total, now, n);
      assert ids + Range(0, n + 1) == now + {n};
    } else {
      assert total - 1 in Range(0, total);
      var k := n % U32_LIMIT;
      assert k < total ==> k in Range(0, total);
      assert Mark(s.marks, k, n + 1 == total) == s.marks;
    }
  }

  lemma {:induction false} ArriveAllCounts(s: Session, c: Codec, total: nat, ids: set<nat>, packets: seq<seq<byte>>)
    requires Counts(s, total, ids)
    ensures Counts(ArriveAll(s, c, total, packets), total, ids)
    decreases |packets|
  {
    if |packets| > 0 {
      ArriveCounts(s, c, total, ids, packets[0]);
      ArriveAllCounts(Arrive(s, c, total, packets[0]), c, total, ids, packets[1..]);
    }
  }

  // ----- a whole transfer -----

  function Fresh(mode: R.Mode, fileSize: nat, stale: seq<byte>, total: nat): Session {
    Session(R.Open(mode, fileSize, stale), Marks({}, Some(total), false, total), 0)
  }

  lemma FreshCounts(mode: R.Mode, fileSize: nat, stale: seq<byte>, total: nat)
    requires 0 < total && total + 7 < U32_LIMIT
    ensures Counts(Fresh(mode, fileSize, stale, total), total, {})
  {
    assert {} + Range(0, 0) == {};
  }

  /** The packets of a job that frame without truncation. */
  ghost predicate Sendable(j: Job) {
    && Lawful(j.codec) && AllBuild(j) && 0 < Count(j) && Count(j) + 7 < U32_LIMIT
    && forall i: nat | i < Count(j) :: |PacketsFrom(j, 0)[i]| < U32_LIMIT
  }

  /** The first `n` packets in order are all new: receiver and bitmap both have exactly the chunks below `n`. */
  ghost predicate InOrder(j: Job, s: Session, initial: seq<byte>, n: nat) {
    && R.Assembled(j, s.receiver, initial)
    && s.receiver.received == Range(0, n)
    && s.accepted == n
    && Counts(s, Count(j), {})
  }

  lemma PacketArrives(j: Job, s: Session, initial: seq<byte>, k: nat)
    requires Lawful(j.codec) && k < Count(j) && PacketOf(j, k).Ok? && R.Assembled(j, s.receiver, initial)
    ensures var t := Arrive(s, j.codec, Count(j), PacketOf(j, k).value);
            && R.Assembled(j, t.receiver, initial)
            && t.receiver.received == s.receiver.received + {k}
            && t.accepted == s.accepted + 1
  {
    R.PacketIsGenuine(j, k);
    R.ReceiveAssembles(j, s.receiver, initial, PacketOf(j, k).value);
  }

  lemma {:induction false} PacketsInOrder(j: Job, s: Session, initial: seq<byte>, n: nat)
    requires Sendable(j) && n <= Count(j) && InOrder(j, s, initial, 0)
    ensures InOrder(j, ArriveAll(s, j.codec, Count(j), PacketsFrom(j, 0)[..n]), initial, n)
  {
    var all := PacketsFrom(j, 0);
    if n > 0 {
      PacketsInOrder(j, s, initial, n - 1);
      var t := ArriveAll(s, j.codec, Count(j), all[..n - 1]);
      ArriveNext(s, j.codec, Count(j), all, n - 1);
      PacketsFromAt(j, 0, n - 1);
      PacketArrives(j, t, initial, n - 1);
      ArriveCounts(t, j.codec, Count(j), {}, all[n - 1]);
      assert Range(0, n - 1) + {n - 1} == Range(0, n);
    } else {
      assert all[..0] == [];
    }
  }

  /** What has been handed over after some of the reads is a prefix of what all of them hand over. */
  lemma {:induction false} FeedPrefix(segments: seq<seq<byte>>, m: nat)
    requires m <= |segments|
    ensures Feed(FRESH, segments[..m]).0 <= Feed(FRESH, segments).0
    decreases |segments|
  {
    if m < |segments| {
      var front := segments[..|segments| - 1];
      FeedPrefix(front, m);
      assert front[..m] == segments[..m];
    } else {
      assert segments[..m] == segments;
    }
  }

  lemma FeedOfFrames(packets: seq<seq<byte>>, segments: seq<seq<byte>>)
    requires forall i: nat | i < |packets| :: |packets[i]| < U32_LIMIT
    requires Concat(segments) == FrameAll(packets)
    ensures Feed(FRESH, segments).0 == packets
  {
    SegmentationIndependence(segments);
    FramesParse(packets, []);
    assert FrameAll(packets) + [] == FrameAll(packets);
  }

  /** Some of the reads hand over the first packets, all of the reads hand over all of them. */
  lemma FirstFed(packets: seq<seq<byte>>, segments: seq<seq<byte>>, m: nat) returns (n: nat)
    requires forall i: nat | i < |packets| :: |packets[i]| < U32_LIMIT
    requires Concat(segments) == FrameAll(packets) && m <= |segments|
    ensures n <= |packets| && Feed(FRESH, segments[..m]).0 == packets[..n]
    ensures m == |segments| ==> n == |packets|
  {
    FeedOfFrames(packets, segments);
    FeedPrefix(segments, m);
    n := |Feed(FRESH, segments[..m]).0|;
    assert segments[..|segments|] == segments;
  }

  /** A session that has not seen a packet; its bitmap may know of an earlier transfer. */
  predicate Starts(s: Session, mode: R.Mode, fileSize: nat, stale: seq<byte>) {
    s.receiver == R.Open(mode, fileSize, stale)
  }

  /** End to end. The frames of a file's packets, cut into reads in any way: after any number of reads the
      receiver holds the chunks of the first packets in place and the bitmap says so; if it calls itself complete
      its content is the file; and after the last read it is complete. */
  lemma EndToEnd(j: Job, mode: R.Mode, stale: seq<byte>, segments: seq<seq<byte>>, m: nat)
    requires Sendable(j) && Concat(segments) == FrameAll(PacketsFrom(j, 0)) && m <= |segments|
    ensures var s := ArriveAll(Fresh(mode, |j.file|, stale, Count(j)), j.codec, Count(j), Feed(FRESH, segments[..m]).0);
            && s.marks.ids == s.receiver.received
            && (R.IsComplete(s.receiver) ==>
                  R.Finalize(s.receiver, j.codec, None).1 == Ok(RR.FinalContent(j, mode, stale)))
            && (m == |segments| ==> R.IsComplete(s.receiver))
  {
    var all := PacketsFrom(j, 0);
    var start := Fresh(mode, |j.file|, stale, Count(j));
    var initial := R.Content(start.receiver);
    var n := FirstFed(all, segments, m);
    R.OpenAssembled(j, mode, |j.file|, stale);
    FreshCounts(mode, |j.file|, stale, Count(j));
    PacketsInOrder(j, start, initial, n);
    var s := ArriveAll(start, j.codec, Count(j), all[..n]);
    assert {} + Range(0, n) == Range(0, n);
    R.CompleteIsFile(j, s.receiver, initial);
    if R.IsComplete(s.receiver) {
      DiskUntouched(start, j.codec, Count(j), all[..n]);
      RR.FinalContentIs(j, s.receiver, initial, stale);
    }
  }

  /** Each packet that can be built frames without truncation. */
  ghost predicate Framable(j: Job) {
    && Lawful(j.codec) && 0 < Count(j) && Count(j) + 7 < U32_LIMIT
    && forall k: nat | k < Count(j) :: PacketOf(j, k).Ok? ==> |PacketOf(j, k).value| < U32_LIMIT
  }

  ghost predicate Built(j: Job, ids: seq<nat>) {
    forall i: nat | i < |ids| :: ids[i] < Count(j) && PacketOf(j, ids[i]).Ok?
  }

  /** The packets of the chunks `ids`, in that order and as often as they occur. */
  ghost function PacketsOf(j: Job, ids: seq<nat>): (ps: seq<seq<byte>>)
    requires Built(j, ids)
    ensures |ps| == |ids| && forall i: nat | i < |ids| :: ps[i] == PacketOf(j, ids[i]).value
  {
    seq(|ids|, i requires 0 <= i < |ids| => PacketOf(j, ids[i]).value)
  }

  /** The receiver holds exactly the chunks `ids`, each in place. */
  ghost predicate Holding(j: Job, s: Session, initial: seq<byte>, ids: seq<nat>) {
    R.Assembled(j, s.receiver, initial) && s.receiver.received == Elements(ids)
  }

  lemma OneMoreHeld(j: Job, s: Session, initial: seq<byte>, ids: seq<nat>)
    requires Lawful(j.codec) && Built(j, ids) && |ids| > 0 && Holding(j, s, initial, ids[..|ids| - 1])
    ensures Holding(j, Arrive(s, j.codec, Count(j), PacketOf(j, ids[|ids| - 1]).value), initial, ids)
  {
    PacketArrives(j, s, initial, ids[|ids| - 1]);
    ElementsAppend(ids[..|ids| - 1], ids[|ids| - 1]);
    assert ids == ids[..|ids| - 1] + [ids[|ids| - 1]];
  }

  lemma OneMoreSent(j: Job, s: Session, ids: seq<nat>)
    requires Built(j, ids) && |ids| > 0
    ensures Built(j, ids[..|ids| - 1])
    ensures ArriveAll(s, j.codec, Count(j), PacketsOf(j, ids))
         == Arrive(ArriveAll(s, j.codec, Count(j), PacketsOf(j, ids[..|ids| - 1])), j.codec, Count(j),
                   PacketOf(j, ids[|ids| - 1]).value)
  {
    var front, raw := ids[..|ids| - 1], PacketOf(j, ids[|ids| - 1]).value;
    assert PacketsOf(j, ids) == PacketsOf(j, front) + [raw];
    ArriveSnoc(s, j.codec, Count(j), PacketsOf(j, front), raw);
  }

  lemma {:induction false} PacketsArrive(j: Job, s: Session, initial: seq<byte>, ids: seq<nat>)
    requires Lawful(j.codec) && Built(j, ids) && Holding(j, s, initial, [])
    ensures Holding(j, ArriveAll(s, j.codec, Count(j), PacketsOf(j, ids)), initial, ids)
  {
    if |ids| > 0 {
      var front := ids[..|ids| - 1];
      OneMoreSent(j, s, ids);
      PacketsArrive(j, s, initial, front);
      OneMoreHeld(j, ArriveAll(s, j.codec, Count(j), PacketsOf(j, front)), initial, ids);
    }
  }

  /** Whatever chunks are sent, in whatever order and cut, and whatever the bitmap was told before: the receiver
      never calls itself complete unless every chunk was sent, its content is then the file, and after the last read
      it is complete exactly if every chunk was sent. */
  lemma SentDecides(j: Job, start: Session, mode: R.Mode, stale: seq<byte>, ids: seq<nat>, segments: seq<seq<byte>>,
                    m: nat)
    requires Framable(j) && Starts(start, mode, |j.file|, stale)
    requires Built(j, ids) && Concat(segments) == FrameAll(PacketsOf(j, ids)) && m <= |segments|
    ensures var s := ArriveAll(start, j.codec, Count(j), Feed(FRESH, segments[..m]).0);
            && (R.IsComplete(s.receiver) ==> Elements(ids) == Range(0, Count(j)))
            && (R.IsComplete(s.receiver) ==>
                  R.Finalize(s.receiver, j.codec, None).1 == Ok(RR.FinalContent(j, mode, stale)))
            && (m == |segments| ==> (R.IsComplete(s.receiver) <==> Elements(ids) == Range(0, Count(j))))
  {
    var n := FirstFed(PacketsOf(j, ids), segments, m);
    assert PacketsOf(j, ids)[..n] == PacketsOf(j, ids[..n]);
    FirstDecide(j, start, mode, stale, ids[..n]);
    assert ids[..|ids|] == ids;
    if Elements(ids[..n]) == Range(0, Count(j)) {
      SentAtLeast(j, ids, n);
    }
  }

  /** The same after all packets. */
  lemma FirstDecide(j: Job, start: Session, mode: R.Mode, stale: seq<byte>, ids: seq<nat>)
    requires Framable(j) && Built(j, ids) && Starts(start, mode, |j.file|, stale)
    ensures var s := ArriveAll(start, j.codec, Count(j), PacketsOf(j, ids));
            && (R.IsComplete(s.receiver) <==> Elements(ids) == Range(0, Count(j)))
            && (R.IsComplete(s.receiver) ==>
                  R.Finalize(s.receiver, j.codec, None).1 == Ok(RR.FinalContent(j, mode, stale)))
  {
    var packets := PacketsOf(j, ids);
    var initial := R.Content(start.receiver);
    R.OpenAssembled(j, mode, |j.file|, stale);
    PacketsArrive(j, start, initial, ids);
    var s := ArriveAll(start, j.codec, Count(j), packets);
    R.CompleteIsFile(j, s.receiver, initial);
    if R.IsComplete(s.receiver) {
      DiskUntouched(start, j.codec, Count(j), packets);
      RR.FinalContentIs(j, s.receiver, initial, stale);
    }
  }

  lemma SentAtLeast(j: Job, ids: seq<nat>, n: nat)
    requires Built(j, ids) && n <= |ids| && Elements(ids[..n]) == Range(0, Count(j))
    ensures Elements(ids) == Range(0, Count(j))
  {
    forall k: nat | k < Count(j) ensures k in Elements(ids) {
      assert k in Elements(ids[..n]);
    }
  }

  lemma {:induction false} DiskUntouched(s: Session, c: Codec, total: nat, packets: seq<seq<byte>>)
    ensures var t := ArriveAll(s, c, total, packets);
            t.receiver.mode == s.receiver.mode &&
            (s.receiver.mode == R.Buffered ==> t.receiver.partFile == s.receiver.partFile)
    decreases |packets|
  {
    if |packets| > 0 {
      DiskUntouched(Arrive(s, c, total, packets[0]), c, total, packets[1..]);
    }
  }
}
