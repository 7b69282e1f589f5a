/** Short runs that show where the receiver's tracker and the client's bitmap go wrong, for any job with two chunks and
    for one with the sample codec. */
module SampleRuns {
  import opened Bytes
  import opened Collections
  import opened Chunking
  import opened Packets
  import opened Chunkers
  import opened TrackerModel
  import T = TrackerRuns
  import opened ReceiverModel
  import opened ReceiverRuns
  import opened Staleness
  import opened ResumeModel
  import SampleCodec

  // ----- a damaged copy of a chunk that has arrived -----

  /** An intact header and checksum for chunk 0, and other data. */
  predicate DamagedFirst(j: Job, raw: seq<byte>) {
    Genuine(j, raw) && Parse(j.codec, raw).Ok? &&
    var v := Parse(j.codec, raw).value;
    SizesAgree(v) && !ChecksumMatches(j.codec, v) && v.chunkId == 0
  }

  ghost predicate TwoChunks(j: Job) {
    Lawful(j.codec) && Count(j) == 2 && PacketOf(j, 0).Ok? && PacketOf(j, 1).Ok?
  }

  ghost function Arrivals(j: Job, damaged: seq<byte>): seq<Event>
    requires TwoChunks(j)
  {
    [SwitchOn, Deliver(PacketOf(j, 0).value), Deliver(PacketOf(j, 1).value), Deliver(damaged)]
  }

  function Requests(now: nat, n: nat): (es: seq<Event>)
    ensures |es| == n && SwitchOff !in es
  {
    if n == 0 then [] else Requests(now, n - 1) + [Ask(2, now, [0], true)]
  }

  /** Both chunks are there, and a tracker that misses chunk 0 has requested it `spent` times. */
  ghost predicate Misled(r: Receiver, spent: nat) {
    && Inside(r) && r.auto && r.tracker.Some? && r.received == {0, 1}
    && r.tracker.value.total == 2 && r.tracker.value.maxRetries == 5
    && r.tracker.value.received == {1} && r.tracker.value.retries[0] == spent
    && r.eofReceived && r.totalChunks == 2
  }

  lemma DeliverStep(j: Job, r: Receiver, k: nat)
    requires TwoChunks(j) && k < 2
    ensures Parse(j.codec, PacketOf(j, k).value).Ok?
    ensures var v := Parse(j.codec, PacketOf(j, k).value).value;
            && SizesAgree(v) && ChecksumMatches(j.codec, v) && v.chunkId == k && (v.endOfFile <==> k == 1)
  {
    PacketIsGenuine(j, k);
    PacketParses(j, k);
  }

  lemma ArrivalsMislead(j: Job, mode: Mode, stale: seq<byte>, damaged: seq<byte>)
    requires TwoChunks(j) && DamagedFirst(j, damaged)
    ensures var r := Open(mode, |j.file|, stale);
            LegalRun(r, j.codec, Arrivals(j, damaged)) && Misled(Run(r, j.codec, Arrivals(j, damaged)), 0)
  {
    var c, r := j.codec, Open(mode, |j.file|, stale);
    var es := Arrivals(j, damaged);
    DeliverStep(j, r, 0);
    DeliverStep(j, r, 1);
    var r1 := Apply(r, c, es[0]);
    var r2 := Apply(r1, c, es[1]);
    var r3 := Apply(r2, c, es[2]);
    assert r2.received == {0} && r2.tracker == None && r2.auto;
    assert r3.received == {0, 1} && r3.tracker == Some(New(2, 5, 5000).(received := {0, 1}));
    var r4 := Apply(r3, c, es[3]);
    assert r4.tracker == Some(Corrupted(r3.tracker.value, 0));
    assert {0, 1} - {0} == {1};
    FourSteps(r, c, es);
    NewInv(2, 5, 5000);
    assert Inside(r);
    RunInside(r, c, es);
  }

  lemma FourSteps(r: Receiver, c: Codec, es: seq<Event>)
    requires |es| == 4 && forall e | e in es :: !e.Ask?
    ensures Run(r, c, es) == Apply(Apply(Apply(Apply(r, c, es[0]), c, es[1]), c, es[2]), c, es[3])
    ensures LegalRun(r, c, es)
  {
    assert es[..3][..2] == es[..2] && es[..2][..1] == es[..1] && es[..1][..0] == [];
    assert Run(r, c, es[..1]) == Apply(r, c, es[0]);
    assert LegalRun(r, c, []);
    assert LegalRun(r, c, es[..1]);
    assert LegalRun(r, c, es[..2]);
    assert LegalRun(r, c, es[..3]);
  }

  /** A full request of a misled receiver asks for chunk 0 again. */
  lemma RequestStep(r: Receiver, c: Codec, now: nat, spent: nat)
    requires Misled(r, spent) && spent < 5
    ensures Legal(r, Ask(2, now, [0], true))
    ensures Misled(Apply(r, c, Ask(2, now, [0], true)), spent + 1)
  {
    var t := r.tracker.value;
    T.MarkAllIs(t);
    assert Ready(T.MarkAll(t)) == {0};
    assert Elements([0]) == {0};
    T.RequestAllIs(t, 2, now, [0]);
    T.RetriesAfter(T.MarkAll(t), now, [0]);
    AskInside(r, 2, now, [0], true);
  }

  lemma {:induction false} RequestsRun(r: Receiver, c: Codec, now: nat, n: nat)
    requires Misled(r, 0) && n <= 5
    ensures LegalRun(r, c, Requests(now, n)) && Misled(Run(r, c, Requests(now, n)), n)
  {
    if n > 0 {
      var front := Requests(now, n - 1);
      RequestsRun(r, c, now, n - 1);
      assert Requests(now, n)[..n - 1] == front;
      RequestStep(Run(r, c, front), c, now, n - 1);
    }
  }

  lemma MisledToTheEnd(r: Receiver)
    requires Misled(r, 5)
    ensures 0 in r.received && IsComplete(r) && Failed(r.tracker.value, 0)
  {
  }

  /** Chunk 0, the last chunk, a damaged copy of chunk 0, five requests: chunk 0 has been received, the transfer is
      complete, and chunk 0 is reported as failed. */
  lemma DamagedCopyEndsAsFailed(j: Job, mode: Mode, stale: seq<byte>, damaged: seq<byte>, now: nat)
    requires TwoChunks(j) && DamagedFirst(j, damaged)
    ensures var r := Open(mode, |j.file|, stale);
            var es := Arrivals(j, damaged) + Requests(now, 5);
            var s := Run(r, j.codec, es);
            && LegalRun(r, j.codec, es)
            && 0 in s.received && IsComplete(s)
            && s.tracker.Some? && Failed(s.tracker.value, 0)
  {
    var r := Open(mode, |j.file|, stale);
    var misled := Run(r, j.codec, Arrivals(j, damaged));
    ArrivalsMislead(j, mode, stale, damaged);
    RequestsRun(misled, j.codec, now, 5);
    RunAppend(r, j.codec, Arrivals(j, damaged), Requests(now, 5));
    MisledToTheEnd(Run(misled, j.codec, Requests(now, 5)));
  }

  // ----- a chunk beyond the end -----

  /** A packet without data. */
  function BarePacket(c: Codec, k: nat, eof: bool): seq<byte> {
    c.encode(WirePacket(k, 0, 0, c.hash([]), eof, [], 0, 0))
  }

  lemma BarePacketIs(c: Codec, k: nat, eof: bool)
    requires Lawful(c)
    ensures Parse(c, BarePacket(c, k, eof)) == Ok(View(k, 0, 0, c.hash([]), eof, []))
  {
    assert c.decode(BarePacket(c, k, eof)) == Some(WirePacket(k, 0, 0, c.hash([]), eof, [], 0, 0));
  }

  /** Chunk 5, then the last chunk with id 1: the receiver calls itself complete and finalizes, and chunk 0 has never
      arrived. */
  lemma CountedButIncomplete(c: Codec, mode: Mode, fileSize: nat, stale: seq<byte>)
    requires Lawful(c)
    ensures var es := [Deliver(BarePacket(c, 5, false)), Deliver(BarePacket(c, 1, true))];
            var s := Run(Open(mode, fileSize, stale), c, es);
            IsComplete(s) && MissingChunks(s) == [0] && Finalize(s, c, None).1.Ok?
  {
    var r := Open(mode, fileSize, stale);
    var es := [Deliver(BarePacket(c, 5, false)), Deliver(BarePacket(c, 1, true))];
    BarePacketIs(c, 5, false);
    BarePacketIs(c, 1, true);
    assert es[..1] == [es[0]] && es[..1][..0] == [];
    var s1 := Apply(r, c, es[0]);
    assert Run(r, c, es[..1]) == s1;
    var s := Apply(s1, c, es[1]);
    assert Run(r, c, es) == s;
    assert s.received == {5, 1} && s.totalChunks == 2 && s.eofReceived;
    assert Absent(s.received, 0, 0) == [];
    assert Absent(s.received, 0, 1) == [0];
  }

  // ----- retransmission switched on too late -----

  /** Both chunks arrive at a receiver without retransmission. */
  lemma BothArrive(j: Job, mode: Mode, stale: seq<byte>)
    requires TwoChunks(j)
    ensures var first := Apply(Open(mode, |j.file|, stale), j.codec, Deliver(PacketOf(j, 0).value));
            var r := Apply(first, j.codec, Deliver(PacketOf(j, 1).value));
            r.received == {0, 1} && r.totalChunks == 2 && r.eofReceived && r.tracker == None
  {
    var c, r := j.codec, Open(mode, |j.file|, stale);
    DeliverStep(j, r, 0);
    DeliverStep(j, r, 1);
    var r1 := Apply(r, c, Deliver(PacketOf(j, 0).value));
    assert r1.received == {0} && r1.tracker == None && !r1.auto;
    var r2 := Apply(r1, c, Deliver(PacketOf(j, 1).value));
    assert r2.received == {0, 1};
  }

  /** A tracker made now misses every chunk. */
  lemma SwitchedOnLate(r: Receiver, c: Codec)
    requires r.received == {0, 1} && r.totalChunks == 2 && r.eofReceived && r.tracker == None
    ensures var s := Apply(r, c, SwitchOn);
            IsComplete(s) && Stale(s, 0) && Stale(s, 1)
  {
    var s := Apply(r, c, SwitchOn);
    assert s.tracker == Some(New(2, 5, 5000));
  }

  lemma ThreeSteps(r: Receiver, c: Codec, es: seq<Event>)
    requires |es| == 3
    ensures Run(r, c, es) == Apply(Apply(Apply(r, c, es[0]), c, es[1]), c, es[2])
  {
    assert es[..2][..1] == es[..1] && es[..1][..0] == [];
    assert Run(r, c, es[..1]) == Apply(r, c, es[0]);
  }

  /** Both chunks arrive, then retransmission is switched on: the transfer is complete, and the tracker believes both
      chunks missing. */
  lemma LateSwitchOnMisleads(j: Job, mode: Mode, stale: seq<byte>)
    requires TwoChunks(j)
    ensures var es := [Deliver(PacketOf(j, 0).value), Deliver(PacketOf(j, 1).value), SwitchOn];
            var s := Run(Open(mode, |j.file|, stale), j.codec, es);
            IsComplete(s) && Stale(s, 0) && Stale(s, 1)
  {
    var c, r := j.codec, Open(mode, |j.file|, stale);
    var first, second := Deliver(PacketOf(j, 0).value), Deliver(PacketOf(j, 1).value);
    BothArrive(j, mode, stale);
    SwitchedOnLate(Apply(Apply(r, c, first), c, second), c);
    ThreeSteps(r, c, [first, second, SwitchOn]);
  }

  // ----- a seek that wraps -----

  /** With chunks of 4 GiB, seeking to chunk 2^32 succeeds in any file, at the start of it, and leaves the chunker out
      of step. */
  method SeekThatWraps(j: Job) returns (r: Result<(), ChunkError>, chunker: FileChunker)
    requires |j.file| < U64_LIMIT && j.chunkSize == U32_LIMIT
    ensures r.Ok? && chunker.currentChunk == U32_LIMIT && chunker.bytesRead == 0 && !chunker.Synced()
  {
    chunker := new FileChunker(j);
    assert Start(j.chunkSize, U32_LIMIT) == U64_LIMIT;
    r := chunker.SeekToChunk(U32_LIMIT);
  }

  // ----- a chunk that cannot be read -----

  /** If the first chunk cannot be read and the second can, the first position carries the second chunk, and the bitmap
      saved after it records the chunk that was not sent. */
  lemma DroppedChunkShiftsPositions(j: Job, readable: nat -> bool)
    requires Count(j) >= 2 && PacketOf(j, 1).Ok? && !readable(0) && readable(1)
    ensures var cs := Survivors(Work(j, readable), 0, Count(j));
            && |cs| > 0 && cs[0].chunkId == 1
            && Marked(cs, {}, {}, Count(j), 1) == {0}
            && SentIds(cs, {}, {}, 1) == {1}
  {
    var work := Work(j, readable);
    ProcessMatchesPacket(j, readable, 0);
    ProcessMatchesPacket(j, readable, 1);
    WorkIsLabelled(j, readable);
    SurvivorsSplit(work, 0, 2, Count(j));
    assert Survivors(work, 0, 0) == [];
    assert Survivors(work, 0, 1) == [];
    assert Survivors(work, 0, 2) == [work(1).value];
    var cs := Survivors(work, 0, Count(j));
    FreshMarked(cs, Count(j), 1);
    assert Range(0, 1) == {0};
    assert SentIds(cs, {}, {}, 0) == {};
  }

  // ----- a file of two bytes -----

  /** The bytes 1 and 2, one to a chunk. */
  function Pair(c: Codec): Job {
    Job(c, NoCompression, [1, 2], 1)
  }

  /** A copy of its first packet in which the byte has become 9. */
  function Damaged(c: Codec): seq<byte> {
    c.encode(WirePacket(0, 0, 1, c.hash([1]), false, [9], 0, 1))
  }

  lemma PairIsTwoChunks(c: Codec)
    requires Lawful(c)
    ensures TwoChunks(Pair(c)) && ChunkData(Pair(c), 0) == [1]
  {
    CountUnique(2, 1, 2);
    PlainChunksBuild(Pair(c));
    assert [1, 2][0..1] == [1];
  }

  lemma PairDamaged(c: Codec)
    requires Lawful(c) && c.hash([1]) != c.hash([9])
    ensures DamagedFirst(Pair(c), Damaged(c))
  {
    PairIsTwoChunks(c);
    assert c.decode(Damaged(c)) == Some(WirePacket(0, 0, 1, c.hash([1]), false, [9], 0, 1));
  }

  /** So it happens with any lawful codec whose hash tells the byte 1 from the byte 9. */
  lemma PairEndsAsFailed(c: Codec, now: nat)
    requires Lawful(c) && c.hash([1]) != c.hash([9])
    ensures TwoChunks(Pair(c))
    ensures var s := Run(Open(OnDisk, 2, []), c, Arrivals(Pair(c), Damaged(c)) + Requests(now, 5));
            0 in s.received && IsComplete(s) && s.tracker.Some? && Failed(s.tracker.value, 0)
  {
    PairIsTwoChunks(c);
    PairDamaged(c);
    DamagedCopyEndsAsFailed(Pair(c), OnDisk, [], Damaged(c), now);
  }

  /** And the client's bitmap records chunk 0 in place of chunk 1 if the first read fails. */
  lemma PairPositionsShift(c: Codec)
    requires Lawful(c)
    ensures var cs := Survivors(Work(Pair(c), k => k != 0), 0, 2);
            && |cs| > 0 && cs[0].chunkId == 1
            && Marked(cs, {}, {}, 2, 1) == {0} && SentIds(cs, {}, {}, 1) == {1}
  {
    PairIsTwoChunks(c);
    DroppedChunkShiftsPositions(Pair(c), k => k != 0);
  }

  lemma SampleHashDistinguishes()
    ensures SampleCodec.CODEC.hash([1]) != SampleCodec.CODEC.hash([9])
  {
    SampleCodec.ChecksumOfOne(1);
    SampleCodec.ChecksumOfOne(9);
    assert [1, 1][1] != [1, 9][1];
    assert SampleCodec.CODEC.hash([1]) == SampleCodec.Checksum([1]);
    assert SampleCodec.CODEC.hash([9]) == SampleCodec.Checksum([9]);
  }

  /** Both happen with the sample codec. */
  lemma SampleRunsGoWrong(now: nat)
    ensures var c := SampleCodec.CODEC;
            && Lawful(c) && TwoChunks(Pair(c))
            && (var s := Run(Open(OnDisk, 2, []), c, Arrivals(Pair(c), Damaged(c)) + Requests(now, 5));
                0 in s.received && IsComplete(s) && s.tracker.Some? && Failed(s.tracker.value, 0))
            && (var cs := Survivors(Work(Pair(c), k => k != 0), 0, 2);
                |cs| > 0 && Marked(cs, {}, {}, 2, 1) == {0} && SentIds(cs, {}, {}, 1) == {1})
  {
    SampleCodec.CodecIsLawful();
    SampleHashDistinguishes();
    PairEndsAsFailed(SampleCodec.CODEC, now);
    PairPositionsShift(SampleCodec.CODEC);
  }
}
