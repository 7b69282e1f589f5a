/** Uploads from end to end, fresh and resumed, through the classes on both sides. */
module Transfer {
  import opened Bytes
  import opened Collections
  import opened Chunking
  import opened Chunkers
  import opened Framing
  import opened ChunkMarks
  import opened ChunkBitmaps
  import opened ResumeModel
  import opened ChunkSend
  import opened UploadClients
  import opened FileReceivers
  import opened ServerModel
  import opened UploadSessions
  import R = ReceiverModel
  import RR = ReceiverRuns

  /** The stream cut into reads of the given lengths, and one read for the rest. */
  function Cut(s: seq<byte>, cuts: seq<nat>): seq<seq<byte>> {
    if |cuts| == 0 then [s]
    else
      var n := Min(cuts[0], |s|);
      [s[..n]] + Cut(s[n..], cuts[1..])
  }

  lemma ConcatOne(s: seq<byte>)
    ensures Concat([s]) == s
  {
    assert [s][..0] == [];
    assert Concat([s]) == Concat([]) + s;
  }

  lemma Rejoin(s: seq<byte>, n: nat)
    requires n <= |s|
    ensures s[..n] + s[n..] == s
  {
  }

  lemma {:induction false} CutKeepsStream(s: seq<byte>, cuts: seq<nat>)
    ensures Concat(Cut(s, cuts)) == s
    decreases |cuts|
  {
    if |cuts| == 0 {
      ConcatOne(s);
    } else {
      var n := Min(cuts[0], |s|);
      CutKeepsStream(s[n..], cuts[1..]);
      ConcatCons(s[..n], Cut(s[n..], cuts[1..]));
      Rejoin(s, n);
    }
  }

  function IdsOf(cs: seq<ProcessedChunk>): (ids: seq<nat>)
    ensures |ids| == |cs| && forall i: nat | i < |cs| :: ids[i] == cs[i].chunkId
  {
    seq(|cs|, i requires 0 <= i < |cs| => cs[i].chunkId)
  }

  /** Every chunk can be read and packed. */
  ghost predicate Flawless(j: Job, readable: nat -> bool) {
    forall k: nat | k < Count(j) :: readable(k) && PacketOf(j, k).Ok?
  }

  lemma {:induction false} SurvivorsAreBuilt(j: Job, readable: nat -> bool, n: nat)
    requires n <= Count(j)
    ensures forall c | c in Survivors(Work(j, readable), 0, n) ::
              c.chunkId < Count(j) && PacketOf(j, c.chunkId) == Ok(c.packet)
  {
    if n > 0 {
      SurvivorsAreBuilt(j, readable, n - 1);
      WorkIsLabelled(j, readable);
      ProcessMatchesPacket(j, readable, n - 1);
    }
  }

  /** The chunks of the pipeline that the send loop does not skip. */
  function Sent(cs: seq<ProcessedChunk>, skip: set<nat>, n: nat): seq<ProcessedChunk>
    requires n <= |cs|
  {
    if n == 0 then [] else Sent(cs, skip, n - 1) + if IsSent(cs[n - 1], skip, {}) then [cs[n - 1]] else []
  }

  lemma {:induction false} SentIs(cs: seq<ProcessedChunk>, skip: set<nat>, n: nat)
    requires n <= |cs|
    ensures |Sent(cs, skip, n)| <= n
    ensures PacketsIn(Sent(cs, skip, n)) == SentPackets(cs, skip, {}, n)
    ensures forall c | c in Sent(cs, skip, n) :: c in cs && c.chunkId !in skip
    ensures (forall c | c in cs :: c.chunkId !in skip) ==> Sent(cs, skip, n) == cs[..n]
  {
    if n > 0 {
      SentIs(cs, skip, n - 1);
      var before := Sent(cs, skip, n - 1);
      assert PacketsIn(before + [cs[n - 1]]) == PacketsIn(before) + [cs[n - 1].packet];
      assert cs[..n] == cs[..n - 1] + [cs[n - 1]];
      assert cs[n - 1] in cs;
    }
  }

  /** What the client sends of the pipeline's first `n` chunks are packets of the file, and it is all of the file
      exactly if no chunk was dropped, none was skipped, and the client was not stopped before the last. */
  lemma SentIsBuilt(j: Job, readable: nat -> bool, cs: seq<ProcessedChunk>, skip: set<nat>, n: nat)
    requires cs == Survivors(Work(j, readable), 0, Count(j)) && n <= |cs| && skip <= Range(0, Count(j))
    ensures var sent := Sent(cs[..n], skip, n);
            && Built(j, IdsOf(sent)) && PacketsOf(j, IdsOf(sent)) == SentPackets(cs[..n], skip, {}, n)
            && (Elements(IdsOf(sent)) == Range(0, Count(j)) <==>
                  Flawless(j, readable) && n == Count(j) && skip == {})
  {
    var first := cs[..n];
    var sent := Sent(first, skip, n);
    SentIs(first, skip, n);
    SurvivorsAreBuilt(j, readable, Count(j));
    forall i: nat | i < |sent|
      ensures sent[i].chunkId < Count(j) && PacketOf(j, sent[i].chunkId) == Ok(sent[i].packet)
    {
      assert sent[i] in first && sent[i] in cs;
    }
    assert PacketsOf(j, IdsOf(sent)) == PacketsIn(sent);
    SentIsAllIff(j, readable, cs, skip, n);
  }

  lemma SentIsAllIff(j: Job, readable: nat -> bool, cs: seq<ProcessedChunk>, skip: set<nat>, n: nat)
    requires cs == Survivors(Work(j, readable), 0, Count(j)) && n <= |cs| && skip <= Range(0, Count(j))
    ensures Elements(IdsOf(Sent(cs[..n], skip, n))) == Range(0, Count(j))
       <==> Flawless(j, readable) && n == Count(j) && skip == {}
  {
    var sent := Sent(cs[..n], skip, n);
    SentIs(cs[..n], skip, n);
    ParallelIsSequential(j, readable);
    if Flawless(j, readable) && n == Count(j) && skip == {} {
      assert sent == cs;
      AllIds(j, readable, cs);
    }
    if Elements(IdsOf(sent)) == Range(0, Count(j)) {
      ElementsSize(IdsOf(sent));
      RangeSize(0, Count(j));
      forall i: nat | i < |sent| ensures IdsOf(sent)[i] !in skip {
        assert sent[i] in sent;
      }
      assert Elements(IdsOf(sent)) !! skip;
    }
  }

  lemma AllIds(j: Job, readable: nat -> bool, cs: seq<ProcessedChunk>)
    requires cs == Survivors(Work(j, readable), 0, Count(j)) && |cs| == Count(j)
    ensures Elements(IdsOf(cs)) == Range(0, Count(j))
  {
    SurvivorsComplete(Work(j, readable), Count(j));
    WorkIsLabelled(j, readable);
    forall k: nat | k < Count(j) ensures k in IdsOf(cs) {
      assert Work(j, readable)(k) == Some(cs[k]);
      assert IdsOf(cs)[k] == k;
    }
    forall i: nat | i < |cs| ensures IdsOf(cs)[i] == i {
      assert Work(j, readable)(i) == Some(cs[i]);
    }
  }

  /** The file's last chunk is on the wire. */
  ghost predicate LastSent(j: Job, readable: nat -> bool, skip: set<nat>, stop: nat)
    requires Count(j) > 0
  {
    var last := Count(j) - 1;
    && last !in skip && readable(last) && PacketOf(j, last).Ok?
    && |Survivors(Work(j, readable), 0, Count(j))| <= stop
  }

  /** The pipeline position of the last chunk, if it is not dropped. */
  function LastPosition(j: Job, readable: nat -> bool): nat
    requires Count(j) > 0
  {
    |Survivors(Work(j, readable), 0, Count(j) - 1)|
  }

  /** The end of the stream is announced: with the last chunk's frame, if the transport leaves one byte of it. */
  ghost predicate Announced(j: Job, readable: nat -> bool, skip: set<nat>, stop: nat, takes: nat -> seq<nat>)
    requires Count(j) > 0
  {
    && LastSent(j, readable, skip, stop)
    && StopsShort(|FrameOf(PacketOf(j, Count(j) - 1).value)|, takes(LastPosition(j, readable)))
  }

  lemma {:induction false} OnlyFlaggedFinish(cs: seq<ProcessedChunk>, skip: set<nat>, takes: nat -> seq<nat>, n: nat)
    requires n <= |cs| && forall i: nat | i < n :: !cs[i].endOfFile
    ensures !EndAnnounced(cs, skip, {}, takes, n)
  {
    if n > 0 {
      OnlyFlaggedFinish(cs, skip, takes, n - 1);
    }
  }

  lemma OnlyLastFinishes(cs: seq<ProcessedChunk>, skip: set<nat>, takes: nat -> seq<nat>, n: nat)
    requires n <= |cs| <= n + 1 && forall i: nat | i < n :: !cs[i].endOfFile
    ensures EndAnnounced(cs, skip, {}, takes, |cs|) <==> |cs| == n + 1 && Finishes(cs[n], skip, {}, takes(n))
  {
    OnlyFlaggedFinish(cs, skip, takes, n);
  }

  lemma {:induction false} SurvivorsAreFlagged(j: Job, readable: nat -> bool, n: nat)
    requires n <= Count(j)
    ensures forall c | c in Survivors(Work(j, readable), 0, n) ::
              c.chunkId < n && (c.endOfFile <==> c.chunkId + 1 == Count(j))
  {
    if n > 0 {
      SurvivorsAreFlagged(j, readable, n - 1);
      ProcessMatchesPacket(j, readable, n - 1);
    }
  }

  /** All survivors but the file's last chunk are unflagged; the last chunk, if it survives, comes behind them. */
  lemma LastSurvivor(j: Job, readable: nat -> bool)
    requires Count(j) > 0
    ensures var work := Work(j, readable);
            var (all, before) := (Survivors(work, 0, Count(j)), Survivors(work, 0, Count(j) - 1));
            && before <= all <= before + all[|before|..]
            && (forall i: nat | i < |before| :: !before[i].endOfFile)
            && (|all| > |before| <==> readable(Count(j) - 1) && PacketOf(j, Count(j) - 1).Ok?)
            && (|all| > |before| ==>
                  && |all| == |before| + 1
                  && all[|before|].chunkId == Count(j) - 1 && all[|before|].endOfFile
                  && all[|before|].packet == PacketOf(j, Count(j) - 1).value)
  {
    var before := Survivors(Work(j, readable), 0, Count(j) - 1);
    SurvivorsAreFlagged(j, readable, Count(j) - 1);
    ProcessMatchesPacket(j, readable, Count(j) - 1);
    forall i: nat | i < |before| ensures !before[i].endOfFile {
      assert before[i] in before;
    }
  }

  /** The client announces the end of the stream exactly when the last chunk is on the wire and the transport leaves one
      byte of its frame. */
  lemma FinishedIff(j: Job, readable: nat -> bool, cs: seq<ProcessedChunk>, skip: set<nat>, stop: nat,
                    takes: nat -> seq<nat>)
    requires Count(j) > 0
    requires var all := Survivors(Work(j, readable), 0, Count(j)); cs == all[..Min(stop, |all|)]
    ensures EndAnnounced(cs, skip, {}, takes, |cs|) <==> Announced(j, readable, skip, stop, takes)
  {
    var all := Survivors(Work(j, readable), 0, Count(j));
    LastSurvivor(j, readable);
    OnlyLastFinishes(cs, skip, takes, Min(|cs|, LastPosition(j, readable)));
  }

  /** An upload, stopped after at most `stop` chunks of the pipeline, whose resume negotiation ended with `skip`. The
      workers may finish in any order and drop chunks they cannot read or pack, the transport may take the frames in any
      portions, the stream may be cut into reads in any way, and the part file may hold anything. The server ends with
      the file exactly if every chunk was sent. Otherwise it ends with an error if the end of the stream was announced,
      and waits for ever if not. */
  method SendAndReceive(j: Job, readable: nat -> bool, stop: nat, client: UploadClient, skip: set<nat>,
                        takes: nat -> seq<nat>, bitmap: ChunkBitmap, mode: R.Mode, stale: seq<byte>, cuts: seq<nat>)
    returns (r: Ending)
    requires Framable(j) && client.Valid() && client.total == Count(j) && skip <= Range(0, Count(j))
    requires bitmap.Valid() && bitmap != client.mirror
    requires Room(Session(R.Open(mode, |j.file|, stale), bitmap.View(), 0), Count(j))
    modifies client, client.mirror, bitmap
    ensures client.Valid() && (client.disk == old(client.disk) || client.WellSaved())
    ensures var all := Survivors(Work(j, readable), 0, Count(j));
            var n := Min(stop, |all|);
            client.DiskIds() == DiskAfter(old(client.DiskIds()), all[..n], skip, {}, Count(j), n)
    ensures r == if Flawless(j, readable) && Count(j) <= stop && skip == {}
                 then Delivered(RR.FinalContent(j, mode, stale))
                 else if Announced(j, readable, skip, stop, takes) then Refused(StreamClosed)
                 else Waiting
  {
    var all := RunWorker(j, readable);
    var n := Min(stop, |all|);
    var chunks := all[..n];
    ParallelIsSequential(j, readable);
    SentIsBuilt(j, readable, all, skip, n);
    FinishedIff(j, readable, chunks, skip, stop, takes);
    var stream, fin := client.SendChunks(chunks, skip, {}, takes);
    var segments := Cut(stream, cuts);
    CutKeepsStream(stream, cuts);
    r := Receive(j, IdsOf(Sent(chunks, skip, n)), bitmap, mode, stale, segments, fin);
  }

  /** The server's side of it, for the packets of any chunks in any order. */
  method Receive(j: Job, ghost ids: seq<nat>, bitmap: ChunkBitmap, mode: R.Mode, stale: seq<byte>,
                 segments: seq<seq<byte>>, fin: bool)
    returns (r: Ending)
    requires Framable(j) && Built(j, ids) && Concat(segments) == FrameAll(PacketsOf(j, ids))
    requires bitmap.Valid() && Room(Session(R.Open(mode, |j.file|, stale), bitmap.View(), 0), Count(j))
    modifies bitmap
    ensures r == if Elements(ids) == Range(0, Count(j)) then Delivered(RR.FinalContent(j, mode, stale))
                 else if fin then Refused(StreamClosed)
                 else Waiting
  {
    var receiver := new FileReceiver(mode, |j.file|, stale);
    var session := new UploadSession(j.codec, Count(j), receiver, bitmap);
    ghost var start := session.State();
    ghost var used;
    r, used := session.ReceiveStream(segments, fin);
    SentDecides(j, start, mode, stale, ids, segments, used);
  }

  /** A fresh upload: the file arrives exactly if every chunk could be read and packed and the client was not stopped
      before the last. If the last chunk is not sent, the server never returns. */
  method Upload(j: Job, readable: nat -> bool, stop: nat, takes: nat -> seq<nat>, mode: R.Mode, stale: seq<byte>,
                cuts: seq<nat>)
    returns (r: Ending)
    requires Framable(j)
    ensures r == if Flawless(j, readable) && Count(j) <= stop then Delivered(RR.FinalContent(j, mode, stale))
                 else if Announced(j, readable, {}, stop, takes) then Refused(StreamClosed)
                 else Waiting
  {
    var client := new UploadClient(Count(j));
    var bitmap := new ChunkBitmap.WithExactSize(Count(j));
    r := SendAndReceive(j, readable, stop, client, {}, takes, bitmap, mode, stale, cuts);
  }

  /** A resumed upload, with whatever the saved file holds. Once the client agrees to skip a chunk the server cannot end
      with the file, since it opens an empty receiver; it returns at all only if the last chunk is sent. Only a client
      that recorded nothing of this file, or does not get the answer, can still succeed; one that panics over its saved
      file leaves the server waiting. */
  method Resume(j: Job, readable: nat -> bool, stop: nat, client: UploadClient, requestArrives: bool,
                answerArrives: bool, takes: nat -> seq<nat>, mode: R.Mode, stale: seq<byte>, cuts: seq<nat>)
    returns (r: Ending)
    requires Framable(j) && client.Valid() && client.total == Count(j)
    modifies client, client.mirror
    ensures client.Valid()
    ensures var skip := if requestArrives && answerArrives then old(client.Recorded()) else {};
            r == if old(client.Panics()) then Waiting
                 else if Flawless(j, readable) && Count(j) <= stop && skip == {} then
                   Delivered(RR.FinalContent(j, mode, stale))
                 else if Announced(j, readable, skip, stop, takes) then Refused(StreamClosed)
                 else Waiting
  {
    var skip, bitmap := Negotiate(client, requestArrives, answerArrives);
    if skip.None? {
      r := Receive(j, [], bitmap, mode, stale, [], false);
      return;
    }
    r := SendAndReceive(j, readable, stop, client, skip.value, takes, bitmap, mode, stale, cuts);
  }

  /** A flawless fresh upload leaves every chunk recorded. */
  lemma FlawlessLeavesAll(j: Job, readable: nat -> bool)
    requires Flawless(j, readable) && Count(j) > 0
    ensures var all := Survivors(Work(j, readable), 0, Count(j));
            |all| == Count(j) && DiskAfter(None, all[..|all|], {}, {}, Count(j), |all|) == Some(Range(0, Count(j)))
  {
    var all := Survivors(Work(j, readable), 0, Count(j));
    ParallelIsSequential(j, readable);
    assert all[..|all|] == all;
    FreshDisk(all, Count(j), Count(j));
  }

  /** An upload of a file whose saved bitmap records every chunk: all are skipped, and the server waits for ever. */
  method UploadAgain(j: Job, readable: nat -> bool, client: UploadClient, takes: nat -> seq<nat>, mode: R.Mode,
                     stale: seq<byte>, cuts: seq<nat>)
    returns (r: Ending)
    requires Framable(j) && client.Valid() && client.total == Count(j)
    requires client.WellSaved() && client.DiskIds() == Some(Range(0, Count(j)))
    modifies client, client.mirror
    ensures r == Waiting
  {
    client.WellSavedIs();
    assert Count(j) - 1 in client.Recorded();
    r := Resume(j, readable, Count(j), client, true, true, takes, mode, stale, cuts);
  }

  /** The same file uploaded twice. After the first upload, which succeeds, the saved bitmap stays on disk and records
      every chunk. The second upload therefore skips them all, and its server waits for ever. */
  method UploadTwice(j: Job, readable: nat -> bool, takes: nat -> seq<nat>, again: nat -> seq<nat>, mode: R.Mode,
                     stale: seq<byte>, cuts: seq<nat>)
    returns (first: Ending, second: Ending)
    requires Framable(j) && Flawless(j, readable)
    ensures first == Delivered(RR.FinalContent(j, mode, stale))
    ensures second == Waiting
  {
    var client := new UploadClient(Count(j));
    var bitmap := new ChunkBitmap.WithExactSize(Count(j));
    FlawlessLeavesAll(j, readable);
    first := SendAndReceive(j, readable, Count(j), client, {}, takes, bitmap, mode, stale, cuts);
    second := UploadAgain(j, readable, client, again, mode, stale, cuts);
  }
}
