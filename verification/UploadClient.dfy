/** The uploading client (src/client/transfer.rs): the send loop with its skip set, and the saved resume bitmap with
    its in-memory mirror, for one session. */
module UploadClients {
  import opened Bytes
  import opened Collections
  import opened Packets
  import opened Chunkers
  import opened Framing
  import opened ChunkMarks
  import opened ChunkBitmaps
  import opened ResumeModel
  import opened ChunkSend

  /** A bitmap made for exactly `total` chunks. */
  predicate Sized(m: Marks, total: nat) {
    m.total == Some(total) && m.capacity == total
  }

  /** There is no saved file to be read: it is gone, or shorter than its header. */
  predicate Unloadable(disk: Option<seq<byte>>) {
    disk.None? || |disk.value| < 13
  }

  /** What is to be claimed, in terms of the bytes on disk and the ids in memory. A file that loads decides alone: with
      a counter of zero nothing is claimed, with too short a vector the client panics, and otherwise the ids below
      total and capacity whose bits are set are claimed. Without such a file it is what is in memory. */
  ghost predicate ClaimsRightly(disk: Option<seq<byte>>, mirrored: set<nat>, claimed: Option<seq<nat>>) {
    (claimed.Some? ==> Ascending(claimed.value)) &&
    if Unloadable(disk) then claimed.Some? && Elements(claimed.value) == mirrored
    else
      var bytes := disk.value;
      var (total, count, capacity) := (FromU32Le(bytes[0..4]), FromU32Le(bytes[4..8]), FromU32Le(bytes[9..13]));
      if count == 0 then claimed == Some([])
      else if 8 * |bytes[13..]| < Min(total, capacity) then claimed == None
      else
        claimed.Some? &&
        forall k: nat :: k in claimed.value <==> k < total && k < capacity && Recorded(bytes[13..], k)
  }

  class UploadClient {
    const total: nat
    const mirror: ChunkBitmap  // the in-memory copy, empty until the first save
    var disk: Option<seq<byte>>  // the saved bitmap, whoever wrote it

    ghost predicate Valid()
      reads this, mirror
    {
      && 0 < total && total + 7 < U32_LIMIT
      && mirror.Valid() && Sized(mirror.View(), total)
    }

    ghost function MirrorIds(): set<nat>
      reads this, mirror
    {
      mirror.ids
    }

    /** The bitmap that the saved file loads as, if it loads. */
    function OnDisk(): Option<Image>
      reads this
    {
      if disk.Some? && LoadImage(disk.value).Ok? then Some(LoadImage(disk.value).value) else None
    }

    /** What the saved file records. */
    ghost function DiskIds(): Option<set<nat>>
      reads this
    {
      if OnDisk().Some? then Some(IdsIn(OnDisk().value.bitmap, OnDisk().value.capacity)) else None
    }

    /** The file is one that this client saved for this transfer. */
    ghost predicate WellSaved()
      reads this
    {
      && OnDisk().Some?
      && ValidImage(OnDisk().value, DiskIds().value) && Sized(ViewOf(OnDisk().value, DiskIds().value), total)
    }

    /** Reading the claim from the file makes the client panic. */
    predicate Panics()
      reads this
    {
      OnDisk().Some? && OnDisk().value.receivedCount > 0 && ClaimPanics(OnDisk().value)
    }

    /** What the client believes to have sent before: the file on disk counts first. A file whose counter is zero counts
        for nothing. */
    ghost function Saved(): set<nat>
      reads this, mirror
    {
      if OnDisk().None? then mirror.ids
      else if OnDisk().value.receivedCount == 0 || OnDisk().value.total.None? then {}
      else Below(DiskIds().value, OnDisk().value.total.value)
    }

    ghost function Recorded(): set<nat>
      reads this, mirror
    {
      Below(Saved(), total)
    }

    lemma WellSavedIs()
      requires Valid() && WellSaved()
      ensures !Panics() && Saved() == DiskIds().value == Recorded()
    {
      var b, ids := OnDisk().value, DiskIds().value;
      ValidNeverPanics(b, ids);
      if b.receivedCount == 0 {
        assert ids == {};
      }
      assert Below(ids, total) == ids;
    }

    lemma UnloadableIs()
      requires Valid() && Unloadable(disk)
      ensures !Panics() && Recorded() == MirrorIds()
    {
      assert Below(mirror.ids, total) == mirror.ids;
    }

    constructor (n: nat)
      requires 0 < n && n + 7 < U32_LIMIT
      ensures Valid() && total == n && MirrorIds() == {} && disk == None && fresh(mirror)
    {
      total, disk := n, None;
      mirror := new ChunkBitmap.WithExactSize(n);
    }

    /** The file is the bitmap; the mirror gets only the ids from a hundred below the count on. */
    method SaveResumeBitmap(bitmap: ChunkBitmap)
      requires Valid() && bitmap.Valid() && Sized(bitmap.View(), total) && bitmap != mirror
      modifies this, mirror
      ensures Valid()
      ensures MirrorIds() == Mirrored(old(MirrorIds()), bitmap.ids, total)
      ensures disk == Some(SaveImage(bitmap.Fields())) && DiskIds() == Some(bitmap.ids) && WellSaved()
    {
      CopyWindow(bitmap, mirror);
      var bytes := bitmap.Save();
      disk := Some(bytes);
      LoadSavedIff(bitmap.Fields(), bitmap.ids);
      ValidNeverPanics(bitmap.Fields(), bitmap.ids);
    }

    method CopyWindow(bitmap: ChunkBitmap, stored: ChunkBitmap)
      requires 0 < total && total + 7 < U32_LIMIT && bitmap != stored
      requires bitmap.Valid() && Sized(bitmap.View(), total) && stored.Valid() && Sized(stored.View(), total)
      modifies stored
      ensures stored.Valid() && Sized(stored.View(), total)
      ensures stored.ids == Mirrored(old(stored.ids), bitmap.ids, total)
    {
      CountFits(bitmap.Fields(), bitmap.ids);
      var lo := Max(bitmap.receivedCount - 100, 0);
      var done := bitmap.IsComplete();
      CopyRange(bitmap, stored, lo, done);
    }

    method CopyRange(bitmap: ChunkBitmap, stored: ChunkBitmap, lo: nat, done: bool)
      requires lo <= total && total + 7 < U32_LIMIT && bitmap != stored
      requires bitmap.Valid() && stored.Valid() && Sized(stored.View(), total)
      modifies stored
      ensures stored.Valid() && Sized(stored.View(), total)
      ensures stored.ids == old(stored.ids) + Window(bitmap.ids, lo, total)
    {
      ghost var before, ids := stored.ids, bitmap.ids;
      assert before + Window(ids, lo, lo) == before;
      for i := lo to total
        invariant bitmap.Valid() && bitmap.ids == ids
        invariant stored.Valid() && Sized(stored.View(), total)
        invariant stored.ids == before + Window(ids, lo, i)
      {
        WindowStep(before, ids, lo, i);
        var has := bitmap.IsReceived(i);
        RecordIf(has, stored, i, done && i == total - 1);
      }
    }

    /** Records a chunk, which may be recorded already, if the other bitmap has it. */
    method RecordIf(has: bool, stored: ChunkBitmap, i: nat, isEof: bool)
      requires i < total && total + 7 < U32_LIMIT && (isEof ==> i == total - 1)
      requires stored.Valid() && Sized(stored.View(), total)
      modifies stored
      ensures stored.Valid() && Sized(stored.View(), total)
      ensures stored.ids == old(stored.ids) + if has then {i} else {}
    {
      if has {
        var stores := stored.IsReceived(i);
        if !stores {
          SizedStep(stored.View(), total, i, isEof);
          var isNew := stored.MarkReceived(i, isEof);
        }
      }
    }

    /** Marks what the server already has. */
    method MarkSkipped(bitmap: ChunkBitmap, skip: set<nat>)
      requires 0 < total && total + 7 < U32_LIMIT
      requires bitmap.Valid() && Tracks(bitmap.View(), Some(total), total, {}) && Sized(bitmap.View(), total)
      modifies bitmap
      ensures bitmap.Valid() && Sized(bitmap.View(), total)
      ensures Tracks(bitmap.View(), Some(total), total, Below(skip, total))
    {
      var rest := skip;
      assert Below(skip - rest, total) == {};
      while rest != {}
        invariant rest <= skip
        invariant bitmap.Valid() && Sized(bitmap.View(), total)
        invariant Tracks(bitmap.View(), Some(total), total, Below(skip - rest, total))
        decreases rest
      {
        var id :| id in rest;
        BelowStep(skip, rest, id, total);
        MarkIfExists(bitmap, id, Below(skip - rest, total));
        rest := rest - {id};
      }
      assert skip - {} == skip;
    }

    method MarkIfExists(bitmap: ChunkBitmap, id: nat, ghost known: set<nat>)
      requires 0 < total && total + 7 < U32_LIMIT
      requires bitmap.Valid() && Sized(bitmap.View(), total) && Tracks(bitmap.View(), Some(total), total, known)
      modifies bitmap
      ensures bitmap.Valid() && Sized(bitmap.View(), total)
      ensures Tracks(bitmap.View(), Some(total), total, known + if id < total then {id} else {})
    {
      assert known + {} == known;
      if id < total {
        TracksStep(bitmap.View(), Some(total), total, known, id);
        var isNew := bitmap.MarkReceived(id, id == total - 1);
      }
    }

    /** The send loop over the pipeline's chunks, all of them or those before an interruption. The stream is the
        frames of the chunks neither agreed to be skipped nor known by hash; its end is announced with a frame that
        carries the last chunk and of which the transport leaves one byte; the file on disk is the bitmap as of the
        last save. */
    method SendChunks(cs: seq<ProcessedChunk>, skip: set<nat>, existing: set<seq<byte>>, takes: nat -> seq<nat>)
      returns (stream: seq<byte>, finished: bool)
      requires Valid() && |cs| <= total
      modifies this, mirror
      ensures Valid()
      ensures stream == FrameAll(SentPackets(cs, skip, existing, |cs|))
      ensures finished == EndAnnounced(cs, skip, existing, takes, |cs|)
      ensures MirrorIds() == MirrorAfter(old(MirrorIds()), cs, skip, existing, total, |cs|)
      ensures DiskIds() == DiskAfter(old(DiskIds()), cs, skip, existing, total, |cs|)
      ensures disk == old(disk) || WellSaved()
    {
      stream, finished := [], false;
      ghost var mirrored, recorded := MirrorIds(), DiskIds();
      var sentBitmap := StartBitmap(cs, skip, existing);
      var chunkCount := 0;
      while chunkCount < |cs|
        invariant chunkCount <= |cs| && mirror != sentBitmap
        invariant Progress(mirrored, recorded, sentBitmap, cs, skip, existing, chunkCount)
        invariant OnWire(stream, finished, cs, skip, existing, takes, chunkCount)
        invariant disk == old(disk) || WellSaved()
      {
        var frame, fin := SendNext(mirrored, recorded, sentBitmap, cs, skip, existing, takes, chunkCount);
        WireStep(stream, finished, frame, fin, cs, skip, existing, takes, chunkCount);
        stream, finished := stream + frame, finished || fin;
        chunkCount := chunkCount + 1;
      }
    }

    /** The bitmap of what has been sent, with the skipped chunks marked. */
    method StartBitmap(ghost cs: seq<ProcessedChunk>, skip: set<nat>, ghost existing: set<seq<byte>>)
      returns (sentBitmap: ChunkBitmap)
      requires Valid()
      ensures fresh(sentBitmap) && Progress(MirrorIds(), DiskIds(), sentBitmap, cs, skip, existing, 0)
    {
      sentBitmap := new ChunkBitmap.WithExactSize(total);
      MarkSkipped(sentBitmap, skip);
    }

    /** Bitmap, mirror and file after the first `n` chunks, for a transfer that started with the given mirror and
        file. */
    ghost predicate Progress(mirrored: set<nat>, recorded: Option<set<nat>>, sentBitmap: ChunkBitmap,
                             cs: seq<ProcessedChunk>, skip: set<nat>, existing: set<seq<byte>>, n: nat)
      requires n <= |cs|
      reads this, mirror, sentBitmap
    {
      && Valid() && sentBitmap.Valid() && Sized(sentBitmap.View(), total)
      && Tracks(sentBitmap.View(), Some(total), total, Marked(cs, skip, existing, total, n))
      && MirrorIds() == MirrorAfter(mirrored, cs, skip, existing, total, n)
      && DiskIds() == DiskAfter(recorded, cs, skip, existing, total, n)
    }

    /** One turn of the send loop with the save that may follow it. */
    method SendNext(ghost mirrored: set<nat>, ghost recorded: Option<set<nat>>, sentBitmap: ChunkBitmap,
                    cs: seq<ProcessedChunk>, skip: set<nat>, existing: set<seq<byte>>, takes: nat -> seq<nat>,
                    counted: nat)
      returns (frame: seq<byte>, finished: bool)
      requires mirror != sentBitmap && counted < |cs| <= total
      requires Progress(mirrored, recorded, sentBitmap, cs, skip, existing, counted)
      modifies this, mirror, sentBitmap
      ensures Progress(mirrored, recorded, sentBitmap, cs, skip, existing, counted + 1)
      ensures frame == if IsSent(cs[counted], skip, existing) then FrameOf(cs[counted].packet) else []
      ensures finished == Finishes(cs[counted], skip, existing, takes(counted))
      ensures disk == old(disk) || WellSaved()
    {
      var saveNow;
      frame, finished, saveNow := SendOne(sentBitmap, cs, skip, existing, takes, counted);
      SaveIf(saveNow, sentBitmap);
    }

    method SaveIf(saveNow: bool, bitmap: ChunkBitmap)
      requires Valid() && bitmap.Valid() && Sized(bitmap.View(), total) && bitmap != mirror
      modifies this, mirror
      ensures Valid()
      ensures MirrorIds() == if saveNow then Mirrored(old(MirrorIds()), bitmap.ids, total) else old(MirrorIds())
      ensures DiskIds() == if saveNow then Some(bitmap.ids) else old(DiskIds())
      ensures if saveNow then WellSaved() else disk == old(disk)
    {
      if saveNow {
        SaveResumeBitmap(bitmap);
      }
    }

    /** One turn of the send loop: the frame sent, if any, whether the end of the stream is announced with it, and
        whether it is time to save the bitmap. */
    method SendOne(sentBitmap: ChunkBitmap, cs: seq<ProcessedChunk>, skip: set<nat>, existing: set<seq<byte>>,
                   takes: nat -> seq<nat>, counted: nat)
      returns (frame: seq<byte>, finished: bool, saveNow: bool)
      requires 0 < total && total + 7 < U32_LIMIT && counted < |cs| <= total
      requires sentBitmap.Valid() && Sized(sentBitmap.View(), total)
      requires Tracks(sentBitmap.View(), Some(total), total, Marked(cs, skip, existing, total, counted))
      modifies sentBitmap
      ensures sentBitmap.Valid() && Sized(sentBitmap.View(), total)
      ensures Tracks(sentBitmap.View(), Some(total), total, Marked(cs, skip, existing, total, counted + 1))
      ensures frame == if IsSent(cs[counted], skip, existing) then FrameOf(cs[counted].packet) else []
      ensures finished == Finishes(cs[counted], skip, existing, takes(counted))
      ensures saveNow == SavesAfter(cs, skip, existing, total, counted + 1)
    {
      var chunk := cs[counted];
      if chunk.chunkId in skip {
        return [], false, false;
      }
      if chunk.hash in existing {
        return [], false, false;
      }
      var combined := ToU32Be(|chunk.packet|) + chunk.packet;
      frame, finished := SendFrame(combined, chunk.endOfFile, takes(counted));
      saveNow := MarkSent(sentBitmap, cs, skip, existing, counted);
    }

    /** A chunk that was sent is recorded under the number of chunks counted before it. */
    method MarkSent(sentBitmap: ChunkBitmap, ghost cs: seq<ProcessedChunk>, ghost skip: set<nat>,
                    ghost existing: set<seq<byte>>, counted: nat)
      returns (saveNow: bool)
      requires 0 < total && total + 7 < U32_LIMIT && counted < |cs| <= total && IsSent(cs[counted], skip, existing)
      requires sentBitmap.Valid() && Sized(sentBitmap.View(), total)
      requires Tracks(sentBitmap.View(), Some(total), total, Marked(cs, skip, existing, total, counted))
      modifies sentBitmap
      ensures sentBitmap.Valid() && Sized(sentBitmap.View(), total)
      ensures Tracks(sentBitmap.View(), Some(total), total, Marked(cs, skip, existing, total, counted + 1))
      ensures saveNow == SavesAfter(cs, skip, existing, total, counted + 1)
    {
      MarkedStep(sentBitmap.View(), cs, skip, existing, total, counted);
      var chunkCount := counted + 1;
      var isEofChunk := chunkCount == total;
      var isNew := sentBitmap.MarkReceived(chunkCount - 1, isEofChunk);
      saveNow := chunkCount % 100 == 0 || isEofChunk;
    }

    /** The chunks the client will claim to have sent: those of the file on disk if it loads, else those of the mirror;
        or a panic. */
    method ChunksToClaim() returns (claimed: Option<seq<nat>>)
      requires Valid()
      ensures claimed.None? <==> Panics()
      ensures claimed.Some? ==> Ascending(claimed.value) && Elements(claimed.value) == Saved()
      ensures ClaimsRightly(disk, MirrorIds(), claimed)
    {
      if disk.Some? {
        var loaded := ChunkBitmap.Load(disk.value);
        if loaded.Ok? {
          var b := OnDisk().value;
          if b.receivedCount == 0 {
            return Some([]);
          }
          claimed := loaded.value.TryReceivedChunks();
          if b.total.Some? {
            PresentIs(DiskIds().value, 0, b.total.value);
          }
          ClaimPanicsIff(b);
          return;
        }
      }
      var copy := CopyMirror();
      var list := copy.GetReceivedChunks();
      PresentIs(mirror.ids, 0, total);
      claimed := Some(list);
    }

    method CopyMirror() returns (copy: ChunkBitmap)
      requires Valid()
      ensures fresh(copy) && copy.Valid() && Sized(copy.View(), total) && copy.ids == mirror.ids
    {
      copy := new ChunkBitmap.WithExactSize(total);
      var done := mirror.IsComplete();
      for i := 0 to total
        invariant copy.Valid() && Sized(copy.View(), total)
        invariant copy.ids == Window(mirror.ids, 0, i)
      {
        var has := mirror.IsReceived(i);
        RecordIf(has, copy, i, done && i == total - 1);
      }
      WindowIs(mirror.ids, 0, total);
    }

    /** The client's side of the answer: it skips every chunk not on the missing list. */
    method SkipSet(missing: seq<nat>) returns (skip: set<nat>)
      ensures forall k: nat :: k in skip <==> k < total && k !in missing
    {
      skip := {};
      for k := 0 to total
        invariant forall i: nat :: i in skip <==> i < k && i !in missing
      {
        if k !in missing {
          skip := skip + {k};
        }
      }
    }
  }

  /** The chunk's frame announces the end of the stream. */
  predicate Finishes(c: ProcessedChunk, skip: set<nat>, existing: set<seq<byte>>, takes: seq<nat>) {
    IsSent(c, skip, existing) && c.endOfFile && StopsShort(|FrameOf(c.packet)|, takes)
  }

  /** One of the first `n` frames does. */
  predicate EndAnnounced(cs: seq<ProcessedChunk>, skip: set<nat>, existing: set<seq<byte>>, takes: nat -> seq<nat>,
                         n: nat)
    requires n <= |cs|
  {
    n > 0 && (EndAnnounced(cs, skip, existing, takes, n - 1) || Finishes(cs[n - 1], skip, existing, takes(n - 1)))
  }

  /** What the first `n` chunks have put on the wire. */
  predicate OnWire(stream: seq<byte>, finished: bool, cs: seq<ProcessedChunk>, skip: set<nat>,
                   existing: set<seq<byte>>, takes: nat -> seq<nat>, n: nat)
    requires n <= |cs|
  {
    && stream == FrameAll(SentPackets(cs, skip, existing, n))
    && finished == EndAnnounced(cs, skip, existing, takes, n)
  }

  lemma WireStep(stream: seq<byte>, finished: bool, frame: seq<byte>, fin: bool, cs: seq<ProcessedChunk>,
                 skip: set<nat>, existing: set<seq<byte>>, takes: nat -> seq<nat>, n: nat)
    requires n < |cs| && OnWire(stream, finished, cs, skip, existing, takes, n)
    requires frame == if IsSent(cs[n], skip, existing) then FrameOf(cs[n].packet) else []
    requires fin == Finishes(cs[n], skip, existing, takes(n))
    ensures OnWire(stream + frame, finished || fin, cs, skip, existing, takes, n + 1)
  {
    StreamStep(cs, skip, existing, n);
  }

  lemma WindowStep(before: set<nat>, ids: set<nat>, lo: nat, i: nat)
    requires lo <= i
    ensures before + Window(ids, lo, i + 1) == before + Window(ids, lo, i) + if i in ids then {i} else {}
  {
  }

  lemma BelowStep(skip: set<nat>, rest: set<nat>, id: nat, total: nat)
    requires id in rest && rest <= skip
    ensures Below(skip - (rest - {id}), total) == Below(skip - rest, total) + if id < total then {id} else {}
  {
  }

  lemma StreamStep(cs: seq<ProcessedChunk>, skip: set<nat>, existing: set<seq<byte>>, n: nat)
    requires n < |cs|
    ensures FrameAll(SentPackets(cs, skip, existing, n + 1)) ==
            FrameAll(SentPackets(cs, skip, existing, n)) +
            if IsSent(cs[n], skip, existing) then FrameOf(cs[n].packet) else []
  {
    var before := SentPackets(cs, skip, existing, n);
    FrameAllSnoc(before, cs[n].packet);
    assert before + [] == before;
    assert FrameAll(before) + [] == FrameAll(before);
  }

  lemma {:induction false} FrameAllSnoc(packets: seq<seq<byte>>, p: seq<byte>)
    ensures FrameAll(packets + [p]) == FrameAll(packets) + FrameOf(p)
    decreases |packets|
  {
    if |packets| == 0 {
      FrameAllCons(p, []);
      assert packets + [p] == [p] + [];
    } else {
      FrameAllSnoc(packets[1..], p);
      assert (packets + [p])[1..] == packets[1..] + [p];
      ConcatAssoc(FrameOf(packets[0]), FrameAll(packets[1..]), FrameOf(p));
    }
  }

  lemma MarkedStep(m: Marks, cs: seq<ProcessedChunk>, skip: set<nat>, existing: set<seq<byte>>, total: nat, n: nat)
    requires n < |cs| <= total && IsSent(cs[n], skip, existing)
    requires Tracks(m, Some(total), total, Marked(cs, skip, existing, total, n))
    ensures Tracks(Mark(m, n, n + 1 == total), Some(total), total, Marked(cs, skip, existing, total, n + 1))
  {
    TracksStep(m, Some(total), total, Marked(cs, skip, existing, total, n), n);
    assert Marked(cs, skip, existing, total, n + 1) == Marked(cs, skip, existing, total, n) + {n};
  }

  /** Marking a new id keeps the size. */
  lemma SizedStep(m: Marks, total: nat, id: nat, isEof: bool)
    requires WellFormed(m) && Sized(m, total) && id < total && id !in m.ids && (isEof ==> id == total - 1)
    ensures Accepts(m, id) && CapacityFor(m, id) == total
    ensures Sized(Mark(m, id, isEof), total) && Mark(m, id, isEof).ids == m.ids + {id}
  {
  }

  /** The claimed ids that exist, among the first `n`. */
  function Claimed(claimed: seq<nat>, total: nat, n: nat): set<nat>
    requires n <= |claimed|
  {
    if n == 0 then {} else Claimed(claimed, total, n - 1) + if claimed[n - 1] < total then {claimed[n - 1]} else {}
  }

  lemma {:induction false} ClaimedIs(claimed: seq<nat>, total: nat, n: nat)
    requires n <= |claimed|
    ensures Claimed(claimed, total, n) == Below(Elements(claimed[..n]), total)
  {
    if n == 0 {
      assert Below(Elements(claimed[..0]), total) == {};
    } else {
      ClaimedIs(claimed, total, n - 1);
      assert claimed[..n] == claimed[..n - 1] + [claimed[n - 1]];
      assert Elements(claimed[..n]) == Elements(claimed[..n - 1]) + {claimed[n - 1]};
    }
  }

  /** The server's answer to a resume request: the bitmap rebuilt from the claimed chunks that exist, and the rest as
      missing. */
  method AnswerResume(total: nat, claimed: seq<nat>) returns (bitmap: ChunkBitmap, missing: seq<nat>)
    requires 0 < total && total + 7 < U32_LIMIT
    ensures bitmap.Valid() && fresh(bitmap) && Sized(bitmap.View(), total)
    ensures Tracks(bitmap.View(), Some(total), total, Below(Elements(claimed), total))
    ensures missing == Absent(Elements(claimed), 0, total)
  {
    bitmap := new ChunkBitmap.WithExactSize(total);
    for i := 0 to |claimed|
      invariant bitmap.Valid() && Sized(bitmap.View(), total) && fresh(bitmap)
      invariant Tracks(bitmap.View(), Some(total), total, Claimed(claimed, total, i))
    {
      var id := claimed[i];
      if id < total {
        TracksStep(bitmap.View(), Some(total), total, Claimed(claimed, total, i), id);
        var isNew := bitmap.MarkReceived(id, id == total - 1);
      }
    }
    ClaimedIs(claimed, total, |claimed|);
    assert claimed[..|claimed|] == claimed;
    AbsentBelow(Elements(claimed), total, total);
    missing := bitmap.FindMissing();
  }

  lemma {:induction false} AbsentBelow(ids: set<nat>, total: nat, n: nat)
    requires n <= total
    ensures Absent(Below(ids, total), 0, n) == Absent(ids, 0, n)
  {
    if n > 0 {
      AbsentBelow(ids, total, n - 1);
    }
  }

  /** A resume negotiation, or a panic of the client over its saved file. If both messages arrive, the client skips
      exactly the chunks of this file that it recorded, which are the chunks the server's rebuilt bitmap records, for
      whatever chunk count the saved bitmap was made. Without an answer the client skips nothing, although the server
      may have rebuilt its bitmap; with nothing recorded it does not ask. */
  method Negotiate(client: UploadClient, requestArrives: bool, answerArrives: bool)
    returns (skip: Option<set<nat>>, bitmap: ChunkBitmap)
    requires client.Valid()
    ensures skip == if client.Panics() then None
                    else Some(if requestArrives && answerArrives then client.Recorded() else {})
    ensures Unloadable(client.disk) ==>
              skip == Some(if requestArrives && answerArrives then client.MirrorIds() else {})
    ensures bitmap.Valid() && fresh(bitmap) && Sized(bitmap.View(), client.total)
    ensures Tracks(bitmap.View(), Some(client.total), client.total,
                   if requestArrives && !client.Panics() then client.Recorded() else {})
  {
    var claimed := client.ChunksToClaim();
    if Unloadable(client.disk) {
      client.UnloadableIs();
    }
    if claimed.None? {
      bitmap := new ChunkBitmap.WithExactSize(client.total);
      return None, bitmap;
    }
    var agreed;
    agreed, bitmap := Agree(client, claimed.value, requestArrives, answerArrives);
    skip := Some(agreed);
  }

  /** A fresh transfer is stopped, its saved file is lost or cut inside the header, and the upload is resumed from what
      the client remembers: it skips the chunks up to the last save. */
  method ResumeFromMemory(total: nat, cs: seq<ProcessedChunk>, takes: nat -> seq<nat>, left: Option<seq<byte>>)
    returns (skip: Option<set<nat>>)
    requires 0 < total && total + 7 < U32_LIMIT && |cs| <= total && Unloadable(left)
    ensures skip == Some(Range(0, LastSave(|cs|, total)))
  {
    var client := new UploadClient(total);
    var stream, finished := client.SendChunks(cs, {}, {}, takes);
    FreshMirror(cs, total, |cs|);
    client.disk := left;
    var bitmap;
    skip, bitmap := Negotiate(client, true, true);
  }

  /** The exchange itself. */
  method Agree(client: UploadClient, claimed: seq<nat>, requestArrives: bool, answerArrives: bool)
    returns (skip: set<nat>, bitmap: ChunkBitmap)
    requires client.Valid() && Elements(claimed) == client.Saved()
    ensures skip == if requestArrives && answerArrives then client.Recorded() else {}
    ensures bitmap.Valid() && fresh(bitmap) && Sized(bitmap.View(), client.total)
    ensures Tracks(bitmap.View(), Some(client.total), client.total, if requestArrives then client.Recorded() else {})
  {
    skip := {};
    if |claimed| == 0 || !requestArrives {
      bitmap := new ChunkBitmap.WithExactSize(client.total);
      assert |claimed| == 0 ==> Elements(claimed) == {} == client.Recorded();
      return;
    }
    var missing;
    bitmap, missing := AnswerResume(client.total, claimed);
    if answerArrives {
      skip := client.SkipSet(missing);
      ResumePartition(client.total, Elements(claimed), skip);
    }
  }
}
