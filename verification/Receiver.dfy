/** The receiving end of a file (src/client/receiver.rs) as a value, and its assembly of the file from packets in
    any order. */
module ReceiverModel {
  import opened Bytes
  import opened Chunking
  import opened Collections
  import opened Packets
  import opened Chunkers
  import opened TrackerModel
  import opened TrackerRuns

  /** Whether packets go to memory or straight to the part file; how often the latter is synced changes no
      content. */
  datatype Mode = Buffered | OnDisk

  datatype ControlMessage = Nack(id: nat) | RetransmitRequest(ids: seq<nat>)

  datatype ReceiveError = BadPacket(error: PacketError) | SizeMismatch | ChecksumMismatch

  datatype Receiver = Receiver(
    mode: Mode,
    partFile: seq<byte>,
    buffer: seq<byte>,
    received: set<nat>,
    totalChunks: nat,
    bytesReceived: nat,
    eofReceived: bool,
    auto: bool,
    tracker: Option<Tracker>,
    outbox: seq<ControlMessage>)

  /** `set_len`. */
  function Resize(s: seq<byte>, n: nat): (r: seq<byte>)
    ensures |r| == n
  {
    if |s| >= n then s[..n] else s + Zeros(n - |s|)
  }

  /** Bytes written at an offset, with zeros filling any gap before it. */
  function Patch(s: seq<byte>, offset: nat, data: seq<byte>): (r: seq<byte>)
    ensures |r| == Max(|s|, offset + |data|)
  {
    var g := Resize(s, Max(|s|, offset + |data|));
    g[..offset] + data + g[offset + |data|..]
  }

  /** A new receiver over whatever an earlier part file holds. */
  function Open(mode: Mode, fileSize: nat, stale: seq<byte>): Receiver {
    Receiver(mode, if mode == OnDisk && fileSize > 0 then Resize(stale, fileSize) else stale,
             if mode == Buffered then Zeros(fileSize) else [], {}, 0, 0, false, false, None, [])
  }

  /** Where packets are written. */
  function Content(r: Receiver): seq<byte> {
    if r.mode == Buffered then r.buffer else r.partFile
  }

  function Store(r: Receiver, v: View): Receiver {
    if r.mode == Buffered then r.(buffer := Patch(r.buffer, v.byteOffset, v.data))
    else if |v.data| == 0 then r
    else r.(partFile := Patch(r.partFile, v.byteOffset, v.data))
  }

  function Reject(r: Receiver, id: nat): Receiver {
    if r.auto then
      r.(tracker := if r.tracker.Some? then Some(Corrupted(r.tracker.value, id)) else None,
         outbox := r.outbox + [Nack(id)])
    else r
  }

  function TrackAccepted(r: Receiver, v: View): Option<Tracker> {
    if r.tracker.Some? then Some(Received(r.tracker.value, v.chunkId))
    else if v.endOfFile && r.auto then
      Some(New(v.chunkId + 1, 5, 5000).(received := r.received + {v.chunkId}))
    else None
  }

  function Accept(r: Receiver, v: View): Receiver {
    Store(r, v).(received := r.received + {v.chunkId},
                 bytesReceived := r.bytesReceived + |v.data|,
                 tracker := TrackAccepted(r, v),
                 eofReceived := r.eofReceived || v.endOfFile,
                 totalChunks := if v.endOfFile then v.chunkId + 1 else r.totalChunks)
  }

  /** `receive_chunk`. */
  function Receive(r: Receiver, c: Codec, raw: seq<byte>): (Receiver, Result<View, ReceiveError>) {
    match Parse(c, raw)
    case Err(e) => (r, Err(BadPacket(e)))
    case Ok(v) =>
      if !SizesAgree(v) then (r, Err(SizeMismatch))
      else if !ChecksumMatches(c, v) then (Reject(r, v.chunkId), Err(ChecksumMismatch))
      else if v.chunkId in r.received then (r, Ok(v))
      else (Accept(r, v), Ok(v))
  }

  predicate IsComplete(r: Receiver) {
    r.eofReceived && |r.received| == r.totalChunks
  }

  function MissingChunks(r: Receiver): seq<nat> {
    if r.eofReceived then Absent(r.received, 0, r.totalChunks) else []
  }

  function Enable(r: Receiver): Receiver {
    r.(auto := true,
       tracker := if r.totalChunks > 0 && r.tracker.None? then Some(New(r.totalChunks, 5, 5000)) else r.tracker)
  }

  function Disable(r: Receiver): Receiver {
    r.(auto := false, tracker := None)
  }

  datatype RequestError = NoTracker | SendFailed

  /** `request_missing_chunks`; the retries are spent even when the message cannot be sent. */
  function RequestMissing(r: Receiver, now: nat, picked: seq<nat>, linkUp: bool): (Receiver, Result<nat, RequestError>)
  {
    if !r.auto then (r, Ok(0))
    else if r.tracker.None? then (r, Err(NoTracker))
    else
      var t := r.tracker.value;
      var batch := BatchOf(MarkAll(t), now, picked);
      var s := r.(tracker := Some(RequestAll(t, now, picked)));
      if batch == [] then (s, Ok(0))
      else (s.(outbox := s.outbox + [RetransmitRequest(batch)]), if linkUp then Ok(|batch|) else Err(SendFailed))
  }

  datatype FinalizeError = Incomplete(missing: seq<nat>) | HashMismatch

  /** `finalize`: the part file as it is renamed into place. */
  function Finalize(r: Receiver, c: Codec, expected: Option<seq<byte>>): (Receiver, Result<seq<byte>, FinalizeError>) {
    if !IsComplete(r) then (r, Err(Incomplete(MissingChunks(r))))
    else
      var f := if r.mode == Buffered then Patch(r.partFile, 0, r.buffer) else r.partFile;
      var s := r.(partFile := f);
      if expected.Some? && c.hash(f) != expected.value then (s, Err(HashMismatch)) else (s, Ok(f))
  }

  /** The counter test answers whether EOF was seen and nothing is missing. */
  predicate Exact(r: Receiver) {
    IsComplete(r) <==> r.eofReceived && MissingChunks(r) == []
  }

  /** Its answer at one moment is right exactly when nothing was received beyond the end, or when chunks are missing
      but not as many as were received beyond it. */
  lemma ExactNowIff(r: Receiver)
    requires r.eofReceived
    ensures var (missing, over) := (|MissingChunks(r)|, |r.received - Below(r.received, r.totalChunks)|);
            Exact(r) <==> over == 0 || (missing > 0 && missing != over)
  {
    CountRightNowIff(r.received, r.totalChunks);
  }

  // ----- honest packets -----

  /** A packet of the job whose payload alone may have been damaged, detectably; or bytes that do not decode. */
  predicate Genuine(j: Job, raw: seq<byte>) {
    match Parse(j.codec, raw)
    case Err(_) => true
    case Ok(v) =>
      && v.chunkId < Count(j)
      && v.byteOffset == Start(j.chunkSize, v.chunkId)
      && v.checksum == j.codec.hash(ChunkData(j, v.chunkId))
      && v.endOfFile == (v.chunkId + 1 == Count(j))
      && (v.data == ChunkData(j, v.chunkId) || j.codec.hash(v.data) != v.checksum)
  }

  /** It carries chunk `k` undamaged. */
  predicate Delivers(j: Job, raw: seq<byte>, k: nat) {
    match Parse(j.codec, raw)
    case Err(_) => false
    case Ok(v) => SizesAgree(v) && ChecksumMatches(j.codec, v) && v.chunkId == k
  }

  lemma PacketIsGenuine(j: Job, k: nat)
    requires Lawful(j.codec) && k < Count(j) && PacketOf(j, k).Ok?
    ensures Genuine(j, PacketOf(j, k).value) && Delivers(j, PacketOf(j, k).value, k)
  {
    PacketParses(j, k);
  }

  // ----- assembly -----

  /** The bytes of chunk `k` are in place. */
  ghost predicate Holds(j: Job, content: seq<byte>, k: nat)
    requires k < Count(j)
  {
    StartOrder(|j.file|, j.chunkSize, k);
    && End(|j.file|, j.chunkSize, k) <= |content|
    && content[Start(j.chunkSize, k)..End(|j.file|, j.chunkSize, k)] == ChunkData(j, k)
  }

  /** Total length of the chunks in `ids` below `n`. */
  function Lengths(j: Job, ids: set<nat>, n: nat): nat
    requires n <= Count(j)
  {
    if n == 0 then 0 else Lengths(j, ids, n - 1) + if n - 1 in ids then |ChunkData(j, n - 1)| else 0
  }

  /** What was there before, beyond the end of the file. */
  function Tail(j: Job, initial: seq<byte>): seq<byte> {
    if |initial| > |j.file| then initial[|j.file|..] else []
  }

  /** Everything received is in place, nothing beyond the file is touched, and the counters add up. */
  ghost predicate Assembled(j: Job, r: Receiver, initial: seq<byte>) {
    && (forall k | k in r.received :: k < Count(j) && Holds(j, Content(r), k))
    && |initial| <= |Content(r)| <= Max(|initial|, |j.file|)
    && Tail(j, Content(r)) == Tail(j, initial)
    && r.bytesReceived == Lengths(j, r.received, Count(j))
    && (r.eofReceived <==> Count(j) > 0 && Count(j) - 1 in r.received)
    && r.totalChunks == (if r.eofReceived then Count(j) else 0)
  }

  lemma {:induction false} LengthsAdd(j: Job, ids: set<nat>, k: nat, n: nat)
    requires n <= Count(j) && k !in ids && k < Count(j)
    ensures Lengths(j, ids + {k}, n) == Lengths(j, ids, n) + if k < n then |ChunkData(j, k)| else 0
  {
    if n > 0 {
      LengthsAdd(j, ids, k, n - 1);
    }
  }

  lemma {:induction false} LengthsAll(j: Job, ids: set<nat>, n: nat)
    requires n <= Count(j) && Range(0, n) <= ids
    ensures Lengths(j, ids, n) == Min(Start(j.chunkSize, n), |j.file|)
  {
    if n > 0 {
      assert n - 1 in Range(0, n);
      forall k | k in Range(0, n - 1) ensures k in ids {
        assert k in Range(0, n);
      }
      LengthsAll(j, ids, n - 1);
      StartOrder(|j.file|, j.chunkSize, n - 1);
      assert Start(j.chunkSize, n) == Start(j.chunkSize, n - 1) + j.chunkSize;
    }
  }

  lemma {:induction false} LengthsNone(j: Job, n: nat)
    requires n <= Count(j)
    ensures Lengths(j, {}, n) == 0
  {
    if n > 0 {
      LengthsNone(j, n - 1);
    }
  }

  lemma OpenAssembled(j: Job, mode: Mode, fileSize: nat, stale: seq<byte>)
    ensures Assembled(j, Open(mode, fileSize, stale), Content(Open(mode, fileSize, stale)))
  {
    LengthsNone(j, Count(j));
  }

  lemma PatchIs(s: seq<byte>, offset: nat, data: seq<byte>)
    ensures Patch(s, offset, data)[offset..offset + |data|] == data
    ensures forall i: nat | i < |s| && !(offset <= i < offset + |data|) :: Patch(s, offset, data)[i] == s[i]
  {
  }

  /** Chunk ranges do not overlap. */
  lemma Disjoint(j: Job, k: nat, m: nat)
    requires k < m < Count(j)
    ensures End(|j.file|, j.chunkSize, k) <= Start(j.chunkSize, m)
  {
    StartOrder(|j.file|, j.chunkSize, k);
    MulMono(k + 1, m, j.chunkSize);
  }

  lemma PatchKeeps(j: Job, content: seq<byte>, k: nat, m: nat)
    requires k < Count(j) && m < Count(j) && k != m && Holds(j, content, k)
    ensures Holds(j, Patch(content, Start(j.chunkSize, m), ChunkData(j, m)), k)
  {
    StartOrder(|j.file|, j.chunkSize, k);
    StartOrder(|j.file|, j.chunkSize, m);
    if k < m { Disjoint(j, k, m); } else { Disjoint(j, m, k); }
    var patched := Patch(content, Start(j.chunkSize, m), ChunkData(j, m));
    PatchIs(content, Start(j.chunkSize, m), ChunkData(j, m));
    var lo, hi := Start(j.chunkSize, k), End(|j.file|, j.chunkSize, k);
    forall i: nat | lo <= i < hi ensures patched[i] == content[i] {
    }
    assert patched[lo..hi] == content[lo..hi];
  }

  lemma PatchPlaces(j: Job, content: seq<byte>, initial: seq<byte>, k: nat)
    requires k < Count(j) && |initial| <= |content| <= Max(|initial|, |j.file|)
    requires Tail(j, content) == Tail(j, initial)
    ensures var patched := Patch(content, Start(j.chunkSize, k), ChunkData(j, k));
            && Holds(j, patched, k)
            && |initial| <= |patched| <= Max(|initial|, |j.file|)
            && Tail(j, patched) == Tail(j, initial)
  {
    StartOrder(|j.file|, j.chunkSize, k);
    var offset, data := Start(j.chunkSize, k), ChunkData(j, k);
    var patched := Patch(content, offset, data);
    PatchIs(content, offset, data);
    assert offset + |data| == End(|j.file|, j.chunkSize, k);
    assert Tail(j, patched) == Tail(j, content);
  }

  lemma AcceptAssembled(j: Job, r: Receiver, initial: seq<byte>, v: View)
    requires Assembled(j, r, initial) && v.chunkId < Count(j) && v.chunkId !in r.received
    requires v.byteOffset == Start(j.chunkSize, v.chunkId) && v.data == ChunkData(j, v.chunkId)
    requires v.endOfFile == (v.chunkId + 1 == Count(j))
    ensures Assembled(j, Accept(r, v), initial)
  {
    var s := Accept(r, v);
    var m := v.chunkId;
    assert Content(s) == Patch(Content(r), Start(j.chunkSize, m), ChunkData(j, m));
    PatchPlaces(j, Content(r), initial, m);
    LengthsAdd(j, r.received, m, Count(j));
    forall k | k in s.received ensures k < Count(j) && Holds(j, Content(s), k) {
      if k != m {
        PatchKeeps(j, Content(r), k, m);
      }
    }
  }

  /** One packet, intact, damaged, duplicated or unreadable: the assembly stays right. A packet that is not an
      intact new chunk changes neither bytes nor received set nor byte count; one that is adds exactly its id. */
  lemma ReceiveAssembles(j: Job, r: Receiver, initial: seq<byte>, raw: seq<byte>)
    requires Assembled(j, r, initial) && Genuine(j, raw)
    ensures var (s, answer) := Receive(r, j.codec, raw);
            && Assembled(j, s, initial)
            && (answer.Ok? <==> exists k: nat :: Delivers(j, raw, k))
            && (forall k: nat | Delivers(j, raw, k) :: s.received == r.received + {k})
            && (answer.Err? || answer.value.chunkId in r.received ==>
                  s.partFile == r.partFile && s.buffer == r.buffer && s.received == r.received &&
                  s.bytesReceived == r.bytesReceived)
  {
    match Parse(j.codec, raw)
    case Err(_) =>
    case Ok(v) =>
      if SizesAgree(v) && ChecksumMatches(j.codec, v) {
        assert Delivers(j, raw, v.chunkId);
        assert v.data == ChunkData(j, v.chunkId);
        if v.chunkId !in r.received {
          AcceptAssembled(j, r, initial, v);
        } else {
          assert r.received + {v.chunkId} == r.received;
        }
      }
  }

  lemma {:induction false} HeldPrefix(j: Job, content: seq<byte>, n: nat)
    requires n <= Count(j) && |j.file| <= |content|
    requires forall k: nat | k < n :: Holds(j, content, k)
    ensures content[..Min(Start(j.chunkSize, n), |j.file|)] == j.file[..Min(Start(j.chunkSize, n), |j.file|)]
  {
    if n > 0 {
      HeldPrefix(j, content, n - 1);
      StartOrder(|j.file|, j.chunkSize, n - 1);
      assert Start(j.chunkSize, n) == Start(j.chunkSize, n - 1) + j.chunkSize;
      var lo, hi := Start(j.chunkSize, n - 1), End(|j.file|, j.chunkSize, n - 1);
      assert Holds(j, content, n - 1);
      assert content[lo..hi] == j.file[lo..hi];
      assert content[..hi] == content[..lo] + content[lo..hi];
      assert j.file[..hi] == j.file[..lo] + j.file[lo..hi];
    }
  }

  lemma CompleteIffAll(j: Job, r: Receiver, initial: seq<byte>)
    requires Assembled(j, r, initial)
    ensures IsComplete(r) <==> Count(j) > 0 && r.received == Range(0, Count(j))
    ensures IsComplete(r) ==> MissingChunks(r) == []
  {
    var n := Count(j);
    RangeSize(0, n);
    SubsetSize(r.received, Range(0, n));
    assert n > 0 && r.received == Range(0, n) ==> n - 1 in r.received;
    if IsComplete(r) {
      MissingCount(r.received, n);
      assert Below(r.received, n) == r.received;
    }
  }

  lemma AllHeldIsFile(j: Job, content: seq<byte>)
    requires Count(j) > 0 && forall k: nat | k < Count(j) :: Holds(j, content, k)
    ensures content == j.file + Tail(j, content)
  {
    var n := Count(j);
    CountBounds(|j.file|, j.chunkSize);
    StartOrder(|j.file|, j.chunkSize, n - 1);
    assert Holds(j, content, n - 1);
    HeldPrefix(j, content, n);
    assert content[..|j.file|] == j.file[..|j.file|] == j.file;
    assert content == content[..|j.file|] + content[|j.file|..];
  }

  /** A receiver is complete exactly when it has every chunk of a non-empty file; its content is then the file,
      followed by whatever was there before beyond the file's end. */
  lemma CompleteIsFile(j: Job, r: Receiver, initial: seq<byte>)
    requires Assembled(j, r, initial)
    ensures IsComplete(r) <==> Count(j) > 0 && r.received == Range(0, Count(j))
    ensures IsComplete(r) ==>
              Content(r) == j.file + Tail(j, initial) && r.bytesReceived == |j.file| && MissingChunks(r) == []
  {
    CompleteIffAll(j, r, initial);
    if IsComplete(r) {
      AllHeldIsFile(j, Content(r));
      CountBounds(|j.file|, j.chunkSize);
      LengthsAll(j, r.received, Count(j));
    }
  }
}
