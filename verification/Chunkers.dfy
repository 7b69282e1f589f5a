/** The sequential chunker (src/chunking/chunker.rs) and the parallel pipeline (src/chunking/parallel.rs). */
module Chunkers {
  import opened Bytes
  import opened Chunking
  import opened Collections
  import opened Packets
  import opened Sorting

  type pos = n: nat | n > 0 witness 1

  /** One upload: the file on disk and how it is to be cut and packed. */
  datatype Job = Job(codec: Codec, compression: Compression, file: seq<byte>, chunkSize: pos)

  function Count(j: Job): nat {
    ChunkCount(|j.file|, j.chunkSize)
  }

  function ChunkData(j: Job, k: nat): (s: seq<byte>)
    requires k < Count(j)
    ensures |s| > 0
  {
    Slice(j.file, j.chunkSize, k)
  }

  /** The packet of chunk `k`. The length argument is a `u32`, so an oversized chunk fails to build. */
  function PacketOf(j: Job, k: nat): Result<seq<byte>, PacketError>
    requires k < Count(j)
  {
    var data := ChunkData(j, k);
    Build(j.codec, j.compression, k, Start(j.chunkSize, k), |data| % U32_LIMIT, j.codec.hash(data),
          k + 1 == Count(j), data)
  }

  ghost predicate AllBuild(j: Job) {
    forall k: nat | k < Count(j) :: PacketOf(j, k).Ok?
  }

  /** The packet sequence of the whole file. */
  ghost function PacketsFrom(j: Job, k: nat): (ps: seq<seq<byte>>)
    requires AllBuild(j) && k <= Count(j)
    ensures |ps| == Count(j) - k
    decreases Count(j) - k
  {
    if k == Count(j) then [] else [PacketOf(j, k).value] + PacketsFrom(j, k + 1)
  }

  lemma {:induction false} PacketsFromAt(j: Job, k: nat, i: nat)
    requires AllBuild(j) && k <= i < Count(j)
    ensures PacketsFrom(j, k)[i - k] == PacketOf(j, i).value
    decreases i - k
  {
    if k < i {
      PacketsFromAt(j, k + 1, i);
    }
  }

  /** Without compression every chunk of a file cut below 4 GiB packs. */
  lemma PlainChunksBuild(j: Job)
    requires j.compression == NoCompression && j.chunkSize < U32_LIMIT
    ensures AllBuild(j)
  {
    forall k: nat | k < Count(j) ensures PacketOf(j, k).Ok? {
      StartOrder(|j.file|, j.chunkSize, k);
      var n := |ChunkData(j, k)|;
      assert n <= j.chunkSize;
      assert n % U32_LIMIT == n;
    }
  }

  /** Parsing the packet of chunk `k` gives back the chunk, where it goes, its checksum, and EOF on the last
      chunk only. */
  lemma PacketParses(j: Job, k: nat)
    requires Lawful(j.codec) && k < Count(j) && PacketOf(j, k).Ok?
    ensures Parse(j.codec, PacketOf(j, k).value) ==
            Ok(View(k, Start(j.chunkSize, k), |ChunkData(j, k)|, j.codec.hash(ChunkData(j, k)),
                    k + 1 == Count(j), ChunkData(j, k)))
    ensures |ChunkData(j, k)| < U32_LIMIT
  {
    var data := ChunkData(j, k);
    BuildThenParse(j.codec, j.compression, k, Start(j.chunkSize, k), |data| % U32_LIMIT, j.codec.hash(data),
                   k + 1 == Count(j), data);
  }

  // ----- sequential -----

  datatype ChunkError = ReadFailed | BuildFailed(error: PacketError) | BeyondFile

  class FileChunker {
    const job: Job
    var filePos: nat
    var currentChunk: nat
    var bytesRead: nat

    /** The operating system's file position and both counters stand at the start of the same chunk. */
    ghost predicate Synced()
      reads this
    {
      && filePos == bytesRead
      && currentChunk <= Count(job)
      && bytesRead == Min(Start(job.chunkSize, currentChunk), |job.file|)
    }

    constructor (j: Job)
      ensures job == j && Synced() && currentChunk == 0
    {
      job := j;
      filePos, currentChunk, bytesRead := 0, 0, 0;
    }

    /** A chunker in step returns the packet of the current chunk and moves on, or `None` after the last one.
        When building fails the file position has already moved: the chunker is then out of step until it
        seeks. */
    method NextChunk() returns (r: Result<Option<seq<byte>>, ChunkError>)
      modifies this
      ensures r.Err? || r.value.None? ==> currentChunk == old(currentChunk) && bytesRead == old(bytesRead)
      ensures old(Synced()) && old(currentChunk) == Count(job) ==> r == Ok(None) && Synced()
      ensures old(Synced()) && old(currentChunk) < Count(job) ==>
                match PacketOf(job, old(currentChunk))
                case Ok(packet) => r == Ok(Some(packet)) && Synced() && currentChunk == old(currentChunk) + 1
                case Err(e) => r == Err(BuildFailed(e)) && !Synced()
    {
      StartOrder(|job.file|, job.chunkSize, currentChunk);
      CountBounds(|job.file|, job.chunkSize);
      assert Start(job.chunkSize, currentChunk + 1) == Start(job.chunkSize, currentChunk) + job.chunkSize;
      if bytesRead >= |job.file| {
        return Ok(None);
      }
      var remaining := |job.file| - bytesRead;
      var toRead := Min(remaining, job.chunkSize);
      if filePos + toRead > |job.file| {
        filePos := |job.file|;
        return Err(ReadFailed);
      }
      var buffer := job.file[filePos..filePos + toRead];
      filePos := filePos + toRead;
      var endOfFile := bytesRead + toRead >= |job.file|;
      var built := Build(job.codec, job.compression, currentChunk, bytesRead, toRead % U32_LIMIT,
                         job.codec.hash(buffer), endOfFile, buffer);
      if built.Err? {
        return Err(BuildFailed(built.error));
      }
      currentChunk := currentChunk + 1;
      bytesRead := bytesRead + toRead;
      return Ok(Some(built.value));
    }

    method Reset()
      modifies this
      ensures Synced() && currentChunk == 0
    {
      filePos, currentChunk, bytesRead := 0, 0, 0;
    }

    /** Fails exactly when the offset, computed in 64 bits, lies past the end; starting at the end is allowed and
        leaves nothing to read. A chunk so far out that the offset wraps may be accepted, and the chunker is then out
        of step. File and chunk sizes are 64-bit numbers. */
    method SeekToChunk(k: nat) returns (r: Result<(), ChunkError>)
      requires |job.file| < U64_LIMIT && job.chunkSize < U64_LIMIT
      modifies this
      ensures r.Ok? <==> Start(job.chunkSize, k) % U64_LIMIT <= |job.file|
      ensures r.Ok? ==> currentChunk == k && bytesRead == filePos == Start(job.chunkSize, k) % U64_LIMIT
      ensures r.Ok? ==> (Synced() <==> Start(job.chunkSize, k) < U64_LIMIT)
      ensures r.Err? ==> unchanged(this) && r.error == BeyondFile
    {
      var offset := k * job.chunkSize % U64_LIMIT;
      if offset > |job.file| {
        return Err(BeyondFile);
      }
      SeekIsInStepIff(job, k);
      filePos, currentChunk, bytesRead := offset, k, offset;
      return Ok(());
    }

    /** Iterating from chunk `k` yields the packets `k`, `k+1`, ... up to the last one. */
    method Collect() returns (packets: seq<seq<byte>>)
      requires Synced() && AllBuild(job)
      modifies this
      ensures packets == PacketsFrom(job, old(currentChunk))
      ensures Synced() && currentChunk == Count(job)
    {
      packets := [];
      while true
        invariant Synced() && currentChunk >= old(currentChunk)
        invariant packets + PacketsFrom(job, currentChunk) == PacketsFrom(job, old(currentChunk))
        decreases Count(job) - currentChunk
      {
        ghost var before := currentChunk;
        assert before < Count(job) ==> PacketOf(job, before).Ok?;
        var r := NextChunk();
        if r.Err? || r.value.None? {
          break;
        }
        packets := packets + [r.value.value];
      }
    }
  }

  lemma SeekIsInStepIff(j: Job, k: nat)
    requires |j.file| < U64_LIMIT && j.chunkSize < U64_LIMIT && Start(j.chunkSize, k) % U64_LIMIT <= |j.file|
    ensures (k <= Count(j) && Start(j.chunkSize, k) % U64_LIMIT == Min(Start(j.chunkSize, k), |j.file|))
       <==> Start(j.chunkSize, k) < U64_LIMIT
  {
    CountBounds(|j.file|, j.chunkSize);
    assert (Count(j) + 1) * j.chunkSize == Count(j) * j.chunkSize + j.chunkSize;
    if k > Count(j) {
      MulMono(Count(j) + 1, k, j.chunkSize);
    } else {
      MulMono(k, Count(j), j.chunkSize);
    }
    var start := Start(j.chunkSize, k);
    if start >= U64_LIMIT && k <= Count(j) {
      assert start % U64_LIMIT == start - U64_LIMIT < |j.file|;
    }
  }

  // ----- parallel -----

  datatype RawChunk = RawChunk(chunkId: nat, offset: nat, data: seq<byte>, endOfFile: bool)

  datatype ProcessedChunk = ProcessedChunk(chunkId: nat, packet: seq<byte>, hash: seq<byte>, endOfFile: bool)

  /** `read_chunk`; `readable` says which chunk reads the disk serves. */
  function ReadChunk(j: Job, readable: nat -> bool, k: nat): Result<RawChunk, ChunkError> {
    var offset := k * j.chunkSize;
    if offset >= |j.file| then Err(BeyondFile)
    else if !readable(k) then Err(ReadFailed)
    else
      var toRead := Min(|j.file| - offset, j.chunkSize);
      Ok(RawChunk(k, offset, j.file[offset..offset + toRead], offset + toRead >= |j.file|))
  }

  /** `process_raw_chunk`. */
  function ProcessRawChunk(j: Job, raw: RawChunk): Result<ProcessedChunk, ChunkError> {
    var hash := j.codec.hash(raw.data);
    match Build(j.codec, j.compression, raw.chunkId, raw.offset, |raw.data| % U32_LIMIT, hash, raw.endOfFile,
                raw.data)
    case Err(e) => Err(BuildFailed(e))
    case Ok(packet) => Ok(ProcessedChunk(raw.chunkId, packet, hash, raw.endOfFile))
  }

  /** What one worker makes of chunk `k`; failures are dropped by the pipeline. */
  function Process(j: Job, readable: nat -> bool, k: nat): Option<ProcessedChunk> {
    match ReadChunk(j, readable, k)
    case Err(_) => None
    case Ok(raw) =>
      match ProcessRawChunk(j, raw)
      case Err(_) => None
      case Ok(c) => Some(c)
  }

  /** A worker builds the same packet as the sequential chunker. */
  lemma ProcessMatchesPacket(j: Job, readable: nat -> bool, k: nat)
    requires k < Count(j)
    ensures Process(j, readable, k) ==
            if readable(k) && PacketOf(j, k).Ok? then
              Some(ProcessedChunk(k, PacketOf(j, k).value, j.codec.hash(ChunkData(j, k)), k + 1 == Count(j)))
            else None
  {
    StartOrder(|j.file|, j.chunkSize, k);
  }

  /** The pipeline's work list: chunk id to finished chunk. */
  function Work(j: Job, readable: nat -> bool): nat -> Option<ProcessedChunk> {
    (k: nat) => Process(j, readable, k)
  }

  ghost predicate Labelled(work: nat -> Option<ProcessedChunk>) {
    forall k: nat :: work(k).Some? ==> work(k).value.chunkId == k
  }

  lemma WorkIsLabelled(j: Job, readable: nat -> bool)
    ensures Labelled(Work(j, readable))
  {
  }

  /** The chunks of `lo..hi` that survive, in order. */
  function Survivors(work: nat -> Option<ProcessedChunk>, lo: nat, hi: nat): (cs: seq<ProcessedChunk>)
    requires lo <= hi
    ensures |cs| <= hi - lo
  {
    if lo == hi then []
    else Survivors(work, lo, hi - 1) + if work(hi - 1).Some? then [work(hi - 1).value] else []
  }

  lemma {:induction false} SurvivorsSplit(work: nat -> Option<ProcessedChunk>, lo: nat, mid: nat, hi: nat)
    requires lo <= mid <= hi
    ensures Survivors(work, lo, hi) == Survivors(work, lo, mid) + Survivors(work, mid, hi)
  {
    if mid < hi {
      SurvivorsSplit(work, lo, mid, hi - 1);
    }
  }

  /** `cs` holds exactly the surviving chunks of `ids`, in whatever order the workers finished. */
  ghost predicate Finished(work: nat -> Option<ProcessedChunk>, ids: set<nat>, cs: seq<ProcessedChunk>) {
    && (forall c | c in cs :: c.chunkId in ids && work(c.chunkId) == Some(c))
    && DistinctIds(cs)
    && (forall id | id in ids && work(id).Some? :: work(id).value in cs)
  }

  ghost predicate DistinctIds(cs: seq<ProcessedChunk>) {
    forall i: nat, k: nat | i < k < |cs| :: cs[i].chunkId != cs[k].chunkId
  }

  /** `process_batch`: the completion order is arbitrary. */
  method ProcessBatch(j: Job, readable: nat -> bool, startChunk: nat, batchSize: nat)
    returns (chunks: seq<ProcessedChunk>)
    requires startChunk <= Count(j)
    ensures Finished(Work(j, readable), Range(startChunk, Min(startChunk + batchSize, Count(j))), chunks)
  {
    var work := Work(j, readable);
    WorkIsLabelled(j, readable);
    var end := Min(startChunk + batchSize, Count(j));
    var remaining := Range(startChunk, end);
    ghost var ids := remaining;
    chunks := [];
    while remaining != {}
      invariant remaining <= ids
      invariant Finished(work, ids - remaining, chunks)
      decreases remaining
    {
      var id :| id in remaining;
      FinishOne(work, ids - remaining, id, chunks);
      if work(id).Some? {
        chunks := chunks + [work(id).value];
      }
      remaining := remaining - {id};
      assert ids - remaining == ids - (remaining + {id}) + {id};
    }
    assert ids - remaining == ids;
  }

  lemma FinishOne(work: nat -> Option<ProcessedChunk>, ids: set<nat>, id: nat, cs: seq<ProcessedChunk>)
    requires Labelled(work) && Finished(work, ids, cs) && id !in ids
    ensures Finished(work, ids + {id}, if work(id).Some? then cs + [work(id).value] else cs)
  {
  }

  function ById(): ProcessedChunk -> nat {
    (c: ProcessedChunk) => c.chunkId
  }

  /** Whatever the completion order, sorting restores the sequential order. */
  lemma SortRestoresOrder(work: nat -> Option<ProcessedChunk>, lo: nat, hi: nat, cs: seq<ProcessedChunk>)
    requires lo <= hi && Labelled(work) && Finished(work, Range(lo, hi), cs)
    ensures Sort(ById(), cs) == Survivors(work, lo, hi)
  {
    SortSorts(ById(), cs);
    SortedIsSurvivors(work, lo, hi, Sort(ById(), cs));
  }

  lemma {:induction false} SortedIsSurvivors(work: nat -> Option<ProcessedChunk>, lo: nat, hi: nat,
                                             ds: seq<ProcessedChunk>)
    requires lo <= hi && Labelled(work) && Ascends(ById(), ds) && Finished(work, Range(lo, hi), ds)
    ensures ds == Survivors(work, lo, hi)
    decreases hi
  {
    if lo < hi {
      if work(hi - 1).None? {
        FinishedWithout(work, lo, hi, ds);
        SortedIsSurvivors(work, lo, hi - 1, ds);
      } else {
        LastIsLargest(ds, work(hi - 1).value, hi);
        FinishedFront(work, lo, hi, ds);
        SortedIsSurvivors(work, lo, hi - 1, ds[..|ds| - 1]);
      }
    }
  }

  lemma FinishedWithout(work: nat -> Option<ProcessedChunk>, lo: nat, hi: nat, ds: seq<ProcessedChunk>)
    requires lo < hi && Finished(work, Range(lo, hi), ds) && work(hi - 1).None?
    ensures Finished(work, Range(lo, hi - 1), ds)
  {
    forall c | c in ds ensures c.chunkId in Range(lo, hi - 1) {
      assert c.chunkId in Range(lo, hi) && c.chunkId != hi - 1;
    }
  }

  lemma FinishedFront(work: nat -> Option<ProcessedChunk>, lo: nat, hi: nat, ds: seq<ProcessedChunk>)
    requires lo < hi && Labelled(work) && Finished(work, Range(lo, hi), ds) && work(hi - 1).Some?
    requires |ds| > 0 && ds[|ds| - 1] == work(hi - 1).value
    requires forall x | x in ds[..|ds| - 1] :: x.chunkId < hi - 1
    ensures Finished(work, Range(lo, hi - 1), ds[..|ds| - 1])
  {
    var front, last := ds[..|ds| - 1], ds[|ds| - 1];
    assert ds == front + [last];
    forall c | c in front ensures c.chunkId in Range(lo, hi - 1) && work(c.chunkId) == Some(c) {
      assert c in ds && c.chunkId in Range(lo, hi);
    }
    forall id | id in Range(lo, hi - 1) && work(id).Some? ensures work(id).value in front {
      assert id in Range(lo, hi);
      assert work(id).value in ds && work(id).value.chunkId == id && last.chunkId == hi - 1;
    }
  }

  lemma LastIsLargest(ds: seq<ProcessedChunk>, c: ProcessedChunk, hi: nat)
    requires Ascends(ById(), ds) && c in ds && c.chunkId == hi - 1
    requires forall x | x in ds :: x.chunkId < hi
    ensures |ds| > 0 && ds[|ds| - 1] == c
    ensures forall x | x in ds[..|ds| - 1] :: x.chunkId < hi - 1
  {
    var i :| 0 <= i < |ds| && ds[i] == c;
    assert ds[|ds| - 1] in ds;
    assert ds == ds[..|ds| - 1] + [ds[|ds| - 1]];
  }

  /** The worker thread: batches of eight, each sorted before it is sent. Every survivor is sent, in id
      order, whatever order the workers finish in. */
  method RunWorker(j: Job, readable: nat -> bool) returns (sent: seq<ProcessedChunk>)
    ensures sent == Survivors(Work(j, readable), 0, Count(j))
  {
    ghost var work := Work(j, readable);
    WorkIsLabelled(j, readable);
    sent := [];
    var batchSize := 8;
    var currentChunk := 0;
    while currentChunk < Count(j)
      invariant currentChunk <= Count(j)
      invariant sent == Survivors(work, 0, currentChunk)
    {
      var batchEnd := Min(currentChunk + batchSize, Count(j));
      var chunks := ProcessBatch(j, readable, currentChunk, batchSize);
      SortRestoresOrder(work, currentChunk, batchEnd, chunks);
      SurvivorsSplit(work, 0, currentChunk, batchEnd);
      sent := sent + Sort(ById(), chunks);
      currentChunk := batchEnd;
    }
  }

  function PacketsIn(cs: seq<ProcessedChunk>): (ps: seq<seq<byte>>)
    ensures |ps| == |cs|
    ensures forall i: nat | i < |cs| :: ps[i] == cs[i].packet
  {
    seq(|cs|, i requires 0 <= i < |cs| => cs[i].packet)
  }

  lemma {:induction false} SurvivorsComplete(work: nat -> Option<ProcessedChunk>, n: nat)
    ensures |Survivors(work, 0, n)| == n <==> forall k: nat | k < n :: work(k).Some?
    ensures |Survivors(work, 0, n)| == n ==> forall k: nat | k < n :: work(k) == Some(Survivors(work, 0, n)[k])
  {
    if n > 0 {
      SurvivorsComplete(work, n - 1);
    }
  }

  /** A chunk that cannot be read or packed is dropped without an error, so every chunk is sent exactly when all
      of them can be; the pipeline then produces the sequential packet sequence, and otherwise it does not. */
  lemma ParallelIsSequential(j: Job, readable: nat -> bool)
    ensures |Survivors(Work(j, readable), 0, Count(j))| == Count(j) <==>
            forall k: nat | k < Count(j) :: readable(k) && PacketOf(j, k).Ok?
    ensures AllBuild(j) ==>
              (PacketsIn(Survivors(Work(j, readable), 0, Count(j))) == PacketsFrom(j, 0) <==>
               forall k: nat | k < Count(j) :: readable(k))
  {
    var n := Count(j);
    var work := Work(j, readable);
    SurvivorsComplete(work, n);
    forall k: nat | k < n ensures work(k).Some? <==> readable(k) && PacketOf(j, k).Ok? {
      ProcessMatchesPacket(j, readable, k);
    }
    if AllBuild(j) {
      PacketsMatch(j, readable);
      PacketsMatchIff(work, PacketsFrom(j, 0));
    }
  }

  lemma PacketsMatch(j: Job, readable: nat -> bool)
    requires AllBuild(j)
    ensures forall k: nat | k < Count(j) ::
              Work(j, readable)(k).Some? ==> Work(j, readable)(k).value.packet == PacketsFrom(j, 0)[k]
  {
    forall k: nat | k < Count(j)
      ensures Work(j, readable)(k).Some? ==> Work(j, readable)(k).value.packet == PacketsFrom(j, 0)[k]
    {
      ProcessMatchesPacket(j, readable, k);
      PacketsFromAt(j, 0, k);
    }
  }

  lemma PacketsMatchIff(work: nat -> Option<ProcessedChunk>, packets: seq<seq<byte>>)
    requires forall k: nat | k < |packets| :: work(k).Some? ==> work(k).value.packet == packets[k]
    ensures PacketsIn(Survivors(work, 0, |packets|)) == packets <==>
            forall k: nat | k < |packets| :: work(k).Some?
  {
    SurvivorsComplete(work, |packets|);
    var all := Survivors(work, 0, |packets|);
    if |all| == |packets| {
      forall k: nat | k < |packets| ensures PacketsIn(all)[k] == packets[k] {
        assert work(k) == Some(all[k]);
      }
    }
  }

  /** `compute_chunk_hashes_parallel`, which unlike the pipeline counts its results. */
  function HashChunks(j: Job, readable: nat -> bool, n: nat): seq<seq<byte>>
    requires n <= Count(j)
  {
    if n == 0 then []
    else HashChunks(j, readable, n - 1) + if readable(n - 1) then [j.codec.hash(ChunkData(j, n - 1))] else []
  }

  function ComputeChunkHashes(j: Job, readable: nat -> bool): Result<seq<seq<byte>>, ChunkError> {
    var hashes := HashChunks(j, readable, Count(j));
    if |hashes| != Count(j) then Err(ReadFailed) else Ok(hashes)
  }

  lemma {:induction false} HashChunksComplete(j: Job, readable: nat -> bool, n: nat)
    requires n <= Count(j)
    ensures |HashChunks(j, readable, n)| <= n
    ensures |HashChunks(j, readable, n)| == n <==> forall k: nat | k < n :: readable(k)
    ensures |HashChunks(j, readable, n)| == n ==>
              forall k: nat | k < n :: HashChunks(j, readable, n)[k] == j.codec.hash(ChunkData(j, k))
  {
    if n > 0 {
      HashChunksComplete(j, readable, n - 1);
    }
  }

  /** Hashing succeeds exactly when every chunk can be read, and then lists every chunk's hash in order: the
      checksums the pipeline puts in its packets. */
  lemma HashesMatchPackets(j: Job, readable: nat -> bool)
    requires Lawful(j.codec) && AllBuild(j)
    ensures var r := ComputeChunkHashes(j, readable);
            && (r.Ok? <==> forall k: nat | k < Count(j) :: readable(k))
            && (r.Ok? ==> |r.value| == Count(j) &&
                          forall k: nat | k < Count(j) ::
                            Parse(j.codec, PacketOf(j, k).value).value.checksum == r.value[k])
  {
    HashChunksComplete(j, readable, Count(j));
    forall k: nat | k < Count(j)
      ensures Parse(j.codec, PacketOf(j, k).value).Ok?
      ensures Parse(j.codec, PacketOf(j, k).value).value.checksum == j.codec.hash(ChunkData(j, k))
    {
      PacketParses(j, k);
    }
  }
}
