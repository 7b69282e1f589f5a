/** Resuming an upload: what is skipped, what is sent, and what the saved bitmaps say (src/client/transfer.rs,
    src/server/transfer.rs). */
module ResumeModel {
  import opened Bytes
  import opened Chunking
  import opened Collections
  import opened Packets
  import opened Chunkers
  import opened ChunkMarks

  // ----- the agreement -----

  /** The server's missing list is what the client did not claim; the client skips what is not on it. The skipped
      chunks are then exactly the claimed ones that exist, and with the missing ones they make up the file. */
  lemma ResumePartition(total: nat, claimed: set<nat>, skip: set<nat>)
    requires forall k: nat :: k in skip <==> k < total && k !in Absent(claimed, 0, total)
    ensures skip == Below(claimed, total)
    ensures skip + Elements(Absent(claimed, 0, total)) == Range(0, total)
    ensures skip !! Elements(Absent(claimed, 0, total))
  {
    AbsentIs(claimed, 0, total);
  }

  // ----- the send loop -----

  /** Whether the loop sends the chunk: not skipped by the agreement, not known to the server by its hash. */
  predicate IsSent(c: ProcessedChunk, skip: set<nat>, existing: set<seq<byte>>) {
    c.chunkId !in skip && c.hash !in existing
  }

  /** The packets sent among the first `n` chunks. */
  function SentPackets(cs: seq<ProcessedChunk>, skip: set<nat>, existing: set<seq<byte>>, n: nat): seq<seq<byte>>
    requires n <= |cs|
  {
    if n == 0 then []
    else SentPackets(cs, skip, existing, n - 1) + if IsSent(cs[n - 1], skip, existing) then [cs[n - 1].packet] else []
  }

  /** The positions of the chunks sent; the loop uses them as bitmap indices. */
  function SentAt(cs: seq<ProcessedChunk>, skip: set<nat>, existing: set<seq<byte>>, n: nat): set<nat>
    requires n <= |cs|
  {
    if n == 0 then {}
    else SentAt(cs, skip, existing, n - 1) + if IsSent(cs[n - 1], skip, existing) then {n - 1} else {}
  }

  /** What the bitmap says after the first `n` chunks. */
  function Marked(cs: seq<ProcessedChunk>, skip: set<nat>, existing: set<seq<byte>>, total: nat, n: nat): set<nat>
    requires n <= |cs|
  {
    if n == 0 then Below(skip, total)
    else Marked(cs, skip, existing, total, n - 1) + if IsSent(cs[n - 1], skip, existing) then {n - 1} else {}
  }

  lemma {:induction false} SentAtIs(cs: seq<ProcessedChunk>, skip: set<nat>, existing: set<seq<byte>>, total: nat,
                                    n: nat)
    requires n <= |cs|
    ensures forall k: nat :: k in SentAt(cs, skip, existing, n) <==> k < n && IsSent(cs[k], skip, existing)
    ensures Marked(cs, skip, existing, total, n) == Below(skip, total) + SentAt(cs, skip, existing, n)
  {
    if n > 0 {
      SentAtIs(cs, skip, existing, total, n - 1);
    }
  }

  /** The bitmap is saved after every hundredth chunk and after the last, if that chunk was sent. */
  predicate SavesAfter(cs: seq<ProcessedChunk>, skip: set<nat>, existing: set<seq<byte>>, total: nat, n: nat)
    requires n <= |cs|
  {
    n > 0 && IsSent(cs[n - 1], skip, existing) && (n % 100 == 0 || n == total)
  }

  /** The ids from `lo` up to `hi`. */
  function Window(ids: set<nat>, lo: nat, hi: nat): set<nat> {
    if hi <= lo then {} else Window(ids, lo, hi - 1) + if hi - 1 in ids then {hi - 1} else {}
  }

  lemma {:induction false} WindowIs(ids: set<nat>, lo: nat, hi: nat)
    ensures forall k: nat :: k in Window(ids, lo, hi) <==> lo <= k < hi && k in ids
  {
    if lo < hi {
      WindowIs(ids, lo, hi - 1);
    }
  }

  /** A save copies into the mirror only the ids from a hundred below the count on. */
  function Mirrored(mirror: set<nat>, ids: set<nat>, total: nat): set<nat> {
    mirror + Window(ids, Max(|ids| - 100, 0), total)
  }

  /** The mirror after the saves among the first `n` chunks. */
  function MirrorAfter(mirror: set<nat>, cs: seq<ProcessedChunk>, skip: set<nat>, existing: set<seq<byte>>,
                       total: nat, n: nat): set<nat>
    requires n <= |cs|
  {
    if n == 0 then mirror
    else
      var before := MirrorAfter(mirror, cs, skip, existing, total, n - 1);
      if SavesAfter(cs, skip, existing, total, n) then
        Mirrored(before, Marked(cs, skip, existing, total, n), total)
      else before
  }

  /** What the saved file records after the first `n` chunks: the bitmap as of the last save, or what was there
      before. */
  function DiskAfter(before: Option<set<nat>>, cs: seq<ProcessedChunk>, skip: set<nat>, existing: set<seq<byte>>,
                     total: nat, n: nat): Option<set<nat>>
    requires n <= |cs|
  {
    if n == 0 then before
    else if SavesAfter(cs, skip, existing, total, n) then Some(Marked(cs, skip, existing, total, n))
    else DiskAfter(before, cs, skip, existing, total, n - 1)
  }

  /** The bitmap is saved after a chunk exactly if that chunk was sent, and its position is a multiple of a hundred or
      the last; so if nothing is sent nothing is saved. */
  lemma {:induction false} SavedWhen(mirror: set<nat>, before: Option<set<nat>>, cs: seq<ProcessedChunk>,
                                     skip: set<nat>, existing: set<seq<byte>>, total: nat, n: nat)
    requires n <= |cs|
    ensures n > 0 && cs[n - 1].chunkId !in skip && cs[n - 1].hash !in existing && (n % 100 == 0 || n == total) ==>
              DiskAfter(before, cs, skip, existing, total, n) == Some(Marked(cs, skip, existing, total, n))
    ensures (forall k: nat | k < n ::
               cs[k].chunkId in skip || cs[k].hash in existing || ((k + 1) % 100 != 0 && k + 1 != total)) ==>
              && DiskAfter(before, cs, skip, existing, total, n) == before
              && MirrorAfter(mirror, cs, skip, existing, total, n) == mirror
  {
    if n > 0 {
      SavedWhen(mirror, before, cs, skip, existing, total, n - 1);
    }
  }

  /** A pipeline from which no chunk was dropped. */
  ghost predicate Complete(j: Job, cs: seq<ProcessedChunk>) {
    |cs| == Count(j) && forall k: nat | k < Count(j) :: cs[k].chunkId == k
  }

  /** Position and chunk id agree exactly as far as no earlier chunk was dropped, so the counter is a sound bitmap
      index only then. */
  lemma {:induction false} PositionIsIdIff(work: nat -> Option<ProcessedChunk>, n: nat, k: nat)
    requires Labelled(work) && k < n && work(k).Some?
    ensures |Survivors(work, 0, k)| < |Survivors(work, 0, n)|
    ensures Survivors(work, 0, n)[|Survivors(work, 0, k)|].chunkId == k
    ensures |Survivors(work, 0, k)| == k <==> forall i: nat | i < k :: work(i).Some?
    decreases n
  {
    SurvivorsComplete(work, k);
    if k < n - 1 {
      PositionIsIdIff(work, n - 1, k);
    }
  }

  lemma AllSurvive(j: Job, readable: nat -> bool)
    requires AllBuild(j) && forall k: nat | k < Count(j) :: readable(k)
    ensures Complete(j, Survivors(Work(j, readable), 0, Count(j)))
    ensures PacketsIn(Survivors(Work(j, readable), 0, Count(j))) == PacketsFrom(j, 0)
  {
    var work := Work(j, readable);
    WorkIsLabelled(j, readable);
    ParallelIsSequential(j, readable);
    SurvivorsComplete(work, Count(j));
    var cs := Survivors(work, 0, Count(j));
    forall k: nat | k < Count(j) ensures cs[k].chunkId == k {
      assert work(k) == Some(cs[k]);
    }
  }

  /** The ids of the first `n` chunks. */
  function FirstIds(cs: seq<ProcessedChunk>, n: nat): set<nat>
    requires n <= |cs|
  {
    if n == 0 then {} else FirstIds(cs, n - 1) + {cs[n - 1].chunkId}
  }

  /** The ids of the chunks sent among the first `n`. */
  function SentIds(cs: seq<ProcessedChunk>, skip: set<nat>, existing: set<seq<byte>>, n: nat): set<nat>
    requires n <= |cs|
  {
    if n == 0 then {}
    else SentIds(cs, skip, existing, n - 1) + if IsSent(cs[n - 1], skip, existing) then {cs[n - 1].chunkId} else {}
  }

  /** Every chunk of the pipeline is sent, skipped by agreement, or skipped because the server has its hash; the first
      two are disjoint, and without known hashes they are everything. */
  lemma {:induction false} SendPartition(cs: seq<ProcessedChunk>, skip: set<nat>, existing: set<seq<byte>>, n: nat)
    requires n <= |cs|
    ensures SentIds(cs, skip, existing, n) !! skip
    ensures forall k: nat | k < n ::
              cs[k].chunkId in SentIds(cs, skip, existing, n) || cs[k].chunkId in skip || cs[k].hash in existing
    ensures existing == {} ==>
              SentIds(cs, skip, existing, n) + skip * FirstIds(cs, n) == FirstIds(cs, n)
  {
    if n > 0 {
      SendPartition(cs, skip, existing, n - 1);
      if existing == {} {
        assert cs[n - 1].hash !in existing;
      }
    }
  }

  /** After `n` chunks the bitmap is what was agreed to be skipped and the first `n` exactly when every position whose
      chunk was not sent is itself the id of a skipped chunk. */
  lemma MarkedPrefixIff(cs: seq<ProcessedChunk>, skip: set<nat>, existing: set<seq<byte>>, total: nat, n: nat)
    requires n <= |cs| <= total
    ensures Marked(cs, skip, existing, total, n) == Below(skip, total) + Range(0, n)
       <==> forall k: nat | k < n :: IsSent(cs[k], skip, existing) || k in skip
  {
    SentAtIs(cs, skip, existing, total, n);
    if Marked(cs, skip, existing, total, n) == Below(skip, total) + Range(0, n) {
      forall k: nat | k < n ensures IsSent(cs[k], skip, existing) || k in skip {
        assert k in Marked(cs, skip, existing, total, n);
      }
    }
  }

  lemma {:induction false} FirstIdsIs(cs: seq<ProcessedChunk>, n: nat)
    requires n <= |cs|
    ensures forall id :: id in FirstIds(cs, n) <==> exists k: nat :: k < n && cs[k].chunkId == id
  {
    if n > 0 {
      FirstIdsIs(cs, n - 1);
      assert cs[n - 1].chunkId in FirstIds(cs, n);
    }
  }

  lemma {:induction false} SurvivorsCameFrom(work: nat -> Option<ProcessedChunk>, n: nat)
    requires Labelled(work)
    ensures forall c | c in Survivors(work, 0, n) :: c.chunkId < n && work(c.chunkId) == Some(c)
  {
    if n > 0 {
      SurvivorsCameFrom(work, n - 1);
    }
  }

  /** In a fresh transfer the saved bitmap records exactly the chunks sent so far if and only if the pipeline dropped
      none of as many first chunks. */
  lemma MarkedIsSentIff(work: nat -> Option<ProcessedChunk>, total: nat, n: nat)
    requires Labelled(work) && n <= |Survivors(work, 0, total)|
    ensures var cs := Survivors(work, 0, total);
            Marked(cs, {}, {}, total, n) == FirstIds(cs, n) <==> forall i: nat | i < n :: work(i).Some?
  {
    var cs := Survivors(work, 0, total);
    FreshMarked(cs, total, n);
    FirstIdsIs(cs, n);
    SurvivorsCameFrom(work, total);
    if forall i: nat | i < n :: work(i).Some? {
      SurvivorsSplit(work, 0, n, total);
      SurvivorsComplete(work, n);
      forall k: nat | k < n ensures cs[k].chunkId == k {
        assert work(k) == Some(Survivors(work, 0, n)[k]);
      }
    }
    if FirstIds(cs, n) == Range(0, n) {
      forall i: nat | i < n ensures work(i).Some? {
        assert i in FirstIds(cs, n);
        var k: nat :| k < n && cs[k].chunkId == i;
        assert cs[k] in cs;
      }
    }
  }

  lemma {:induction false} SentIdsIs(cs: seq<ProcessedChunk>, skip: set<nat>, existing: set<seq<byte>>, n: nat)
    requires n <= |cs|
    ensures forall id :: id in SentIds(cs, skip, existing, n) <==>
              exists k: nat :: k < n && cs[k].chunkId == id && id !in skip && cs[k].hash !in existing
  {
    if n > 0 {
      SentIdsIs(cs, skip, existing, n - 1);
      if IsSent(cs[n - 1], skip, existing) {
        assert cs[n - 1].chunkId in SentIds(cs, skip, existing, n);
      }
    }
  }

  /** The chunk with id `k` survived, and was sent or skipped. */
  predicate Accounted(work: nat -> Option<ProcessedChunk>, skip: set<nat>, existing: set<seq<byte>>, k: nat) {
    k in skip || (work(k).Some? && IsSent(work(k).value, skip, existing))
  }

  /** A surviving chunk stands no later in the pipeline than its id. */
  lemma StandsByItsId(work: nat -> Option<ProcessedChunk>, total: nat, k: nat)
    requires Labelled(work) && k < total && work(k).Some?
    ensures var (cs, at) := (Survivors(work, 0, total), |Survivors(work, 0, k)|);
            at <= k && at < |cs| && cs[at] == work(k).value
  {
    SurvivorsSplit(work, 0, k + 1, total);
    assert Survivors(work, 0, k + 1) == Survivors(work, 0, k) + [work(k).value];
  }

  /** After `n` chunks of any transfer, fresh or resumed, the bitmap records only chunks that were sent or agreed to be
      skipped exactly when every position at which a chunk was sent is the id of such a chunk. */
  lemma MarkedIsTrueIff(work: nat -> Option<ProcessedChunk>, skip: set<nat>, existing: set<seq<byte>>, total: nat,
                        n: nat)
    requires Labelled(work) && n <= |Survivors(work, 0, total)|
    ensures var cs := Survivors(work, 0, total);
            Marked(cs, skip, existing, total, n) <= Below(skip, total) + SentIds(cs, skip, existing, n) <==>
            forall k: nat | k < n && IsSent(cs[k], skip, existing) :: Accounted(work, skip, existing, k)
  {
    var cs := Survivors(work, 0, total);
    SentAtIs(cs, skip, existing, total, n);
    SentIdsIs(cs, skip, existing, n);
    SurvivorsCameFrom(work, total);
    forall k: nat | k < n
      ensures Accounted(work, skip, existing, k) <==> k in Below(skip, total) + SentIds(cs, skip, existing, n)
    {
      if work(k).Some? {
        StandsByItsId(work, total, k);
        var at := |Survivors(work, 0, k)|;
        assert at < n && cs[at].chunkId == k;
      }
      if k in SentIds(cs, skip, existing, n) {
        var i: nat :| i < n && cs[i].chunkId == k && IsSent(cs[i], skip, existing);
        assert cs[i] in cs;
      }
    }
    forall k: nat | k < n && IsSent(cs[k], skip, existing) ensures k in Marked(cs, skip, existing, total, n) {
    }
  }

  /** With no chunk dropped and no hash known, the bitmap after `n` chunks is what was agreed to be skipped and the
      first `n`. */
  lemma LosslessMarked(j: Job, cs: seq<ProcessedChunk>, skip: set<nat>, n: nat)
    requires Complete(j, cs) && n <= |cs|
    ensures Marked(cs, skip, {}, Count(j), n) == Below(skip, Count(j)) + Range(0, n)
  {
    MarkedPrefixIff(cs, skip, {}, Count(j), n);
    forall k: nat | k < n ensures IsSent(cs[k], skip, {}) || k in skip {
      assert cs[k].hash !in {};
    }
  }

  /** A fresh transfer sends every packet in order. */
  lemma {:induction false} FreshSendsAll(cs: seq<ProcessedChunk>, n: nat)
    requires n <= |cs|
    ensures SentPackets(cs, {}, {}, n) == PacketsIn(cs)[..n]
  {
    if n > 0 {
      FreshSendsAll(cs, n - 1);
      assert PacketsIn(cs)[..n] == PacketsIn(cs)[..n - 1] + [PacketsIn(cs)[n - 1]];
    }
  }

  /** With no chunk dropped and no hash known, the chunks sent and those skipped make up the file. */
  lemma WholePartition(j: Job, cs: seq<ProcessedChunk>, skip: set<nat>)
    requires Complete(j, cs)
    ensures SentIds(cs, skip, {}, Count(j)) + Below(skip, Count(j)) == Range(0, Count(j))
    ensures SentIds(cs, skip, {}, Count(j)) !! Below(skip, Count(j))
  {
    SendPartition(cs, skip, {}, Count(j));
    FirstIdsIs(cs, Count(j));
    forall id ensures id in FirstIds(cs, Count(j)) <==> id in Range(0, Count(j)) {
      assert id in Range(0, Count(j)) ==> cs[id].chunkId == id;
    }
  }

  // ----- the mirror -----

  /** After a save the mirror equals the bitmap exactly when it held nothing else before and already held every id
      more than a hundred below the count. */
  lemma MirrorExactIff(mirror: set<nat>, ids: set<nat>, total: nat)
    requires forall k | k in ids :: k < total
    ensures Mirrored(mirror, ids, total) == ids <==>
            mirror <= ids && forall k | k in ids && k < |ids| - 100 :: k in mirror
  {
    WindowIs(ids, Max(|ids| - 100, 0), total);
  }

  /** The last save at or before `n` in a fresh transfer. */
  function LastSave(n: nat, total: nat): (s: nat)
    ensures s <= n
  {
    if n == total then n else n / 100 * 100
  }

  lemma LastSaveStep(n: nat, total: nat)
    requires 0 < n <= total
    ensures if n % 100 == 0 || n == total then LastSave(n, total) == n && n <= LastSave(n - 1, total) + 100
            else LastSave(n, total) == LastSave(n - 1, total)
  {
    var q := (n - 1) / 100;
    assert n - 1 == q * 100 + (n - 1) % 100;
    if n % 100 != 0 {
      assert n == q * 100 + ((n - 1) % 100 + 1) && (n - 1) % 100 + 1 < 100;
      assert n / 100 == q;
    }
  }

  /** A fresh transfer sends and marks every position. */
  lemma {:induction false} FreshMarked(cs: seq<ProcessedChunk>, total: nat, n: nat)
    requires n <= |cs|
    ensures Marked(cs, {}, {}, total, n) == Range(0, n)
    ensures SavesAfter(cs, {}, {}, total, n) <==> n > 0 && (n % 100 == 0 || n == total)
  {
    if n > 0 {
      FreshMarked(cs, total, n - 1);
    } else {
      assert Below({}, total) == {};
    }
  }

  lemma WindowSuffices(last: nat, n: nat, total: nat)
    requires last <= n <= total && n <= last + 100
    ensures Mirrored(Range(0, last), Range(0, n), total) == Range(0, n)
  {
    RangeSize(0, n);
    MirrorExactIff(Range(0, last), Range(0, n), total);
  }

  /** In a fresh transfer the window suffices: after every save the mirror equals the bitmap, and in between it is
      at most a hundred chunks behind. */
  lemma {:induction false} FreshMirror(cs: seq<ProcessedChunk>, total: nat, n: nat)
    requires n <= |cs| <= total
    ensures MirrorAfter({}, cs, {}, {}, total, n) == Range(0, LastSave(n, total))
    ensures SavesAfter(cs, {}, {}, total, n) ==>
              MirrorAfter({}, cs, {}, {}, total, n) == Marked(cs, {}, {}, total, n)
  {
    FreshMarked(cs, total, n);
    if n > 0 {
      FreshMirror(cs, total, n - 1);
      LastSaveStep(n, total);
      if SavesAfter(cs, {}, {}, total, n) {
        WindowSuffices(LastSave(n - 1, total), n, total);
      }
    }
  }

  /** A fresh transfer stopped after `n` chunks leaves the positions up to the last save on disk, once there was one. */
  lemma {:induction false} FreshDisk(cs: seq<ProcessedChunk>, total: nat, n: nat)
    requires n <= |cs| <= total
    ensures DiskAfter(None, cs, {}, {}, total, n) ==
            if LastSave(n, total) == 0 then None else Some(Range(0, LastSave(n, total)))
  {
    FreshMarked(cs, total, n);
    if n > 0 {
      FreshDisk(cs, total, n - 1);
      LastSaveStep(n, total);
    }
  }

  lemma WindowMisses(mirror: set<nat>, ids: set<nat>, total: nat, k: nat)
    requires k !in mirror && |ids| > k + 100
    ensures k !in Mirrored(mirror, ids, total)
  {
    WindowIs(ids, Max(|ids| - 100, 0), total);
  }

  /** In a resumed transfer it does not: with an empty mirror, a skipped chunk more than a hundred below the number
      skipped is recorded in every saved bitmap and never copied. */
  lemma {:induction false} ResumedMirrorMisses(cs: seq<ProcessedChunk>, skip: set<nat>, existing: set<seq<byte>>,
                                               total: nat, k: nat, n: nat)
    requires n <= |cs| && k in Below(skip, total) && |Below(skip, total)| > k + 100
    ensures k in Marked(cs, skip, existing, total, n)
    ensures k !in MirrorAfter({}, cs, skip, existing, total, n)
  {
    if n > 0 {
      ResumedMirrorMisses(cs, skip, existing, total, k, n - 1);
      var ids := Marked(cs, skip, existing, total, n);
      SentAtIs(cs, skip, existing, total, n);
      SubsetSize(Below(skip, total), ids);
      WindowMisses(MirrorAfter({}, cs, skip, existing, total, n - 1), ids, total, k);
    }
  }
}
