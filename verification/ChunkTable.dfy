/** `ChunkTable`: chunk metadata in a hash map, with the checks over it. */
module ChunkTables {
  import opened Bytes
  import opened Collections
  import opened Sorting
  import opened TableModel

  class ChunkTable {
    var chunks: Table
    var totalSize: u64
    var totalChunks: nat

    ghost predicate Valid()
      reads this
    {
      Keyed(chunks)
    }

    constructor ()
      ensures Valid() && chunks == map[] && totalSize == 0 && totalChunks == 0
    {
      chunks, totalSize, totalChunks := map[], 0, 0;
    }

    method SetFileInfo(size: u64, count: nat)
      requires Valid()
      modifies `totalSize, `totalChunks
      ensures Valid() && totalSize == size && totalChunks == count
    {
      totalSize, totalChunks := size, count;
    }

    method Insert(m: Metadata) returns (before: Option<Metadata>)
      requires Valid()
      modifies `chunks
      ensures Valid() && chunks == old(chunks)[m.number := m]
      ensures before == if m.number in old(chunks) then Some(old(chunks)[m.number]) else None
    {
      before := if m.number in chunks then Some(chunks[m.number]) else None;
      chunks := chunks[m.number := m];
    }

    method Remove(number: nat) returns (before: Option<Metadata>)
      requires Valid()
      modifies `chunks
      ensures Valid() && chunks == old(chunks) - {number}
      ensures before == if number in old(chunks) then Some(old(chunks)[number]) else None
    {
      before := if number in chunks then Some(chunks[number]) else None;
      chunks := chunks - {number};
    }

    method Clear()
      modifies `chunks
      ensures Valid() && chunks == map[]
    {
      chunks := map[];
    }

    method IsComplete() returns (complete: bool)
      ensures complete == Complete(chunks, totalChunks)
    {
      complete := totalChunks != 0 && |chunks| == totalChunks;
    }

    /** Exactly the ids below the total that have no entry, in ascending order. */
    method MissingChunks() returns (missing: seq<nat>)
      ensures missing == Absent(chunks.Keys, 0, totalChunks)
    {
      missing := [];
      for number := 0 to totalChunks
        invariant missing == Absent(chunks.Keys, 0, number)
      {
        if number !in chunks {
          missing := missing + [number];
        }
      }
    }

    /** The 64-bit sum of the lengths, visited in the map's own order. */
    method BytesStored(ghost bound: nat) returns (total: nat)
      requires forall k | k in chunks :: k < bound
      ensures total == BytesBelow(chunks, bound) % U64_LIMIT
    {
      total := 0;
      var left := chunks.Keys;
      ghost var seen := {};
      LengthNone(chunks, bound);
      while left != {}
        invariant seen + left == chunks.Keys && seen !! left
        invariant total == LengthOf(chunks, seen, bound) % U64_LIMIT
        decreases |left|
      {
        var number :| number in left;
        LengthAdd(chunks, seen, number, bound);
        total := (total + chunks[number].length) % U64_LIMIT;
        left, seen := left - {number}, seen + {number};
      }
      assert seen == chunks.Keys;
    }

    /** The entries collected in the map's own order and sorted by number. */
    method Sorted() returns (ms: seq<Metadata>)
      requires Valid()
      ensures Sorts(ms, chunks)
    {
      var t := chunks;
      var entries := [];
      var left := t.Keys;
      ghost var seen := {};
      while left != {}
        invariant seen + left == t.Keys && seen !! left
        invariant Collects(entries, t, seen)
        decreases |left|
      {
        var number :| number in left;
        CollectOne(number, entries, t, seen);
        entries := entries + [t[number]];
        left, seen := left - {number}, seen + {number};
      }
      assert seen == t.Keys;
      CollectedSorts(entries, t);
      ms := Sort(ByNumber(), entries);
    }

    /** Numbers first, then offsets, then end marks; the first failing check gives the verdict. */
    method VerifyIntegrity() returns (verdict: Verdict)
      requires Valid()
      ensures verdict == Sound <==> WellSequenced(chunks)
    {
      if |chunks| == 0 {
        assert chunks.Keys == {} == Range(0, 0);
        return Sound;
      }
      var ms := Sorted();
      SortedSize(ms, chunks);
      SoundIff(ms, chunks);
      verdict := CheckSorted(ms);
    }
  }

  /** The entries of `ids`, each once, in any order. */
  predicate Collects(ms: seq<Metadata>, t: Table, ids: set<nat>) {
    && (forall m | m in ms :: m.number in ids && m.number in t && t[m.number] == m)
    && (forall k | k in ids :: k in t && t[k] in ms)
    && forall i: nat, k: nat | i < k < |ms| :: ms[i].number != ms[k].number
  }

  lemma CollectOne(number: nat, ms: seq<Metadata>, t: Table, seen: set<nat>)
    requires Keyed(t) && Collects(ms, t, seen) && number in t && number !in seen
    ensures Collects(ms + [t[number]], t, seen + {number})
  {
    forall i: nat | i < |ms| ensures ms[i].number != number {
      assert ms[i] in ms;
    }
  }

  lemma CollectedSorts(ms: seq<Metadata>, t: Table)
    requires Collects(ms, t, t.Keys)
    ensures Sorts(Sort(ByNumber(), ms), t)
  {
    SortSorts(ByNumber(), ms);
  }

  method CheckSorted(ms: seq<Metadata>) returns (verdict: Verdict)
    requires |ms| > 0
    ensures verdict == Check(ms)
  {
    for i := 0 to |ms|
      invariant GapFrom(ms, 0) == GapFrom(ms, i)
    {
      if ms[i].number != i {
        return NumberGap(i, ms[i].number);
      }
    }
    for i := 0 to |ms| - 1
      invariant BreakFrom(ms, 0) == BreakFrom(ms, i)
    {
      if EndOffset(ms[i]) != ms[i + 1].offset {
        return OffsetMismatch(i);
      }
    }
    var ends := 0;
    for i := 0 to |ms|
      invariant ends == Ends(ms[..i])
    {
      assert ms[..i + 1][..i] == ms[..i];
      if ms[i].eof {
        ends := ends + 1;
      }
    }
    assert ms[..|ms|] == ms;
    if ends > 1 {
      return ManyEnds(ends);
    }
    if ends == 1 && !ms[|ms| - 1].eof {
      return EarlyEnd;
    }
    verdict := Sound;
  }
}
