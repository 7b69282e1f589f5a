/** `ChunkHashIndex`: the server's record of where each chunk hash is stored, kept in a hash map and saved
    as text. */
module ChunkHashIndexes {
  import opened Bytes
  import opened Collections
  import opened Text
  import opened IndexModel

  class ChunkHashIndex {
    var index: Index

    ghost predicate Valid()
      reads this
    {
      Bucketed(index)
    }

    constructor ()
      ensures Valid() && index == map[]
    {
      index := map[];
    }

    method AddChunk(hash: Hash, location: Location)
      requires Valid()
      modifies this
      ensures Valid() && index == Add(old(index), Record(hash, location))
    {
      index := index[hash := Locations(index, hash) + [location]];
    }

    /** A hash is known exactly when some location is recorded for it. */
    method HasChunk(hash: Hash) returns (known: bool)
      requires Valid()
      ensures known <==> hash in index
      ensures known <==> exists location :: location in Locations(index, hash)
    {
      known := hash in index;
      assert known ==> index[hash][0] in Locations(index, hash);
    }

    /** The asked hashes that are stored, in the order asked. */
    method CheckHashes(hashes: seq<Hash>) returns (known: seq<Hash>)
      requires Valid()
      ensures known == Filter(Stored(index), hashes)
      ensures forall h :: h in known <==> h in hashes && exists l :: l in Locations(index, h)
    {
      known := [];
      for i := 0 to |hashes|
        invariant known == Filter(Stored(index), hashes[..i])
      {
        var has := HasChunk(hashes[i]);
        FilterSnoc(Stored(index), hashes[..i], hashes[i]);
        assert hashes[..i + 1] == hashes[..i] + [hashes[i]];
        if has {
          known := known + [hashes[i]];
        }
      }
      assert hashes[..|hashes|] == hashes;
      FilterIs(Stored(index), hashes);
      forall h | h in index ensures exists l :: l in Locations(index, h) {
        assert index[h][0] in Locations(index, h);
      }
    }

    /** Writes every location of every hash, the hashes in the map's own order. */
    method Save() returns (text: string, ghost order: seq<Hash>)
      requires Valid()
      ensures Iterates(order, index)
      ensures forall h | h in order :: h in index
      ensures text == TextOf(Records(index, order))
    {
      var m := index;
      text, order := [], [];
      var left := m.Keys;
      while left != {}
        invariant Visiting(m, order, left)
        invariant text == TextOf(Records(m, order))
        decreases |left|
      {
        var hash :| hash in left;
        text := WriteBucket(text, hash, m[hash], Records(m, order));
        RecordsSnoc(m, order, hash);
        VisitOne(m, order, left, hash);
        order, left := order + [hash], left - {hash};
      }
      VisitedAll(m, order);
    }

    /** Reads the file into the index; an unreadable field stops it, keeping what came before. */
    method LoadFile(file: Option<string>) returns (ok: bool)
      requires Valid()
      modifies this
      ensures Valid()
      ensures file.None? ==> ok && index == old(index)
      ensures file.Some? ==> Loaded(index, ok) == Load(old(index), Lines(file.value))
    {
      if file.None? {
        return true;
      }
      var lines := Lines(file.value);
      assert lines[0..] == lines;
      for i := 0 to |lines|
        invariant Valid() && Load(index, lines[i..]) == Load(old(index), lines)
      {
        assert lines[i..][0] == lines[i] && lines[i..][1..] == lines[i + 1..];
        match ParseLine(lines[i]) {
          case Skipped =>
          case Malformed =>
            return false;
          case Parsed(record) =>
            AddChunk(record.hash, record.location);
        }
      }
      ok := true;
    }

    method Clear()
      modifies this
      ensures Valid() && index == map[]
    {
      index := map[];
    }

    /** Drops a file's locations, and the hashes left without any. */
    method RemoveFile(path: string)
      requires Valid()
      modifies this
      ensures Valid() && index == Remove(old(index), path)
    {
      var m := index;
      var left, kept := m.Keys, map[];
      RemoveEnds(m, path);
      while left != {}
        invariant left <= m.Keys
        invariant kept == RemoveExcept(m, path, left)
        decreases |left|
      {
        var hash :| hash in left;
        kept := RetainBucket(m, path, hash, left, kept);
        left := left - {hash};
      }
      RemoveIs(m, path);
      index := kept;
    }
  }

  /** The locations of one hash written behind what is there. */
  method WriteBucket(before: string, hash: Hash, locations: seq<Location>, ghost written: seq<Record>)
    returns (text: string)
    requires before == TextOf(written)
    ensures text == TextOf(written + Bucket(hash, locations))
  {
    text := before;
    ghost var bucket := Bucket(hash, locations);
    assert written + bucket[..0] == written;
    for i := 0 to |locations|
      invariant text == TextOf(written + bucket[..i])
    {
      TextNext(written, bucket, i);
      text := text + LineOf(Record(hash, locations[i])) + [NEWLINE];
    }
    assert bucket[..|locations|] == bucket;
  }

  /** One step of `retain`: the hash stays if a location of it does. */
  method RetainBucket(m: Index, path: string, hash: Hash, ghost left: set<Hash>, before: Index) returns (kept: Index)
    requires hash in m && hash in left && before == RemoveExcept(m, path, left)
    ensures kept == RemoveExcept(m, path, left - {hash})
  {
    var locations := KeepOthers(m[hash], path);
    RemoveStep(m, path, left, hash);
    kept := if |locations| > 0 then before[hash := locations] else before;
  }

  function Stored(m: Index): Hash -> bool {
    h => h in m
  }

  method KeepOthers(locations: seq<Location>, path: string) returns (kept: seq<Location>)
    ensures kept == Filter(Elsewhere(path), locations)
  {
    kept := [];
    for i := 0 to |locations|
      invariant kept == Filter(Elsewhere(path), locations[..i])
    {
      FilterSnoc(Elsewhere(path), locations[..i], locations[i]);
      assert locations[..i + 1] == locations[..i] + [locations[i]];
      if !SamePath(locations[i].path, path) {
        kept := kept + [locations[i]];
      }
    }
    assert locations[..|locations|] == locations;
  }

  /** Saved and loaded into a fresh index: the same index exactly when no path holds a separator; an
      index with such a path comes back different or not at all. */
  method SaveThenLoad(stored: ChunkHashIndex) returns (fresh': ChunkHashIndex, ok: bool)
    requires stored.Valid()
    ensures fresh'.Valid()
    ensures ok && fresh'.index == stored.index <==> Clean(stored.index)
  {
    var text, order := stored.Save();
    fresh' := new ChunkHashIndex();
    ok := fresh'.LoadFile(Some(text));
    LoadSavedIff(stored.index, order);
  }
}
