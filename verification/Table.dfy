/** The chunk table as a value: its integrity check, and what passing it means. */
module TableModel {
  import opened Bytes
  import opened Chunking
  import opened Chunkers
  import opened Collections
  import opened Sorting

  datatype Metadata = Metadata(number: u64, offset: u64, length: u32, checksum: seq<byte>, eof: bool)

  type Table = map<nat, Metadata>

  /** Every entry is filed under its own number. */
  predicate Keyed(t: Table) {
    forall k | k in t :: t[k].number == k
  }

  /** `byte_offset + chunk_length`, which wraps in a release build. */
  function EndOffset(m: Metadata): u64 {
    (m.offset + m.length) % U64_LIMIT
  }

  /** One entry begins where the other ends, if offsets have 64 bits. */
  predicate Meets(a: Metadata, b: Metadata) {
    a.offset + a.length == b.offset || a.offset + a.length == b.offset + 0x1_0000_0000_0000_0000
  }

  lemma MeetsIff(a: Metadata, b: Metadata)
    ensures Meets(a, b) <==> EndOffset(a) == b.offset
  {
  }

  datatype Verdict =
    | Sound
    | NumberGap(expected: nat, found: nat)
    | OffsetMismatch(after: nat)
    | ManyEnds(count: nat)
    | EarlyEnd

  /** The first position from `i` on whose number is not its position. */
  function GapFrom(ms: seq<Metadata>, i: nat): (k: nat)
    requires i <= |ms|
    ensures i <= k <= |ms| && (k < |ms| ==> ms[k].number != k)
    ensures forall x: nat | i <= x < k :: ms[x].number == x
    decreases |ms| - i
  {
    if i == |ms| || ms[i].number != i then i else GapFrom(ms, i + 1)
  }

  /** The first position from `i` on whose end is not the next one's offset. */
  function BreakFrom(ms: seq<Metadata>, i: nat): (k: nat)
    requires i < |ms|
    ensures i <= k < |ms| && (k + 1 < |ms| ==> !Meets(ms[k], ms[k + 1]))
    ensures forall x: nat | i <= x < k :: Meets(ms[x], ms[x + 1])
    decreases |ms| - i
  {
    if i + 1 == |ms| || EndOffset(ms[i]) != ms[i + 1].offset then i else BreakFrom(ms, i + 1)
  }

  function Ends(ms: seq<Metadata>): nat {
    if |ms| == 0 then 0 else Ends(ms[..|ms| - 1]) + if ms[|ms| - 1].eof then 1 else 0
  }

  /** `verify_integrity` on the entries sorted by number. */
  function Check(ms: seq<Metadata>): Verdict {
    if |ms| == 0 then Sound
    else
      var (gap, break', ends) := (GapFrom(ms, 0), BreakFrom(ms, 0), Ends(ms));
      if gap < |ms| then NumberGap(gap, ms[gap].number)
      else if break' + 1 < |ms| then OffsetMismatch(break')
      else if ends > 1 then ManyEnds(ends)
      else if ends == 1 && !ms[|ms| - 1].eof then EarlyEnd
      else Sound
  }

  function ByNumber(): Metadata -> nat {
    (m: Metadata) => m.number
  }

  /** The entries of `ids`, in ascending order of number. */
  predicate SortsAmong(ms: seq<Metadata>, t: Table, ids: set<nat>) {
    && (forall m | m in ms :: m.number in ids && m.number in t && t[m.number] == m)
    && (forall k | k in ids :: k in t && t[k] in ms)
    && Ascends(ByNumber(), ms)
  }

  predicate Sorts(ms: seq<Metadata>, t: Table) {
    SortsAmong(ms, t, t.Keys)
  }

  lemma {:induction false} EndsZero(ms: seq<Metadata>)
    ensures Ends(ms) <= |ms| && (Ends(ms) == 0 <==> forall m | m in ms :: !m.eof)
  {
    if |ms| > 0 {
      EndsZero(ms[..|ms| - 1]);
      assert ms == ms[..|ms| - 1] + [ms[|ms| - 1]];
    }
  }

  /** At most one end mark, and only on the last entry: what the last two checks amount to. */
  lemma EndsLast(ms: seq<Metadata>)
    requires |ms| > 0
    ensures !(Ends(ms) > 1) && !(Ends(ms) == 1 && !ms[|ms| - 1].eof)
       <==> forall k: nat | k + 1 < |ms| :: !ms[k].eof
  {
    var front := ms[..|ms| - 1];
    EndsZero(front);
    if Ends(front) == 0 {
      forall k: nat | k + 1 < |ms| ensures !ms[k].eof {
        assert front[k] in front;
      }
    } else {
      var m :| m in front && m.eof;
      var k :| 0 <= k < |front| && front[k] == m;
      assert ms[k].eof;
    }
  }

  /** Every id from zero up is there, each entry ends where the next one begins, and only the last one may
      mark the end. */
  predicate WellSequenced(t: Table) {
    t.Keys == Range(0, |t|) && forall k: nat | k + 1 < |t| :: Follows(t, k)
  }

  predicate Follows(t: Table, k: nat) {
    k in t && k + 1 in t && Meets(t[k], t[k + 1]) && !t[k].eof
  }

  lemma SortedSize(ms: seq<Metadata>, t: Table)
    requires Keyed(t) && Sorts(ms, t)
    ensures |ms| == |t|
  {
    var numbers := seq(|ms|, i requires 0 <= i < |ms| => ms[i].number);
    assert Distinct(numbers);
    forall k ensures k in Elements(numbers) <==> k in t.Keys {
      if k in t {
        var i :| 0 <= i < |ms| && ms[i] == t[k];
        assert numbers[i] == k;
      }
    }
    DistinctSize(numbers);
    assert Elements(numbers) == t.Keys;
  }

  lemma NumbersAreKeys(ms: seq<Metadata>, t: Table)
    requires Keyed(t) && Sorts(ms, t)
    ensures (forall i: nat | i < |ms| :: ms[i].number == i) <==> t.Keys == Range(0, |t|)
    ensures (forall i: nat | i < |ms| :: ms[i].number == i) ==> forall i: nat | i < |t| :: i in t && ms[i] == t[i]
  {
    SortedSize(ms, t);
    if forall i: nat | i < |ms| :: ms[i].number == i {
      forall k | k in t ensures k < |t| {
        var i :| 0 <= i < |ms| && ms[i] == t[k];
      }
      forall k: nat | k < |t| ensures k in t {
        assert ms[k] in ms;
      }
      assert t.Keys == Range(0, |t|);
      forall i: nat | i < |t| ensures i in t && ms[i] == t[i] {
        assert ms[i] in ms;
      }
    }
    if t.Keys == Range(0, |t|) {
      forall m | m in ms ensures m.number < |ms| {
        assert m.number in t.Keys;
      }
      AscendingBelow(ms);
    }
  }

  /** An ascending list of as many numbers as there are below its length can only count up from zero. */
  lemma AscendingBelow(ms: seq<Metadata>)
    requires Ascends(ByNumber(), ms)
    requires forall m | m in ms :: m.number < |ms|
    ensures forall i: nat | i < |ms| :: ms[i].number == i
  {
    forall i: nat | i < |ms| ensures ms[i].number == i {
      AtLeast(ms, i);
      AtMost(ms, i);
    }
  }

  lemma {:induction false} AtLeast(ms: seq<Metadata>, i: nat)
    requires Ascends(ByNumber(), ms)
    requires i < |ms|
    ensures i <= ms[i].number
  {
    if i > 0 {
      AtLeast(ms, i - 1);
    }
  }

  lemma {:induction false} AtMost(ms: seq<Metadata>, i: nat)
    requires Ascends(ByNumber(), ms)
    requires i < |ms| && forall m | m in ms :: m.number < |ms|
    ensures ms[i].number <= i
    decreases |ms| - i
  {
    if i + 1 < |ms| {
      AtMost(ms, i + 1);
    } else {
      assert ms[i] in ms;
    }
  }

  predicate Counting(ms: seq<Metadata>) {
    forall i: nat | i < |ms| :: ms[i].number == i
  }

  predicate Chained(ms: seq<Metadata>) {
    forall i: nat | i + 1 < |ms| :: Meets(ms[i], ms[i + 1]) && !ms[i].eof
  }

  lemma CheckIff(ms: seq<Metadata>)
    ensures Check(ms) == Sound <==> Counting(ms) && Chained(ms)
  {
    if |ms| > 0 {
      EndsLast(ms);
    }
  }

  lemma {:induction false} EndsCount(ms: seq<Metadata>)
    ensures Ends(ms) == |set i: nat | i < |ms| && ms[i].eof|
  {
    var marks := set i: nat | i < |ms| && ms[i].eof;
    if |ms| == 0 {
      assert marks == {};
    } else {
      var front := ms[..|ms| - 1];
      EndsCount(front);
      var before := set i: nat | i < |front| && front[i].eof;
      assert marks == before + if ms[|ms| - 1].eof then {|ms| - 1} else {};
    }
  }

  /** Each entry up to `n` is followed by one that starts where it ends, computed in 64 bits. */
  predicate MeetsUpTo(ms: seq<Metadata>, n: nat) {
    forall x: nat | x < n && x + 1 < |ms| :: Meets(ms[x], ms[x + 1])
  }

  lemma BreakIs(ms: seq<Metadata>, k: nat)
    requires |ms| > 0
    ensures MeetsUpTo(ms, |ms|) <==> BreakFrom(ms, 0) + 1 == |ms|
    ensures k + 1 < |ms| && MeetsUpTo(ms, k) && !MeetsUpTo(ms, k + 1) <==> k == BreakFrom(ms, 0) && k + 1 < |ms|
  {
    var b := BreakFrom(ms, 0);
    assert b + 1 < |ms| ==> !Meets(ms[b], ms[b + 1]);
  }

  /** A gap in offsets is reported where it is first found, unless a number is out of place. */
  lemma MismatchReported(ms: seq<Metadata>, k: nat)
    ensures Check(ms) == OffsetMismatch(k) <==>
            Counting(ms) && k + 1 < |ms| && MeetsUpTo(ms, k) && !MeetsUpTo(ms, k + 1)
  {
    if |ms| > 0 {
      BreakIs(ms, k);
    }
  }

  /** Before that, the first number that is out of place; after it, the number of end marks if there are several, then
      one that is not on the last entry. */
  lemma FaultReported(ms: seq<Metadata>)
    ensures forall k: nat, found: nat :: Check(ms) == NumberGap(k, found) <==>
              k < |ms| && ms[k].number == found != k && forall x: nat | x < k :: ms[x].number == x
    ensures var marks := set i: nat | i < |ms| && ms[i].eof;
            && (forall n: nat :: Check(ms) == ManyEnds(n) <==>
                  Counting(ms) && MeetsUpTo(ms, |ms|) && n == |marks| > 1)
            && (Check(ms) == EarlyEnd <==>
                  Counting(ms) && MeetsUpTo(ms, |ms|) && |marks| == 1 && !ms[|ms| - 1].eof)
  {
    EndsCount(ms);
    if |ms| > 0 {
      BreakIs(ms, 0);
    }
  }

  /** The integrity check passes exactly on a well sequenced table. */
  lemma SoundIff(ms: seq<Metadata>, t: Table)
    requires Keyed(t) && Sorts(ms, t)
    ensures Check(ms) == Sound <==> WellSequenced(t)
  {
    CheckIff(ms);
    SortedSize(ms, t);
    NumbersAreKeys(ms, t);
    if Counting(ms) {
      ChainedIff(ms, t);
    }
  }

  lemma ChainedIff(ms: seq<Metadata>, t: Table)
    requires |ms| == |t| && forall i: nat | i < |t| :: i in t && ms[i] == t[i]
    ensures Chained(ms) <==> forall k: nat | k + 1 < |t| :: Follows(t, k)
  {
    if forall k: nat | k + 1 < |t| :: Follows(t, k) {
      forall i: nat | i + 1 < |ms| ensures Meets(ms[i], ms[i + 1]) && !ms[i].eof {
        assert Follows(t, i);
      }
    }
  }

  // ----- bytes stored -----

  /** The lengths of the entries of `ids` numbered below `n`. */
  function LengthOf(t: Table, ids: set<nat>, n: nat): nat {
    if n == 0 then 0
    else LengthOf(t, ids, n - 1) + if n - 1 in ids && n - 1 in t then t[n - 1].length else 0
  }

  lemma {:induction false} LengthAdd(t: Table, ids: set<nat>, id: nat, n: nat)
    requires id in t && id !in ids
    ensures LengthOf(t, ids + {id}, n) == LengthOf(t, ids, n) + if id < n then t[id].length else 0
  {
    if n > 0 {
      LengthAdd(t, ids, id, n - 1);
    }
  }

  lemma {:induction false} LengthNone(t: Table, n: nat)
    ensures LengthOf(t, {}, n) == 0
  {
    if n > 0 {
      LengthNone(t, n - 1);
    }
  }

  /** The lengths of the entries numbered below `n`: the sum does not depend on the map's order. */
  function BytesBelow(t: Table, n: nat): nat {
    LengthOf(t, t.Keys, n)
  }

  /** In a table that passes the check and does not run past the largest offset, the entries tile a range:
      entry `k` starts after all the bytes before it, so the bytes stored are the distance from the first
      offset to the last end. */
  lemma {:induction false} SoundTiles(t: Table, k: nat)
    requires Keyed(t) && WellSequenced(t) && k < |t|
    requires t[0].offset + BytesBelow(t, |t|) < U64_LIMIT
    ensures k in t && t[k].offset == t[0].offset + BytesBelow(t, k)
    ensures t[k].offset + t[k].length == t[0].offset + BytesBelow(t, k + 1) < U64_LIMIT
  {
    assert k in Range(0, |t|);
    BytesGrow(t, k + 1, |t|);
    BytesNext(t, k);
    if k == 0 {
      assert BytesBelow(t, 0) == 0;
    } else {
      SoundTiles(t, k - 1);
      assert Follows(t, k - 1);
    }
  }

  lemma BytesNext(t: Table, k: nat)
    requires k in t
    ensures BytesBelow(t, k + 1) == BytesBelow(t, k) + t[k].length
  {
  }

  lemma {:induction false} BytesGrow(t: Table, a: nat, b: nat)
    requires a <= b
    ensures BytesBelow(t, a) <= BytesBelow(t, b)
  {
    if a < b {
      BytesGrow(t, a, b - 1);
    }
  }

  // ----- completeness -----

  /** `is_complete` compares two counts. */
  predicate Complete(t: Table, total: nat) {
    total > 0 && |t| == total
  }

  /** In a table that passes the check, completeness means that no chunk is missing. */
  lemma SoundMissing(t: Table, total: nat)
    requires WellSequenced(t)
    ensures |Absent(t.Keys, 0, total)| == Max(0, total - |t|)
    ensures Complete(t, total) ==> Absent(t.Keys, 0, total) == []
  {
    MissingCount(t.Keys, total);
    var m := Min(|t|, total);
    assert Below(t.Keys, total) == Range(0, m);
    RangeSize(0, m);
  }

  /** A complete table that passes the check holds every chunk, each starting where the bytes before it
      end. */
  lemma SoundAndComplete(t: Table, total: nat)
    requires Keyed(t) && WellSequenced(t) && Complete(t, total)
    ensures forall k: nat :: k in t <==> k < total
    ensures t[0].offset + BytesBelow(t, total) < U64_LIMIT ==>
              forall k: nat | k < total :: t[k].offset == t[0].offset + BytesBelow(t, k)
  {
    assert forall k: nat :: k in t <==> k in Range(0, |t|);
    if t[0].offset + BytesBelow(t, total) < U64_LIMIT {
      forall k: nat | k < total ensures t[k].offset == t[0].offset + BytesBelow(t, k) {
        SoundTiles(t, k);
      }
    }
  }

  /** What completeness is taken to mean. */
  predicate CompleteRight(t: Table, total: nat) {
    Complete(t, total) <==> Absent(t.Keys, 0, total) == []
  }

  /** A table whose count is complete misses nothing exactly when no number lies beyond the total; offsets and end
      marks do not matter. */
  lemma CompleteMissesNoneIff(t: Table, total: nat)
    requires Complete(t, total)
    ensures Absent(t.Keys, 0, total) == [] <==> forall k | k in t :: k < total
  {
    assert |t| == |t.Keys|;
    CountRightNowIff(t.Keys, total);
    NoneBeyond(t.Keys, total);
    MissingCount(t.Keys, total);
    assert t.Keys == Below(t.Keys, total) + (t.Keys - Below(t.Keys, total));
    assert |t.Keys| == |Below(t.Keys, total)| + |t.Keys - Below(t.Keys, total)|;
  }

  /** The test is right whatever chunks of the file are added exactly when no number lies beyond the total. */
  lemma CompleteRightIff(t: Table, total: nat)
    requires total > 0
    ensures (forall k | k in t :: k < total)
       <==> forall more: Table | more.Keys <= Range(0, total) :: CompleteRight(t + more, total)
  {
    if forall k | k in t :: k < total {
      forall more: Table | more.Keys <= Range(0, total) ensures CompleteRight(t + more, total) {
        CompleteRightIs(t + more, total);
        WithinCount((t + more).Keys, total);
      }
    } else {
      var more: Table := Blank(total);
      FilledTable(t, more, total);
    }
  }

  lemma CompleteRightIs(t: Table, total: nat)
    requires total > 0
    ensures CompleteRight(t, total) <==> CountRight(t.Keys, total)
  {
    assert |t| == |t.Keys|;
  }

  /** Some entry under every number below `total`. */
  function Blank(total: nat): (t: Table)
    ensures t.Keys == Range(0, total)
  {
    map k | k in Range(0, total) :: Metadata(0, 0, 0, [], false)
  }

  lemma FilledTable(t: Table, more: Table, total: nat)
    requires total > 0 && more.Keys == Range(0, total) && exists k :: k in t && total <= k
    ensures !CompleteRight(t + more, total)
  {
    var k :| k in t && total <= k;
    assert k in (t + more).Keys;
    assert Range(0, total) <= (t + more).Keys;
    FilledCount((t + more).Keys, total);
    CompleteRightIs(t + more, total);
  }

  /** Without the check it does not: one entry that is not chunk zero completes a one-chunk file. */
  lemma CompleteButMissing(m: Metadata)
    requires m.number == 1
    ensures var t := map[1 := m];
            Keyed(t) && Complete(t, 1) && Absent(t.Keys, 0, 1) == [0]
  {
    var t: Table := map[1 := m];
    assert Absent(t.Keys, 0, 0) == [];
    assert 0 !in t.Keys && |t| == 1;
  }

  // ----- the chunker's own table -----

  function MetadataOf(j: Job, k: nat): Metadata
    requires |j.file| < U64_LIMIT && j.chunkSize < U32_LIMIT && k < Count(j)
  {
    StartOrder(|j.file|, j.chunkSize, k);
    Metadata(k, Start(j.chunkSize, k), |ChunkData(j, k)|, j.codec.hash(ChunkData(j, k)), k + 1 == Count(j))
  }

  /** The metadata of every chunk of a file. */
  function ChunkerTable(j: Job, n: nat): (t: Table)
    requires |j.file| < U64_LIMIT && j.chunkSize < U32_LIMIT && n <= Count(j)
    ensures t.Keys == Range(0, n) && forall k | k in t :: t[k] == MetadataOf(j, k)
  {
    if n == 0 then map[]
    else
      assert forall k: nat :: k in Range(0, n) <==> k in Range(0, n - 1) || k == n - 1;
      ChunkerTable(j, n - 1)[n - 1 := MetadataOf(j, n - 1)]
  }

  /** Lengths that are the distances between successive edges add up to the last edge. */
  lemma {:induction false} LengthsTelescope(t: Table, edge: nat -> nat, n: nat)
    requires edge(0) == 0 && forall k: nat | k < n :: k in t && edge(k) + t[k].length == edge(k + 1)
    ensures BytesBelow(t, n) == edge(n)
  {
    if n == 0 {
      assert BytesBelow(t, 0) == 0;
    } else {
      LengthsTelescope(t, edge, n - 1);
      BytesNext(t, n - 1);
      assert edge(n - 1) + t[n - 1].length == edge(n);
    }
  }

  /** The bytes before chunk `k`. */
  function EdgeOf(j: Job): nat -> nat {
    (k: nat) => Min(Start(j.chunkSize, k), |j.file|)
  }

  lemma MetadataLength(j: Job, k: nat)
    requires |j.file| < U64_LIMIT && j.chunkSize < U32_LIMIT && k < Count(j)
    ensures EdgeOf(j)(k) + MetadataOf(j, k).length == EdgeOf(j)(k + 1)
  {
    StartOrder(|j.file|, j.chunkSize, k);
    assert Start(j.chunkSize, k + 1) == Start(j.chunkSize, k) + j.chunkSize;
  }

  lemma ChunkerBytes(j: Job, t: Table, n: nat)
    requires |j.file| < U64_LIMIT && j.chunkSize < U32_LIMIT && n <= Count(j)
    requires t.Keys == Range(0, Count(j)) && forall k | k in t :: t[k] == MetadataOf(j, k)
    ensures BytesBelow(t, n) == Min(Start(j.chunkSize, n), |j.file|)
  {
    forall k: nat | k < n ensures k in t && EdgeOf(j)(k) + t[k].length == EdgeOf(j)(k + 1) {
      assert k in Range(0, Count(j));
      MetadataLength(j, k);
    }
    LengthsTelescope(t, EdgeOf(j), n);
  }

  /** The chunker's metadata passes the check, is complete, and accounts for every byte of the file. */
  lemma ChunkerTableIsSound(j: Job)
    requires 0 < |j.file| < U64_LIMIT && j.chunkSize < U32_LIMIT
    ensures var t := ChunkerTable(j, Count(j));
            && Keyed(t) && WellSequenced(t) && Complete(t, Count(j))
            && 0 in t && t[0].offset == 0 && BytesBelow(t, Count(j)) == |j.file|
  {
    DescriptionIsSound(j, ChunkerTable(j, Count(j)));
  }

  lemma NeighboursMeet(j: Job, k: nat)
    requires |j.file| < U64_LIMIT && j.chunkSize < U32_LIMIT && k + 1 < Count(j)
    ensures Meets(MetadataOf(j, k), MetadataOf(j, k + 1)) && !MetadataOf(j, k).eof
  {
    StartOrder(|j.file|, j.chunkSize, k);
    var m := MetadataOf(j, k);
    assert m.offset + m.length == Start(j.chunkSize, k + 1);
  }

  lemma DescriptionIsSound(j: Job, t: Table)
    requires 0 < |j.file| < U64_LIMIT && j.chunkSize < U32_LIMIT
    requires t.Keys == Range(0, Count(j)) && forall k | k in t :: t[k] == MetadataOf(j, k)
    ensures Keyed(t) && WellSequenced(t) && Complete(t, Count(j))
    ensures 0 in t && t[0].offset == 0 && BytesBelow(t, Count(j)) == |j.file|
  {
    CountBounds(|j.file|, j.chunkSize);
    RangeSize(0, Count(j));
    ChunkerBytes(j, t, Count(j));
    MapSize(t, Count(j));
    assert 0 in Range(0, Count(j));
    forall k: nat | k + 1 < Count(j) ensures Follows(t, k) {
      assert k in Range(0, Count(j)) && k + 1 in Range(0, Count(j));
      NeighboursMeet(j, k);
    }
  }

  lemma MapSize(t: Table, n: nat)
    requires t.Keys == Range(0, n)
    ensures |t| == n
  {
    RangeSize(0, n);
    assert |t| == |t.Keys|;
  }
}
