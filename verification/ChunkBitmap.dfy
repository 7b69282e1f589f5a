/** `ChunkBitmap` (src/chunking/bitmap.rs): a packed bit vector with counters, proved to behave as the set of
    `Marks`, and its file format. */
module ChunkBitmaps {
  import opened Bytes
  import opened Collections
  import opened ChunkMarks

  // ----- bits -----

  /** `b & (1 << i) != 0`, one binary digit at a time. */
  predicate Bit(b: nat, i: nat) {
    if i == 0 then b % 2 == 1 else Bit(b / 2, i - 1)
  }

  /** `b | (1 << i)`. */
  function WithBit(b: nat, i: nat): nat {
    if i == 0 then b / 2 * 2 + 1 else WithBit(b / 2, i - 1) * 2 + b % 2
  }

  /** `1 << i`. */
  function Weight(i: nat): nat {
    if i == 0 then 1 else 2 * Weight(i - 1)
  }

  lemma Halves(h: nat, r: nat)
    requires r < 2
    ensures (h * 2 + r) / 2 == h && (h * 2 + r) % 2 == r
  {
  }

  /** Setting a bit sets that bit and no other. */
  lemma {:induction false} SetBitSetsOne(b: nat, i: nat, k: nat)
    ensures Bit(WithBit(b, i), k) <==> Bit(b, k) || i == k
    decreases i
  {
    if i == 0 {
      Halves(b / 2, 1);
    } else {
      Halves(WithBit(b / 2, i - 1), b % 2);
      if k > 0 {
        SetBitSetsOne(b / 2, i - 1, k - 1);
      }
    }
  }

  /** It adds the bit's weight if the bit was clear, and stays within a word that has room for the bit. */
  lemma {:induction false} SetBitAdds(b: nat, i: nat, width: nat)
    ensures WithBit(b, i) == if Bit(b, i) then b else b + Weight(i)
    ensures i < width && b < Weight(width) ==> WithBit(b, i) < Weight(width)
    decreases i
  {
    assert b == b / 2 * 2 + b % 2;
    if i > 0 {
      SetBitAdds(b / 2, i - 1, if width == 0 then 0 else width - 1);
    }
  }

  lemma {:induction false} ZeroHasNoBits(i: nat)
    ensures !Bit(0, i)
  {
    if i > 0 {
      ZeroHasNoBits(i - 1);
    }
  }

  /** `b |= 1 << i` on a byte. */
  function SetBit(b: byte, i: nat): byte
    requires i < 8
  {
    SetBitAdds(b, i, 8);
    assert Weight(8) == 256;
    WithBit(b, i)
  }

  /** The bit of chunk `k`: byte `k >> 3`, bit `k & 7`. */
  predicate Recorded(bitmap: seq<byte>, k: nat) {
    k / 8 < |bitmap| && Bit(bitmap[k / 8], k % 8)
  }

  /** The ids recorded below the capacity. */
  ghost function IdsIn(bitmap: seq<byte>, capacity: nat): set<nat> {
    set k: nat | k < capacity && Recorded(bitmap, k)
  }

  /** `ids` are the recorded ids, and no bit at or above the capacity is set. */
  ghost predicate Represents(bitmap: seq<byte>, capacity: nat, ids: set<nat>) {
    && (forall k: nat {:trigger Recorded(bitmap, k)} :: Recorded(bitmap, k) <==> k in ids)
    && (forall k: nat {:trigger Recorded(bitmap, k)} :: Recorded(bitmap, k) ==> k < capacity)
  }

  lemma RepresentsIs(bitmap: seq<byte>, capacity: nat, ids: set<nat>)
    requires Represents(bitmap, capacity, ids)
    ensures ids == IdsIn(bitmap, capacity)
  {
    forall k ensures k in ids <==> k in IdsIn(bitmap, capacity) {
      assert Recorded(bitmap, k) <==> k in ids;
    }
  }

  lemma SetRecords(bitmap: seq<byte>, c: nat, k: nat)
    requires c / 8 < |bitmap|
    ensures Recorded(bitmap[c / 8 := SetBit(bitmap[c / 8], c % 8)], k) <==> Recorded(bitmap, k) || k == c
  {
    if k / 8 == c / 8 {
      SetBitSetsOne(bitmap[c / 8], c % 8, k % 8);
      assert k == 8 * (k / 8) + k % 8 && c == 8 * (c / 8) + c % 8;
    }
  }

  lemma ZerosRecordNothing(bitmap: seq<byte>, n: nat, k: nat)
    ensures Recorded(bitmap + Zeros(n), k) <==> Recorded(bitmap, k)
  {
    ZeroHasNoBits(k % 8);
  }

  // ----- fields and invariant -----

  /** `capacity_to_bytes`. */
  function BytesFor(capacity: nat): nat {
    (capacity + 7) / 8
  }

  /** The five fields of the struct. */
  datatype Image = Image(bitmap: seq<byte>, total: Option<nat>, receivedCount: nat, haveEof: bool, capacity: nat)

  /** The set a bitmap stands for. */
  function ViewOf(b: Image, ids: set<nat>): Marks {
    Marks(ids, b.total, b.haveEof, b.capacity)
  }

  /** The bytes fit the capacity, the bits are those of `ids`, spare bits are clear, and the counter counts the set
      bits. */
  ghost predicate ValidImage(b: Image, ids: set<nat>) {
    && b.capacity + 7 < U32_LIMIT
    && |b.bitmap| == BytesFor(b.capacity)
    && Represents(b.bitmap, b.capacity, ids)
    && b.receivedCount == |ids|
    && WellFormed(ViewOf(b, ids))
  }

  function WithChunk(b: Image, chunk: nat, isEof: bool): Image
    requires chunk / 8 < |b.bitmap|
  {
    Image(b.bitmap[chunk / 8 := SetBit(b.bitmap[chunk / 8], chunk % 8)],
          if isEof then Some(chunk + 1) else b.total, b.receivedCount + 1, b.haveEof || isEof, b.capacity)
  }

  lemma SetInImage(b: Image, ids: set<nat>, chunk: nat, isEof: bool)
    requires ValidImage(b, ids) && chunk < b.capacity && Accepts(ViewOf(b, ids), chunk)
    ensures chunk / 8 < |b.bitmap|
    ensures ValidImage(WithChunk(b, chunk, isEof), ids + {chunk})
    ensures ViewOf(WithChunk(b, chunk, isEof), ids + {chunk}) == Mark(ViewOf(b, ids), chunk, isEof)
  {
    var c := WithChunk(b, chunk, isEof);
    forall k: nat ensures Recorded(c.bitmap, k) <==> Recorded(b.bitmap, k) || k == chunk {
      SetRecords(b.bitmap, chunk, k);
    }
    MarkWellFormed(ViewOf(b, ids), chunk, isEof);
  }

  // ----- looking chunks up in a bitmap that was loaded -----

  /** Looking up chunk `k` stays inside the vector, or does not look at it. */
  predicate InVector(b: Image, k: nat) {
    k < b.capacity ==> k / 8 < |b.bitmap|
  }

  /** `get_received_chunks` looks up a chunk past the end of the vector. */
  predicate ClaimPanics(b: Image) {
    b.total.Some? && exists k: nat :: k < b.total.value && !InVector(b, k)
  }

  /** Otherwise, what it lists. */
  ghost function Claimable(b: Image): seq<nat> {
    if b.total.Some? then Present(IdsIn(b.bitmap, b.capacity), 0, b.total.value) else []
  }

  /** It panics exactly when the vector has too few bits for the chunks below total and capacity. */
  lemma ClaimPanicsIff(b: Image)
    ensures ClaimPanics(b) <==> b.total.Some? && 8 * |b.bitmap| < Min(b.total.value, b.capacity)
  {
    if b.total.Some? && 8 * |b.bitmap| < Min(b.total.value, b.capacity) {
      var k := 8 * |b.bitmap|;
      assert k / 8 == |b.bitmap|;
      assert !InVector(b, k);
    }
  }

  /** A valid bitmap never panics, and lists the ids it records. */
  lemma ValidNeverPanics(b: Image, ids: set<nat>)
    requires ValidImage(b, ids)
    ensures !ClaimPanics(b) && IdsIn(b.bitmap, b.capacity) == ids
  {
    ClaimPanicsIff(b);
    RepresentsIs(b.bitmap, b.capacity, ids);
  }

  class ChunkBitmap {
    var bitmap: seq<byte>
    var totalChunks: Option<nat>
    var receivedCount: nat
    var haveEof: bool
    var capacity: nat
    ghost var ids: set<nat>  // the ids whose bits are set

    function Fields(): Image
      reads this
    {
      Image(bitmap, totalChunks, receivedCount, haveEof, capacity)
    }

    ghost predicate Valid()
      reads this
    {
      ValidImage(Fields(), ids)
    }

    ghost function View(): Marks
      reads this
    {
      Marks(ids, totalChunks, haveEof, capacity)
    }

    /** A requested capacity of zero means the default of 1024 chunks. */
    constructor (initialCapacity: nat)
      requires initialCapacity + 7 < U32_LIMIT
      ensures Valid() && View() == Marks({}, None, false, if initialCapacity > 0 then initialCapacity else 1024)
    {
      var cap := if initialCapacity > 0 then initialCapacity else 1024;
      bitmap := Zeros(BytesFor(cap));
      totalChunks, receivedCount, haveEof, capacity, ids := None, 0, false, cap, {};
      new;
      NothingRecorded(BytesFor(cap));
    }

    constructor WithExactSize(total: nat)
      requires total + 7 < U32_LIMIT
      ensures Valid() && View() == Marks({}, Some(total), false, total)
    {
      bitmap := Zeros(BytesFor(total));
      totalChunks, receivedCount, haveEof, capacity, ids := Some(total), 0, false, total, {};
      new;
      NothingRecorded(BytesFor(total));
    }

    constructor FromFields(b: Image)
      ensures Fields() == b && ids == IdsIn(b.bitmap, b.capacity)
    {
      bitmap, totalChunks, receivedCount := b.bitmap, b.total, b.receivedCount;
      haveEof, capacity := b.haveEof, b.capacity;
      ids := IdsIn(b.bitmap, b.capacity);
    }

    method IsReceived(chunk: nat) returns (r: bool)
      requires Valid()
      ensures r <==> chunk in View().ids
    {
      assert Recorded(bitmap, chunk) <==> chunk in ids;
      return chunk < capacity && Bit(bitmap[chunk / 8], chunk % 8);
    }

    method IsComplete() returns (r: bool)
      requires Valid()
      ensures r <==> ChunkMarks.IsComplete(View())
    {
      return haveEof && totalChunks.Some? && receivedCount == totalChunks.value;
    }

    /** Growing must stay within 32 bits: past that the source overflows. */
    method MarkReceived(chunk: nat, isEof: bool) returns (isNew: bool)
      requires Valid() && chunk < U32_LIMIT
      requires CapacityFor(View(), chunk) + 7 < U32_LIMIT
      modifies this
      ensures Valid()
      ensures isNew == Accepts(old(View()), chunk)
      ensures View() == Mark(old(View()), chunk, isEof)
    {
      if chunk >= capacity && !haveEof {
        GrowToFit(chunk);
      }
      if totalChunks.Some? && chunk >= totalChunks.value {
        return false;
      }
      var isDuplicate := IsReceived(chunk);
      if isDuplicate {
        return false;
      }
      ghost var was := Fields();
      SetInImage(was, ids, chunk, isEof);
      bitmap := bitmap[chunk / 8 := SetBit(bitmap[chunk / 8], chunk % 8)];
      receivedCount := receivedCount + 1;
      if isEof {
        haveEof := true;
        totalChunks := Some(chunk + 1);
      }
      ids := ids + {chunk};
      assert Fields() == WithChunk(was, chunk, isEof);
      return true;
    }

    method GrowToFit(chunk: nat)
      requires Valid() && capacity <= chunk && Grown(capacity, chunk) + 7 < U32_LIMIT
      modifies `bitmap, `capacity
      ensures Valid() && chunk < capacity
      ensures View() == old(View()).(capacity := Grown(old(capacity), chunk))
    {
      ghost var was := bitmap;
      var newCapacity := Max(NextPowerOfTwo(chunk + 1), capacity * 2);
      bitmap := bitmap + Zeros(BytesFor(newCapacity) - |bitmap|);
      capacity := newCapacity;
      forall k: nat ensures Recorded(bitmap, k) <==> Recorded(was, k) {
        ZerosRecordNothing(was, BytesFor(newCapacity) - |was|, k);
      }
    }

    method Reset()
      requires Valid()
      modifies this
      ensures Valid() && View() == Marks({}, None, false, old(capacity))
    {
      bitmap := Zeros(|bitmap|);
      receivedCount, haveEof, totalChunks, ids := 0, false, None, {};
      NothingRecorded(|bitmap|);
    }

    method FindMissing() returns (missing: seq<nat>)
      requires Valid()
      ensures missing == if totalChunks.Some? then Absent(View().ids, 0, totalChunks.value) else []
    {
      missing := [];
      if totalChunks.Some? {
        for chunk := 0 to totalChunks.value
          invariant missing == Absent(View().ids, 0, chunk)
        {
          var has := IsReceived(chunk);
          if !has {
            missing := missing + [chunk];
          }
        }
      }
    }

    /** Never looks past the known total or, when that is unknown, past the capacity. */
    method FindMissingInRange(start: nat, end: nat) returns (missing: seq<nat>)
      requires Valid()
      ensures missing == Absent(View().ids, start, Min(if totalChunks.Some? then totalChunks.value else capacity, end))
    {
      missing := [];
      var limit := Min(if totalChunks.Some? then totalChunks.value else capacity, end);
      if start < limit {
        for chunk := start to limit
          invariant missing == Absent(View().ids, start, chunk)
        {
          var has := IsReceived(chunk);
          if !has {
            missing := missing + [chunk];
          }
        }
      }
    }

    /** The first `maxCount` missing chunks; asking for none still yields one. */
    method FindFirstMissing(maxCount: nat) returns (missing: seq<nat>)
      requires Valid()
      ensures var all := if totalChunks.Some? then Absent(View().ids, 0, totalChunks.value) else [];
              missing == all[..Min(Max(maxCount, 1), |all|)]
    {
      missing := [];
      if totalChunks.Some? {
        ghost var ids, total := View().ids, totalChunks.value;
        for chunk := 0 to totalChunks.value
          invariant missing == Absent(ids, 0, chunk)
          invariant |missing| < Max(maxCount, 1)
        {
          var has := IsReceived(chunk);
          if !has {
            missing := missing + [chunk];
            if |missing| >= maxCount {
              AbsentSplit(ids, 0, chunk + 1, total);
              assert missing == Absent(ids, 0, chunk + 1) && |missing| == Max(maxCount, 1);
              return;
            }
          }
        }
      }
    }

    method GetReceivedChunks() returns (received: seq<nat>)
      requires Valid()
      ensures received == if totalChunks.Some? then Present(View().ids, 0, totalChunks.value) else []
    {
      received := [];
      if totalChunks.Some? {
        for chunk := 0 to totalChunks.value
          invariant received == Present(View().ids, 0, chunk)
        {
          var has := IsReceived(chunk);
          if has {
            received := received + [chunk];
          }
        }
      }
    }

    /** The same loop on a bitmap as it was loaded, which may not be a valid one: it panics when it looks for a bit past
        the end of the vector. */
    method TryReceivedChunks() returns (received: Option<seq<nat>>)
      ensures received == if ClaimPanics(Fields()) then None else Some(Claimable(Fields()))
    {
      var list := [];
      if totalChunks.Some? {
        ghost var b := Fields();
        for chunk := 0 to totalChunks.value
          invariant list == Present(IdsIn(bitmap, capacity), 0, chunk)
          invariant forall k: nat | k < chunk :: InVector(b, k)
        {
          var has := false;
          if chunk < capacity {
            if chunk / 8 >= |bitmap| {
              assert !InVector(b, chunk);
              return None;
            }
            has := Bit(bitmap[chunk / 8], chunk % 8);
          }
          if has {
            list := list + [chunk];
          }
        }
      }
      return Some(list);
    }

    /** The missing chunks as maximal ranges, in order. */
    method FindGaps() returns (gaps: seq<Gap>)
      requires Valid()
      ensures totalChunks.None? ==> gaps == []
      ensures totalChunks.Some? ==> GapsOf(View().ids, totalChunks.value, gaps)
    {
      gaps := [];
      if totalChunks.Some? {
        ghost var ids := View().ids;
        var total := totalChunks.value;
        var gapStart: Option<nat> := None;
        for chunk := 0 to total
          invariant (gapStart, gaps) == Scan(ids, chunk)
        {
          var has := IsReceived(chunk);
          if !has {
            if gapStart.None? {
              gapStart := Some(chunk);
            }
          } else {
            if gapStart.Some? {
              gaps := gaps + [Gap(gapStart.value, chunk - 1)];
              gapStart := None;
            }
          }
        }
        if gapStart.Some? {
          gaps := gaps + [Gap(gapStart.value, total - 1)];
        }
        ScanFindsGaps(ids, total);
      }
    }

    method Save() returns (bytes: seq<byte>)
      requires Valid()
      ensures bytes == SaveImage(Fields())
    {
      bytes := ToU32Le(if totalChunks.Some? then totalChunks.value else 0);
      bytes := bytes + ToU32Le(receivedCount);
      bytes := bytes + [if haveEof then 1 else 0];
      bytes := bytes + ToU32Le(capacity);
      bytes := bytes + bitmap;
    }

    static method Load(bytes: seq<byte>) returns (r: Result<ChunkBitmap, LoadError>)
      ensures match LoadImage(bytes)
              case Ok(b) =>
                r.Ok? && fresh(r.value) && r.value.Fields() == b && r.value.ids == IdsIn(b.bitmap, b.capacity)
              case Err(e) => r == Err(e)
    {
      if |bytes| < 13 {
        return Err(UnexpectedEof);
      }
      var totalVal := FromU32Le(bytes[0..4]);
      var total := if totalVal > 0 then Some(totalVal) else None;
      var count := FromU32Le(bytes[4..8]);
      var eof := bytes[8] != 0;
      var cap := FromU32Le(bytes[9..13]);
      var loaded := new ChunkBitmap.FromFields(Image(bytes[13..], total, count, eof, cap));
      return Ok(loaded);
    }
  }

  lemma NothingRecorded(n: nat)
    ensures forall k: nat :: !Recorded(Zeros(n), k)
  {
    forall k: nat ensures !Recorded(Zeros(n), k) {
      ZeroHasNoBits(k % 8);
    }
  }

  // ----- gaps -----

  function UpTo(lo: nat, hi: nat): seq<nat> {
    if hi <= lo then [] else UpTo(lo, hi - 1) + [hi - 1]
  }

  /** A run of missing chunks, both ends included. */
  datatype Gap = Gap(first: nat, last: nat)

  function Expand(gaps: seq<Gap>): seq<nat> {
    if |gaps| == 0 then []
    else Expand(gaps[..|gaps| - 1]) + UpTo(gaps[|gaps| - 1].first, gaps[|gaps| - 1].last + 1)
  }

  /** The run `start..end` begins where recorded chunks stop. */
  predicate StartsGap(ids: set<nat>, start: nat, end: nat) {
    start < end && (start > 0 ==> start - 1 in ids)
  }

  /** Sorted ranges, not even adjacent, each bounded on both sides by a recorded chunk or an end of the file, and
      together exactly the missing chunks. */
  predicate GapsOf(ids: set<nat>, total: nat, gaps: seq<Gap>) {
    Bounded(ids, total, gaps) && Apart(gaps) && Expand(gaps) == Absent(ids, 0, total)
  }

  predicate Bounded(ids: set<nat>, total: nat, gaps: seq<Gap>) {
    forall i: nat | i < |gaps| ::
      && StartsGap(ids, gaps[i].first, gaps[i].last + 1)
      && (gaps[i].last + 1 == total || gaps[i].last + 1 in ids)
  }

  predicate Apart(gaps: seq<Gap>) {
    forall i: nat, k: nat | i < k < |gaps| :: gaps[i].last + 1 < gaps[k].first
  }

  /** The gaps below `n`, each closed by a recorded chunk. */
  predicate ClosedGaps(ids: set<nat>, n: nat, gaps: seq<Gap>) {
    && GapsOf(ids, n, gaps)
    && (forall i: nat | i < |gaps| :: gaps[i].last + 1 < n)
  }

  /** The scan has looked at the chunks below `n`. */
  predicate ScanState(ids: set<nat>, n: nat, gapStart: Option<nat>, gaps: seq<Gap>) {
    match gapStart
    case Some(start) =>
      && StartsGap(ids, start, n)
      && Absent(ids, start, n) == UpTo(start, n) && ClosedGaps(ids, start, gaps)
    case None =>
      (n > 0 ==> n - 1 in ids) && ClosedGaps(ids, n, gaps)
  }

  /** An open gap ends before `n`. */
  function Closed(gapStart: Option<nat>, gaps: seq<Gap>, n: nat): seq<Gap>
    requires gapStart.Some? ==> gapStart.value < n
  {
    if gapStart.Some? then gaps + [Gap(gapStart.value, n - 1)] else gaps
  }

  /** The gap the scan is in, if any, and the gaps it has closed, after looking at the chunks below `n`. */
  function Scan(ids: set<nat>, n: nat): (r: (Option<nat>, seq<Gap>))
    ensures r.0.Some? ==> r.0.value < n
  {
    if n == 0 then (None, [])
    else
      var (gapStart, gaps) := Scan(ids, n - 1);
      if n - 1 !in ids then (if gapStart.Some? then gapStart else Some(n - 1), gaps)
      else (None, Closed(gapStart, gaps, n - 1))
  }

  lemma {:induction false} ScanKeepsState(ids: set<nat>, n: nat)
    ensures ScanState(ids, n, Scan(ids, n).0, Scan(ids, n).1)
  {
    if n > 0 {
      ScanKeepsState(ids, n - 1);
      var (gapStart, gaps) := Scan(ids, n - 1);
      if n - 1 in ids {
        ScanReceived(ids, n - 1, gapStart, gaps);
      } else {
        ScanMissing(ids, n - 1, gapStart, gaps);
      }
    }
  }

  /** Where the scan ends it has found exactly the gaps. */
  lemma ScanFindsGaps(ids: set<nat>, n: nat)
    ensures var (gapStart, gaps) := Scan(ids, n);
            GapsOf(ids, n, Closed(gapStart, gaps, n))
  {
    ScanKeepsState(ids, n);
    ScanDone(ids, n, Scan(ids, n).0, Scan(ids, n).1);
  }

  lemma ScanReceived(ids: set<nat>, n: nat, gapStart: Option<nat>, gaps: seq<Gap>)
    requires ScanState(ids, n, gapStart, gaps) && n in ids
    ensures ScanState(ids, n + 1, None, Closed(gapStart, gaps, n))
  {
    if gapStart.Some? {
      ScanDone(ids, n, gapStart, gaps);
    }
    Widen(ids, n, Closed(gapStart, gaps, n));
  }

  lemma ScanMissing(ids: set<nat>, n: nat, gapStart: Option<nat>, gaps: seq<Gap>)
    requires ScanState(ids, n, gapStart, gaps) && n !in ids
    ensures ScanState(ids, n + 1, if gapStart.Some? then gapStart else Some(n), gaps)
  {
    assert Absent(ids, n, n + 1) == UpTo(n, n + 1) == [n] by {
      assert Absent(ids, n, n) == UpTo(n, n) == [];
    }
  }

  lemma Widen(ids: set<nat>, n: nat, gaps: seq<Gap>)
    requires GapsOf(ids, n, gaps) && n in ids && forall i: nat | i < |gaps| :: gaps[i].last + 1 <= n
    ensures ClosedGaps(ids, n + 1, gaps)
  {
    assert Absent(ids, 0, n + 1) == Absent(ids, 0, n);
  }

  lemma ExpandAppend(gaps: seq<Gap>, g: Gap)
    ensures Expand(gaps + [g]) == Expand(gaps) + UpTo(g.first, g.last + 1)
  {
    assert (gaps + [g])[..|gaps|] == gaps;
  }

  lemma BoundOneMore(ids: set<nat>, start: nat, n: nat, gaps: seq<Gap>)
    requires StartsGap(ids, start, n) && ClosedGaps(ids, start, gaps)
    ensures Bounded(ids, n, gaps + [Gap(start, n - 1)])
  {
    var all := gaps + [Gap(start, n - 1)];
    forall i: nat | i < |all|
      ensures StartsGap(ids, all[i].first, all[i].last + 1) && (all[i].last + 1 == n || all[i].last + 1 in ids)
    {
      if i < |gaps| {
        var g := gaps[i];
        assert all[i] == g && g.last + 1 < start;
      }
    }
  }

  lemma ApartOneMore(gaps: seq<Gap>, g: Gap)
    requires Apart(gaps) && forall i: nat | i < |gaps| :: gaps[i].last + 1 < g.first
    ensures Apart(gaps + [g])
  {
    var all := gaps + [g];
    forall i: nat, k: nat | i < k < |all| ensures all[i].last + 1 < all[k].first {
      assert all[i] == gaps[i];
      if k < |gaps| {
        assert all[k] == gaps[k];
      }
    }
  }

  lemma ScanDone(ids: set<nat>, n: nat, gapStart: Option<nat>, gaps: seq<Gap>)
    requires ScanState(ids, n, gapStart, gaps)
    ensures GapsOf(ids, n, Closed(gapStart, gaps, n))
  {
    if gapStart.Some? {
      AbsentSplit(ids, 0, gapStart.value, n);
      ExpandAppend(gaps, Gap(gapStart.value, n - 1));
      BoundOneMore(ids, gapStart.value, n, gaps);
      ApartOneMore(gaps, Gap(gapStart.value, n - 1));
    }
  }

  // ----- file format -----

  datatype LoadError = UnexpectedEof

  /** Header of 13 bytes, little-endian, then the bit vector; an unknown total is written as zero. */
  function SaveImage(b: Image): seq<byte> {
    ToU32Le(if b.total.Some? then b.total.value else 0) + ToU32Le(b.receivedCount) +
    [if b.haveEof then 1 else 0] + ToU32Le(b.capacity) + b.bitmap
  }

  function LoadImage(bytes: seq<byte>): Result<Image, LoadError> {
    if |bytes| < 13 then Err(UnexpectedEof)
    else
      var total := FromU32Le(bytes[0..4]);
      Ok(Image(bytes[13..], if total > 0 then Some(total) else None, FromU32Le(bytes[4..8]), bytes[8] != 0,
               FromU32Le(bytes[9..13])))
  }

  lemma HeaderLayout(b: Image)
    ensures var bytes := SaveImage(b);
            && |bytes| == 13 + |b.bitmap|
            && bytes[0..4] == ToU32Le(if b.total.Some? then b.total.value else 0)
            && bytes[4..8] == ToU32Le(b.receivedCount)
            && bytes[8] == (if b.haveEof then 1 else 0)
            && bytes[9..13] == ToU32Le(b.capacity)
            && bytes[13..] == b.bitmap
  {
  }

  /** The place value of bit `i` of a byte. */
  function Place(i: nat): (p: nat)
    requires i < 8
    ensures p > 0
  {
    [1, 2, 4, 8, 16, 32, 64, 128][i]
  }

  lemma BitIs(b: byte, i: nat)
    requires i < 8
    ensures Bit(b, i) <==> b / Place(i) % 2 == 1
  {
    if i >= 1 { assert Bit(b, i) == Bit(b / 2, i - 1); }
    if i >= 2 { assert Bit(b / 2, i - 1) == Bit(b / 2 / 2, i - 2) && b / 2 / 2 == b / 4; }
    if i >= 3 { assert Bit(b / 4, i - 2) == Bit(b / 4 / 2, i - 3) && b / 4 / 2 == b / 8; }
    if i >= 4 { assert Bit(b / 8, i - 3) == Bit(b / 8 / 2, i - 4) && b / 8 / 2 == b / 16; }
    if i >= 5 { assert Bit(b / 16, i - 4) == Bit(b / 16 / 2, i - 5) && b / 16 / 2 == b / 32; }
    if i >= 6 { assert Bit(b / 32, i - 5) == Bit(b / 32 / 2, i - 6) && b / 32 / 2 == b / 64; }
    if i >= 7 { assert Bit(b / 64, i - 6) == Bit(b / 64 / 2, i - 7) && b / 64 / 2 == b / 128; }
  }

  function Word(bytes: seq<byte>, i: nat): nat
    requires i + 4 <= |bytes|
  {
    Weighed(bytes[i + 3], bytes[i + 2], bytes[i + 1], bytes[i])
  }

  lemma WordIs(bytes: seq<byte>, i: nat)
    requires i + 4 <= |bytes|
    ensures FromU32Le(bytes[i..i + 4]) == Word(bytes, i)
  {
    ByteOrder(bytes[i..i + 4]);
  }

  lemma EncodedWord(bytes: seq<byte>, i: nat, n: nat)
    requires i + 4 <= |bytes| && bytes[i..i + 4] == ToU32Le(n) && n < U32_LIMIT
    ensures Word(bytes, i) == n
  {
    WordIs(bytes, i);
    U32RoundTrip(n);
  }

  lemma SavedHeaderIs(b: Image, ids: set<nat>)
    requires ValidImage(b, ids)
    ensures var f := SaveImage(b);
            && |f| == 13 + (b.capacity + 7) / 8
            && Word(f, 0) == (if b.total.Some? then b.total.value else 0)
            && Word(f, 4) == |ids| && f[8] == (if b.haveEof then 1 else 0) && Word(f, 9) == b.capacity
  {
    var f := SaveImage(b);
    HeaderLayout(b);
    CountFits(b, ids);
    EncodedWord(f, 0, if b.total.Some? then b.total.value else 0);
    EncodedWord(f, 4, b.receivedCount);
    EncodedWord(f, 9, b.capacity);
  }

  lemma SavedBitIs(b: Image, ids: set<nat>, k: nat)
    requires ValidImage(b, ids) && k < b.capacity
    ensures |SaveImage(b)| == 13 + |b.bitmap| && k / 8 < |b.bitmap|
    ensures k in ids <==> SaveImage(b)[13 + k / 8] / Place(k % 8) % 2 == 1
  {
    HeaderLayout(b);
    assert Recorded(b.bitmap, k) <==> k in ids;
    assert SaveImage(b)[13 + k / 8] == SaveImage(b)[13..][k / 8];
    BitIs(b.bitmap[k / 8], k % 8);
  }

  /** The saved file, byte by byte: total, count, EOF flag and capacity, then one bit for each chunk up to the capacity,
      lowest bit first, and nothing else. */
  lemma SavedFileIs(b: Image, ids: set<nat>)
    requires ValidImage(b, ids)
    ensures var f := SaveImage(b);
            && |f| == 13 + (b.capacity + 7) / 8
            && Word(f, 0) == (if b.total.Some? then b.total.value else 0)
            && Word(f, 4) == |ids| && f[8] == (if b.haveEof then 1 else 0) && Word(f, 9) == b.capacity
    ensures forall k: nat | k < b.capacity :: k in ids <==> SaveImage(b)[13 + k / 8] / Place(k % 8) % 2 == 1
  {
    SavedHeaderIs(b, ids);
    forall k: nat | k < b.capacity ensures k in ids <==> SaveImage(b)[13 + k / 8] / Place(k % 8) % 2 == 1 {
      SavedBitIs(b, ids, k);
    }
  }

  /** What loading reads from any file that holds a header. */
  lemma LoadedFileIs(f: seq<byte>)
    requires |f| >= 13
    ensures var b := LoadImage(f).value;
            && b.total == (if Word(f, 0) > 0 then Some(Word(f, 0)) else None)
            && b.receivedCount == Word(f, 4) && (b.haveEof <==> f[8] != 0) && b.capacity == Word(f, 9)
            && b.bitmap == f[13..]
  {
    WordIs(f, 0);
    WordIs(f, 4);
    WordIs(f, 9);
  }

  /** Loading a saved bitmap restores every field, except that a known total of zero comes back unknown. */
  lemma LoadSavedIff(b: Image, ids: set<nat>)
    requires ValidImage(b, ids)
    ensures LoadImage(SaveImage(b)) == Ok(b) <==> b.total != Some(0)
    ensures LoadImage(SaveImage(b)).Ok?
  {
    HeaderLayout(b);
    CountFits(b, ids);
    U32RoundTrip(if b.total.Some? then b.total.value else 0);
    U32RoundTrip(b.receivedCount);
    U32RoundTrip(b.capacity);
  }

  lemma CountFits(b: Image, ids: set<nat>)
    requires ValidImage(b, ids)
    ensures b.receivedCount <= b.capacity < U32_LIMIT
  {
    RangeSize(0, b.capacity);
    SubsetSize(ids, Range(0, b.capacity));
  }

  /** Any 13 bytes load; saving what was loaded gives the same file back unless its EOF byte was neither zero
      nor one. */
  lemma SaveLoadedIff(bytes: seq<byte>)
    ensures LoadImage(bytes).Ok? <==> |bytes| >= 13
    ensures |bytes| >= 13 ==> (SaveImage(LoadImage(bytes).value) == bytes <==> bytes[8] <= 1)
  {
    if |bytes| >= 13 {
      var b := LoadImage(bytes).value;
      HeaderLayout(b);
      U32LeInjective(bytes[0..4]);
      U32LeInjective(bytes[4..8]);
      U32LeInjective(bytes[9..13]);
      var again := SaveImage(b);
      assert again[0..4] == bytes[0..4] && again[4..8] == bytes[4..8];
      assert again[9..13] == bytes[9..13] && again[13..] == bytes[13..];
      if bytes[8] <= 1 {
        assert again[8] == bytes[8];
        assert bytes == bytes[0..4] + bytes[4..8] + [bytes[8]] + bytes[9..13] + bytes[13..];
        assert again == again[0..4] + again[4..8] + [again[8]] + again[9..13] + again[13..];
      } else {
        assert again[8] != bytes[8];
      }
    }
  }

  /** A file cut off inside the bit vector still loads, but not as a valid bitmap: the lengths are not
      checked. */
  lemma TruncatedFileLoadsInvalid(b: Image, ids: set<nat>, n: nat)
    requires ValidImage(b, ids) && 13 <= n < |SaveImage(b)|
    ensures LoadImage(SaveImage(b)[..n]).Ok?
    ensures forall other :: !ValidImage(LoadImage(SaveImage(b)[..n]).value, other)
  {
    HeaderLayout(b);
    var cut := SaveImage(b)[..n];
    assert cut[9..13] == ToU32Le(b.capacity);
    U32RoundTrip(b.capacity);
    assert |cut[13..]| == n - 13;
  }

  /** And it makes the client panic exactly when it was cut off before the bit of the last chunk. */
  lemma TruncatedClaimPanicsIff(b: Image, ids: set<nat>, n: nat)
    requires ValidImage(b, ids) && 13 <= n < |SaveImage(b)|
    ensures LoadImage(SaveImage(b)[..n]).Ok?
    ensures ClaimPanics(LoadImage(SaveImage(b)[..n]).value) <==> b.total.Some? && 8 * (n - 13) < b.total.value
  {
    HeaderLayout(b);
    var bytes, cut := SaveImage(b), SaveImage(b)[..n];
    assert cut[0..4] == bytes[0..4] && cut[9..13] == bytes[9..13] && |cut[13..]| == n - 13;
    U32RoundTrip(b.capacity);
    U32RoundTrip(if b.total.Some? then b.total.value else 0);
    ClaimPanicsIff(LoadImage(cut).value);
  }
}
