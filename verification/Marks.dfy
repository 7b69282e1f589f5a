/** The set a chunk bitmap stands for, and what can be said about it without looking at bits. */
module ChunkMarks {
  import opened Bytes
  import opened Collections

  /** What `ChunkBitmap` records, with the bit vector read as a set of chunk ids. */
  datatype Marks = Marks(ids: set<nat>, total: Option<nat>, haveEof: bool, capacity: nat)

  ghost predicate WellFormed(m: Marks) {
    && (forall k | k in m.ids :: k < m.capacity)
    && (m.total.Some? ==> m.total.value <= m.capacity)
    && (m.haveEof ==> m.total.Some? && m.total.value > 0 && m.total.value - 1 in m.ids)
  }

  /** `u32::next_power_of_two`. */
  function NextPowerOfTwo(n: nat): (p: nat)
    ensures n <= p && (n > 0 ==> p < 2 * n) && p > 0
  {
    if n <= 1 then 1 else 2 * NextPowerOfTwo((n + 1) / 2)
  }

  ghost predicate IsPowerOfTwo(p: nat) {
    p == 1 || (p > 0 && p % 2 == 0 && IsPowerOfTwo(p / 2))
  }

  /** It is a power of two, and no smaller one will do. */
  lemma {:induction false} NextPowerOfTwoIsLeast(n: nat, p: nat)
    ensures IsPowerOfTwo(NextPowerOfTwo(n))
    ensures IsPowerOfTwo(p) && n <= p ==> NextPowerOfTwo(n) <= p
    decreases n
  {
    if n > 1 {
      var half := (n + 1) / 2;
      NextPowerOfTwoIsLeast(half, p / 2);
      assert 2 * NextPowerOfTwo(half) / 2 == NextPowerOfTwo(half);
      if p > 1 && p % 2 == 0 && n <= p {
        assert p == p / 2 * 2;
        assert half <= p / 2;
      }
    }
  }

  /** The capacity after growing to fit `chunk`. */
  function Grown(capacity: nat, chunk: nat): nat {
    Max(NextPowerOfTwo(chunk + 1), capacity * 2)
  }

  /** It is twice the old one, or the least power of two that holds the chunk, whichever is larger. */
  lemma GrownIs(capacity: nat, chunk: nat)
    ensures 2 * capacity <= Grown(capacity, chunk)
    ensures exists p: nat :: IsPowerOfTwo(p) && chunk < p <= Grown(capacity, chunk)
    ensures forall p: nat | IsPowerOfTwo(p) && chunk < p :: Grown(capacity, chunk) <= Max(p, 2 * capacity)
  {
    NextPowerOfTwoIsLeast(chunk + 1, 1);
    forall p: nat | IsPowerOfTwo(p) && chunk < p ensures NextPowerOfTwo(chunk + 1) <= p {
      NextPowerOfTwoIsLeast(chunk + 1, p);
    }
  }

  function CapacityFor(m: Marks, chunk: nat): nat {
    if chunk >= m.capacity && !m.haveEof then Grown(m.capacity, chunk) else m.capacity
  }

  predicate Accepts(m: Marks, chunk: nat) {
    (m.total.Some? ==> chunk < m.total.value) && chunk !in m.ids
  }

  /** `mark_received` on sets. The EOF flag of a rejected chunk is ignored. */
  function Mark(m: Marks, chunk: nat, isEof: bool): Marks {
    if Accepts(m, chunk) then
      Marks(m.ids + {chunk}, if isEof then Some(chunk + 1) else m.total, m.haveEof || isEof, CapacityFor(m, chunk))
    else
      m.(capacity := CapacityFor(m, chunk))
  }

  lemma MarkWellFormed(m: Marks, chunk: nat, isEof: bool)
    requires WellFormed(m)
    ensures WellFormed(Mark(m, chunk, isEof))
    ensures m.capacity <= CapacityFor(m, chunk)
    ensures Accepts(m, chunk) ==> chunk < CapacityFor(m, chunk)
  {
  }

  /** A chunk that is there already, or lies beyond the known end, changes neither ids nor total nor EOF, whatever its
      flag says. */
  lemma RejectedChangesNothing(m: Marks, chunk: nat, isEof: bool)
    requires chunk in m.ids || (m.total.Some? && m.total.value <= chunk)
    ensures var s := Mark(m, chunk, isEof); s.ids == m.ids && s.total == m.total && s.haveEof == m.haveEof
  {
  }

  predicate IsComplete(m: Marks) {
    m.haveEof && m.total.Some? && |m.ids| == m.total.value
  }

  // ----- completeness -----

  /** The counter test answers whether EOF was seen and nothing is missing. */
  predicate Exact(m: Marks) {
    IsComplete(m) <==> m.haveEof && m.total.Some? && Absent(m.ids, 0, m.total.value) == []
  }

  /** Its answer at one moment is right exactly when nothing was recorded beyond the end, or when chunks are missing
      but not as many as were recorded beyond it. */
  lemma ExactNowIff(m: Marks)
    requires WellFormed(m) && m.haveEof
    ensures var (missing, over) :=
              (|Absent(m.ids, 0, m.total.value)|, |m.ids - Below(m.ids, m.total.value)|);
            Exact(m) <==> over == 0 || (missing > 0 && missing != over)
  {
    CountRightNowIff(m.ids, m.total.value);
  }

  /** No id at or above the known total. */
  predicate Honest(m: Marks) {
    m.total.Some? ==> forall k | k in m.ids :: k < m.total.value
  }

  /** For an honest sender the counter is exact. */
  lemma HonestCompleteIff(m: Marks)
    requires WellFormed(m) && Honest(m)
    ensures IsComplete(m) <==> m.haveEof && Absent(m.ids, 0, m.total.value) == []
    ensures IsComplete(m) <==> m.haveEof && m.ids == Range(0, m.total.value)
    ensures m.total.Some? ==> |m.ids| + |Absent(m.ids, 0, m.total.value)| == m.total.value
  {
    if m.total.Some? {
      var n := m.total.value;
      MissingCount(m.ids, n);
      assert Below(m.ids, n) == m.ids;
      RangeSize(0, n);
      SubsetSize(m.ids, Range(0, n));
    }
  }

  /** Completion is final, in that no later chunk changes anything, exactly when nothing was recorded beyond the
      end. */
  lemma CompleteIsStableIff(m: Marks)
    requires WellFormed(m) && IsComplete(m)
    ensures Honest(m) <==> forall chunk: nat, isEof: bool :: Mark(m, chunk, isEof) == m
  {
    var n := m.total.value;
    if Honest(m) {
      HonestCompleteIff(m);
      forall chunk: nat, isEof: bool ensures Mark(m, chunk, isEof) == m {
        assert chunk < n ==> chunk in Range(0, n);
      }
    } else {
      ExactNowIff(m);
      MissingCount(m.ids, n);
      NoneBeyond(m.ids, n);
      CountRightNowIff(m.ids, n);
      AbsentIs(m.ids, 0, n);
      assert m.ids == Below(m.ids, n) + (m.ids - Below(m.ids, n));
      assert |m.ids| == |Below(m.ids, n)| + |m.ids - Below(m.ids, n)|;
      var chunk := Absent(m.ids, 0, n)[0];
      assert chunk in Absent(m.ids, 0, n);
      assert chunk in Mark(m, chunk, false).ids;
    }
  }

  /** Without the honesty hypothesis the counter is wrong: id 5 recorded, EOF at id 1, chunk 0 missing. */
  lemma CountedButNotComplete()
    ensures var m := Mark(Mark(Marks({}, None, false, 8), 5, false), 1, true);
            WellFormed(m) && IsComplete(m) && Absent(m.ids, 0, m.total.value) == [0]
  {
    var m := Mark(Mark(Marks({}, None, false, 8), 5, false), 1, true);
    assert m == Marks({5, 1}, Some(2), true, 8);
    assert Absent(m.ids, 0, 0) == [];
    assert Absent(m.ids, 0, 1) == [0];
  }

  // ----- runs -----

  datatype Arrival = Arrival(chunk: nat, isEof: bool)

  function Run(m: Marks, arrivals: seq<Arrival>): Marks {
    if |arrivals| == 0 then m
    else
      var front := arrivals[..|arrivals| - 1];
      Mark(Run(m, front), arrivals[|arrivals| - 1].chunk, arrivals[|arrivals| - 1].isEof)
  }

  predicate NoEof(arrivals: seq<Arrival>) {
    forall a | a in arrivals :: !a.isEof
  }

  lemma {:induction false} HonestForever(m: Marks, arrivals: seq<Arrival>)
    requires WellFormed(m) && m.haveEof && Honest(m) && NoEof(arrivals)
    ensures var s := Run(m, arrivals);
            WellFormed(s) && s.haveEof && s.total == m.total && Honest(s)
  {
    if |arrivals| > 0 {
      var front, last := arrivals[..|arrivals| - 1], arrivals[|arrivals| - 1];
      assert arrivals == front + [last];
      HonestForever(m, front);
      MarkWellFormed(Run(m, front), last.chunk, last.isEof);
    }
  }

  /** Every chunk below `n`, none of them flagged. */
  function Filling(n: nat): (arrivals: seq<Arrival>)
    ensures NoEof(arrivals) && |arrivals| == n
  {
    if n == 0 then [] else Filling(n - 1) + [Arrival(n - 1, false)]
  }

  lemma {:induction false} FillingFills(m: Marks, n: nat)
    requires WellFormed(m) && m.haveEof && n <= m.total.value
    ensures var s := Run(m, Filling(n));
            WellFormed(s) && s.haveEof && s.total == m.total && s.ids == m.ids + Range(0, n)
  {
    if n > 0 {
      FillingFills(m, n - 1);
      assert Filling(n)[..n - 1] == Filling(n - 1);
      MarkWellFormed(Run(m, Filling(n - 1)), n - 1, false);
      assert m.ids + Range(0, n - 1) + {n - 1} == m.ids + Range(0, n);
    }
  }

  /** The answer is right whatever arrives from now on exactly when nothing was recorded beyond the end. */
  lemma ExactForeverIff(m: Marks)
    requires WellFormed(m) && m.haveEof
    ensures Honest(m) <==> forall arrivals | NoEof(arrivals) :: Exact(Run(m, arrivals))
  {
    if Honest(m) {
      forall arrivals | NoEof(arrivals) ensures Exact(Run(m, arrivals)) {
        HonestForever(m, arrivals);
        HonestCompleteIff(Run(m, arrivals));
      }
    } else {
      var n := m.total.value;
      var s := Run(m, Filling(n));
      FillingFills(m, n);
      FilledCount(s.ids, n);
      var k :| k in m.ids && n <= k;
      assert k in s.ids;
      assert !Exact(s);
    }
  }

  /** Before EOF every unrecorded chunk is accepted. */
  lemma {:induction false} RecordsAll(capacity: nat, arrivals: seq<Arrival>)
    requires NoEof(arrivals)
    ensures var m := Run(Marks({}, None, false, capacity), arrivals);
            WellFormed(m) && !m.haveEof && m.total == None && m.ids == Chunks(arrivals)
  {
    if |arrivals| > 0 {
      var front, last := arrivals[..|arrivals| - 1], arrivals[|arrivals| - 1];
      assert arrivals == front + [last];
      RecordsAll(capacity, front);
      MarkWellFormed(Run(Marks({}, None, false, capacity), front), last.chunk, last.isEof);
      assert Chunks(arrivals) == Chunks(front) + {last.chunk};
    }
  }

  /** In terms of what arrived: the answer is right from EOF on, whatever follows, exactly when no chunk before EOF had
      an id above the EOF chunk's. */
  lemma ArrivalsExactIff(capacity: nat, before: seq<Arrival>, eof: nat)
    requires NoEof(before) && eof !in Chunks(before)
    ensures var m := Mark(Run(Marks({}, None, false, capacity), before), eof, true);
            (forall a | a in before :: a.chunk < eof) <==> forall after | NoEof(after) :: Exact(Run(m, after))
  {
    var m := Run(Marks({}, None, false, capacity), before);
    RecordsAll(capacity, before);
    MarkWellFormed(m, eof, true);
    ExactForeverIff(Mark(m, eof, true));
    forall a | a in before ensures a.chunk in m.ids {
    }
    if Honest(Mark(m, eof, true)) {
      forall a | a in before ensures a.chunk < eof {
        assert a.chunk in Mark(m, eof, true).ids && a.chunk != eof;
      }
    }
  }

  function Chunks(arrivals: seq<Arrival>): set<nat> {
    set a | a in arrivals :: a.chunk
  }

  /** The state of a bitmap for `n` chunks of which exactly `ids` have arrived; `total` is what was known at
      the start. */
  ghost predicate Tracks(m: Marks, total: Option<nat>, n: nat, ids: set<nat>) {
    && WellFormed(m)
    && m.ids == ids
    && (forall k | k in ids :: k < n)
    && (m.haveEof <==> n > 0 && n - 1 in ids)
    && m.total == (if m.haveEof then Some(n) else total)
  }

  lemma TracksStep(m: Marks, total: Option<nat>, n: nat, ids: set<nat>, chunk: nat)
    requires Tracks(m, total, n, ids) && (total == None || total == Some(n)) && chunk < n
    ensures Tracks(Mark(m, chunk, chunk == n - 1), total, n, ids + {chunk})
    ensures chunk in ids ==> !Accepts(m, chunk)
    ensures chunk !in ids ==> Accepts(m, chunk)
  {
    MarkWellFormed(m, chunk, chunk == n - 1);
    assert chunk in ids ==> ids + {chunk} == ids;
  }

  lemma TracksComplete(m: Marks, total: Option<nat>, n: nat, ids: set<nat>)
    requires Tracks(m, total, n, ids) && (total == None || total == Some(n))
    ensures Honest(m)
    ensures IsComplete(m) <==> n > 0 && ids == Range(0, n)
  {
    HonestCompleteIff(m);
    assert n > 0 && ids == Range(0, n) ==> n - 1 in ids;
  }

  /** For a sender with `n` chunks that flags only the last one: whatever the order and the duplicates, the
      bitmap records exactly the chunks that arrived, knows the total once the last one has, and is complete
      exactly when all have arrived. */
  lemma {:induction false} HonestRun(capacity: nat, total: Option<nat>, n: nat, arrivals: seq<Arrival>)
    requires total == None || (total == Some(n) && capacity == n)
    requires forall a | a in arrivals :: a.chunk < n && (a.isEof <==> a.chunk == n - 1)
    ensures var m := Run(Marks({}, total, false, capacity), arrivals);
            && Tracks(m, total, n, Chunks(arrivals))
            && (IsComplete(m) <==> n > 0 && Chunks(arrivals) == Range(0, n))
  {
    if |arrivals| > 0 {
      var front := arrivals[..|arrivals| - 1];
      var a := arrivals[|arrivals| - 1];
      HonestRun(capacity, total, n, front);
      assert arrivals == front + [a];
      assert Chunks(arrivals) == Chunks(front) + {a.chunk};
      TracksStep(Run(Marks({}, total, false, capacity), front), total, n, Chunks(front), a.chunk);
    }
    TracksComplete(Run(Marks({}, total, false, capacity), arrivals), total, n, Chunks(arrivals));
  }

  /** Bytes touched by the reallocations of a run, in units of one chunk's bit. */
  function GrowthCost(m: Marks, arrivals: seq<Arrival>): nat {
    if |arrivals| == 0 then 0
    else
      var front := arrivals[..|arrivals| - 1];
      var before := Run(m, front);
      var after := CapacityFor(before, arrivals[|arrivals| - 1].chunk);
      GrowthCost(m, front) + if after != before.capacity then after else 0
  }

  /** Growth at least doubles and never overshoots by a factor of two, so all reallocations of a run together
      cost less than four times one past the largest chunk id. */
  lemma {:induction false} GrowthIsLinear(m: Marks, arrivals: seq<Arrival>, bound: nat)
    requires WellFormed(m)
    requires forall a | a in arrivals :: a.chunk < bound
    ensures WellFormed(Run(m, arrivals))
    ensures m.capacity <= Run(m, arrivals).capacity
    ensures Run(m, arrivals).capacity == m.capacity || Run(m, arrivals).capacity < 2 * bound
    ensures GrowthCost(m, arrivals) <= 2 * (Run(m, arrivals).capacity - m.capacity)
  {
    if |arrivals| > 0 {
      var front := arrivals[..|arrivals| - 1];
      var a := arrivals[|arrivals| - 1];
      GrowthIsLinear(m, front, bound);
      MarkWellFormed(Run(m, front), a.chunk, a.isEof);
    }
  }
}
