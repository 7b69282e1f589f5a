/** The server's chunk index as a value: hash to locations, its text form, and what survives a save and a
    load. */
module IndexModel {
  import opened Bytes
  import opened Collections
  import opened Text

  type Hash = seq<byte>

  datatype Location = Location(path: string, offset: u64, size: u32)

  datatype Record = Record(hash: Hash, location: Location)

  type Index = map<Hash, seq<Location>>

  const BAR: char := '|'

  function Locations(m: Index, h: Hash): seq<Location> {
    if h in m then m[h] else []
  }

  /** `entry(hash).or_insert_with(Vec::new).push(location)`. */
  function Add(m: Index, r: Record): Index {
    m[r.hash := Locations(m, r.hash) + [r.location]]
  }

  function AddAll(m: Index, rs: seq<Record>): Index
    decreases |rs|
  {
    if |rs| == 0 then m else AddAll(Add(m, rs[0]), rs[1..])
  }

  /** No hash is kept without a location. */
  predicate Bucketed(m: Index) {
    forall h | h in m :: |m[h]| > 0
  }

  predicate CleanPath(path: string) {
    BAR !in path && NEWLINE !in path
  }

  predicate CleanBucket(locations: seq<Location>) {
    forall l | l in locations :: CleanPath(l.path)
  }

  /** No path holds a character that the text form uses as a separator. */
  predicate Clean(m: Index) {
    forall h | h in m :: CleanBucket(m[h])
  }

  // ----- the text form -----

  /** Four fields with bars between them. */
  function Joined(a: string, b: string, c: string, d: string): string {
    a + [BAR] + (b + [BAR] + (c + [BAR] + d))
  }

  function LineOf(r: Record): string {
    Joined(Hex(r.hash), r.location.path, Decimal(r.location.offset), Decimal(r.location.size))
  }

  function TextOf(rs: seq<Record>): string {
    if |rs| == 0 then [] else LineOf(rs[0]) + [NEWLINE] + TextOf(rs[1..])
  }

  function Bucket(h: Hash, locations: seq<Location>): (rs: seq<Record>)
    ensures |rs| == |locations|
    ensures forall i: nat | i < |rs| :: rs[i] == Record(h, locations[i])
  {
    seq(|locations|, i requires 0 <= i < |locations| => Record(h, locations[i]))
  }

  /** The records of the hashes in `order`, those of one hash in their own order. */
  function Records(m: Index, order: seq<Hash>): seq<Record>
    requires forall h | h in order :: h in m
  {
    if |order| == 0 then []
    else Records(m, order[..|order| - 1]) + Bucket(order[|order| - 1], m[order[|order| - 1]])
  }

  /** The hash map is iterated in some order that visits every key once. */
  predicate Iterates(order: seq<Hash>, m: Index) {
    Distinct(order) && Elements(order) == m.Keys
  }

  datatype Parsed = Skipped | Malformed | Parsed(record: Record)

  /** One line of the file: other than four fields is passed over, an unreadable field is an error. */
  function ParseLine(line: string): Parsed {
    var parts := Split(line, BAR);
    if |parts| != 4 then Skipped
    else
      var hash := Unhex(parts[0]);
      var (offset, size) := (ParseUnsigned(parts[2], U64_LIMIT), ParseUnsigned(parts[3], U32_LIMIT));
      if hash.None? || offset.None? || size.None? then Malformed
      else Parsed(Record(hash.value, Location(parts[1], Word64(offset.value), Word32(size.value))))
  }

  function Word64(n: nat): u64 {
    if n < U64_LIMIT then n else 0
  }

  function Word32(n: nat): u32 {
    if n < U32_LIMIT then n else 0
  }

  /** A record whose path holds a bar has too many fields: loading passes over it without an error. */
  lemma BarPathIsDropped(r: Record)
    requires BAR in r.location.path
    ensures ParseLine(LineOf(r)) == Skipped
  {
    var l := r.location;
    var last := Decimal(l.offset) + [BAR] + Decimal(l.size);
    SplitCount(Decimal(l.offset), BAR, Decimal(l.size));
    SplitCount(l.path, BAR, last);
    SplitCount(Hex(r.hash), BAR, l.path + [BAR] + last);
  }

  /** What a line looks like. */
  lemma SampleLine()
    ensures LineOf(Record([0xab, 0x0c], Location("a.bin", 1024, 20))) == "ab0c|a.bin|1024|20"
  {
    SampleHex();
    SampleDecimals();
  }

  /** A line is passed over exactly if it does not hold three bars, whatever else it holds. */
  lemma SkippedIff(line: string)
    ensures ParseLine(line) == Skipped <==> multiset(line)[BAR] != 3
  {
    SplitLength(line, BAR);
  }

  /** A line of four fields is an error exactly if the hash is not hexadecimal, or an offset or size is not a decimal
      number of its width; otherwise its path is taken as it is. */
  lemma FieldsDecide(a: string, b: string, c: string, d: string)
    requires BAR !in a && BAR !in b && BAR !in c && BAR !in d
    ensures ParseLine(Joined(a, b, c, d)) == Malformed <==> !(HexText(a) && FitsText(c, 64) && FitsText(d, 32))
    ensures ParseLine(Joined(a, b, c, d)).Parsed? ==> ParseLine(Joined(a, b, c, d)).record.location.path == b
    ensures ParseLine(Joined(a, b, c, d)) != Skipped
  {
    LineFields(a, b, c, d);
    UnhexIff(a);
    UnsignedIff(c, U64_LIMIT);
    UnsignedIff(d, U32_LIMIT);
  }

  /** A decimal number, perhaps with a plus sign, of so many bits. */
  predicate FitsText(s: string, bits: nat)
    requires bits == 32 || bits == 64
  {
    var digits := if s != "" && s[0] == '+' then s[1..] else s;
    digits != "" && DigitsOnly(digits) && DigitsValue(digits).Some? &&
    DigitsValue(digits).value < (if bits == 64 then 0x1_0000_0000_0000_0000 else 0x1_0000_0000)
  }

  /** What a load leaves, and whether it reached the end of the file. */
  datatype Loaded = Loaded(index: Index, ok: bool)

  function Load(m: Index, lines: seq<string>): Loaded
    decreases |lines|
  {
    if |lines| == 0 then Loaded(m, true)
    else
      match ParseLine(lines[0])
      case Skipped => Load(m, lines[1..])
      case Malformed => Loaded(m, false)
      case Parsed(r) => Load(Add(m, r), lines[1..])
  }

  /** Loading goes on from line to line until it meets an error. */
  lemma {:induction false} LoadGoesOn(m: Index, a: seq<string>, b: seq<string>)
    ensures Load(m, a + b) == if Load(m, a).ok then Load(Load(m, a).index, b) else Load(m, a)
    decreases |a|
  {
    if |a| == 0 {
      assert a + b == b;
    } else {
      assert (a + b)[0] == a[0] && (a + b)[1..] == a[1..] + b;
      match ParseLine(a[0])
      case Skipped => LoadGoesOn(m, a[1..], b);
      case Malformed =>
      case Parsed(r) => LoadGoesOn(Add(m, r), a[1..], b);
    }
  }

  /** A line that cannot be read ends the load with an error and what came before; one with another number of fields
      does nothing; a good one adds its location behind the others of its hash. */
  lemma LoadLine(m: Index, line: string)
    ensures ParseLine(line) == Malformed ==> Load(m, [line]) == Loaded(m, false)
    ensures ParseLine(line) == Skipped ==> Load(m, [line]) == Loaded(m, true)
    ensures ParseLine(line).Parsed? ==>
              var r := ParseLine(line).record;
              Load(m, [line]) == Loaded(m[r.hash := (if r.hash in m then m[r.hash] else []) + [r.location]], true)
  {
    assert [line][1..] == [];
  }

  // ----- saving and loading -----

  lemma {:induction false} AddAllAppend(m: Index, a: seq<Record>, b: seq<Record>)
    ensures AddAll(m, a + b) == AddAll(AddAll(m, a), b)
    decreases |a|
  {
    if |a| == 0 {
      assert a + b == b;
    } else {
      AddAllAppend(Add(m, a[0]), a[1..], b);
      assert (a + b)[1..] == a[1..] + b;
    }
  }

  lemma {:induction false} AddBucket(m: Index, h: Hash, ls: seq<Location>)
    requires |ls| > 0
    ensures AddAll(m, Bucket(h, ls)) == m[h := Locations(m, h) + ls]
    decreases |ls|
  {
    var first := Add(m, Record(h, ls[0]));
    assert Bucket(h, ls)[1..] == Bucket(h, ls[1..]);
    assert [ls[0]] + ls[1..] == ls;
    ConcatAssoc(Locations(m, h), [ls[0]], ls[1..]);
    if |ls| == 1 {
      assert ls == [ls[0]] && Bucket(h, ls)[1..] == [];
    } else {
      AddBucket(first, h, ls[1..]);
      assert first[h := Locations(first, h) + ls[1..]] == m[h := Locations(m, h) + ls];
    }
  }

  function Restrict(m: Index, order: seq<Hash>): Index {
    map h | h in m && h in order :: m[h]
  }

  lemma {:induction false} AddRecords(m: Index, order: seq<Hash>)
    requires Bucketed(m) && Distinct(order) && forall h | h in order :: h in m
    ensures AddAll(map[], Records(m, order)) == Restrict(m, order)
  {
    if |order| == 0 {
      assert Restrict(m, order) == map[];
    } else {
      var front, h := order[..|order| - 1], order[|order| - 1];
      assert order == front + [h];
      AddRecords(m, front);
      AddAllAppend(map[], Records(m, front), Bucket(h, m[h]));
      assert h !in front;
      AddBucket(Restrict(m, front), h, m[h]);
      assert [] + m[h] == m[h];
      assert Restrict(m, front)[h := m[h]] == Restrict(m, order);
    }
  }

  lemma NoSeparator(s: string, c: char)
    requires forall x | x in s :: HexDigitOf(x).Some?
    requires HexDigitOf(c).None?
    ensures c !in s
  {
  }

  lemma DecimalIsPlain(n: nat)
    ensures BAR !in Decimal(n) && NEWLINE !in Decimal(n) && RETURN !in Decimal(n)
  {
  }

  /** A written line is one line, and reading it gives back the record. */
  lemma LineRoundTrip(r: Record)
    requires CleanPath(r.location.path)
    ensures NEWLINE !in LineOf(r) && WithoutReturn(LineOf(r)) == LineOf(r)
    ensures ParseLine(LineOf(r)) == Parsed(r)
  {
    var l := r.location;
    NoSeparator(Hex(r.hash), BAR);
    NoSeparator(Hex(r.hash), NEWLINE);
    DecimalIsPlain(l.offset);
    DecimalIsPlain(l.size);
    LineIsOne(Hex(r.hash), l.path, Decimal(l.offset), Decimal(l.size));
    LineFields(Hex(r.hash), l.path, Decimal(l.offset), Decimal(l.size));
    LineParses(LineOf(r), r);
  }

  lemma LineParses(line: string, r: Record)
    requires Split(line, BAR)
          == [Hex(r.hash), r.location.path, Decimal(r.location.offset), Decimal(r.location.size)]
    ensures ParseLine(line) == Parsed(r)
  {
    HexRoundTrip(r.hash);
    DecimalRoundTrip(r.location.offset, U64_LIMIT);
    DecimalRoundTrip(r.location.size, U32_LIMIT);
  }

  lemma LineIsOne(a: string, b: string, c: string, d: string)
    requires NEWLINE !in a && NEWLINE !in b && NEWLINE !in c && NEWLINE !in d
    requires |d| > 0 && RETURN !in d
    ensures NEWLINE !in Joined(a, b, c, d)
    ensures WithoutReturn(Joined(a, b, c, d)) == Joined(a, b, c, d)
  {
    var inner := b + [BAR] + (c + [BAR] + d);
    assert NEWLINE !in inner;
    LineEnd(inner, b + [BAR] + (c + [BAR]), d);
    LineEnd(c + [BAR] + d, c + [BAR], d);
  }

  lemma LineFields(a: string, b: string, c: string, d: string)
    requires BAR !in a && BAR !in b && BAR !in c && BAR !in d
    ensures Split(Joined(a, b, c, d), BAR) == [a, b, c, d]
  {
    var last := c + [BAR] + d;
    var rest := b + [BAR] + last;
    SplitOne(d, BAR);
    SplitStep(c, BAR, d);
    SplitStep(b, BAR, last);
    SplitStep(a, BAR, rest);
    FourFields(a, b, c, d);
  }

  lemma FourFields<T>(a: T, b: T, c: T, d: T)
    ensures [a] + ([b] + ([c] + [d])) == [a, b, c, d]
  {
  }

  lemma LineEnd(line: string, head: string, tail: string)
    requires |tail| > 0 && line == head + tail && RETURN !in tail
    ensures WithoutReturn(line) == line
  {
    assert line[|line| - 1] == tail[|tail| - 1];
    assert tail[|tail| - 1] in tail;
  }

  lemma {:induction false} LoadText(m: Index, rs: seq<Record>)
    requires forall r | r in rs :: CleanPath(r.location.path)
    ensures Load(m, Lines(TextOf(rs))) == Loaded(AddAll(m, rs), true)
    decreases |rs|
  {
    if |rs| > 0 {
      LineRoundTrip(rs[0]);
      LinesStep(LineOf(rs[0]), TextOf(rs[1..]));
      var lines := Lines(TextOf(rs));
      assert lines[0] == LineOf(rs[0]) && lines[1..] == Lines(TextOf(rs[1..]));
      LoadText(Add(m, rs[0]), rs[1..]);
    }
  }

  lemma {:induction false} RecordsAreIndexed(m: Index, order: seq<Hash>)
    requires forall h | h in order :: h in m
    ensures forall r | r in Records(m, order) :: r.hash in m && r.location in m[r.hash]
  {
    if |order| > 0 {
      RecordsAreIndexed(m, order[..|order| - 1]);
    }
  }

  lemma ParsedIsClean(line: string)
    requires NEWLINE !in line && ParseLine(line).Parsed?
    ensures CleanPath(ParseLine(line).record.location.path)
  {
    SplitParts(line, BAR);
    assert Split(line, BAR)[1] in Split(line, BAR);
  }

  /** Whatever the file holds, no loaded path contains a separator, and no loaded hash is without a
      location. */
  lemma {:induction false} LoadedIsClean(m: Index, lines: seq<string>)
    requires Clean(m) && Bucketed(m) && forall line | line in lines :: NEWLINE !in line
    ensures Clean(Load(m, lines).index) && Bucketed(Load(m, lines).index)
    decreases |lines|
  {
    if |lines| > 0 {
      var parsed := ParseLine(lines[0]);
      if parsed.Parsed? {
        ParsedIsClean(lines[0]);
        LoadedIsClean(Add(m, parsed.record), lines[1..]);
      } else if parsed.Skipped? {
        LoadedIsClean(m, lines[1..]);
      }
    }
  }

  /** The index comes back from its file, whatever the map's iteration order, exactly when no path holds a
      bar or a line feed. */
  lemma LoadSavedIff(m: Index, order: seq<Hash>)
    requires Bucketed(m) && Iterates(order, m)
    ensures Load(map[], Lines(TextOf(Records(m, order)))) == Loaded(m, true) <==> Clean(m)
  {
    var text := TextOf(Records(m, order));
    if Clean(m) {
      assert forall h | h in order :: h in Elements(order);
      RecordsAreIndexed(m, order);
      LoadText(map[], Records(m, order));
      AddRecords(m, order);
      assert forall h | h in m :: h in Elements(order);
      assert Restrict(m, order) == m;
    } else {
      LinesHaveNoBreak(text);
      LoadedIsClean(map[], Lines(text));
    }
  }

  // ----- removing a file -----

  function Elsewhere(path: string): Location -> bool {
    (l: Location) => !SamePath(l.path, path)
  }

  function Kept(m: Index, h: Hash, path: string): seq<Location> {
    Filter(Elsewhere(path), Locations(m, h))
  }

  /** `retain` on every bucket, then on the buckets that are not empty. */
  function Remove(m: Index, path: string): Index {
    map h | h in m && |Kept(m, h, path)| > 0 :: Kept(m, h, path)
  }

  /** `Remove` as far as it has visited the keys: all but `left`. */
  function RemoveExcept(m: Index, path: string, left: set<Hash>): Index {
    map h | h in m && h !in left && |Kept(m, h, path)| > 0 :: Kept(m, h, path)
  }

  /** One more key, if it has a value. */
  lemma GrowByOne<K, V>(before: map<K, V>, after: map<K, V>, h: K, v: V, grows: bool)
    requires h !in before && before.Keys <= after.Keys <= before.Keys + {h}
    requires (h in after <==> grows) && (h in after ==> after[h] == v)
    requires forall k | k in before :: after[k] == before[k]
    ensures after == if grows then before[h := v] else before
  {
  }

  lemma RemoveStep(m: Index, path: string, left: set<Hash>, h: Hash)
    requires h in m && h in left
    ensures var before := RemoveExcept(m, path, left);
            RemoveExcept(m, path, left - {h})
              == if |Kept(m, h, path)| > 0 then before[h := Kept(m, h, path)] else before
  {
    var before, after := RemoveExcept(m, path, left), RemoveExcept(m, path, left - {h});
    GrowByOne(before, after, h, Kept(m, h, path), |Kept(m, h, path)| > 0);
  }

  lemma RemoveEnds(m: Index, path: string)
    ensures RemoveExcept(m, path, m.Keys) == map[]
    ensures RemoveExcept(m, path, {}) == Remove(m, path)
  {
  }

  /** The keys in `order` have been visited, those in `left` have not. */
  predicate Visiting(m: Index, order: seq<Hash>, left: set<Hash>) {
    && Distinct(order) && left <= m.Keys
    && (forall h | h in order :: h in m && h !in left)
    && forall h | h in m :: h in order || h in left
  }

  lemma VisitOne(m: Index, order: seq<Hash>, left: set<Hash>, h: Hash)
    requires Visiting(m, order, left) && h in left
    ensures Visiting(m, order + [h], left - {h})
  {
    DistinctSnoc(order, h);
  }

  lemma VisitedAll(m: Index, order: seq<Hash>)
    requires Visiting(m, order, {})
    ensures Iterates(order, m)
  {
  }

  predicate Mentions(m: Index, path: string) {
    exists h | h in m :: exists l | l in m[h] :: SamePath(l.path, path)
  }

  /** A file's locations go, every other location stays in its place, and a hash is still known exactly
      when another file holds a chunk with it. */
  lemma RemoveIs(m: Index, path: string)
    ensures Bucketed(Remove(m, path)) && !Mentions(Remove(m, path), path)
    ensures forall h :: Locations(Remove(m, path), h) == Filter(Elsewhere(path), Locations(m, h))
    ensures forall h :: h in Remove(m, path) <==> exists l | l in Locations(m, h) :: !SamePath(l.path, path)
  {
    forall h
      ensures Locations(Remove(m, path), h) == Kept(m, h, path)
      ensures h in Remove(m, path) <==> exists l | l in Locations(m, h) :: !SamePath(l.path, path)
      ensures forall l | l in Kept(m, h, path) :: !SamePath(l.path, path)
    {
      FilterIs(Elsewhere(path), Locations(m, h));
      if |Kept(m, h, path)| > 0 {
        assert Kept(m, h, path)[0] in Kept(m, h, path);
      }
    }
  }

  /** Removing a file leaves another file's locations alone; for plain names, and for plain names in the same
      directory, that is every file of another name. */
  lemma RemoveKeepsOthers(m: Index, path: string, h: Hash, l: Location)
    requires l in Locations(m, h) && !SamePath(l.path, path)
    ensures h in Remove(m, path) && l in Locations(Remove(m, path), h)
  {
    RemoveIs(m, path);
    FilterIs(Elsewhere(path), Locations(m, h));
  }

  lemma RemoveKeepsOtherNames(m: Index, dir: string, a: string, b: string, h: Hash, l: Location)
    requires PlainName(a) && PlainName(b) && a != b && l in Locations(m, h)
    ensures l.path == b ==> h in Remove(m, a) && l in Locations(Remove(m, a), h)
    ensures dir != "" && l.path == dir + "/" + b ==>
              h in Remove(m, dir + "/" + a) && l in Locations(Remove(m, dir + "/" + a), h)
  {
    if l.path == b {
      SamePlainIff(b, a);
      RemoveKeepsOthers(m, a, h, l);
    }
    if dir != "" && l.path == dir + "/" + b {
      SameInsideIff(dir, b, dir, a);
      RemoveKeepsOthers(m, dir + "/" + a, h, l);
    }
  }

  /** Removing a file takes back every location recorded for it and nothing else. */
  lemma {:induction false} RemoveUndoesAdd(m: Index, rs: seq<Record>, path: string)
    requires forall r | r in rs :: SamePath(r.location.path, path)
    ensures Remove(AddAll(m, rs), path) == Remove(m, path)
    decreases |rs|
  {
    if |rs| > 0 {
      RemoveUndoesAdd(Add(m, rs[0]), rs[1..], path);
      RemoveIgnoresOwn(m, rs[0], path);
    }
  }

  lemma RemoveIgnoresOwn(m: Index, r: Record, path: string)
    requires SamePath(r.location.path, path)
    ensures Remove(Add(m, r), path) == Remove(m, path)
  {
    var more := Add(m, r);
    forall h ensures Kept(more, h, path) == Kept(m, h, path) {
      KeptIgnoresOwn(m, r, path, h);
    }
    RemoveIsKept(more, m, path);
  }

  lemma KeptIgnoresOwn(m: Index, r: Record, path: string, h: Hash)
    requires SamePath(r.location.path, path)
    ensures Kept(Add(m, r), h, path) == Kept(m, h, path)
  {
    if h == r.hash {
      FilterSnoc(Elsewhere(path), Locations(m, h), r.location);
    }
  }

  lemma RemoveIsKept(a: Index, b: Index, path: string)
    requires forall h :: Kept(a, h, path) == Kept(b, h, path)
    ensures Remove(a, path) == Remove(b, path)
  {
    forall h ensures h in Remove(a, path) <==> h in Remove(b, path) {
      assert Kept(a, h, path) == Kept(b, h, path);
    }
  }

  lemma {:induction false} RemoveUnmentioned(m: Index, path: string)
    requires Bucketed(m) && !Mentions(m, path)
    ensures Remove(m, path) == m
  {
    forall h | h in m ensures Kept(m, h, path) == m[h] {
      FilterAll(Elsewhere(path), m[h]);
    }
  }

  /** An upload under a path not yet indexed, then the file's removal, leaves the index as it was. */
  lemma AddThenRemove(m: Index, rs: seq<Record>, path: string)
    requires Bucketed(m) && !Mentions(m, path)
    requires forall r | r in rs :: SamePath(r.location.path, path)
    ensures Remove(AddAll(m, rs), path) == m
  {
    RemoveUndoesAdd(m, rs, path);
    RemoveUnmentioned(m, path);
  }

  lemma {:induction false} AddAllBuckets(m: Index, rs: seq<Record>)
    requires Bucketed(m)
    ensures Bucketed(AddAll(m, rs))
    decreases |rs|
  {
    if |rs| > 0 {
      AddAllBuckets(Add(m, rs[0]), rs[1..]);
    }
  }

  lemma {:induction false} TextSnoc(rs: seq<Record>, r: Record)
    ensures TextOf(rs + [r]) == TextOf(rs) + LineOf(r) + [NEWLINE]
    decreases |rs|
  {
    if |rs| == 0 {
      assert [r][1..] == [];
      assert rs + [r] == [r];
    } else {
      TextSnoc(rs[1..], r);
      assert (rs + [r])[1..] == rs[1..] + [r];
      Regroup(LineOf(rs[0]) + [NEWLINE], TextOf(rs[1..]), LineOf(r), [NEWLINE]);
    }
  }

  /** One more record of a bucket adds one line. */
  lemma TextNext(written: seq<Record>, bucket: seq<Record>, i: nat)
    requires i < |bucket|
    ensures TextOf(written + bucket[..i + 1]) == TextOf(written + bucket[..i]) + LineOf(bucket[i]) + [NEWLINE]
  {
    var before := written + bucket[..i];
    TextSnoc(before, bucket[i]);
    assert written + bucket[..i + 1] == before + [bucket[i]];
  }

  lemma RecordsSnoc(m: Index, order: seq<Hash>, h: Hash)
    requires h in m && forall k | k in order :: k in m
    ensures Records(m, order + [h]) == Records(m, order) + Bucket(h, m[h])
  {
    assert (order + [h])[..|order|] == order;
  }

  lemma Regroup(a: string, b: string, c: string, d: string)
    ensures a + (b + c + d) == (a + b) + c + d
  {
  }
}
