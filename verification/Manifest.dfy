/** Building a manifest, checking one, and the chunk locations the server records from it. */
module Manifests {
  import opened Bytes
  import opened Chunking
  import opened Chunkers
  import opened Packets
  import opened IndexModel
  import opened ChunkHashIndexes

  const HASH_SIZE: nat := 32
  const MIN_CHUNK_SIZE: nat := 1024
  const MAX_CHUNK_SIZE: nat := 100 * 1024 * 1024
  const MAX_FILE_SIZE: nat := 1024 * 1024 * 1024 * 1024
  const PARALLEL_THRESHOLD: nat := 4
  const NO_COMPRESSION := "none"
  const COMPRESSIONS := ["none", "lz4", "lz4hc", "zstd", "lzma2"]

  datatype Manifest = Manifest(
    sessionId: string, fileName: string, fileSize: nat, chunkSize: nat, totalChunks: nat, fileHash: seq<byte>,
    chunkHashes: seq<seq<byte>>, compression: string, originalSize: Option<nat>)

  datatype ManifestError =
    | EmptyName
    | BadSessionId
    | BadFileName
    | EmptyFile
    | BadFileHash
    | WrongCount(got: nat, expected: nat)
    | BadChunkHash(index: nat)
    | ChunkFailed(cause: ChunkError)
    | FileTooLarge
    | BadChunkSize
    | NoChunks
    | UnknownCompression
    | BadOriginalSize

  function OriginalSize(compression: string, size: nat): Option<nat> {
    if compression == NO_COMPRESSION then None else Some(size)
  }

  /** The first hash of the wrong length, or the number of hashes. */
  function FirstBad(hashes: seq<seq<byte>>): (k: nat)
    ensures k <= |hashes| && (k < |hashes| ==> |hashes[k]| != 32)
    ensures forall i: nat | i < k :: |hashes[i]| == 32
  {
    if |hashes| == 0 || |hashes[0]| != HASH_SIZE then 0 else 1 + FirstBad(hashes[1..])
  }

  /** `build_from_hashes`. */
  function FromHashes(session: string, chunkSize: pos, compression: string, name: string, size: nat,
                      fileHash: seq<byte>, hashes: seq<seq<byte>>): Result<Manifest, ManifestError> {
    var total := ChunkCount(size, chunkSize);
    if |name| == 0 then Err(EmptyName)
    else if size == 0 then Err(EmptyFile)
    else if |fileHash| != HASH_SIZE then Err(BadFileHash)
    else if |hashes| != total then Err(WrongCount(|hashes|, total))
    else if FirstBad(hashes) < |hashes| then Err(BadChunkHash(FirstBad(hashes)))
    else Ok(Manifest(session, name, size, chunkSize, total, fileHash, hashes, compression,
                     OriginalSize(compression, size)))
  }

  predicate FullHashes(hashes: seq<seq<byte>>) {
    forall i: nat | i < |hashes| :: |hashes[i]| == 32
  }

  /** The builder refuses an empty name, an empty file, hashes that are not 32 bytes long, and a number of chunk hashes
      other than the chunk count, and nothing else; it copies what it is given, and says the original size unless there
      is no compression. */
  lemma BuildsIff(session: string, chunkSize: pos, compression: string, name: string, size: nat, fileHash: seq<byte>,
                  hashes: seq<seq<byte>>)
    ensures var r := FromHashes(session, chunkSize, compression, name, size, fileHash, hashes);
            && (r.Ok? <==> |name| > 0 && size > 0 && |fileHash| == 32 && |hashes| == ChunkCount(size, chunkSize)
                           && FullHashes(hashes))
            && (r.Ok? ==>
                  r.value == Manifest(session, name, size, chunkSize, |hashes|, fileHash, hashes, compression,
                                      if compression == "none" then None else Some(size)))
  {
    if FirstBad(hashes) < |hashes| {
      assert |hashes[FirstBad(hashes)]| != 32;
    }
  }

  // ----- names -----

  /** `char::len_utf8`. */
  function Utf8Size(c: char): nat {
    if c as int < 0x80 then 1 else if c as int < 0x800 then 2 else if c as int < 0x1_0000 then 3 else 4
  }

  /** `len`: a string's length in bytes. */
  function ByteLength(s: string): nat {
    if |s| == 0 then 0 else ByteLength(s[..|s| - 1]) + Utf8Size(s[|s| - 1])
  }

  /** The two characters occur one after the other. */
  predicate HasPair(s: string, c: char) {
    exists i: nat :: i + 1 < |s| && s[i] == c && s[i + 1] == c
  }

  /** A character takes one byte of UTF-8 for up to 7 bits, two for up to 11, three for up to 16, and four beyond. */
  lemma Utf8SizeIs(c: char)
    ensures 1 <= Utf8Size(c) <= 4
    ensures (Utf8Size(c) <= 1 <==> c as int < 128) && (Utf8Size(c) <= 2 <==> c as int < 2048)
    ensures Utf8Size(c) <= 3 <==> c as int < 65536
  {
  }

  /** A string's length in bytes is the sum over its characters, and its number of characters exactly if they are all
      ASCII. */
  lemma {:induction false} ByteLengthIs(s: string, t: string)
    ensures |s| <= ByteLength(s) && (ByteLength(s) == |s| <==> forall c | c in s :: c as int < 128)
    ensures ByteLength(s + t) == ByteLength(s) + ByteLength(t)
    decreases |s| + |t|
  {
    if |t| > 0 {
      ByteLengthIs(s, t[..|t| - 1]);
      assert (s + t)[..|s + t| - 1] == s + t[..|t| - 1];
    } else {
      assert s + t == s;
      if |s| > 0 {
        var front, last := s[..|s| - 1], s[|s| - 1];
        ByteLengthIs(front, t);
        assert s == front + [last];
        if forall c | c in s :: c as int < 128 {
          assert last in s && forall c | c in front :: c in s;
        }
      }
    }
  }

  /** A pair occurs exactly if the string is something, the pair, and something. */
  lemma HasPairIff(s: string, c: char)
    ensures HasPair(s, c) <==> exists a: string, b: string :: s == a + [c, c] + b
  {
    if HasPair(s, c) {
      var i: nat :| i + 1 < |s| && s[i] == c && s[i + 1] == c;
      assert s == s[..i] + [c, c] + s[i + 2..];
    }
    if exists a: string, b: string :: s == a + [c, c] + b {
      var a, b :| s == a + [c, c] + b;
      assert s[|a|] == c && s[|a| + 1] == c;
    }
  }

  /** Between 8 and 128 bytes of letters, digits, hyphens and underscores; which characters are letters or digits is
      Unicode's business. */
  predicate GoodSessionId(alphanumeric: char -> bool, id: string) {
    8 <= ByteLength(id) <= 128 && forall c | c in id :: alphanumeric(c) || c == '-' || c == '_'
  }

  /** Not empty, at most 255 bytes, and neither `..` nor `//`. */
  predicate GoodFileName(name: string) {
    0 < |name| && ByteLength(name) <= 255 && !HasPair(name, '.') && !HasPair(name, '/')
  }

  function ValidateNames(alphanumeric: char -> bool, m: Manifest): Option<ManifestError> {
    if |m.sessionId| == 0 || ByteLength(m.sessionId) < 8 || ByteLength(m.sessionId) > 128
       || exists c :: c in m.sessionId && !(alphanumeric(c) || c == '-' || c == '_') then Some(BadSessionId)
    else if |m.fileName| == 0 then Some(EmptyName)
    else if ByteLength(m.fileName) > 255 || HasPair(m.fileName, '.') || HasPair(m.fileName, '/') then Some(BadFileName)
    else None
  }

  // ----- validation -----

  function ValidateSizes(m: Manifest): Option<ManifestError> {
    if m.fileSize == 0 then Some(EmptyFile)
    else if m.fileSize > MAX_FILE_SIZE then Some(FileTooLarge)
    else if m.chunkSize < MIN_CHUNK_SIZE || m.chunkSize > MAX_CHUNK_SIZE then Some(BadChunkSize)
    else if m.totalChunks == 0 then Some(NoChunks)
    else if m.totalChunks != ChunkCount(m.fileSize, m.chunkSize) then
      Some(WrongCount(m.totalChunks, ChunkCount(m.fileSize, m.chunkSize)))
    else None
  }

  function ValidateHashes(m: Manifest): Option<ManifestError> {
    if |m.fileHash| != HASH_SIZE then Some(BadFileHash)
    else if |m.chunkHashes| != m.totalChunks then Some(WrongCount(|m.chunkHashes|, m.totalChunks))
    else if FirstBad(m.chunkHashes) < |m.chunkHashes| then Some(BadChunkHash(FirstBad(m.chunkHashes)))
    else None
  }

  function ValidateStrictly(m: Manifest): Option<ManifestError> {
    if m.compression !in COMPRESSIONS then Some(ManifestError.UnknownCompression)
    else if m.originalSize == None then None
    else
      var original := m.originalSize.value;
      if original == 0 || original > MAX_FILE_SIZE || m.fileSize > original * 2 then Some(BadOriginalSize) else None
  }

  /** `validate`; the first failing rule is the error. */
  function Validate(alphanumeric: char -> bool, strict: bool, m: Manifest): Option<ManifestError> {
    var (names, sizes, hashes) := (ValidateNames(alphanumeric, m), ValidateSizes(m), ValidateHashes(m));
    if names.Some? then names
    else if sizes.Some? then sizes
    else if hashes.Some? then hashes
    else if strict then ValidateStrictly(m)
    else None
  }

  predicate InBounds(size: nat, chunkSize: nat) {
    0 < size <= 0x100_0000_0000 && 1024 <= chunkSize <= 104857600
  }

  lemma NamesIff(alphanumeric: char -> bool, m: Manifest)
    ensures ValidateNames(alphanumeric, m) == None
       <==> GoodSessionId(alphanumeric, m.sessionId) && GoodFileName(m.fileName)
  {
  }

  /** A manifest passes exactly when its names are well formed, its sizes are in bounds, its chunks are just enough to
      hold the file, and there is one full-length hash for each. */
  lemma ValidIff(alphanumeric: char -> bool, m: Manifest)
    ensures Validate(alphanumeric, false, m) == None
       <==> (GoodSessionId(alphanumeric, m.sessionId) && GoodFileName(m.fileName)
             && InBounds(m.fileSize, m.chunkSize)
             && m.totalChunks * m.chunkSize - m.chunkSize < m.fileSize <= m.totalChunks * m.chunkSize
             && |m.fileHash| == 32 && |m.chunkHashes| == m.totalChunks
             && forall h | h in m.chunkHashes :: |h| == 32)
  {
    NamesIff(alphanumeric, m);
    assert (forall h | h in m.chunkHashes :: |h| == 32)
       <==> (forall i: nat | i < |m.chunkHashes| :: |m.chunkHashes[i]| == 32);
    if InBounds(m.fileSize, m.chunkSize) {
      CountBounds(m.fileSize, m.chunkSize);
      if m.totalChunks * m.chunkSize - m.chunkSize < m.fileSize <= m.totalChunks * m.chunkSize {
        CountUnique(m.fileSize, m.chunkSize, m.totalChunks);
      }
    }
  }

  /** The builder enforces everything the validator asks for except the size bounds and the form of the names. */
  lemma BuiltIsValidIff(alphanumeric: char -> bool, session: string, chunkSize: pos, compression: string,
                        name: string, size: nat, fileHash: seq<byte>, hashes: seq<seq<byte>>, strict: bool)
    requires FromHashes(session, chunkSize, compression, name, size, fileHash, hashes).Ok?
    ensures var m := FromHashes(session, chunkSize, compression, name, size, fileHash, hashes).value;
            Validate(alphanumeric, strict, m) == None <==>
              (GoodSessionId(alphanumeric, session) && GoodFileName(name)
               && InBounds(size, chunkSize)
               && (strict ==> compression in ["none", "lz4", "lz4hc", "zstd", "lzma2"]))
  {
    NamesIff(alphanumeric, FromHashes(session, chunkSize, compression, name, size, fileHash, hashes).value);
    CountBounds(size, chunkSize);
  }

  /** Strict validation asks on top for a known compression, and for an original size, if there is one, within the bound
      and at least half the file size. */
  lemma StrictIff(alphanumeric: char -> bool, m: Manifest)
    ensures Validate(alphanumeric, true, m) == None
       <==> (Validate(alphanumeric, false, m) == None
             && m.compression in ["none", "lz4", "lz4hc", "zstd", "lzma2"]
             && (m.originalSize.Some? ==>
                   0 < m.originalSize.value <= 0x100_0000_0000 && m.fileSize <= 2 * m.originalSize.value))
  {
  }

  /** Which rule is reported: the first that fails, names before sizes before hashes. */
  lemma FirstRuleReported(alphanumeric: char -> bool, m: Manifest)
    ensures var e := Validate(alphanumeric, false, m);
            && (e == Some(BadSessionId) <==> !GoodSessionId(alphanumeric, m.sessionId))
            && (GoodSessionId(alphanumeric, m.sessionId) ==>
                  && (e == Some(EmptyName) <==> m.fileName == "")
                  && (e == Some(BadFileName) <==> m.fileName != "" && !GoodFileName(m.fileName)))
            && (ValidateNames(alphanumeric, m) == None ==>
                  && (e == Some(EmptyFile) <==> m.fileSize == 0)
                  && (e == Some(FileTooLarge) <==> m.fileSize > 0x100_0000_0000)
                  && (e == Some(BadChunkSize) <==>
                        0 < m.fileSize <= 0x100_0000_0000 && !InBounds(m.fileSize, m.chunkSize))
                  && (e == Some(NoChunks) <==> InBounds(m.fileSize, m.chunkSize) && m.totalChunks == 0))
  {
    NamesIff(alphanumeric, m);
  }

  lemma FirstHashRuleReported(alphanumeric: char -> bool, m: Manifest)
    requires ValidateNames(alphanumeric, m) == None && InBounds(m.fileSize, m.chunkSize) && m.totalChunks > 0
    ensures var (e, count) := (Validate(alphanumeric, false, m), ChunkCount(m.fileSize, m.chunkSize));
            if m.totalChunks != count then e == Some(WrongCount(m.totalChunks, count))
            else if |m.fileHash| != 32 then e == Some(BadFileHash)
            else if |m.chunkHashes| != count then e == Some(WrongCount(|m.chunkHashes|, count))
            else
              && (e == None <==> FullHashes(m.chunkHashes))
              && forall k: nat :: e == Some(BadChunkHash(k)) <==>
                   k < count && |m.chunkHashes[k]| != 32 && FullHashes(m.chunkHashes[..k])
  {
    assert FullHashes(m.chunkHashes[..FirstBad(m.chunkHashes)]);
    forall k: nat | k < |m.chunkHashes| && |m.chunkHashes[k]| != 32 && FullHashes(m.chunkHashes[..k])
      ensures k == FirstBad(m.chunkHashes)
    {
      FirstBadIs(m.chunkHashes, k);
    }
  }

  lemma {:induction false} FirstBadIs(hashes: seq<seq<byte>>, k: nat)
    requires k < |hashes| && |hashes[k]| != 32 && FullHashes(hashes[..k])
    ensures FirstBad(hashes) == k
  {
    if k > 0 {
      assert hashes[..k][0] == hashes[0];
      assert hashes[..k][1..] == hashes[1..][..k - 1];
      FirstBadIs(hashes[1..], k - 1);
    }
  }

  // ----- hashing the file -----

  /** How many bytes the operating system returns when `want` are asked for: possibly fewer, and none where the file
      has come to end. */
  function Got(answer: nat, want: nat): (n: nat)
    ensures n <= want
  {
    Min(answer, want)
  }

  function Wanted(size: nat, cs: pos, at: nat): nat
    requires at <= size
  {
    Min(size - at, cs)
  }

  /** The position before read `k`. */
  function ReadAt(size: nat, cs: pos, answers: nat -> nat, k: nat): (at: nat)
    ensures at <= size
  {
    if k == 0 then 0
    else
      var before := ReadAt(size, cs, answers, k - 1);
      before + Got(answers(k - 1), Wanted(size, cs, before))
  }

  predicate FullRead(size: nat, cs: pos, answers: nat -> nat, k: nat) {
    var at := ReadAt(size, cs, answers, k);
    Got(answers(k), Wanted(size, cs, at)) == Wanted(size, cs, at)
  }

  /** What read `k` returns. */
  function Piece(file: seq<byte>, cs: pos, answers: nat -> nat, k: nat): seq<byte> {
    var at := ReadAt(|file|, cs, answers, k);
    file[at..at + Got(answers(k), Wanted(|file|, cs, at))]
  }

  lemma {:induction false} ReadsAreBounded(size: nat, cs: pos, answers: nat -> nat, k: nat)
    ensures ReadAt(size, cs, answers, k) <= k * cs
  {
    if k > 0 {
      ReadsAreBounded(size, cs, answers, k - 1);
      assert k * cs == (k - 1) * cs + cs;
    }
  }

  lemma {:induction false} FullReadsReachStart(size: nat, cs: pos, answers: nat -> nat, k: nat)
    requires k <= ChunkCount(size, cs) && forall i: nat | i < k :: FullRead(size, cs, answers, i)
    ensures ReadAt(size, cs, answers, k) == Min(Start(cs, k), size)
  {
    if k > 0 {
      FullReadsReachStart(size, cs, answers, k - 1);
      StartOrder(size, cs, k - 1);
      assert Start(cs, k) == Start(cs, k - 1) + cs;
      assert FullRead(size, cs, answers, k - 1);
    }
  }

  /** The sequential hasher, which takes whatever each read returns for a chunk, cuts the file at the chunk
      boundaries exactly when no read comes back short. */
  lemma PiecesAreChunksIff(file: seq<byte>, cs: pos, answers: nat -> nat)
    ensures (forall k: nat | k < ChunkCount(|file|, cs) :: Piece(file, cs, answers, k) == Slice(file, cs, k))
       <==> (forall k: nat | k < ChunkCount(|file|, cs) :: FullRead(|file|, cs, answers, k))
  {
    var n := ChunkCount(|file|, cs);
    if forall k: nat | k < n :: FullRead(|file|, cs, answers, k) {
      forall k: nat | k < n ensures Piece(file, cs, answers, k) == Slice(file, cs, k) {
        FullReadsReachStart(|file|, cs, answers, k);
        StartOrder(|file|, cs, k);
        assert FullRead(|file|, cs, answers, k);
      }
    }
    if forall k: nat | k < n :: Piece(file, cs, answers, k) == Slice(file, cs, k) {
      SlicesNeedFullReads(file, cs, answers, n);
    }
  }

  lemma {:induction false} SlicesNeedFullReads(file: seq<byte>, cs: pos, answers: nat -> nat, n: nat)
    requires n <= ChunkCount(|file|, cs)
    requires forall k: nat | k < n :: Piece(file, cs, answers, k) == Slice(file, cs, k)
    ensures forall k: nat | k < n :: FullRead(|file|, cs, answers, k)
  {
    if n > 0 {
      SlicesNeedFullReads(file, cs, answers, n - 1);
      FullReadsReachStart(|file|, cs, answers, n - 1);
      StartOrder(|file|, cs, n - 1);
      assert |Piece(file, cs, answers, n - 1)| == |Slice(file, cs, n - 1)|;
      assert Start(cs, n - 1) + cs == Start(cs, n);
    }
  }

  function PieceHashes(c: Codec, file: seq<byte>, cs: pos, answers: nat -> nat, n: nat): (hs: seq<seq<byte>>)
    ensures |hs| == n
    ensures forall k: nat | k < n :: hs[k] == c.hash(Piece(file, cs, answers, k))
  {
    seq(n, k requires 0 <= k < n => c.hash(Piece(file, cs, answers, k)))
  }

  predicate EmptyRead(size: nat, cs: pos, answers: nat -> nat, k: nat) {
    Got(answers(k), Wanted(size, cs, ReadAt(size, cs, answers, k))) == 0
  }

  /** `e` is the first of `n` reads that returns nothing, or `n`. */
  predicate StopsAt(size: nat, cs: pos, answers: nat -> nat, n: nat, e: nat) {
    && e <= n && (e < n ==> EmptyRead(size, cs, answers, e))
    && forall k: nat | k < e :: !EmptyRead(size, cs, answers, k)
  }

  /** Before the last chunk the file is never used up, and the next read adds one hash. */
  lemma ReadIsNext(j: Job, answers: nat -> nat, k: nat)
    requires k < Count(j)
    ensures var at := ReadAt(|j.file|, j.chunkSize, answers, k);
            && Wanted(|j.file|, j.chunkSize, at) > 0
            && PieceHashes(j.codec, j.file, j.chunkSize, answers, k + 1)
            == PieceHashes(j.codec, j.file, j.chunkSize, answers, k)
             + [j.codec.hash(Piece(j.file, j.chunkSize, answers, k))]
  {
    ReadsAreBounded(|j.file|, j.chunkSize, answers, k);
    StartOrder(|j.file|, j.chunkSize, k);
  }

  method ReadNext(j: Job, answers: nat -> nat, k: nat, bytesRead: nat) returns (data: seq<byte>)
    requires bytesRead == ReadAt(|j.file|, j.chunkSize, answers, k)
    ensures data == Piece(j.file, j.chunkSize, answers, k)
    ensures bytesRead + |data| == ReadAt(|j.file|, j.chunkSize, answers, k + 1)
    ensures |data| == 0 <==> EmptyRead(|j.file|, j.chunkSize, answers, k)
  {
    var want := Min(|j.file| - bytesRead, j.chunkSize);
    data := j.file[bytesRead..bytesRead + Got(answers(k), want)];
  }

  /** One hash for each read up to the first that returns nothing, or for each chunk; those of the parallel hasher
      when every read is full. */
  method HashSequentially(j: Job, answers: nat -> nat) returns (hashes: seq<seq<byte>>)
    ensures hashes == PieceHashes(j.codec, j.file, j.chunkSize, answers, |hashes|)
    ensures StopsAt(|j.file|, j.chunkSize, answers, Count(j), |hashes|)
    ensures (forall k: nat | k < Count(j) :: FullRead(|j.file|, j.chunkSize, answers, k)) ==>
              Ok(hashes) == ComputeChunkHashes(j, Always())
  {
    hashes := [];
    var bytesRead := 0;
    for k := 0 to Count(j)
      invariant bytesRead == ReadAt(|j.file|, j.chunkSize, answers, k)
      invariant hashes == PieceHashes(j.codec, j.file, j.chunkSize, answers, k)
      invariant forall i: nat | i < k :: !EmptyRead(|j.file|, j.chunkSize, answers, i)
    {
      ReadIsNext(j, answers, k);
      var data := ReadNext(j, answers, k, bytesRead);
      if |data| == 0 {
        break;
      }
      hashes := hashes + [j.codec.hash(data)];
      bytesRead := bytesRead + |data|;
    }
    FullReadsAreParallel(j, answers, |hashes|);
  }

  lemma FullReadsAreNotEmpty(j: Job, answers: nat -> nat, e: nat)
    requires forall k: nat | k < Count(j) :: FullRead(|j.file|, j.chunkSize, answers, k)
    requires StopsAt(|j.file|, j.chunkSize, answers, Count(j), e)
    ensures e == Count(j)
  {
    forall k: nat | k < Count(j) ensures !EmptyRead(|j.file|, j.chunkSize, answers, k) {
      ReadIsNext(j, answers, k);
      assert FullRead(|j.file|, j.chunkSize, answers, k);
    }
  }

  lemma FullReadsAreParallel(j: Job, answers: nat -> nat, e: nat)
    requires StopsAt(|j.file|, j.chunkSize, answers, Count(j), e)
    ensures (forall k: nat | k < Count(j) :: FullRead(|j.file|, j.chunkSize, answers, k)) ==>
              Ok(PieceHashes(j.codec, j.file, j.chunkSize, answers, e)) == ComputeChunkHashes(j, Always())
  {
    if forall k: nat | k < Count(j) :: FullRead(|j.file|, j.chunkSize, answers, k) {
      FullReadsAreNotEmpty(j, answers, e);
      SequentialIsParallel(j, answers);
    }
  }

  function Always(): nat -> bool {
    k => true
  }

  lemma AllHashes(j: Job)
    ensures |HashChunks(j, Always(), Count(j))| == Count(j)
    ensures forall k: nat | k < Count(j) :: HashChunks(j, Always(), Count(j))[k] == j.codec.hash(ChunkData(j, k))
  {
    HashChunksComplete(j, Always(), Count(j));
  }

  /** With full reads the sequential hasher lists what the parallel one lists. */
  lemma SequentialIsParallel(j: Job, answers: nat -> nat)
    requires forall k: nat | k < Count(j) :: FullRead(|j.file|, j.chunkSize, answers, k)
    ensures Ok(PieceHashes(j.codec, j.file, j.chunkSize, answers, Count(j))) == ComputeChunkHashes(j, Always())
  {
    var pieces := PieceHashes(j.codec, j.file, j.chunkSize, answers, Count(j));
    forall k: nat | k < Count(j) ensures pieces[k] == j.codec.hash(ChunkData(j, k)) {
      PiecesAreChunksIff(j.file, j.chunkSize, answers);
      assert Piece(j.file, j.chunkSize, answers, k) == Slice(j.file, j.chunkSize, k);
    }
    HashesAreUnique(j, pieces);
  }

  lemma HashesAreUnique(j: Job, hashes: seq<seq<byte>>)
    requires |hashes| == Count(j) && forall k: nat | k < Count(j) :: hashes[k] == j.codec.hash(ChunkData(j, k))
    ensures Ok(hashes) == ComputeChunkHashes(j, Always())
  {
    AllHashes(j);
    assert hashes == HashChunks(j, Always(), Count(j));
  }

  /** The file hash is fed read by read, until the size is reached or a read returns nothing. It does not depend on how
      the reads are cut: it is the file's hash whenever none of them is empty. */
  method HashFile(j: Job, answers: nat -> nat) returns (hash: seq<byte>, used: nat)
    ensures var at := ReadAt(|j.file|, j.chunkSize, answers, used);
            hash == j.codec.hash(j.file[..at]) && (at == |j.file| || EmptyRead(|j.file|, j.chunkSize, answers, used))
    ensures forall k: nat | k < used :: !EmptyRead(|j.file|, j.chunkSize, answers, k)
    ensures (forall k: nat :: answers(k) > 0) ==> hash == j.codec.hash(j.file)
  {
    var fed: seq<byte> := [];
    used := 0;
    while |fed| < |j.file|
      invariant fed <= j.file && |fed| == ReadAt(|j.file|, j.chunkSize, answers, used)
      invariant forall k: nat | k < used :: !EmptyRead(|j.file|, j.chunkSize, answers, k)
      decreases |j.file| - |fed|
    {
      var got := Got(answers(used), Min(|j.file| - |fed|, j.chunkSize));
      if got == 0 {
        break;
      }
      fed, used := fed + j.file[|fed|..|fed| + got], used + 1;
    }
    assert fed == j.file[..|fed|];
    assert |fed| == |j.file| ==> fed == j.file;
    hash := j.codec.hash(fed);
  }

  /** `build` and `build_parallel` on a file that opens. Chunk count and sizes are always those of the file. The chunk
      hashes are those of the chunks when they are computed in parallel, and otherwise when every read is full; the
      sequential hasher leaves some out when the file has come to end early, and nothing checks that. */
  method BuildManifest(j: Job, session: string, name: string, compression: string, parallel: bool,
                       readable: nat -> bool, answers: nat -> nat, fileAnswers: nat -> nat)
    returns (r: Result<Manifest, ManifestError>)
    ensures |j.file| == 0 ==> r == Err(EmptyFile)
    ensures |j.file| > 0 ==>
              (r.Err? <==> parallel && Count(j) > 4 && !forall k: nat | k < Count(j) :: readable(k))
    ensures r.Ok? ==>
              && r.value.sessionId == session && r.value.fileName == name
              && r.value.compression == compression
              && r.value.originalSize == (if compression == "none" then None else Some(|j.file|))
              && r.value.fileSize == |j.file| && r.value.chunkSize == j.chunkSize && r.value.totalChunks == Count(j)
              && ((forall k: nat :: fileAnswers(k) > 0) ==> r.value.fileHash == j.codec.hash(j.file))
    ensures r.Ok? && parallel && Count(j) > 4 ==> ChunkHashesRight(j, r.value)
    ensures r.Ok? && !(parallel && Count(j) > 4) ==>
              && StopsAt(|j.file|, j.chunkSize, answers, Count(j), |r.value.chunkHashes|)
              && ((forall k: nat | k < Count(j) :: FullRead(|j.file|, j.chunkSize, answers, k)) ==>
                    ChunkHashesRight(j, r.value))
  {
    if |j.file| == 0 {
      return Err(EmptyFile);
    }
    var hashes;
    if parallel && Count(j) > PARALLEL_THRESHOLD {
      HashChunksComplete(j, readable, Count(j));
      var computed := ComputeChunkHashes(j, readable);
      if computed.Err? {
        return Err(ChunkFailed(computed.error));
      }
      hashes := computed.value;
    } else {
      hashes := HashSequentially(j, answers);
      AllHashes(j);
    }
    var fileHash, used := HashFile(j, fileAnswers);
    r := Ok(Manifest(session, name, |j.file|, j.chunkSize, Count(j), fileHash, hashes, compression,
                     OriginalSize(compression, |j.file|)));
  }

  /** One hash for each chunk, and it is that chunk's. */
  predicate ChunkHashesRight(j: Job, m: Manifest) {
    |m.chunkHashes| == Count(j) && forall k: nat | k < Count(j) :: m.chunkHashes[k] == j.codec.hash(ChunkData(j, k))
  }

  // ----- the locations recorded after an upload -----

  /** `manifest.file_size - chunk_offset`, which wraps in a release build. */
  function Remaining(size: u64, offset: u64): u64 {
    if offset <= size then size - offset else U64_LIMIT + size - offset
  }

  /** `chunk_idx * chunk_size`, which wraps in a release build. */
  function Offset(cs: u32, k: nat): u64 {
    Start(cs, k) % U64_LIMIT
  }

  /** The location of hash `k` of `n`: only the last one looks at the file size. */
  function Placed(path: string, size: u64, cs: u32, n: nat, k: nat): Location
    requires k < n
  {
    Location(path, Offset(cs, k), if k == n - 1 then Min(Remaining(size, Offset(cs, k)), cs) else cs)
  }

  function PlacedRecords(path: string, size: u64, cs: u32, hashes: seq<Hash>, n: nat): (rs: seq<Record>)
    requires n <= |hashes|
    ensures |rs| == n
    ensures forall k: nat | k < n :: rs[k] == Record(hashes[k], Placed(path, size, cs, |hashes|, k))
  {
    seq(n, k requires 0 <= k < n => Record(hashes[k], Placed(path, size, cs, |hashes|, k)))
  }

  /** The records cover a file of `size` bytes: each begins where the one before ended, none is empty, and
      the last ends at the end of the file. */
  predicate Tile(rs: seq<Record>, size: nat) {
    && (|rs| == 0 <==> size == 0)
    && (|rs| > 0 ==> rs[0].location.offset == 0 && EndsAt(rs[|rs| - 1]) == size)
    && (forall r | r in rs :: r.location.size > 0)
    && forall k: nat | k + 1 < |rs| :: EndsAt(rs[k]) == rs[k + 1].location.offset
  }

  function EndsAt(r: Record): nat {
    r.location.offset + r.location.size
  }

  /** Locations that tile do not wrap. */
  lemma {:induction false} TilesDoNotWrap(path: string, size: u64, cs: u32, hashes: seq<Hash>, k: nat)
    requires Tile(PlacedRecords(path, size, cs, hashes, |hashes|), size) && k < |hashes|
    ensures Offset(cs, k) == Start(cs, k)
  {
    var rs := PlacedRecords(path, size, cs, hashes, |hashes|);
    if k > 0 {
      TilesDoNotWrap(path, size, cs, hashes, k - 1);
      assert Start(cs, k) == Start(cs, k - 1) + cs;
      assert EndsAt(rs[k - 1]) == rs[k].location.offset;
    }
  }

  lemma InsideDoesNotWrap(size: u64, cs: u32, k: nat)
    requires cs > 0 && k < ChunkCount(size, cs)
    ensures Offset(cs, k) == Start(cs, k)
  {
    StartOrder(size, cs, k);
  }

  /** The recorded locations tile the file exactly when the manifest has the chunk count its sizes call
      for; the server records them without checking that. */
  lemma LocationsTileIff(path: string, size: u64, cs: u32, hashes: seq<Hash>)
    requires cs > 0
    ensures Tile(PlacedRecords(path, size, cs, hashes, |hashes|), size) <==> |hashes| == ChunkCount(size, cs)
  {
    CountBounds(size, cs);
    if |hashes| == ChunkCount(size, cs) {
      RightCountTiles(path, size, cs, hashes);
    } else if Tile(PlacedRecords(path, size, cs, hashes, |hashes|), size) {
      TilesAreCounted(path, size, cs, hashes);
    }
  }

  lemma TilesAreCounted(path: string, size: u64, cs: u32, hashes: seq<Hash>)
    requires cs > 0 && Tile(PlacedRecords(path, size, cs, hashes, |hashes|), size)
    ensures |hashes| == ChunkCount(size, cs)
  {
    if |hashes| == 0 {
      CountBounds(size, cs);
    } else {
      LastTileEnds(path, size, cs, hashes);
      LastStartCounts(size, cs, |hashes|);
    }
  }

  /** The last tile starts inside the file and reaches its end. */
  lemma LastTileEnds(path: string, size: u64, cs: u32, hashes: seq<Hash>)
    requires |hashes| > 0 && Tile(PlacedRecords(path, size, cs, hashes, |hashes|), size)
    ensures Start(cs, |hashes| - 1) < size <= Start(cs, |hashes| - 1) + cs
  {
    var rs := PlacedRecords(path, size, cs, hashes, |hashes|);
    TilesDoNotWrap(path, size, cs, hashes, |hashes| - 1);
    assert rs[|hashes| - 1] in rs;
  }

  lemma LastStartCounts(size: nat, cs: nat, n: nat)
    requires n > 0 && Start(cs, n - 1) < size <= Start(cs, n - 1) + cs
    ensures cs > 0 && n == ChunkCount(size, cs)
  {
    assert n * cs == (n - 1) * cs + cs;
    CountUnique(size, cs, n);
  }

  lemma RightCountTiles(path: string, size: u64, cs: u32, hashes: seq<Hash>)
    requires cs > 0 && |hashes| == ChunkCount(size, cs)
    ensures Tile(PlacedRecords(path, size, cs, hashes, |hashes|), size)
  {
    var n := |hashes|;
    var rs := PlacedRecords(path, size, cs, hashes, n);
    CountBounds(size, cs);
    forall k: nat | k + 1 < n ensures EndsAt(rs[k]) == rs[k + 1].location.offset {
      InsideDoesNotWrap(size, cs, k);
      InsideDoesNotWrap(size, cs, k + 1);
      assert Start(cs, k + 1) == Start(cs, k) + cs;
    }
    if n > 0 {
      InsideDoesNotWrap(size, cs, n - 1);
      StartOrder(size, cs, n - 1);
    }
  }

  /** With the right count, each recorded location is that chunk of the file, and its bytes have the hash
      it is recorded under. */
  lemma LocationsAreTruthful(j: Job, path: string, hashes: seq<Hash>)
    requires |j.file| < U64_LIMIT && j.chunkSize < U32_LIMIT
    requires |hashes| == Count(j) && forall k: nat | k < Count(j) :: hashes[k] == j.codec.hash(ChunkData(j, k))
    ensures forall r | r in PlacedRecords(path, |j.file|, j.chunkSize, hashes, |hashes|) ::
              EndsAt(r) <= |j.file| && r.hash == j.codec.hash(j.file[r.location.offset..EndsAt(r)])
  {
    var rs := PlacedRecords(path, |j.file|, j.chunkSize, hashes, |hashes|);
    forall k: nat | k < |rs|
      ensures EndsAt(rs[k]) <= |j.file|
      ensures rs[k].hash == j.codec.hash(j.file[rs[k].location.offset..EndsAt(rs[k])])
    {
      StartOrder(|j.file|, j.chunkSize, k);
      InsideDoesNotWrap(|j.file|, j.chunkSize, k);
      assert Start(j.chunkSize, k + 1) == Start(j.chunkSize, k) + j.chunkSize;
      assert j.file[rs[k].location.offset..EndsAt(rs[k])] == ChunkData(j, k);
    }
  }

  /** The loop that enters a received file into the index. */
  method RecordLocations(store: ChunkHashIndex, path: string, size: u64, cs: u32, hashes: seq<Hash>)
    requires store.Valid()
    modifies store
    ensures store.Valid()
    ensures store.index == AddAll(old(store.index), PlacedRecords(path, size, cs, hashes, |hashes|))
  {
    ghost var rs := PlacedRecords(path, size, cs, hashes, |hashes|);
    for k := 0 to |hashes|
      invariant store.Valid() && store.index == AddAll(old(store.index), rs[..k])
    {
      var offset: u64 := k * cs % U64_LIMIT;
      var length: u32 := cs;
      if k == |hashes| - 1 {
        length := Min(Remaining(size, offset), cs);
      }
      store.AddChunk(hashes[k], Location(path, offset, length));
      AddAllAppend(old(store.index), rs[..k], [rs[k]]);
      assert rs[..k + 1] == rs[..k] + [rs[k]];
    }
    assert rs[..|hashes|] == rs;
  }

  /** A received file is entered into the index and later removed under the same path: the index is as before, if it did
      not mention the path. */
  method RecordThenRemove(store: ChunkHashIndex, path: string, size: u64, cs: u32, hashes: seq<Hash>)
    requires store.Valid() && !Mentions(store.index, path)
    modifies store
    ensures store.Valid() && store.index == old(store.index)
  {
    RecordLocations(store, path, size, cs, hashes);
    AddThenRemove(old(store.index), PlacedRecords(path, size, cs, hashes, |hashes|), path);
    store.RemoveFile(path);
  }
}
