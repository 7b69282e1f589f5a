/** Whole families of uploads that meet the conditions of the end-to-end theorem. */
module SampleJobs {
  import opened Bytes
  import opened Chunking
  import opened Chunkers
  import opened Packets
  import opened SampleCodec
  import opened ServerModel

  const FIVE_DIGITS: nat := 128 * 128 * 128 * 128 * 128
  const SAMPLE_LIMIT: nat := 0x800_0000

  lemma PutNatSize(n: nat)
    requires n < FIVE_DIGITS
    ensures |PutNat(n)| <= 5
  {
    var a, b := n / 128, n / 128 / 128;
    var c, d := b / 128, b / 128 / 128;
    assert PutNat(n) == if n < 128 then [Digit(n)] else [HighDigit(n)] + PutNat(a);
    assert PutNat(a) == if a < 128 then [Digit(a)] else [HighDigit(a)] + PutNat(b);
    assert PutNat(b) == if b < 128 then [Digit(b)] else [HighDigit(b)] + PutNat(c);
    assert PutNat(c) == if c < 128 then [Digit(c)] else [HighDigit(c)] + PutNat(d);
    assert d < 128;
  }

  lemma {:induction false} TotalBound(d: seq<byte>)
    ensures Total(d) <= 256 * |d|
  {
    if |d| > 0 {
      TotalBound(d[1..]);
    }
  }

  lemma EncodeSize(m: WirePacket)
    requires m.chunkId < FIVE_DIGITS && m.byteOffset < FIVE_DIGITS && m.chunkLength < FIVE_DIGITS
    requires |m.checksum| < FIVE_DIGITS && |m.data| < FIVE_DIGITS
    requires m.compressionType < FIVE_DIGITS && m.originalSize < FIVE_DIGITS
    ensures |Encode(m)| <= 40 + |m.checksum| + |m.data|
  {
    PutNatSize(m.chunkId);
    PutNatSize(m.byteOffset);
    PutNatSize(m.chunkLength);
    PutNatSize(|m.checksum|);
    PutNatSize(if m.endOfFile then 1 else 0);
    PutNatSize(|m.data|);
    PutNatSize(m.compressionType);
    PutNatSize(m.originalSize);
  }

  lemma ChecksumSize(d: seq<byte>)
    requires |d| < SAMPLE_LIMIT
    ensures |CODEC.hash(d)| <= 10
  {
    TotalBound(d);
    PutNatSize(|d|);
    PutNatSize(Total(d));
  }

  lemma BuildSize(compression: Compression, id: nat, offset: nat, eof: bool, data: seq<byte>)
    requires id < SAMPLE_LIMIT && offset < SAMPLE_LIMIT && |data| < SAMPLE_LIMIT
    ensures var built := Build(CODEC, compression, id, offset, |data|, CODEC.hash(data), eof, data);
            built.Ok? && |built.value| < U32_LIMIT
  {
    ChecksumSize(data);
    var compressed := Squeeze(data);
    var useCompressed := compression == Zstd && |compressed| < |data|;
    var final := if useCompressed then compressed else data;
    EncodeSize(WirePacket(id, offset, |final| % U32_LIMIT, CODEC.hash(data), eof, final,
                          if useCompressed then 1 else 0, |data|));
  }

  /** Small chunks make packets that a 32-bit length can describe. */
  ghost predicate Compact(c: Codec) {
    forall compression, id: nat, offset: nat, eof, data
      | id < SAMPLE_LIMIT && offset < SAMPLE_LIMIT && |data| < SAMPLE_LIMIT
      :: Fits(Build(c, compression, id, offset, |data|, c.hash(data), eof, data))
  }

  predicate Fits(built: Result<seq<byte>, PacketError>) {
    built.Ok? && |built.value| < U32_LIMIT
  }

  lemma CodecIsCompact()
    ensures Compact(CODEC)
  {
    forall compression, id: nat, offset: nat, eof, data
      | id < SAMPLE_LIMIT && offset < SAMPLE_LIMIT && |data| < SAMPLE_LIMIT
      ensures Fits(Build(CODEC, compression, id, offset, |data|, CODEC.hash(data), eof, data))
    {
      BuildSize(compression, id, offset, eof, data);
    }
  }

  lemma PacketSize(j: Job, k: nat)
    requires Compact(j.codec) && |j.file| < SAMPLE_LIMIT && k < Count(j)
    ensures Fits(PacketOf(j, k))
  {
    StartOrder(|j.file|, j.chunkSize, k);
    CountIsSmall(|j.file|, j.chunkSize);
    var data := ChunkData(j, k);
    assert |data| < U32_LIMIT;
    assert Fits(Build(j.codec, j.compression, k, Start(j.chunkSize, k), |data|, j.codec.hash(data),
                      k + 1 == Count(j), data));
  }

  lemma CountIsSmall(size: nat, cs: pos)
    ensures ChunkCount(size, cs) <= size
  {
    CountBounds(size, cs);
    var n := ChunkCount(size, cs);
    if n > size {
      MulMono(size + 1, n, cs);
      assert (size + 1) * cs == size * cs + cs;
      MulMono(1, cs, size);
    }
  }

  lemma CompactJobIsSendable(j: Job)
    requires Lawful(j.codec) && Compact(j.codec) && 0 < |j.file| < SAMPLE_LIMIT
    ensures Sendable(j) && Framable(j)
  {
    CountIsSmall(|j.file|, j.chunkSize);
    CountBounds(|j.file|, j.chunkSize);
    forall k: nat | k < Count(j) ensures Fits(PacketOf(j, k)) {
      PacketSize(j, k);
    }
    forall k: nat | k < Count(j) ensures |PacketsFrom(j, 0)[k]| < U32_LIMIT {
      PacketsFromAt(j, 0, k);
      assert Fits(PacketOf(j, k));
    }
  }

  /** Every non-empty file below 128 MiB, cut at any chunk size, with or without compression, can be sent with
      the sample codec. */
  lemma SampleIsSendable(file: seq<byte>, chunkSize: pos, compression: Compression)
    requires 0 < |file| < SAMPLE_LIMIT
    ensures Sendable(Job(CODEC, compression, file, chunkSize)) && Framable(Job(CODEC, compression, file, chunkSize))
  {
    CodecIsLawful();
    CodecIsCompact();
    CompactJobIsSendable(Job(CODEC, compression, file, chunkSize));
  }
}
