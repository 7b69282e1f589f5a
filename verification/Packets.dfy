/** Building and parsing chunk packets (src/protocol/chunk.rs). The message encoding, the compressor and the
    hash are libraries: they are a `Codec` value, of which only `Lawful` is used. */
module Packets {
  import opened Bytes

  datatype Compression = NoCompression | Zstd

  /** The message on the wire; `data` may be compressed. */
  datatype WirePacket = WirePacket(
    chunkId: nat,
    byteOffset: nat,
    chunkLength: nat,
    checksum: seq<byte>,
    endOfFile: bool,
    data: seq<byte>,
    compressionType: nat,
    originalSize: nat)

  /** A parsed packet; `data` is decompressed. */
  datatype View = View(
    chunkId: nat,
    byteOffset: nat,
    chunkLength: nat,
    checksum: seq<byte>,
    endOfFile: bool,
    data: seq<byte>)

  datatype PacketError = LengthMismatch | CompressionFailed | DecodeFailed | UnknownCompression | DecompressionFailed

  datatype Codec = Codec(
    encode: WirePacket -> seq<byte>,
    decode: seq<byte> -> Option<WirePacket>,
    compress: seq<byte> -> Option<seq<byte>>,
    decompress: seq<byte> -> Option<seq<byte>>,
    hash: seq<byte> -> seq<byte>)

  /** What the message library and the compressor promise. */
  ghost predicate Lawful(c: Codec) {
    && (forall m: WirePacket {:trigger c.encode(m)} :: c.decode(c.encode(m)) == Some(m))
    && (forall d: seq<byte> {:trigger c.compress(d)} ::
          c.compress(d).Some? ==> c.decompress(c.compress(d).value) == Some(d))
  }

  /** `ChunkPacketBuilder::build`: compressed data is used only when it is shorter. */
  function Build(c: Codec, comp: Compression, id: nat, offset: nat, length: nat, checksum: seq<byte>, eof: bool,
                 data: seq<byte>): Result<seq<byte>, PacketError> {
    if |data| != length then
      Err(LengthMismatch)
    else if comp == Zstd && c.compress(data).None? then
      Err(CompressionFailed)
    else
      var useCompressed := comp == Zstd && |c.compress(data).value| < |data|;
      var final := if useCompressed then c.compress(data).value else data;
      Ok(c.encode(WirePacket(id, offset, |final| % U32_LIMIT, checksum, eof, final,
                             if useCompressed then 1 else 0, length)))
  }

  /** `ChunkPacketParser::parse`. */
  function Parse(c: Codec, bytes: seq<byte>): Result<View, PacketError> {
    match c.decode(bytes)
    case None => Err(DecodeFailed)
    case Some(p) =>
      if p.compressionType == 0 then
        Ok(View(p.chunkId, p.byteOffset, |p.data| % U32_LIMIT, p.checksum, p.endOfFile, p.data))
      else
        var kind := p.compressionType % 256;
        if kind > 1 then
          Err(UnknownCompression)
        else
          var d := if kind == 0 then Some(p.data) else c.decompress(p.data);
          if d.None? then
            Err(DecompressionFailed)
          else
            Ok(View(p.chunkId, p.byteOffset, |d.value| % U32_LIMIT, p.checksum, p.endOfFile, d.value))
  }

  /** `is_valid`: fails only for data whose length does not fit the 32-bit field. */
  predicate SizesAgree(v: View) {
    |v.data| == v.chunkLength
  }

  predicate ChecksumMatches(c: Codec, v: View) {
    c.hash(v.data) == v.checksum
  }

  /** Building succeeds exactly when the length is right and the compressor, if any, works; then parsing gives
      back every field and the original data, whichever branch the builder took. */
  lemma BuildThenParse(c: Codec, comp: Compression, id: nat, offset: nat, length: nat, checksum: seq<byte>,
                       eof: bool, data: seq<byte>)
    requires Lawful(c)
    ensures var built := Build(c, comp, id, offset, length, checksum, eof, data);
            && (built.Ok? <==> |data| == length && (comp == Zstd ==> c.compress(data).Some?))
            && (built.Ok? ==> Parse(c, built.value) ==
                                Ok(View(id, offset, |data| % U32_LIMIT, checksum, eof, data)))
  {
    var built := Build(c, comp, id, offset, length, checksum, eof, data);
    if built.Ok? {
      var useCompressed := comp == Zstd && |c.compress(data).value| < |data|;
      var final := if useCompressed then c.compress(data).value else data;
      var m := WirePacket(id, offset, |final| % U32_LIMIT, checksum, eof, final,
                          if useCompressed then 1 else 0, length);
      assert built.value == c.encode(m);
      assert c.decode(c.encode(m)) == Some(m);
    }
  }

  /** What parsing makes of any message, also of one that the builder never makes: the low byte of the compression type
      decides, and its other bytes are ignored. */
  lemma ParseAnswers(c: Codec, m: WirePacket, bytes: seq<byte>)
    requires Lawful(c)
    ensures c.decode(bytes).None? ==> Parse(c, bytes) == Err(DecodeFailed)
    ensures var (r, kind) := (Parse(c, c.encode(m)), m.compressionType % 256);
            && (r == Err(UnknownCompression) <==> kind > 1)
            && (r == Err(DecompressionFailed) <==> kind == 1 && c.decompress(m.data).None?)
            && (r.Ok? ==> r.value == View(m.chunkId, m.byteOffset, |r.value.data| % U32_LIMIT, m.checksum, m.endOfFile,
                                          if kind == 1 then c.decompress(m.data).value else m.data))
            && r != Err(DecodeFailed)
  {
    assert c.decode(c.encode(m)) == Some(m);
  }

  /** A parsed packet has the length it says exactly when that length fits 32 bits. */
  lemma SizesAgreeIff(c: Codec, bytes: seq<byte>)
    requires Parse(c, bytes).Ok?
    ensures SizesAgree(Parse(c, bytes).value) <==> |Parse(c, bytes).value.data| < U32_LIMIT
  {
  }

  /** A packet never carries more payload than the data it stands for. */
  lemma NeverExpands(c: Codec, comp: Compression, id: nat, offset: nat, length: nat, checksum: seq<byte>,
                     eof: bool, data: seq<byte>)
    requires Lawful(c)
    requires Build(c, comp, id, offset, length, checksum, eof, data).Ok?
    ensures var sent := c.decode(Build(c, comp, id, offset, length, checksum, eof, data).value);
            && sent.Some?
            && |sent.value.data| <= |data|
            && sent.value.originalSize == |data|
            && (sent.value.compressionType != 0 <==> |sent.value.data| < |data|)
  {
    var useCompressed := comp == Zstd && |c.compress(data).value| < |data|;
    var final := if useCompressed then c.compress(data).value else data;
    var m := WirePacket(id, offset, |final| % U32_LIMIT, checksum, eof, final,
                        if useCompressed then 1 else 0, length);
    assert c.decode(c.encode(m)) == Some(m);
  }
}
