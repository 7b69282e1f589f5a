/** A concrete lawful codec, so that nothing stated for lawful codecs is vacuous: base-128 integers,
    length-prefixed byte strings, and a compressor that shortens runs of zero bytes. */
module SampleCodec {
  import opened Bytes
  import opened Packets

  function PutNat(n: nat): (bs: seq<byte>)
    ensures |bs| > 0
  {
    if n < 128 then [Digit(n)] else [HighDigit(n)] + PutNat(n / 128)
  }

  /** The low seven bits with the continuation bit. */
  function HighDigit(n: nat): (b: byte)
    ensures b == 128 + n % 128
  {
    Digit(128 + n % 128)
  }

  function TakeNat(bs: seq<byte>): (r: Option<(nat, seq<byte>)>)
    ensures r.Some? ==> |r.value.1| < |bs|
  {
    if |bs| == 0 then None
    else if bs[0] < 128 then Some((bs[0], bs[1..]))
    else
      var r := TakeNat(bs[1..]);
      if r.None? then None else Some((r.value.0 * 128 + (bs[0] - 128), r.value.1))
  }

  function PutBytes(d: seq<byte>): seq<byte> {
    PutNat(|d|) + d
  }

  function TakeBytes(bs: seq<byte>): Option<(seq<byte>, seq<byte>)> {
    var r := TakeNat(bs);
    if r.None? || |r.value.1| < r.value.0 then None
    else Some((r.value.1[..r.value.0], r.value.1[r.value.0..]))
  }

  lemma TakeFirst(b: byte, v: nat, tail: seq<byte>)
    requires b == v
    ensures TakeNat([b] + tail) ==
            if v < 128 then Some((v, tail))
            else if TakeNat(tail).None? then None
            else Some((TakeNat(tail).value.0 * 128 + (v - 128), TakeNat(tail).value.1))
  {
    assert ([b] + tail)[1..] == tail;
  }

  lemma TakeHigh(high: byte, q: nat, n: nat, rest: seq<byte>)
    requires high == 128 + n % 128 && q == n / 128
    requires TakeNat(PutNat(q) + rest) == Some((q, rest))
    ensures TakeNat([high] + PutNat(q) + rest) == Some((n, rest))
  {
    TakeFirst(high, 128 + n % 128, PutNat(q) + rest);
    assert [high] + PutNat(q) + rest == [high] + (PutNat(q) + rest);
  }

  lemma {:induction false} NatRoundTrip(n: nat, rest: seq<byte>)
    ensures TakeNat(PutNat(n) + rest) == Some((n, rest))
    decreases n
  {
    if n < 128 {
      TakeFirst(Digit(n), n, rest);
    } else {
      NatRoundTrip(n / 128, rest);
      TakeHigh(HighDigit(n), n / 128, n, rest);
    }
  }

  lemma BytesRoundTrip(d: seq<byte>, rest: seq<byte>)
    ensures TakeBytes(PutBytes(d) + rest) == Some((d, rest))
  {
    NatRoundTrip(|d|, d + rest);
    assert PutBytes(d) + rest == PutNat(|d|) + (d + rest);
  }

  function Encode(m: WirePacket): seq<byte> {
    PutNat(m.chunkId) + (PutNat(m.byteOffset) + (PutNat(m.chunkLength) + (PutBytes(m.checksum) +
    (PutNat(if m.endOfFile then 1 else 0) + (PutBytes(m.data) +
    (PutNat(m.compressionType) + (PutNat(m.originalSize) + [])))))))
  }

  function Decode(bs: seq<byte>): Option<WirePacket> {
    var id := TakeNat(bs);
    if id.None? then None else
    var offset := TakeNat(id.value.1);
    if offset.None? then None else
    var length := TakeNat(offset.value.1);
    if length.None? then None else
    var checksum := TakeBytes(length.value.1);
    if checksum.None? then None else
    var eof := TakeNat(checksum.value.1);
    if eof.None? then None else
    var data := TakeBytes(eof.value.1);
    if data.None? then None else
    var kind := TakeNat(data.value.1);
    if kind.None? then None else
    var size := TakeNat(kind.value.1);
    if size.None? || size.value.1 != [] then None else
    Some(WirePacket(id.value.0, offset.value.0, length.value.0, checksum.value.0, eof.value.0 == 1,
                    data.value.0, kind.value.0, size.value.0))
  }

  lemma EncodeDecode(m: WirePacket)
    ensures Decode(Encode(m)) == Some(m)
  {
    var t7 := PutNat(m.originalSize) + [];
    var t6 := PutNat(m.compressionType) + t7;
    var t5 := PutBytes(m.data) + t6;
    var t4 := PutNat(if m.endOfFile then 1 else 0) + t5;
    var t3 := PutBytes(m.checksum) + t4;
    var t2 := PutNat(m.chunkLength) + t3;
    var t1 := PutNat(m.byteOffset) + t2;
    NatRoundTrip(m.chunkId, t1);
    NatRoundTrip(m.byteOffset, t2);
    NatRoundTrip(m.chunkLength, t3);
    BytesRoundTrip(m.checksum, t4);
    NatRoundTrip(if m.endOfFile then 1 else 0, t5);
    BytesRoundTrip(m.data, t6);
    NatRoundTrip(m.compressionType, t7);
    NatRoundTrip(m.originalSize, []);
  }

  /** Leading zero bytes become one length. */
  function LeadingZeros(d: seq<byte>): (n: nat)
    ensures n <= |d|
  {
    if |d| == 0 || d[0] != 0 then 0 else 1 + LeadingZeros(d[1..])
  }

  function Squeeze(d: seq<byte>): seq<byte> {
    PutNat(LeadingZeros(d)) + d[LeadingZeros(d)..]
  }

  function Expand(bs: seq<byte>): Option<seq<byte>> {
    var r := TakeNat(bs);
    if r.None? then None else Some(Zeros(r.value.0) + r.value.1)
  }

  lemma {:induction false} ZerosLead(d: seq<byte>)
    ensures Zeros(LeadingZeros(d)) + d[LeadingZeros(d)..] == d
  {
    if |d| > 0 && d[0] == 0 {
      ZerosLead(d[1..]);
      var n := LeadingZeros(d[1..]);
      assert d[n + 1..] == d[1..][n..];
      assert Zeros(n + 1) + d[n + 1..] == [0] + (Zeros(n) + d[1..][n..]);
    }
  }

  lemma SqueezeExpand(d: seq<byte>)
    ensures Expand(Squeeze(d)) == Some(d)
  {
    NatRoundTrip(LeadingZeros(d), d[LeadingZeros(d)..]);
    ZerosLead(d);
  }

  /** A toy checksum: length and sum of the bytes. */
  function Total(d: seq<byte>): nat {
    if |d| == 0 then 0 else d[0] + Total(d[1..])
  }

  function Checksum(d: seq<byte>): seq<byte> {
    PutNat(|d|) + PutNat(Total(d))
  }

  const CODEC: Codec := Codec(m => Encode(m), bs => Decode(bs), d => Some(Squeeze(d)), bs => Expand(bs),
                              d => Checksum(d))

  /** The checksum of one small byte ends in it. */
  lemma ChecksumOfOne(b: byte)
    requires b < 128
    ensures Checksum([b]) == [1, b]
  {
    assert [b][1..] == [];
    assert Total([b]) == b;
    assert PutNat(1) == [Digit(1)] && PutNat(b) == [Digit(b)];
  }

  /** The laws asked of the libraries can be met. */
  lemma CodecIsLawful()
    ensures Lawful(CODEC)
  {
    forall m: WirePacket ensures CODEC.decode(CODEC.encode(m)) == Some(m) {
      EncodeDecode(m);
    }
    forall d: seq<byte> ensures CODEC.decompress(CODEC.compress(d).value) == Some(d) {
      SqueezeExpand(d);
    }
  }
}
