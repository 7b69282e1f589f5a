/** Bytes, results, times, and the 32-bit integer encodings used on the wire and on disk. */
module Bytes {
  type byte = b: nat | b < 256

  const U32_LIMIT: nat := 0x1_0000_0000

  const U64_LIMIT: nat := 0x1_0000_0000_0000_0000

  type u32 = n: nat | n < U32_LIMIT

  type u64 = n: nat | n < U64_LIMIT

  datatype Option<+T> = None | Some(value: T)

  datatype Result<+T, +E> = Ok(value: T) | Err(error: E)

  function Min(a: int, b: int): int {
    if a <= b then a else b
  }

  function Max(a: int, b: int): int {
    if a <= b then b else a
  }

  function Zeros(n: nat): seq<byte> {
    seq(n, _ => 0)
  }

  /** `duration_since`, which is zero for a later instant. */
  function Since(now: nat, then': nat): nat {
    if now >= then' then now - then' else 0
  }

  /** `n as u8`: the low eight bits. */
  function Digit(n: nat): byte {
    n % 256
  }

  lemma DigitSplit(n: nat, q: nat, b: byte)
    requires n == q * 256 + b
    ensures n / 256 == q && Digit(n) == b
  {
  }

  /** `(n as u32).to_be_bytes()`: the cast keeps only the low 32 bits of `n`. */
  function ToU32Be(n: nat): (bs: seq<byte>)
    ensures |bs| == 4
  {
    [Digit(n / 256 / 256 / 256), Digit(n / 256 / 256), Digit(n / 256), Digit(n)]
  }

  /** `u32::from_be_bytes`. */
  function FromU32Be(bs: seq<byte>): (n: nat)
    requires |bs| == 4
    ensures n < U32_LIMIT
  {
    var high: nat := bs[0];
    ((high * 256 + bs[1]) * 256 + bs[2]) * 256 + bs[3]
  }

  /** `n.to_le_bytes()` for a `u32`. */
  function ToU32Le(n: nat): (bs: seq<byte>)
    ensures |bs| == 4
  {
    [Digit(n), Digit(n / 256), Digit(n / 256 / 256), Digit(n / 256 / 256 / 256)]
  }

  /** `u32::from_le_bytes`. */
  function FromU32Le(bs: seq<byte>): (n: nat)
    requires |bs| == 4
    ensures n < U32_LIMIT
  {
    var high: nat := bs[3];
    ((high * 256 + bs[2]) * 256 + bs[1]) * 256 + bs[0]
  }

  function Weighed(a: nat, b: nat, c: nat, d: nat): nat {
    a * 0x100_0000 + b * 0x1_0000 + c * 0x100 + d
  }

  /** Big-endian words begin with the highest byte, little-endian words with the lowest. */
  lemma ByteOrder(bs: seq<byte>)
    requires |bs| == 4
    ensures FromU32Be(bs) == Weighed(bs[0], bs[1], bs[2], bs[3])
    ensures FromU32Le(bs) == Weighed(bs[3], bs[2], bs[1], bs[0])
  {
  }

  lemma Recombine(n: nat, q1: nat, q2: nat, q3: nat, q4: nat, r0: nat, r1: nat, r2: nat, r3: nat)
    requires n == q1 * 256 + r0 && q1 == q2 * 256 + r1 && q2 == q3 * 256 + r2 && q3 == q4 * 256 + r3
    requires r0 < 256 && r1 < 256 && r2 < 256 && r3 < 256
    ensures ((r3 * 256 + r2) * 256 + r1) * 256 + r0 == n % U32_LIMIT
    ensures n < U32_LIMIT ==> n % U32_LIMIT == n
  {
    var v := ((r3 * 256 + r2) * 256 + r1) * 256 + r0;
    assert n == q4 * U32_LIMIT + v;
    assert v < U32_LIMIT;
  }

  /** Decoding an encoded length gives its low 32 bits, in either byte order. */
  lemma U32RoundTrip(n: nat)
    ensures FromU32Be(ToU32Be(n)) == n % U32_LIMIT
    ensures FromU32Le(ToU32Le(n)) == n % U32_LIMIT
    ensures n < U32_LIMIT ==> FromU32Be(ToU32Be(n)) == n && FromU32Le(ToU32Le(n)) == n
  {
    var q1, q2, q3 := n / 256, n / 256 / 256, n / 256 / 256 / 256;
    Recombine(n, q1, q2, q3, q3 / 256, n % 256, q1 % 256, q2 % 256, q3 % 256);
  }

  lemma DigitsOfWord(b0: byte, b1: byte, b2: byte, b3: byte, n1: nat, n2: nat, n3: nat, n4: nat)
    requires n1 == b0 && n2 == n1 * 256 + b1
    requires n3 == n2 * 256 + b2 && n4 == n3 * 256 + b3
    ensures Digit(n4) == b3 && Digit(n4 / 256) == b2
    ensures Digit(n4 / 256 / 256) == b1 && Digit(n4 / 256 / 256 / 256) == b0
  {
    DigitSplit(n1, 0, b0);
    DigitSplit(n2, n1, b1);
    DigitSplit(n3, n2, b2);
    DigitSplit(n4, n3, b3);
    var q := n4 / 256;
    assert q == n3;
    assert q / 256 == n2;
    assert q / 256 / 256 == n1;
  }

  lemma WordOfDigits(b0: byte, b1: byte, b2: byte, b3: byte, n: nat)
    requires n == ((b0 * 256 + b1) * 256 + b2) * 256 + b3
    ensures ToU32Be(n) == [b0, b1, b2, b3] && ToU32Le(n) == [b3, b2, b1, b0]
  {
    var n1 := b0;
    var n2 := n1 * 256 + b1;
    var n3 := n2 * 256 + b2;
    DigitsOfWord(b0, b1, b2, b3, n1, n2, n3, n);
  }

  /** Encoding a decoded word gives back the same four bytes, in either byte order. */
  lemma U32BeInjective(bs: seq<byte>)
    requires |bs| == 4
    ensures ToU32Be(FromU32Be(bs)) == bs
  {
    WordOfDigits(bs[0], bs[1], bs[2], bs[3], FromU32Be(bs));
  }

  lemma U32LeInjective(bs: seq<byte>)
    requires |bs| == 4
    ensures ToU32Le(FromU32Le(bs)) == bs
  {
    WordOfDigits(bs[3], bs[2], bs[1], bs[0], FromU32Le(bs));
  }
}
