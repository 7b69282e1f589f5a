/** Chunk arithmetic shared by both chunkers, the manifest and the server. */
module Chunking {
  import opened Bytes

  /** Ceiling division: the number of chunks of a file of `size` bytes. */
  function ChunkCount(size: nat, cs: nat): nat
    requires cs > 0
  {
    (size + cs - 1) / cs
  }

  lemma MulMono(a: nat, b: nat, c: nat)
    requires a <= b
    ensures a * c <= b * c
  {
  }

  /** The chunk count is the one number `n` with `(n-1)*cs < size <= n*cs`. */
  lemma CountBounds(size: nat, cs: nat)
    requires cs > 0
    ensures var n := ChunkCount(size, cs);
            size <= n * cs && n * cs < size + cs && (n == 0 <==> size == 0)
  {
    var n := ChunkCount(size, cs);
    var r := (size + cs - 1) % cs;
    assert size + cs - 1 == n * cs + r;
    if n == 0 { assert n * cs == 0; } else { MulMono(1, n, cs); }
  }

  lemma {:induction false} CountUnique(size: nat, cs: nat, n: nat)
    requires cs > 0 && size <= n * cs && n * cs < size + cs
    ensures n == ChunkCount(size, cs)
  {
    CountBounds(size, cs);
    var m := ChunkCount(size, cs);
    assert (m + 1) * cs == m * cs + cs && (n + 1) * cs == n * cs + cs;
    if m < n {
      MulMono(m + 1, n, cs);
    } else if n < m {
      MulMono(n + 1, m, cs);
    }
  }

  /** First byte of chunk `k`. */
  function Start(cs: nat, k: nat): nat {
    k * cs
  }

  /** One past the last byte of chunk `k`: a full chunk, or whatever is left of the file. */
  function End(size: nat, cs: nat, k: nat): nat {
    Min(Start(cs, k) + cs, size)
  }

  /** Chunk starts are ordered; a chunk exists exactly when it starts inside the file, and only the last
      one reaches the end. */
  lemma StartOrder(size: nat, cs: nat, k: nat)
    requires cs > 0
    ensures k < ChunkCount(size, cs) <==> Start(cs, k) < size
    ensures k < ChunkCount(size, cs) ==> Start(cs, k) < End(size, cs, k) <= size
    ensures k + 1 < ChunkCount(size, cs) ==> End(size, cs, k) == Start(cs, k + 1)
    ensures k < ChunkCount(size, cs) ==> (End(size, cs, k) == size <==> k + 1 == ChunkCount(size, cs))
  {
    CountBounds(size, cs);
    var n := ChunkCount(size, cs);
    assert (k + 1) * cs == k * cs + cs;
    if k < n {
      MulMono(k + 1, n, cs);
    } else {
      MulMono(n, k, cs);
    }
    if k + 1 < n {
      MulMono(k + 2, n, cs);
      assert (k + 2) * cs == (k + 1) * cs + cs;
    }
  }

  /** The bytes of chunk `k`. */
  function Slice(file: seq<byte>, cs: nat, k: nat): (s: seq<byte>)
    requires cs > 0 && k < ChunkCount(|file|, cs)
    ensures |s| > 0
  {
    StartOrder(|file|, cs, k);
    file[Start(cs, k)..End(|file|, cs, k)]
  }

  /** The first `n` chunks one after the other. */
  function Joined(file: seq<byte>, cs: nat, n: nat): seq<byte>
    requires cs > 0 && n <= ChunkCount(|file|, cs)
  {
    if n == 0 then [] else Joined(file, cs, n - 1) + Slice(file, cs, n - 1)
  }

  lemma {:induction false} JoinedPrefix(file: seq<byte>, cs: nat, n: nat)
    requires cs > 0 && n <= ChunkCount(|file|, cs)
    ensures Joined(file, cs, n) == file[..Min(Start(cs, n), |file|)]
  {
    if n > 0 {
      JoinedPrefix(file, cs, n - 1);
      StartOrder(|file|, cs, n - 1);
      assert Start(cs, n) == Start(cs, n - 1) + cs;
    }
  }

  /** The chunks tile the file: joined in order they are the file, and nothing else. */
  lemma ChunksTile(file: seq<byte>, cs: nat)
    requires cs > 0
    ensures Joined(file, cs, ChunkCount(|file|, cs)) == file
  {
    JoinedPrefix(file, cs, ChunkCount(|file|, cs));
    CountBounds(|file|, cs);
  }

  /** Every byte of the file belongs to a chunk. */
  lemma ChunkOfByte(size: nat, cs: nat, i: nat)
    requires cs > 0 && i < size
    ensures i / cs < ChunkCount(size, cs)
    ensures Start(cs, i / cs) <= i < End(size, cs, i / cs)
  {
    var k := i / cs;
    assert i == k * cs + i % cs;
    StartOrder(size, cs, k);
  }
}
