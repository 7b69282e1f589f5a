/** Sending one frame (`send_chunk_fast`, src/client/transfer.rs) over a transport that takes part of what it is
    offered, and when the end of the stream is announced with it. */
module ChunkSend {
  import opened Bytes

  /** What the transport takes at call `k`: at most as listed, and everything once the list is over. */
  function Takes(takes: seq<nat>, k: nat, remaining: nat): (n: nat)
    ensures n <= remaining
  {
    if k < |takes| then Min(takes[k], remaining) else remaining
  }

  /** The bytes taken by the first `k` calls. */
  function Taken(size: nat, takes: seq<nat>, k: nat): (n: nat)
    ensures n <= size
  {
    if k == 0 then 0
    else
      var before := Taken(size, takes, k - 1);
      before + Takes(takes, k - 1, size - before)
  }

  /** Some call up to the `k`th finds exactly the last byte left to be sent. */
  predicate LastByteLeft(size: nat, takes: seq<nat>, k: nat) {
    Taken(size, takes, k) + 1 == size || (k > 0 && LastByteLeft(size, takes, k - 1))
  }

  /** The transport stops one byte short of the frame. */
  predicate StopsShort(size: nat, takes: seq<nat>) {
    LastByteLeft(size, takes, |takes|)
  }

  lemma {:induction false} TakenAfterAll(size: nat, takes: seq<nat>, k: nat)
    requires k > |takes|
    ensures Taken(size, takes, k) == size
    ensures size > 0 ==> (LastByteLeft(size, takes, k) <==> StopsShort(size, takes))
    decreases k
  {
    if k - 1 > |takes| {
      TakenAfterAll(size, takes, k - 1);
    }
  }

  lemma {:induction false} TakenGrows(size: nat, takes: seq<nat>, k: nat, m: nat)
    requires k <= m
    ensures Taken(size, takes, k) <= Taken(size, takes, m)
    decreases m
  {
    if k < m {
      TakenGrows(size, takes, k, m - 1);
    }
  }

  /** Nothing that comes after the last byte is a call that finds it left. */
  lemma {:induction false} LastByteStays(size: nat, takes: seq<nat>, k: nat, m: nat)
    requires k <= m && Taken(size, takes, k) == size > 0
    ensures LastByteLeft(size, takes, m) <==> LastByteLeft(size, takes, k)
    decreases m
  {
    if k < m {
      TakenGrows(size, takes, k, m);
      LastByteStays(size, takes, k, m - 1);
    }
  }

  /** The loop sends the whole frame. It announces the end of the stream, if asked to, only with a call made when no
      more than one byte is left: exactly when the transport stops one byte short. */
  method SendFrame(data: seq<byte>, fin: bool, takes: seq<nat>) returns (wire: seq<byte>, finished: bool)
    requires |data| > 0
    ensures wire == data
    ensures finished <==> fin && StopsShort(|data|, takes)
  {
    wire, finished := [], false;
    var calls := 0;
    while |wire| < |data|
      invariant wire == data[..Taken(|data|, takes, calls)]
      invariant |wire| < |data| ==> !finished
      invariant |wire| == |data| ==> (finished <==> fin && LastByteLeft(|data|, takes, calls))
      invariant |wire| + 1 < |data| ==> !LastByteLeft(|data|, takes, calls)
      decreases if calls <= |takes| then |takes| - calls + 1 else 0, |data| - |wire|
    {
      var flagged := fin && |wire| >= |data| - 1;
      var n := Takes(takes, calls, |data| - |wire|);
      if flagged && n > 0 {
        finished := true;
      }
      wire := wire + data[|wire|..|wire| + n];
      calls := calls + 1;
    }
    if calls <= |takes| {
      LastByteStays(|data|, takes, calls, |takes|);
    } else {
      TakenAfterAll(|data|, takes, calls);
    }
  }

  function Sum(takes: seq<nat>): nat {
    if |takes| == 0 then 0 else Sum(takes[..|takes| - 1]) + takes[|takes| - 1]
  }

  lemma {:induction false} TakenIsSum(size: nat, takes: seq<nat>, k: nat)
    requires k <= |takes|
    ensures Taken(size, takes, k) == Min(Sum(takes[..k]), size)
  {
    if k > 0 {
      TakenIsSum(size, takes, k - 1);
      assert takes[..k][..k - 1] == takes[..k - 1];
    }
  }

  lemma {:induction false} LastByteLeftIff(size: nat, takes: seq<nat>, k: nat)
    requires size > 0 && k <= |takes|
    ensures LastByteLeft(size, takes, k) <==> exists i: nat :: i <= k && Sum(takes[..i]) == size - 1
  {
    TakenIsSum(size, takes, k);
    if k > 0 {
      LastByteLeftIff(size, takes, k - 1);
      assert (exists i: nat :: i <= k && Sum(takes[..i]) == size - 1) <==>
             (exists i: nat :: i <= k - 1 && Sum(takes[..i]) == size - 1) || Sum(takes[..k]) == size - 1;
    } else {
      assert takes[..0] == [];
    }
  }

  /** The transport stops one byte short exactly when what it takes at the first calls adds up to that. */
  lemma StopsShortIff(size: nat, takes: seq<nat>)
    requires size > 0
    ensures StopsShort(size, takes) <==> exists i: nat :: i <= |takes| && Sum(takes[..i]) == size - 1
  {
    LastByteLeftIff(size, takes, |takes|);
  }

  /** A transport that takes a frame whole never carries the end of the stream. */
  lemma {:induction false} WholeFramesNeverEnd(size: nat, takes: seq<nat>, k: nat)
    requires size > 1 && forall n | n in takes :: n == 0 || size <= n
    ensures Taken(size, takes, k) == 0 || Taken(size, takes, k) == size
    ensures !LastByteLeft(size, takes, k)
  {
    if k > 0 {
      WholeFramesNeverEnd(size, takes, k - 1);
      assert k - 1 < |takes| ==> takes[k - 1] in takes;
    }
  }

  /** One that stops a byte short does. */
  lemma OneShortEnds(size: nat)
    requires size > 1
    ensures StopsShort(size, [size - 1])
  {
    assert Taken(size, [size - 1], 1) == size - 1;
  }
}
