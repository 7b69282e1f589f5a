/** The manifest's send loop, over a transport that takes part of what it is offered, nothing, or fails. */
module ManifestSend {
  import opened Bytes

  const MAX_RETRIES: nat := 100

  /** One call of `stream_send`: how much the transport was willing to take. */
  datatype Answer = Took(most: nat) | Refused

  datatype Progress = Progress(offset: nat, retries: nat)

  function Taken(answer: Answer, remaining: nat): (n: nat)
    ensures n <= remaining
  {
    if answer.Took? then Min(answer.most, remaining) else 0
  }

  /** Offset and retry counter after `k` attempts at `size` bytes. */
  function After(size: nat, answers: nat -> Answer, k: nat): (p: Progress)
    ensures p.offset <= size
  {
    if k == 0 then Progress(0, 0)
    else
      var p := After(size, answers, k - 1);
      var n := Taken(answers(k - 1), size - p.offset);
      if n > 0 then Progress(p.offset + n, 0) else Progress(p.offset, p.retries + 1)
  }

  predicate Idle(size: nat, answers: nat -> Answer, k: nat) {
    Taken(answers(k), size - After(size, answers, k).offset) == 0
  }

  /** The last `n` of the first `k` attempts moved nothing. */
  predicate Stalled(size: nat, answers: nat -> Answer, k: nat, n: nat) {
    n <= k && forall i: nat | k - n <= i < k :: Idle(size, answers, i)
  }

  /** The retries are used up: one more attempt than allowed moved nothing. */
  predicate GivenUp(size: nat, answers: nat -> Answer, k: nat) {
    Stalled(size, answers, k, 101)
  }

  /** The counter holds the length of the current stall. */
  lemma {:induction false} RetriesCountStall(size: nat, answers: nat -> Answer, k: nat, n: nat)
    ensures n <= After(size, answers, k).retries <==> Stalled(size, answers, k, n)
  {
    if k > 0 && n > 0 {
      RetriesCountStall(size, answers, k - 1, n - 1);
      if Stalled(size, answers, k, n) {
        assert Idle(size, answers, k - 1);
      }
    }
  }

  /** A hundred refusals in a row do not end the send if the next attempt moves something. */
  lemma HundredRefusalsGoOn(size: nat, answers: nat -> Answer, k: nat)
    requires size > 0 && (forall i: nat | i < 100 :: answers(i) == Refused) && answers(100) == Took(size) && k <= 101
    ensures !GivenUp(size, answers, k)
    ensures After(size, answers, 101).offset == size
  {
    HundredIdle(size, answers, 100);
    assert !Idle(size, answers, 100);
  }

  lemma {:induction false} HundredIdle(size: nat, answers: nat -> Answer, k: nat)
    requires k <= 100 && forall i: nat | i < 100 :: answers(i) == Refused
    ensures After(size, answers, k).offset == 0
  {
    if k > 0 {
      HundredIdle(size, answers, k - 1);
    }
  }

  /** The loop: it always ends, the transport has exactly the prefix that was acknowledged, success means the
      whole manifest, and failure means that 101 attempts in a row moved nothing. */
  method SendManifest(encoded: seq<byte>, answers: nat -> Answer)
    returns (r: Result<(), nat>, wire: seq<byte>, attempts: nat)
    ensures wire == encoded[..After(|encoded|, answers, attempts).offset]
    ensures r.Ok? ==> wire == encoded
    ensures r.Err? ==> wire < encoded && r.error == |wire|
                       && GivenUp(|encoded|, answers, attempts)
    ensures r.Ok? <==> !GivenUp(|encoded|, answers, attempts)
    ensures forall k: nat | k < attempts :: !GivenUp(|encoded|, answers, k)
    ensures attempts <= (|encoded| + 1) * 101
  {
    var offset, retries := 0, 0;
    wire, attempts := [], 0;
    while offset < |encoded|
      invariant After(|encoded|, answers, attempts) == Progress(offset, retries) && retries <= MAX_RETRIES
      invariant wire == encoded[..offset]
      invariant attempts <= offset * (MAX_RETRIES + 1) + retries
      invariant forall k: nat | k <= attempts :: !GivenUp(|encoded|, answers, k)
      decreases |encoded| - offset, MAX_RETRIES - retries
    {
      var written := Taken(answers(attempts), |encoded| - offset);
      attempts := attempts + 1;
      RetriesCountStall(|encoded|, answers, attempts, MAX_RETRIES + 1);
      if written > 0 {
        wire := wire + encoded[offset..offset + written];
        offset, retries := offset + written, 0;
      } else {
        retries := retries + 1;
        if retries > MAX_RETRIES {
          return Err(offset), wire, attempts;
        }
      }
    }
    r := Ok(());
  }
}
