/** When the server's bitmap, which is indexed by the number of packets accepted, tells the truth. */
module ServerRuns {
  import opened Bytes
  import opened Collections
  import opened Packets
  import opened Chunkers
  import opened ChunkMarks
  import opened ServerModel
  import R = ReceiverModel

  /** The id of the chunk that a packet carries undamaged, if it does. */
  function Carried(c: Codec, raw: seq<byte>): seq<nat> {
    match Parse(c, raw)
    case Err(_) => []
    case Ok(v) => if SizesAgree(v) && ChecksumMatches(c, v) then [v.chunkId] else []
  }

  /** The ids carried by a sequence of packets, in order and as often as they occur. */
  function CarriedIds(c: Codec, packets: seq<seq<byte>>): seq<nat> {
    if |packets| == 0 then []
    else CarriedIds(c, packets[..|packets| - 1]) + Carried(c, packets[|packets| - 1])
  }

  lemma ArriveCarries(s: Session, c: Codec, total: nat, raw: seq<byte>)
    ensures var t := Arrive(s, c, total, raw);
            && t.accepted == s.accepted + |Carried(c, raw)|
            && t.receiver.received == s.receiver.received + Elements(Carried(c, raw))
  {
    assert forall r: set<nat>, k | k in r :: r + {k} == r;
    assert forall r: set<nat> :: r + Elements<nat>([]) == r;
  }

  /** Whatever arrives, the server has accepted and received exactly what was carried. */
  lemma {:induction false} AllCarried(s: Session, c: Codec, total: nat, packets: seq<seq<byte>>)
    ensures var t := ArriveAll(s, c, total, packets);
            && t.accepted == s.accepted + |CarriedIds(c, packets)|
            && t.receiver.received == s.receiver.received + Elements(CarriedIds(c, packets))
  {
    if |packets| == 0 {
      assert Elements(CarriedIds(c, packets)) == {};
    } else {
      var front, last := packets[..|packets| - 1], packets[|packets| - 1];
      AllCarried(s, c, total, front);
      ArriveSnoc(s, c, total, front, last);
      assert packets == front + [last];
      ArriveCarries(ArriveAll(s, c, total, front), c, total, last);
      CarriedElements(CarriedIds(c, front), Carried(c, last));
    }
  }

  lemma CarriedElements(a: seq<nat>, b: seq<nat>)
    ensures Elements(a + b) == Elements(a) + Elements(b)
  {
  }

  /** The bitmap records what has been received. */
  predicate Truthful(s: Session) {
    s.marks.ids == s.receiver.received
  }

  /** After a sequence of packets the bitmap tells the truth exactly when the ids they carried are the first ones, as
      many as there were packets that carried one. */
  lemma BitmapTruthfulNowIff(mode: R.Mode, fileSize: nat, stale: seq<byte>, c: Codec, total: nat,
                             packets: seq<seq<byte>>)
    requires 0 < total && total + 7 < U32_LIMIT
    ensures Truthful(ArriveAll(Fresh(mode, fileSize, stale, total), c, total, packets))
       <==> Elements(CarriedIds(c, packets)) == Range(0, Min(|CarriedIds(c, packets)|, total))
  {
    var start := Fresh(mode, fileSize, stale, total);
    FreshCounts(mode, fileSize, stale, total);
    ArriveAllCounts(start, c, total, {}, packets);
    AllCarried(start, c, total, packets);
    var n := Min(|CarriedIds(c, packets)|, total);
    assert {} + Range(0, n) == Range(0, n);
  }

  /** Every chunk for the first time in order, and after that only copies. */
  predicate InSequence(ids: seq<nat>, total: nat) {
    forall i: nat | i < |ids| :: if i < total then ids[i] == i else ids[i] < total
  }

  lemma {:induction false} SequenceElements(ids: seq<nat>, total: nat)
    requires InSequence(ids, total)
    ensures Elements(ids) == Range(0, Min(|ids|, total))
  {
    if |ids| == 0 {
      assert Elements(ids) == {};
    } else {
      var front, last := ids[..|ids| - 1], ids[|ids| - 1];
      SequenceElements(front, total);
      assert ids == front + [last];
      ElementsAppend(front, last);
    }
  }

  /** One more id continues a sequence exactly when the ids are still the first ones. */
  lemma OneMoreInSequence(ids: seq<nat>, id: nat, total: nat)
    requires InSequence(ids, total)
    ensures InSequence(ids + [id], total) <==> Elements(ids + [id]) == Range(0, Min(|ids| + 1, total))
  {
    SequenceElements(ids, total);
    ElementsAppend(ids, id);
    if |ids| < total {
      assert |ids| in Range(0, |ids| + 1) && |ids| !in Range(0, |ids|);
    }
    if InSequence(ids + [id], total) {
      SequenceElements(ids + [id], total);
    } else {
      assert id in Elements(ids + [id]);
    }
  }

  ghost predicate AlwaysTruthful(start: Session, c: Codec, total: nat, packets: seq<seq<byte>>) {
    forall n: nat | n <= |packets| :: Truthful(ArriveAll(start, c, total, packets[..n]))
  }

  /** The bitmap tells the truth after every packet exactly when the packets that carried a chunk carried every chunk
      for the first time in order, whatever unreadable or damaged ones came in between. */
  lemma {:induction false} BitmapTruthfulIff(mode: R.Mode, fileSize: nat, stale: seq<byte>, c: Codec, total: nat,
                                             packets: seq<seq<byte>>)
    requires 0 < total && total + 7 < U32_LIMIT
    ensures AlwaysTruthful(Fresh(mode, fileSize, stale, total), c, total, packets)
       <==> InSequence(CarriedIds(c, packets), total)
  {
    var start := Fresh(mode, fileSize, stale, total);
    BitmapTruthfulNowIff(mode, fileSize, stale, c, total, packets);
    assert packets[..|packets|] == packets;
    if |packets| == 0 {
      assert Elements(CarriedIds(c, packets)) == Range(0, 0);
    } else {
      var front, last := packets[..|packets| - 1], packets[|packets| - 1];
      BitmapTruthfulIff(mode, fileSize, stale, c, total, front);
      TruthfulBefore(start, c, total, packets);
      SequenceBefore(CarriedIds(c, front), Carried(c, last), total);
    }
  }

  lemma TruthfulBefore(start: Session, c: Codec, total: nat, packets: seq<seq<byte>>)
    requires |packets| > 0
    ensures AlwaysTruthful(start, c, total, packets)
       <==> AlwaysTruthful(start, c, total, packets[..|packets| - 1]) && Truthful(ArriveAll(start, c, total, packets))
  {
    var front := packets[..|packets| - 1];
    assert packets[..|packets|] == packets;
    if AlwaysTruthful(start, c, total, packets) {
      forall n: nat | n <= |front| ensures Truthful(ArriveAll(start, c, total, front[..n])) {
        assert front[..n] == packets[..n];
      }
    }
    if AlwaysTruthful(start, c, total, front) && Truthful(ArriveAll(start, c, total, packets)) {
      forall n: nat | n <= |packets| ensures Truthful(ArriveAll(start, c, total, packets[..n])) {
        assert n < |packets| ==> packets[..n] == front[..n];
      }
    }
  }

  lemma SequenceBefore(ids: seq<nat>, more: seq<nat>, total: nat)
    requires |more| <= 1
    ensures InSequence(ids + more, total)
       <==> InSequence(ids, total) && Elements(ids + more) == Range(0, Min(|ids + more|, total))
  {
    if InSequence(ids + more, total) {
      assert forall i: nat | i < |ids| :: (ids + more)[i] == ids[i];
      SequenceElements(ids + more, total);
    }
    if InSequence(ids, total) && |more| == 1 {
      assert more == [more[0]];
      OneMoreInSequence(ids, more[0], total);
    }
    if |more| == 0 {
      assert ids + more == ids;
    }
  }

  /** Two copies of the first packet, and the bitmap claims the second chunk, which never arrived. */
  lemma DuplicateMakesBitmapLie(j: Job, mode: R.Mode, stale: seq<byte>)
    requires Sendable(j) && Count(j) >= 2
    ensures var p := PacketsFrom(j, 0)[0];
            var s := ArriveAll(Fresh(mode, |j.file|, stale, Count(j)), j.codec, Count(j), [p, p]);
            1 in s.marks.ids && 1 !in s.receiver.received
  {
    var p := PacketsFrom(j, 0)[0];
    var start := Fresh(mode, |j.file|, stale, Count(j));
    PacketsFromAt(j, 0, 0);
    R.PacketIsGenuine(j, 0);
    PacketParses(j, 0);
    var s1 := Arrive(start, j.codec, Count(j), p);
    var s2 := Arrive(s1, j.codec, Count(j), p);
    assert [p, p][1..] == [p];
    var one: seq<seq<byte>> := [p];
    assert one[1..] == [];
    assert ArriveAll(s2, j.codec, Count(j), []) == s2;
    assert s1.receiver.received == {0} && s1.accepted == 1;
    assert s2.receiver.received == {0} && s2.accepted == 2;
    FreshCounts(mode, |j.file|, stale, Count(j));
    ArriveAllCounts(start, j.codec, Count(j), {}, [p, p]);
    assert 1 in Range(0, 2) && 1 in {} + Range(0, 2);
  }
}
