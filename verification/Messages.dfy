/** The single-message receivers of the resume protocol (src/protocol/resume.rs) and of the hash check
    (src/protocol/hash_check.rs). Request and response receivers of each protocol are the same code. */
module Messages {
  import opened Bytes
  import opened Framing

  datatype ReceiveError = DecodeError | IncompleteError

  datatype Kind = Resume | HashCheck

  /** What a receiver answers once `all` has arrived and the last read carried the flag `fin`. The two
      protocols differ in when they report a stream that ends too early. */
  function Outcome<M>(kind: Kind, decode: seq<byte> -> Option<M>, all: seq<byte>, fin: bool)
    : Result<Option<M>, ReceiveError>
  {
    if Incomplete(all) then
      if fin && (kind == Resume <==> |all| >= 4) then Err(IncompleteError) else Ok(None)
    else
      match decode(all[4..4 + FromU32Be(all[..4])])
      case Some(m) => Ok(Some(m))
      case None => Err(DecodeError)
  }

  class ResumeReceiver<M> {
    var buffer: seq<byte>
    var expectedLength: Option<nat>

    ghost predicate Valid()
      reads this
    {
      expectedLength == if |buffer| < 4 then None else Some(FromU32Be(buffer[..4]))
    }

    constructor ()
      ensures Valid() && buffer == []
    {
      buffer, expectedLength := [], None;
    }

    /** The answer depends only on the bytes received so far, all of which are kept. */
    method ReceiveChunk(decode: seq<byte> -> Option<M>, data: seq<byte>, fin: bool)
      returns (r: Result<Option<M>, ReceiveError>)
      requires Valid()
      modifies this
      ensures Valid() && buffer == old(buffer) + data
      ensures r == Outcome(Resume, decode, buffer, fin)
    {
      ghost var was := buffer;
      buffer := buffer + data;
      assert |was| >= 4 ==> buffer[..4] == was[..4];
      if expectedLength.None? && |buffer| >= 4 {
        expectedLength := Some(FromU32Be(buffer[0..4]));
      }
      if expectedLength.Some? {
        if |buffer| >= expectedLength.value + 4 {
          var m := decode(buffer[4..4 + expectedLength.value]);
          if m.None? {
            return Err(DecodeError);
          }
          return Ok(Some(m.value));
        }
      }
      if fin && expectedLength.Some? {
        return Err(IncompleteError);
      }
      return Ok(None);
    }
  }

  class HashCheckReceiver<M> {
    var buffer: seq<byte>
    var expectedLength: Option<nat>
    ghost var seen: seq<byte>  // the bytes received since the last complete message

    ghost predicate Valid()
      reads this
    {
      if |seen| < 4 then expectedLength == None && buffer == seen
      else expectedLength == Some(FromU32Be(seen[..4])) && buffer == seen[4..]
    }

    constructor ()
      ensures Valid() && seen == []
    {
      buffer, expectedLength, seen := [], None, [];
    }

    /** The answer depends only on the bytes received since the last message; a complete message resets the
        receiver and drops any bytes behind it. */
    method ReceiveChunk(decode: seq<byte> -> Option<M>, data: seq<byte>, fin: bool)
      returns (r: Result<Option<M>, ReceiveError>)
      requires Valid()
      modifies this
      ensures Valid()
      ensures r == Outcome(HashCheck, decode, old(seen) + data, fin)
      ensures seen == if r.Ok? && r.value.Some? then [] else old(seen) + data
    {
      ghost var was := seen;
      buffer := buffer + data;
      seen := seen + data;
      assert |was| >= 4 ==> seen[..4] == was[..4] && seen[4..] == was[4..] + data;
      if expectedLength.None? && |buffer| >= 4 {
        expectedLength := Some(FromU32Be(buffer[0..4]));
        buffer := buffer[4..];
      }
      assert Valid();
      if expectedLength.Some? {
        if |buffer| >= expectedLength.value {
          assert buffer[..expectedLength.value] == seen[4..4 + expectedLength.value];
          var m := decode(buffer[..expectedLength.value]);
          if m.None? {
            return Err(DecodeError);
          }
          buffer, expectedLength, seen := [], None, [];
          return Ok(Some(m.value));
        }
      }
      if fin && expectedLength.None? {
        return Err(IncompleteError);
      }
      return Ok(None);
    }
  }

  /** The first decisive answer of a fresh receiver to the reads `segments`, the last of which carries FIN. */
  function FirstAnswer<M>(kind: Kind, decode: seq<byte> -> Option<M>, before: seq<byte>, segments: seq<seq<byte>>)
    : Result<Option<M>, ReceiveError>
    requires |segments| > 0
    decreases |segments|
  {
    var all := before + segments[0];
    var r := Outcome(kind, decode, all, |segments| == 1);
    if r == Ok(None) && |segments| > 1 then FirstAnswer(kind, decode, all, segments[1..]) else r
  }

  /** However the stream is cut, both protocols answer what the whole stream says. */
  lemma {:induction false} AnswerIgnoresSegmentation<M>(kind: Kind, decode: seq<byte> -> Option<M>,
                                                        before: seq<byte>, segments: seq<seq<byte>>)
    requires |segments| > 0 && Incomplete(before)
    ensures FirstAnswer(kind, decode, before, segments) == Outcome(kind, decode, before + Concat(segments), true)
    decreases |segments|
  {
    var all := before + segments[0];
    var whole := before + Concat(segments);
    ConcatCons(segments[0], segments[1..]);
    assert segments == [segments[0]] + segments[1..];
    assert whole == all + Concat(segments[1..]);
    if |segments| == 1 {
      assert Concat(segments[1..]) == [];
      assert whole == all;
    } else if Incomplete(all) {
      AnswerIgnoresSegmentation(kind, decode, all, segments[1..]);
    } else {
      assert whole[..4] == all[..4];
      var n := FromU32Be(all[..4]);
      assert whole[4..4 + n] == all[4..4 + n];
      assert Outcome(kind, decode, all, false) == Outcome(kind, decode, whole, true);
    }
  }

  /** A framed message arrives, however it is cut. */
  lemma MessageArrives<M>(kind: Kind, decode: seq<byte> -> Option<M>, message: seq<byte>, segments: seq<seq<byte>>)
    requires |segments| > 0 && |message| < U32_LIMIT && Concat(segments) == FrameOf(message)
    ensures FirstAnswer(kind, decode, [], segments) ==
            match decode(message) case Some(m) => Ok(Some(m)) case None => Err(DecodeError)
  {
    AnswerIgnoresSegmentation(kind, decode, [], segments);
    var prefix := ToU32Be(|message|);
    U32RoundTrip(|message|);
    assert [] + Concat(segments) == prefix + message;
    assert (prefix + message)[..4] == prefix;
    assert (prefix + message)[4..4 + |message|] == message;
  }

  /** A stream cut short at FIN is reported by exactly one of the two protocols: the resume receivers stay silent
      when even the length is missing, the hash-check receivers when only the message is. */
  lemma TruncationReportedIff<M>(decode: seq<byte> -> Option<M>, segments: seq<seq<byte>>)
    requires |segments| > 0 && Incomplete(Concat(segments))
    ensures FirstAnswer(Resume, decode, [], segments) ==
            if |Concat(segments)| >= 4 then Err(IncompleteError) else Ok(None)
    ensures FirstAnswer(HashCheck, decode, [], segments) ==
            if |Concat(segments)| < 4 then Err(IncompleteError) else Ok(None)
  {
    AnswerIgnoresSegmentation(Resume, decode, [], segments);
    AnswerIgnoresSegmentation(HashCheck, decode, [], segments);
    assert [] + Concat(segments) == Concat(segments);
  }
}
