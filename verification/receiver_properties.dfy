/** Properties of the receive loop: one lemma per transition, the shape of
    the reply trace, what a repeated block does, and how a failed read is
    treated. */
module ReceiverProperties {
  import opened Protocol
  import opened Serial
  import opened Receiver

  /** The run `r` preceded by one more reply. */
  function After(reply: seq<byte>, r: Run): Run
  {
    Run(r.message, reply + r.trace, r.outcome, r.rest)
  }

  /** Waiting: a read result that is neither SOH nor EOT (a failed read
      included) changes nothing and writes nothing. */
  lemma NoiseIgnored(m: seq<byte>, input: seq<ReadValue>)
    requires |input| > 0 && input[0] != SOH && input[0] != EOT
    ensures Loop(m, input) == Loop(m, input[1..])
  {
  }

  /** Any stretch of noise before the next control byte is skipped. */
  lemma {:induction false} NoiseRunIgnored(m: seq<byte>, noise: seq<ReadValue>, input: seq<ReadValue>)
    requires forall i :: 0 <= i < |noise| ==> noise[i] != SOH && noise[i] != EOT
    ensures Loop(m, noise + input) == Loop(m, input)
    decreases |noise|
  {
    if |noise| == 0 {
      assert noise + input == input;
    } else {
      assert (noise + input)[1..] == noise[1..] + input;
      NoiseIgnored(m, noise + input);
      assert Loop(m, noise + input) == Loop(m, noise[1..] + input);
      NoiseRunIgnored(m, noise[1..], input);
      assert Loop(m, noise[1..] + input) == Loop(m, input);
    }
  }

  /** EOT: one ACK, the loop ends with the message accumulated so far, and
      nothing after EOT is read. */
  lemma EotEnds(m: seq<byte>, rest: seq<ReadValue>)
    ensures Loop(m, [EOT as ReadValue] + rest) == Run(m, [ACK], Done, rest)
  {
    assert ([EOT as ReadValue] + rest)[1..] == rest;
  }

  /** A block that fails either check: one NAK, the message is unchanged and
      the loop waits for the next control byte. */
  lemma RejectedBlock(m: seq<byte>, input: seq<ReadValue>)
    requires |input| >= BLOCKSIZE && input[0] == SOH && !BlockValid(input)
    ensures Loop(m, input) == After([NAK], Loop(m, input[BLOCKSIZE..]))
  {
    StepTransitions(m, input);
  }

  /** A block that passes both checks: one ACK, and its data without ETX is
      appended to the message. */
  lemma AcceptedBlock(m: seq<byte>, input: seq<ReadValue>)
    requires |input| >= BLOCKSIZE && input[0] == SOH && BlockValid(input)
    ensures Loop(m, input) == After([ACK], Loop(m + StripPadding(DataOf(input)), input[BLOCKSIZE..]))
  {
    StepTransitions(m, input);
  }

  /** A SOH too close to the end of the input: the block never completes,
      nothing is written and nothing is appended. */
  lemma TruncatedBlock(m: seq<byte>, input: seq<ReadValue>)
    requires 0 < |input| < BLOCKSIZE && input[0] == SOH
    ensures Loop(m, input) == Run(m, [], InputExhausted, [])
  {
  }

  /** A serialized block, read back as the buffer stores it. */
  lemma ReadBlockOfSerialize(b: Block, rest: seq<ReadValue>)
    ensures var input: seq<ReadValue> := Serialize(b) + rest;
      && |input| >= BLOCKSIZE && input[0] == SOH
      && input[BLOCKSIZE..] == rest
      && DataOf(input) == b.data
      && (BlockValid(input) <==> Validate(b).Accepted?)
  {
    var input: seq<ReadValue> := Serialize(b) + rest;
    assert input[3..8] == b.data;
    AsBytesOfBytes(b.data);
    assert input[BLOCKSIZE..] == rest;
  }

  /** A serialized block at the head of the input gets exactly the reply
      its verdict calls for. */
  lemma {:induction false} SerializedBlock(m: seq<byte>, b: Block, rest: seq<ReadValue>)
    ensures var r := Loop(m, Serialize(b) + rest);
      match Validate(b)
      case Accepted(p) => r == After([ACK], Loop(m + p, rest))
      case _ => r == After([NAK], Loop(m, rest))
  {
    var input: seq<ReadValue> := Serialize(b) + rest;
    ReadBlockOfSerialize(b, rest);
    if BlockValid(input) {
      AcceptedBlock(m, input);
    } else {
      RejectedBlock(m, input);
    }
  }

  /** The sequence byte is never compared with a counter: the same valid
      block sent twice is acknowledged twice and its data appended twice. */
  lemma DuplicateBlockAppendedTwice(m: seq<byte>, b: Block, rest: seq<ReadValue>)
    requires Validate(b).Accepted?
    ensures var p := StripPadding(b.data);
      Loop(m, Serialize(b) + Serialize(b) + rest) == After([ACK, ACK], Loop(m + p + p, rest))
  {
    var p := StripPadding(b.data);
    assert Validate(b) == Accepted(p);
    var tail: seq<ReadValue> := Serialize(b) + rest;
    assert Serialize(b) + Serialize(b) + rest == Serialize(b) + tail;
    SerializedBlock(m, b, tail);
    assert Loop(m, Serialize(b) + tail) == After([ACK], Loop(m + p, tail));
    SerializedBlock(m + p, b, rest);
    assert Loop(m + p, tail) == After([ACK], Loop(m + p + p, rest));
    assert [ACK] + ([ACK] + Loop(m + p + p, rest).trace) == [ACK, ACK] + Loop(m + p + p, rest).trace;
  }

  /** A checksum byte corrupted to any other value makes the block rejected
      with one NAK and leaves the message as it was. */
  lemma CorruptedChecksumRejected(m: seq<byte>, b: Block, c: byte, rest: seq<ReadValue>)
    requires Validate(b).Accepted? && c != b.check
    ensures Loop(m, Serialize(b.(check := c)) + rest) == After([NAK], Loop(m, rest))
  {
    SerializedBlock(m, b.(check := c), rest);
  }

  /** A complement byte replaced by any other value makes the block rejected
      with one NAK and leaves the message as it was. */
  lemma CorruptedComplementRejected(m: seq<byte>, b: Block, c: byte, rest: seq<ReadValue>)
    requires Validate(b).Accepted? && c != b.inv
    ensures Loop(m, Serialize(b.(inv := c)) + rest) == After([NAK], Loop(m, rest))
  {
    SerializedBlock(m, b.(inv := c), rest);
  }

  /** Inside a block a failed read is not told apart from a received 0xFF:
      the block is handled exactly as if 0xFF had arrived. */
  lemma FailedReadInBlockIsFF(m: seq<byte>, input: seq<ReadValue>, k: nat)
    requires |input| >= BLOCKSIZE && input[0] == SOH && 1 <= k < BLOCKSIZE && input[k] == ReadFailed
    ensures NextStep(m, input) == NextStep(m, input[k := 0xFF])
  {
    var body, body' := input[1..BLOCKSIZE], input[k := 0xFF][1..BLOCKSIZE];
    assert forall i :: 0 <= i < BLOCKSIZE - 1 ==> AsUnsignedChar(body'[i]) == AsUnsignedChar(body[i]);
    assert AsBytes(body'[2..7]) == AsBytes(body[2..7]);
    assert ReadBlock(body') == ReadBlock(body);
  }

  /** One pass of the loop does the same from any starting message, except
      that the message it appends to is that one. */
  lemma StepIndependentOfMessage(m: seq<byte>, input: seq<ReadValue>)
    requires |input| > 0
    ensures var s0 := NextStep([], input);
      NextStep(m, input) == Step(s0.event, m + s0.message, s0.reply, s0.consumed)
  {
  }

  /** The loop unfolded once. */
  lemma LoopUnfold(m: seq<byte>, input: seq<ReadValue>)
    requires |input| > 0
    ensures var s := NextStep(m, input);
      Loop(m, input) ==
        if s.event == EndOfTransmission then Run(m, s.reply, Done, input[s.consumed..])
        else if s.event == Truncated then Run(m, [], InputExhausted, [])
        else After(s.reply, Loop(s.message, input[s.consumed..]))
  {
  }

  /** The message a run ends with is the starting message followed by what
      the run would build from an empty one; the replies and the outcome do
      not depend on the starting message. */
  lemma {:induction false} MessageOnlyGrows(m: seq<byte>, input: seq<ReadValue>)
    ensures var r0 := Loop([], input);
      Loop(m, input) == Run(m + r0.message, r0.trace, r0.outcome, r0.rest)
    decreases |input|
  {
    if |input| == 0 {
      assert m + [] == m;
    } else {
      var s0 := NextStep([], input);
      StepIndependentOfMessage(m, input);
      LoopUnfold(m, input);
      LoopUnfold([], input);
      if s0.event != EndOfTransmission && s0.event != Truncated {
        var tail := input[s0.consumed..];
        MessageOnlyGrows(m + s0.message, tail);
        MessageOnlyGrows(s0.message, tail);
        assert m + s0.message + Loop([], tail).message == m + (s0.message + Loop([], tail).message);
      } else {
        assert m + s0.message == m;
      }
    }
  }

  /** Number of read results that are SOH or EOT. */
  function ControlCount(input: seq<ReadValue>): nat
  {
    multiset(input)[SOH as ReadValue] + multiset(input)[EOT as ReadValue]
  }

  /** Only ACK and NAK are ever written by the loop, and a run that ends
      with Done ends with the ACK for EOT. */
  lemma {:induction false} RepliesAreAckOrNak(m: seq<byte>, input: seq<ReadValue>)
    ensures var r := Loop(m, input);
      && (forall i :: 0 <= i < |r.trace| ==> r.trace[i] == ACK || r.trace[i] == NAK)
      && (r.outcome == Done ==> |r.trace| > 0 && r.trace[|r.trace| - 1] == ACK)
    decreases |input|
  {
    if |input| > 0 {
      var s := NextStep(m, input);
      LoopUnfold(m, input);
      StepTransitions(m, input);
      if s.event != EndOfTransmission && s.event != Truncated {
        RepliesAreAckOrNak(s.message, input[s.consumed..]);
      }
    }
  }

  /** At most one reply per SOH or EOT read. */
  lemma {:induction false} OneReplyPerControlByte(m: seq<byte>, input: seq<ReadValue>)
    ensures |Loop(m, input).trace| <= ControlCount(input)
    decreases |input|
  {
    if |input| > 0 {
      var s := NextStep(m, input);
      LoopUnfold(m, input);
      StepTransitions(m, input);
      var head, tail := input[..s.consumed], input[s.consumed..];
      assert input == head + tail;
      assert multiset(input) == multiset(head) + multiset(tail);
      assert head[0] == input[0];
      assert input[0] in multiset(head);
      if s.event != EndOfTransmission && s.event != Truncated {
        OneReplyPerControlByte(s.message, tail);
      }
    }
  }

  /** The message only grows, by at most five bytes per ACK, and never gains
      an ETX. */
  lemma {:induction false} MessageGrowth(m: seq<byte>, input: seq<ReadValue>)
    ensures var r := Loop(m, input);
      && |m| <= |r.message| <= |m| + DATABYTES * multiset(r.trace)[ACK]
      && r.message[..|m|] == m
      && (ETX !in m ==> ETX !in r.message)
    decreases |input|
  {
    if |input| > 0 {
      var s := NextStep(m, input);
      LoopUnfold(m, input);
      StepTransitions(m, input);
      if s.event != EndOfTransmission && s.event != Truncated {
        var r' := Loop(s.message, input[s.consumed..]);
        MessageGrowth(s.message, input[s.consumed..]);
        assert multiset(s.reply + r'.trace) == multiset(s.reply) + multiset(r'.trace);
        assert r'.message[..|m|] == s.message[..|m|];
      }
    }
  }

  /** A run that ran out consumed all its input; one that ended leaves a
      suffix of its input unread. */
  lemma {:induction false} RestIsSuffix(m: seq<byte>, input: seq<ReadValue>)
    ensures var r := Loop(m, input);
      && (r.outcome == InputExhausted ==> r.rest == [])
      && |r.rest| <= |input| && r.rest == input[|input| - |r.rest|..]
    decreases |input|
  {
    if |input| > 0 {
      var s := NextStep(m, input);
      LoopUnfold(m, input);
      StepTransitions(m, input);
      if s.event != EndOfTransmission && s.event != Truncated {
        var tail := input[s.consumed..];
        RestIsSuffix(s.message, tail);
        var r' := Loop(s.message, tail);
        assert tail[|tail| - |r'.rest|..] == input[|input| - |r'.rest|..];
      }
    }
  }

  /** The receiver's whole output: the startup NAK, then only ACK and NAK,
      at most one per SOH or EOT read, with a final ACK when EOT ended the
      run; the message holds no ETX and at most five bytes per ACK. */
  lemma ReplyDiscipline(input: seq<ReadValue>)
    ensures var r := Receive(input);
      && |r.trace| >= 1 && r.trace[0] == NAK
      && (forall i :: 1 <= i < |r.trace| ==> r.trace[i] == ACK || r.trace[i] == NAK)
      && |r.trace| <= 1 + ControlCount(input)
      && (r.outcome == Done ==> |r.trace| >= 2 && r.trace[|r.trace| - 1] == ACK)
      && ETX !in r.message
      && |r.message| <= DATABYTES * multiset(r.trace)[ACK]
  {
    var r0 := Loop([], input);
    RepliesAreAckOrNak([], input);
    OneReplyPerControlByte([], input);
    MessageGrowth([], input);
    var r := Receive(input);
    assert r.trace == [NAK] + r0.trace;
    assert multiset(r.trace)[ACK] == multiset(r0.trace)[ACK];
  }
}
