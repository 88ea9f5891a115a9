/** The receive loop: a state machine that waits for a control byte, ends on
    EOT, skips noise, and on SOH reads the rest of a block, validates it and
    answers ACK or NAK. The input is the sequence of values the blocking
    reads return; running out of input stands for a read that never returns. */
module Receiver {
  import opened Protocol
  import opened Serial

  /** How a run of the loop ends: EOT was received and acknowledged, or the
      input ran out (while waiting or in the middle of a block). */
  datatype Outcome = Done | InputExhausted

  /** What one pass of the loop did. */
  datatype Event = Noise | EndOfTransmission | BlockHandled(verdict: Verdict) | Truncated

  /** One pass of the loop: what happened, the message afterwards, the bytes
      written back, and how many read results it consumed. */
  datatype Step = Step(event: Event, message: seq<byte>, reply: seq<byte>, consumed: nat)

  /** A whole run: the message, every byte written back, how it ended, and
      the read results left unconsumed. */
  datatype Run = Run(message: seq<byte>, trace: seq<byte>, outcome: Outcome, rest: seq<ReadValue>)

  /** The block buffer filled from the eight reads that follow SOH. */
  function ReadBlock(body: seq<ReadValue>): (b: Block)
    requires |body| == BLOCKSIZE - 1
    ensures forall i :: 0 <= i < BLOCKSIZE - 1 ==> Serialize(b)[i + 1] == AsUnsignedChar(body[i])
  {
    Block(AsUnsignedChar(body[0]), AsUnsignedChar(body[1]), AsBytes(body[2..7]), AsUnsignedChar(body[7]))
  }

  /** The read results, stored as the buffer stores them, of the 5 data bytes
      of a block that starts at the head of the input. */
  function DataOf(input: seq<ReadValue>): (d: seq<byte>)
    requires |input| >= BLOCKSIZE
    ensures |d| == DATABYTES
    ensures forall i :: 0 <= i < DATABYTES ==> d[i] == AsUnsignedChar(input[3 + i])
  {
    AsBytes(input[3..8])
  }

  /** The byte the buffer holds at offset i of a block at the head of the input. */
  function At(input: seq<ReadValue>, i: nat): byte
    requires i < |input|
  {
    AsUnsignedChar(input[i])
  }

  /** A block at the head of the input passes both checks. */
  predicate BlockValid(input: seq<ReadValue>)
    requires |input| >= BLOCKSIZE
  {
    && At(input, 2) == 255 - At(input, 1)
    && At(input, 8) == (At(input, 3) as int + At(input, 4) + At(input, 5) + At(input, 6) + At(input, 7)) % 256
  }

  /** One pass of the loop, from a read of the control byte up to the next one. */
  function NextStep(message: seq<byte>, input: seq<ReadValue>): (s: Step)
    requires |input| > 0
    ensures 1 <= s.consumed <= |input|
  {
    var b0 := input[0];
    if b0 == EOT then Step(EndOfTransmission, message, [ACK], 1)
    else if b0 != SOH then Step(Noise, message, [], 1)
    else if |input| < BLOCKSIZE then Step(Truncated, message, [], |input|)
    else
      var b := ReadBlock(input[1..BLOCKSIZE]);
      assert forall k :: 0 <= k < 5 ==> input[1..BLOCKSIZE][2..7][k] == input[3..8][k];
      assert input[1..BLOCKSIZE][2..7] == input[3..8];
      var v := Validate(b);
      match v
      case Accepted(payload) => Step(BlockHandled(v), message + payload, [ACK], BLOCKSIZE)
      case _ => Step(BlockHandled(v), message, [NAK], BLOCKSIZE)
  }

  /** The transitions of one pass of the loop, stated on the read results. */
  lemma StepTransitions(message: seq<byte>, input: seq<ReadValue>)
    requires |input| > 0
    // EOT: acknowledge and stop
    ensures var s := NextStep(message, input);
      s.event == EndOfTransmission <==> input[0] == EOT
    ensures var s := NextStep(message, input);
      input[0] == EOT ==> s.reply == [ACK] && s.message == message && s.consumed == 1
    // anything but SOH and EOT, a failed read included, is skipped silently
    ensures var s := NextStep(message, input);
      s.event == Noise <==> input[0] != EOT && input[0] != SOH
    ensures var s := NextStep(message, input);
      s.event == Noise ==> s.reply == [] && s.message == message && s.consumed == 1
    // SOH with fewer than eight reads left: the block never completes
    ensures var s := NextStep(message, input);
      s.event == Truncated <==> input[0] == SOH && |input| < BLOCKSIZE
    ensures var s := NextStep(message, input);
      s.event == Truncated ==> s.reply == [] && s.message == message && s.consumed == |input|
    // SOH and a full block: exactly one ACK or NAK
    ensures var s := NextStep(message, input);
      s.event.BlockHandled? <==> input[0] == SOH && |input| >= BLOCKSIZE
    ensures var s := NextStep(message, input);
      s.event.BlockHandled? ==> s.consumed == BLOCKSIZE
    ensures var s := NextStep(message, input);
      s.event == BlockHandled(ComplementMismatch) <==>
      input[0] == SOH && |input| >= BLOCKSIZE && At(input, 2) != 255 - At(input, 1)
    ensures var s := NextStep(message, input);
      s.event.BlockHandled? && s.event.verdict.Accepted? <==>
      input[0] == SOH && |input| >= BLOCKSIZE && BlockValid(input)
    ensures var s := NextStep(message, input);
      s.event.BlockHandled? && !s.event.verdict.Accepted? ==> s.reply == [NAK] && s.message == message
    ensures var s := NextStep(message, input);
      s.event.BlockHandled? && s.event.verdict.Accepted? ==>
      s.reply == [ACK] && s.message == message + StripPadding(DataOf(input))
  {
    if input[0] == SOH && |input| >= BLOCKSIZE {
      BlockFields(input);
    }
  }

  /** The fields of a full block at the head of the input, as the checks see
      them, and its verdict stated on the read results. */
  lemma BlockFields(input: seq<ReadValue>)
    requires |input| >= BLOCKSIZE
    ensures var b := ReadBlock(input[1..BLOCKSIZE]);
      && b.n == At(input, 1) && b.inv == At(input, 2) && b.check == At(input, 8)
      && b.data == DataOf(input)
      && (Validate(b) == ComplementMismatch <==> At(input, 2) != 255 - At(input, 1))
      && (Validate(b).Accepted? <==> BlockValid(input))
  {
    var b := ReadBlock(input[1..BLOCKSIZE]);
    assert forall k :: 0 <= k < 5 ==> input[1..BLOCKSIZE][2..7][k] == input[3..8][k];
    assert b.data == DataOf(input);
  }

  /** The loop, run from a given message over the remaining read results. */
  function Loop(message: seq<byte>, input: seq<ReadValue>): (r: Run)
    ensures |r.rest| <= |input|
    ensures r.outcome == InputExhausted ==> r.rest == []
    decreases |input|
  {
    if |input| == 0 then Run(message, [], InputExhausted, [])
    else
      var s := NextStep(message, input);
      match s.event
      case EndOfTransmission => Run(message, s.reply, Done, input[s.consumed..])
      case Truncated => Run(message, [], InputExhausted, [])
      case _ =>
        var r := Loop(s.message, input[s.consumed..]);
        Run(r.message, s.reply + r.trace, r.outcome, r.rest)
  }

  /** The receiver: one NAK to signal readiness, then the loop from an empty
      message. */
  function Receive(input: seq<ReadValue>): (r: Run)
    ensures |r.trace| > 0 && r.trace[0] == NAK
    ensures |r.rest| <= |input|
  {
    var r := Loop([], input);
    Run(r.message, [NAK] + r.trace, r.outcome, r.rest)
  }
}
