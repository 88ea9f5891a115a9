/** The receive loop written the way the program runs it: a startup NAK,
    then a loop that reads a control byte, fills a nine-byte block buffer
    one read at a time, checks the complement, sums the data bytes, and
    copies the non-ETX data bytes into the message. Its results are those of
    the functional model `Receiver.Receive`. */
module ReceiverLoop {
  import opened Protocol
  import opened Serial
  import opened Receiver
  import opened ReceiverProperties

  /** Runs the receiver over the read results `input`. Returns the message,
      every byte written to the port (the startup NAK included), how the run
      ended, and how many read results it consumed. */
  method RunReceiver(input: seq<ReadValue>) returns (message: seq<byte>, trace: seq<byte>, outcome: Outcome, consumed: nat)
    ensures consumed <= |input|
    ensures Receive(input) == Run(message, trace, outcome, input[consumed..])
  {
    trace := [NAK];
    message := [];
    consumed := 0;
    while consumed < |input|
      invariant consumed <= |input|
      invariant Receive(input) == After(trace, Loop(message, input[consumed..]))
      decreases |input| - consumed
    {
      var start := consumed;
      var b0 := input[consumed];
      consumed := consumed + 1;
      if b0 == EOT {
        EotAt(message, input, start);
        Extend(Receive(input), trace, message, input[start..], [ACK], Run(message, [], Done, input[consumed..]));
        trace := trace + [ACK];
        outcome := Done;
        return;
      }
      if b0 != SOH {
        NoiseAt(message, input, start);
        continue;
      }
      var blk, complete;
      blk, consumed, complete := ReadBlockBody(input, start);
      if !complete {
        // a read blocks for ever: the input is exhausted
        TruncatedBlock(message, input[start..]);
        Extend(Receive(input), trace, message, input[start..], [], Run(message, [], InputExhausted, input[consumed..]));
        outcome := InputExhausted;
        return;
      }
      var reply;
      ghost var before := message;
      message, reply := CheckBlock(message, blk);
      BlockAt(before, input, start, blk, message, reply);
      Extend(Receive(input), trace, before, input[start..], [reply], Loop(message, input[consumed..]));
      trace := trace + [reply];
    }
    outcome := InputExhausted;
  }

  /** Appending the replies of one more pass to the trace written so far. */
  lemma Extend(total: Run, trace: seq<byte>, m: seq<byte>, input: seq<ReadValue>, reply: seq<byte>, r: Run)
    requires total == After(trace, Loop(m, input))
    requires Loop(m, input) == After(reply, r)
    ensures total == After(trace + reply, r)
  {
    assert trace + (reply + r.trace) == trace + reply + r.trace;
  }

  /** The block as the checks see it in the buffer. */
  function BufferBlock(blk: seq<byte>): Block
    requires |blk| == BLOCKSIZE
  {
    Block(blk[1], blk[2], blk[3..8], blk[8])
  }

  /** After SOH at `start`, the eight reads that complete the block, each
      result stored with the unsigned-char conversion. The block is
      incomplete when the input runs out first. */
  method ReadBlockBody(input: seq<ReadValue>, start: nat) returns (blk: seq<byte>, consumed: nat, complete: bool)
    requires start < |input| && input[start] == SOH
    ensures complete <==> start + BLOCKSIZE <= |input|
    ensures complete ==> consumed == start + BLOCKSIZE && blk == [SOH] + AsBytes(input[start + 1..consumed])
    ensures !complete ==> consumed == |input|
  {
    blk := [SOH];
    consumed := start + 1;
    while |blk| < BLOCKSIZE
      invariant 1 <= |blk| <= BLOCKSIZE && consumed == start + |blk| <= |input|
      invariant blk == [SOH] + AsBytes(input[start + 1..consumed])
      decreases BLOCKSIZE - |blk|
    {
      if consumed == |input| {
        return blk, consumed, false;
      }
      assert input[start + 1..consumed + 1] == input[start + 1..consumed] + [input[consumed]];
      blk := blk + [AsUnsignedChar(input[consumed])];
      consumed := consumed + 1;
    }
    complete := true;
  }

  /** The checks on a full buffer, complement first, then the checksum
      summed byte by byte; on success the data bytes other than ETX are
      appended one by one. Returns the message and the reply. */
  method CheckBlock(message: seq<byte>, blk: seq<byte>) returns (message': seq<byte>, reply: byte)
    requires |blk| == BLOCKSIZE
    ensures var v := Validate(BufferBlock(blk));
      && (v.Accepted? ==> message' == message + v.payload && reply == ACK)
      && (!v.Accepted? ==> message' == message && reply == NAK)
  {
    var n, inv := blk[1], blk[2];
    if (255 - n) % 256 != inv {
      return message, NAK;
    }
    var sum: int := 0;
    for i := 0 to DATABYTES
      invariant sum == Sum(blk[3..3 + i])
    {
      assert blk[3..3 + i + 1][..i] == blk[3..3 + i];
      sum := sum + blk[3 + i];
    }
    var checksum := sum % 256;
    if checksum != blk[8] {
      return message, NAK;
    }
    message' := message;
    for i := 0 to DATABYTES
      invariant message' == message + StripPadding(blk[3..3 + i])
    {
      assert blk[3..3 + i + 1][..i] == blk[3..3 + i];
      if blk[3 + i] != ETX {
        message' := message' + [blk[3 + i]];
      }
    }
    reply := ACK;
  }

  /** What one pass of the loop does with a block at `start` whose buffer
      was filled from the input and then checked. */
  lemma BlockAt(m: seq<byte>, input: seq<ReadValue>, start: nat, blk: seq<byte>, m': seq<byte>, reply: byte)
    requires start + BLOCKSIZE <= |input| && input[start] == SOH
    requires blk == [SOH] + AsBytes(input[start + 1..start + BLOCKSIZE])
    requires var v := Validate(BufferBlock(blk));
      && (v.Accepted? ==> m' == m + v.payload && reply == ACK)
      && (!v.Accepted? ==> m' == m && reply == NAK)
    ensures Loop(m, input[start..]) == After([reply], Loop(m', input[start + BLOCKSIZE..]))
  {
    var here := input[start..];
    assert here[1..BLOCKSIZE] == input[start + 1..start + BLOCKSIZE];
    assert here[BLOCKSIZE..] == input[start + BLOCKSIZE..];
    assert BufferBlock(blk) == ReadBlock(here[1..BLOCKSIZE]) by {
      assert forall k :: 0 <= k < 5 ==> blk[3..8][k] == AsUnsignedChar(here[1..BLOCKSIZE][2..7][k]);
    }
    LoopUnfold(m, here);
  }

  /** Noise at `start` is skipped. */
  lemma NoiseAt(m: seq<byte>, input: seq<ReadValue>, start: nat)
    requires start < |input| && input[start] != SOH && input[start] != EOT
    ensures Loop(m, input[start..]) == Loop(m, input[start + 1..])
  {
    assert input[start..][1..] == input[start + 1..];
    NoiseIgnored(m, input[start..]);
  }

  /** The loop on EOT at `start`, as `EotEnds` states it. */
  lemma EotAt(m: seq<byte>, input: seq<ReadValue>, start: nat)
    requires start < |input| && input[start] == EOT
    ensures Loop(m, input[start..]) == After([ACK], Run(m, [], Done, input[start + 1..]))
  {
    assert input[start..] == [EOT as ReadValue] + input[start + 1..];
    EotEnds(m, input[start + 1..]);
  }
}
