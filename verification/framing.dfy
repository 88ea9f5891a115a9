/** The sending side the receiver expects: a message cut into chunks of at
    most five bytes, each chunk padded with ETX, framed with a sequence byte,
    its complement and the checksum, and the transmission closed by EOT. The
    sender is not part of the repository; it serves here as the reference
    against which the receiver's round trip is proved. */
module Framing {
  import opened Protocol
  import opened Serial
  import opened Receiver
  import opened ReceiverProperties

  /** A chunk of at most five bytes, filled up to the data field width with ETX. */
  function Pad(chunk: seq<byte>): (d: Payload)
    requires |chunk| <= DATABYTES
    ensures d[..|chunk|] == chunk
    ensures forall i :: |chunk| <= i < DATABYTES ==> d[i] == ETX
  {
    chunk + Padding(DATABYTES - |chunk|)
  }

  /** The block carrying a chunk under sequence byte n. */
  function Frame(n: byte, chunk: seq<byte>): (b: Block)
    requires |chunk| <= DATABYTES
    ensures b.n == n && b.inv + n == 255 && Checksum5(b.data) == b.check
    ensures b.data == Pad(chunk)
  {
    Block(n, Complement(n), Pad(chunk), Checksum5(Pad(chunk)))
  }

  /** A chunk without ETX, framed under any sequence byte, is accepted and
      yields exactly that chunk. */
  lemma FrameAccepted(n: byte, chunk: seq<byte>)
    requires |chunk| <= DATABYTES && ETX !in chunk
    ensures Validate(Frame(n, chunk)) == Accepted(chunk)
  {
    PadStripped(chunk);
    var b := Frame(n, chunk);
    assert Validate(b).Accepted?;
  }

  /** Stripping the padding from a padded chunk without ETX gives the chunk back. */
  lemma PadStripped(chunk: seq<byte>)
    requires |chunk| <= DATABYTES && ETX !in chunk
    ensures StripPadding(Pad(chunk)) == chunk
  {
    var k := DATABYTES - |chunk|;
    StripPaddingAppend(chunk, Padding(k));
    StripPaddingKeeps(chunk);
    StripPaddingAllEtx(k);
    assert chunk + [] == chunk;
  }

  /** The number of blocks a message needs. */
  function BlockCount(msg: seq<byte>): nat
  {
    (|msg| + DATABYTES - 1) / DATABYTES
  }

  /** The blocks of a message, numbered from n on, wrapping after 255. */
  function Blocks(msg: seq<byte>, n: byte): seq<ReadValue>
    decreases |msg|
  {
    if |msg| == 0 then []
    else if |msg| <= DATABYTES then Serialize(Frame(n, msg))
    else Serialize(Frame(n, msg[..DATABYTES])) + Blocks(msg[DATABYTES..], (n + 1) % 256)
  }

  /** The whole transmission: the blocks, then EOT. */
  function Transmission(msg: seq<byte>, n: byte): seq<ReadValue>
  {
    Blocks(msg, n) + [EOT as ReadValue]
  }

  /** k ACK bytes. */
  function Acks(k: nat): (a: seq<byte>)
    ensures |a| == k && forall i :: 0 <= i < k ==> a[i] == ACK
  {
    seq(k, _ => ACK)
  }

  /** One framed chunk at the head of the input is acknowledged and appended. */
  lemma ChunkDelivered(m: seq<byte>, n: byte, chunk: seq<byte>, rest: seq<ReadValue>)
    requires |chunk| <= DATABYTES && ETX !in chunk
    ensures Loop(m, Serialize(Frame(n, chunk)) + rest) == After([ACK], Loop(m + chunk, rest))
  {
    FrameAccepted(n, chunk);
    SerializedBlock(m, Frame(n, chunk), rest);
  }

  /** The blocks of a message without ETX are all acknowledged, and the
      message is appended whole, whatever the numbering. */
  lemma {:induction false} BlocksDelivered(m: seq<byte>, msg: seq<byte>, n: byte, rest: seq<ReadValue>)
    requires ETX !in msg
    ensures Loop(m, Blocks(msg, n) + rest) == After(Acks(BlockCount(msg)), Loop(m + msg, rest))
    decreases |msg|, 1
  {
    if |msg| == 0 {
      assert m + msg == m;
      assert Blocks(msg, n) + rest == rest;
      assert Acks(0) + Loop(m, rest).trace == Loop(m, rest).trace;
    } else if |msg| <= DATABYTES {
      ChunkDelivered(m, n, msg, rest);
      assert BlockCount(msg) == 1;
      assert Blocks(msg, n) + rest == Serialize(Frame(n, msg)) + rest;
    } else {
      SeveralBlocksDelivered(m, msg, n, rest);
    }
  }

  /** BlocksDelivered for a message of more than one block: the first block,
      then the others by induction. */
  lemma {:induction false} SeveralBlocksDelivered(m: seq<byte>, msg: seq<byte>, n: byte, rest: seq<ReadValue>)
    requires ETX !in msg && |msg| > DATABYTES
    ensures Loop(m, Blocks(msg, n) + rest) == After(Acks(BlockCount(msg)), Loop(m + msg, rest))
    decreases |msg|, 0
  {
    var head, tail := msg[..DATABYTES], msg[DATABYTES..];
    SplitWithoutEtx(msg, DATABYTES);
    BlocksDelivered(m + head, tail, (n + 1) % 256, rest);
    assert m + head + tail == m + msg;
    BlockCountStep(msg);
    AckedBefore(m, n, head, Blocks(tail, (n + 1) % 256) + rest, Loop(m + msg, rest), BlockCount(tail), BlockCount(msg));
    BlocksCons(msg, n, rest);
  }

  /** Both parts of a message without ETX are without ETX. */
  lemma SplitWithoutEtx(msg: seq<byte>, i: nat)
    requires ETX !in msg && i <= |msg|
    ensures ETX !in msg[..i] && ETX !in msg[i..] && msg == msg[..i] + msg[i..]
  {
    assert forall x :: x in msg[..i] ==> x in msg;
    assert forall x :: x in msg[i..] ==> x in msg;
  }

  /** The first block of a message of more than one block, then the others. */
  lemma BlocksCons(msg: seq<byte>, n: byte, rest: seq<ReadValue>)
    requires |msg| > DATABYTES
    ensures Blocks(msg, n) + rest
         == Serialize(Frame(n, msg[..DATABYTES])) + (Blocks(msg[DATABYTES..], (n + 1) % 256) + rest)
  {
  }

  /** A framed chunk in front of input that the loop acknowledges k times
      adds one more ACK in front. */
  lemma AckedBefore(m: seq<byte>, n: byte, chunk: seq<byte>, later: seq<ReadValue>, r: Run, k: nat, k': nat)
    requires |chunk| <= DATABYTES && ETX !in chunk && k' == k + 1
    requires Loop(m + chunk, later) == After(Acks(k), r)
    ensures Loop(m, Serialize(Frame(n, chunk)) + later) == After(Acks(k'), r)
  {
    ChunkDelivered(m, n, chunk, later);
    AcksCompose(Loop(m, Serialize(Frame(n, chunk)) + later), Loop(m + chunk, later), r, k);
  }

  /** One ACK in front of k ACKs. */
  lemma AcksCompose(a: Run, b: Run, r: Run, k: nat)
    requires a == After([ACK], b) && b == After(Acks(k), r)
    ensures a == After(Acks(k + 1), r)
  {
    AcksStep(k);
    assert [ACK] + (Acks(k) + r.trace) == Acks(k + 1) + r.trace;
  }

  lemma BlockCountStep(msg: seq<byte>)
    requires |msg| > DATABYTES
    ensures BlockCount(msg) == 1 + BlockCount(msg[DATABYTES..])
  {
  }

  lemma AcksStep(k: nat)
    ensures [ACK] + Acks(k) == Acks(k + 1)
  {
  }

  /** Round trip: a message without ETX, sent as blocks numbered from any n
      and closed by EOT, is received whole; the receiver writes its startup
      NAK, one ACK per block and one for EOT, and reads nothing after EOT. */
  lemma RoundTrip(msg: seq<byte>, n: byte, after: seq<ReadValue>)
    requires ETX !in msg
    ensures Receive(Transmission(msg, n) + after) == Run(msg, [NAK] + Acks(BlockCount(msg) + 1), Done, after)
  {
    var eot: seq<ReadValue> := [EOT as ReadValue] + after;
    assert Transmission(msg, n) + after == Blocks(msg, n) + eot;
    BlocksDelivered([], msg, n, eot);
    EotEnds([] + msg, after);
    assert Acks(BlockCount(msg)) + [ACK] == Acks(BlockCount(msg) + 1);
  }

  /** The block 01 05 FA 48 49 03 03 03 9A followed by EOT: the message is
      "HI" and, after the startup NAK, two ACKs are written. */
  lemma WorkedExample()
    ensures Receive([0x01, 0x05, 0xFA, 0x48, 0x49, 0x03, 0x03, 0x03, 0x9A, 0x04])
         == Run(['H' as int, 'I' as int], [NAK, ACK, ACK], Done, [])
  {
    var hi: seq<byte> := [0x48, 0x49];
    assert Frame(5, hi) == Block(0x05, 0xFA, [0x48, 0x49, 0x03, 0x03, 0x03], 0x9A);
    assert Transmission(hi, 5) + [] == [0x01, 0x05, 0xFA, 0x48, 0x49, 0x03, 0x03, 0x03, 0x9A, 0x04];
    RoundTrip(hi, 5, []);
  }
}
