# Simplified XMODEM receiver, modelled in Dafny

This project models the receiving side of a simplified XMODEM exchange over a
serial line. A transmission is a series of nine-byte blocks:

    | SOH | n | 255-n | data (5 bytes) | checksum |

followed by EOT. The receiver works like this:

- It announces that it is ready with one NAK.
- It waits for a control byte, ignoring everything that is neither SOH nor EOT.
- On SOH it reads the eight remaining bytes of the block.
- It rejects the block with NAK when the second header byte is not the
  complement `(unsigned char)(255 - n)` of the first.
- It also rejects the block with NAK when the checksum byte differs from the
  sum of the five data bytes modulo 256.
- Otherwise it appends the data bytes other than the padding byte ETX to the
  message and answers ACK.
- On EOT it answers ACK and stops.

The modules follow the program's structure:

- `Protocol` (`protocol.dfy`): the control bytes, the block geometry, the
  `Block` record and its wire form, the checksum, the complement, the removal
  of ETX padding, and the verdict on a block.
- `Serial` (`serial.dfy`): the value a blocking single-byte read returns. This
  is 0..255, or -1 when the read failed. It also gives the conversion
  `(unsigned char)` the program applies when it stores a read result in the
  block buffer. That conversion is modulo 256, so -1 is stored as 0xFF.
- `Receiver` (`receiver.dfy`): the receive loop as a pure state machine.
  - `NextStep` is one pass of the loop.
  - `Loop` is the loop run over a sequence of read results.
  - `Receive` is the startup NAK followed by the loop from an empty message.

  A run yields the message, every byte written back, how the run ended and
  the read results left unread. A read that would block for ever is modelled
  as the end of the input, with outcome `InputExhausted`.
- `ReceiverProperties` (`receiver_properties.dfy`) has one lemma per
  transition and the properties of whole runs:
  - only ACK and NAK are written;
  - at most one reply is written per control byte;
  - the message only grows, never holds ETX, and gains at most five bytes per
    ACK;
  - nothing after EOT is read;
  - a failed read while waiting is noise, and inside a block it is treated
    exactly like a received 0xFF;
  - the sequence byte is never checked against a counter, so a repeated block
    is appended twice.
- `Framing` (`framing.dfy`) is the sender the receiver expects: chunks of at
  most five bytes, padded with ETX and framed with any starting sequence
  number (wrapping after 255). It is the reference for the round trip: a
  message without ETX, sent this way and closed with EOT, is received whole.
  The receiver then writes its NAK, one ACK per block and one ACK for EOT.
- `ReceiverLoop` (`receiver_loop.dfy`) is the loop written as the program runs
  it. It fills the buffer one read at a time, sums the data bytes in a loop
  and copies the data bytes one by one. It is proved to compute exactly what
  `Receiver.Receive` computes.

A failed read is not told apart from data. While the receiver waits for a
control byte, a -1 is skipped like any other noise (line 50). Inside a block
it is stored as 0xFF (lines 56-59). The session never ends because a read
failed.

## Model

| member | source | states |
|---|---|---|
| `Protocol.Serialize` | X-Modem-2025-RX---easy/X-Modem-2025-RX---easy.cpp:13-17 | a block is nine bytes on the wire: SOH, n, the complement byte, the five data bytes at offsets 3..7, and the checksum at offset 8 |
| `Protocol.Checksum5` | X-Modem-2025-RX---easy/X-Modem-2025-RX---easy.cpp:19-23 | the checksum is the sum of the five data bytes reduced modulo 256 |
| `Protocol.SumOfFive` | X-Modem-2025-RX---easy/X-Modem-2025-RX---easy.cpp:20-21 | the left-to-right running sum of a five-byte field equals the sum of its five bytes |
| `Protocol.ChecksumDetectsSingleByteChange` | X-Modem-2025-RX---easy/X-Modem-2025-RX---easy.cpp:19-23 | changing any single data byte to any other value always changes the checksum |
| `Protocol.Complement` | X-Modem-2025-RX---easy/X-Modem-2025-RX---easy.cpp:64 | the expected second header byte added to n gives 255 |
| `Protocol.StripPadding` | X-Modem-2025-RX---easy/X-Modem-2025-RX---easy.cpp:76-80 | the kept bytes hold no ETX, are no more than the data bytes, and every byte other than ETX occurs as often as in the data |
| `Protocol.StripPaddingAppend` | X-Modem-2025-RX---easy/X-Modem-2025-RX---easy.cpp:77-80 | dropping ETX from two pieces one after the other equals dropping it from their concatenation, so order is kept |
| `Protocol.StripPaddingKeeps` | X-Modem-2025-RX---easy/X-Modem-2025-RX---easy.cpp:77-80 | data without ETX is appended unchanged |
| `Protocol.StripPaddingAllEtx` | X-Modem-2025-RX---easy/X-Modem-2025-RX---easy.cpp:77-80 | a field of nothing but ETX adds nothing to the message |
| `Protocol.Padding` | X-Modem-2025-RX---easy/X-Modem-2025-RX---easy.cpp:8 | k padding bytes are k copies of ETX |
| `Protocol.Validate` | X-Modem-2025-RX---easy/X-Modem-2025-RX---easy.cpp:61-80 | a block is accepted if and only if the complement and the checksum both match; it is a complement mismatch if and only if the complement is wrong; it is a checksum mismatch if and only if the complement matches and the checksum does not; an accepted block's payload is its data field with every ETX removed, so it has no ETX and at most five bytes |
| `Serial.AsUnsignedChar` | X-Modem-2025-RX---easy/X-Modem-2025-RX---easy.cpp:58 | the cast `(unsigned char)bi` stores a byte read as itself, and stores as 0xFF the -1 that `Serial::read` returns on failure (Serial.cpp lines 150-166) |
| `Serial.AsBytes` | X-Modem-2025-RX---easy/X-Modem-2025-RX---easy.cpp:56-59 | each read result of a run is stored with the unsigned-char conversion, one for one |
| `Serial.AsBytesOfBytes` | X-Modem-2025-RX---easy/X-Modem-2025-RX---easy.cpp:56-59 | when no read failed, the buffer holds exactly the bytes received |
| `Receiver.ReadBlock` | X-Modem-2025-RX---easy/X-Modem-2025-RX---easy.cpp:52-59 | buffer offset i+1 holds the converted value of the i-th read after SOH |
| `Receiver.DataOf` | X-Modem-2025-RX---easy/X-Modem-2025-RX---easy.cpp:70 | the data field seen by the checks is five bytes long, and byte i holds the converted read at offset 3 + i of the block |
| `Receiver.NextStep` | X-Modem-2025-RX---easy/X-Modem-2025-RX---easy.cpp:44-82 | every pass of the loop consumes at least one read result and no more than there are |
| `Receiver.BlockFields` | X-Modem-2025-RX---easy/X-Modem-2025-RX---easy.cpp:62-74 | the buffer's n, complement, checksum and data fields are the converted reads at offsets 1, 2, 8 and 3..7; the block has a complement mismatch if and only if the complement read is wrong, and it is accepted if and only if both checks pass on the reads |
| `Receiver.StepTransitions` | X-Modem-2025-RX---easy/X-Modem-2025-RX---easy.cpp:44-82 | each kind of pass happens exactly when its condition holds. EOT gives ACK and stops. Any other non-SOH value is skipped silently. SOH with too few reads left never completes. A full block gives one NAK and no change when either check fails, and one ACK plus its data without ETX when both pass |
| `Receiver.Loop` | X-Modem-2025-RX---easy/X-Modem-2025-RX---easy.cpp:44-83 | the loop never leaves more input unread than it was given, and a run that ran out of input has read all of it; what each pass does is stated by `Receiver.StepTransitions` and `ReceiverProperties.LoopUnfold`, and the whole-run properties are stated by the `ReceiverProperties` lemmas below |
| `Receiver.Receive` | X-Modem-2025-RX---easy/X-Modem-2025-RX---easy.cpp:40-83 | the first byte written is the startup NAK, and no more input is consumed than given; the rest is stated by `ReceiverProperties.ReplyDiscipline` and `Framing.RoundTrip` |
| `ReceiverProperties.NoiseIgnored` | X-Modem-2025-RX---easy/X-Modem-2025-RX---easy.cpp:50 | a value that is neither SOH nor EOT, a failed read included, leaves the rest of the run as it would have been |
| `ReceiverProperties.NoiseRunIgnored` | X-Modem-2025-RX---easy/X-Modem-2025-RX---easy.cpp:45-50 | any stretch of such values in front of the input changes nothing in the run |
| `ReceiverProperties.EotEnds` | X-Modem-2025-RX---easy/X-Modem-2025-RX---easy.cpp:46-49 | on EOT the loop writes one ACK, ends with the message so far, and reads nothing after it |
| `ReceiverProperties.RejectedBlock` | X-Modem-2025-RX---easy/X-Modem-2025-RX---easy.cpp:61-74 | a full block that fails either check gets one NAK, leaves the message unchanged, and the loop continues after its nine bytes |
| `ReceiverProperties.AcceptedBlock` | X-Modem-2025-RX---easy/X-Modem-2025-RX---easy.cpp:76-82 | a full block that passes both checks gets one ACK, its data without ETX is appended, and the loop continues after its nine bytes |
| `ReceiverProperties.TruncatedBlock` | X-Modem-2025-RX---easy/X-Modem-2025-RX---easy.cpp:56-59 | a SOH followed by fewer than eight reads never completes: nothing is written and nothing appended |
| `ReceiverProperties.ReadBlockOfSerialize` | X-Modem-2025-RX---easy/X-Modem-2025-RX---easy.cpp:52-59 | a block's wire form read back fills the buffer with that block's fields, and it passes the loop's checks if and only if it is accepted |
| `ReceiverProperties.SerializedBlock` | X-Modem-2025-RX---easy/X-Modem-2025-RX---easy.cpp:52-82 | a block's wire form at the head of the input gets exactly the reply its verdict calls for, and an accepted payload is appended |
| `ReceiverProperties.DuplicateBlockAppendedTwice` | X-Modem-2025-RX---easy/X-Modem-2025-RX---easy.cpp:61-82 | the same valid block sent twice is acknowledged twice and its data appended twice, because n is never compared with a counter |
| `ReceiverProperties.CorruptedChecksumRejected` | X-Modem-2025-RX---easy/X-Modem-2025-RX---easy.cpp:69-74 | replacing the checksum byte of a valid block with any other value gets one NAK and leaves the message unchanged |
| `ReceiverProperties.CorruptedComplementRejected` | X-Modem-2025-RX---easy/X-Modem-2025-RX---easy.cpp:61-67 | replacing the complement byte of a valid block with any other value gets one NAK and leaves the message unchanged |
| `ReceiverProperties.FailedReadInBlockIsFF` | X-Modem-2025-RX---easy/X-Modem-2025-RX---easy.cpp:56-59 | a failed read inside a block is handled exactly as if 0xFF had been received |
| `ReceiverProperties.StepIndependentOfMessage` | X-Modem-2025-RX---easy/X-Modem-2025-RX---easy.cpp:44-82 | what a pass decides and writes does not depend on the message so far; it only appends to it |
| `ReceiverProperties.LoopUnfold` | X-Modem-2025-RX---easy/X-Modem-2025-RX---easy.cpp:44-83 | the loop stops after EOT and after a block that never completes; after any other pass it writes that pass's reply and continues after the consumed reads |
| `ReceiverProperties.MessageOnlyGrows` | X-Modem-2025-RX---easy/X-Modem-2025-RX---easy.cpp:42-82 | a run appends to the message it starts from exactly what it would build from an empty one, with the same replies, outcome and unread rest |
| `ReceiverProperties.RepliesAreAckOrNak` | X-Modem-2025-RX---easy/X-Modem-2025-RX---easy.cpp:44-82 | the loop writes only ACK and NAK, and a run ended by EOT ends with an ACK |
| `ReceiverProperties.OneReplyPerControlByte` | X-Modem-2025-RX---easy/X-Modem-2025-RX---easy.cpp:44-82 | the loop writes no more replies than there are SOH and EOT values in its input |
| `ReceiverProperties.MessageGrowth` | X-Modem-2025-RX---easy/X-Modem-2025-RX---easy.cpp:76-80 | the message keeps what it had as a prefix, grows by at most five bytes per ACK written, and gains no ETX |
| `ReceiverProperties.RestIsSuffix` | X-Modem-2025-RX---easy/X-Modem-2025-RX---easy.cpp:44-49 | a run that ran out of input read all of it; a run ended by EOT leaves unread exactly a suffix of its input |
| `ReceiverProperties.ReplyDiscipline` | X-Modem-2025-RX---easy/X-Modem-2025-RX---easy.cpp:40-83 | the whole output is the startup NAK followed only by ACKs and NAKs, at most one per SOH or EOT; a run ended by EOT ends with ACK; the message has no ETX and at most five bytes per ACK |
| `Framing.Pad` | X-Modem-2025-RX---easy/X-Modem-2025-RX---easy.cpp:8 | a padded chunk starts with the chunk and is ETX after it |
| `Framing.Frame` | X-Modem-2025-RX---easy/X-Modem-2025-RX---easy.cpp:13-23 | a framed chunk carries its sequence byte, a complement byte that adds with it to 255, the chunk padded with ETX as its data, and the checksum of that data |
| `Framing.Acks` | X-Modem-2025-RX---easy/X-Modem-2025-RX---easy.cpp:82 | k replies, each of them ACK |
| `Framing.FrameAccepted` | X-Modem-2025-RX---easy/X-Modem-2025-RX---easy.cpp:61-80 | a framed chunk without ETX is accepted under any sequence byte and yields exactly that chunk |
| `Framing.PadStripped` | X-Modem-2025-RX---easy/X-Modem-2025-RX---easy.cpp:77-80 | the receiver's copy loop turns a padded chunk without ETX back into the chunk |
| `Framing.ChunkDelivered` | X-Modem-2025-RX---easy/X-Modem-2025-RX---easy.cpp:52-82 | a framed chunk at the head of the input gets one ACK and is appended |
| `Framing.BlocksDelivered` | X-Modem-2025-RX---easy/X-Modem-2025-RX---easy.cpp:44-82 | all blocks of a message without ETX are acknowledged, one ACK each, and the whole message is appended, whatever the first sequence byte |
| `Framing.SeveralBlocksDelivered` | X-Modem-2025-RX---easy/X-Modem-2025-RX---easy.cpp:44-82 | the same for a message of more than one block, the first block and then the others |
| `Framing.AckedBefore` | X-Modem-2025-RX---easy/X-Modem-2025-RX---easy.cpp:52-82 | a framed chunk in front of input that gets k ACKs makes it get k+1 |
| `Framing.RoundTrip` | X-Modem-2025-RX---easy/X-Modem-2025-RX---easy.cpp:40-83 | a message without ETX, sent as blocks and closed with EOT, is received exactly; the receiver writes NAK, then one ACK per block and one for EOT, ends with `Done`, and leaves whatever follows EOT unread |
| `Framing.WorkedExample` | X-Modem-2025-RX---easy/X-Modem-2025-RX---easy.cpp:40-83 | the input 01 05 FA 48 49 03 03 03 9A 04 gives the message "HI" and the replies NAK, ACK, ACK |
| `ReceiverLoop.RunReceiver` | X-Modem-2025-RX---easy/X-Modem-2025-RX---easy.cpp:40-83 | the loop as the program runs it gives the same message, replies, outcome and unread input as the state-machine model, and reads no more than its input |
| `ReceiverLoop.ReadBlockBody` | X-Modem-2025-RX---easy/X-Modem-2025-RX---easy.cpp:52-59 | after SOH the buffer is complete if and only if eight more reads are available; it then holds SOH followed by their converted values |
| `ReceiverLoop.CheckBlock` | X-Modem-2025-RX---easy/X-Modem-2025-RX---easy.cpp:61-82 | the checks made byte by byte on the buffer agree with the block's verdict: ACK and the payload appended when it is accepted, otherwise NAK and the message unchanged |
| `ReceiverLoop.BlockAt` | X-Modem-2025-RX---easy/X-Modem-2025-RX---easy.cpp:52-82 | a checked buffer filled from the input takes the loop one block further with that block's reply |
| `ReceiverLoop.NoiseAt` | X-Modem-2025-RX---easy/X-Modem-2025-RX---easy.cpp:50 | noise at any position of the input is skipped |
| `ReceiverLoop.EotAt` | X-Modem-2025-RX---easy/X-Modem-2025-RX---easy.cpp:46-49 | EOT at any position of the input ends the loop with one ACK and leaves the rest unread |

## Left out

- Opening, configuring and closing the port, the console prompt and the
  final printout (lines 26-39 and 85-88) are I/O outside the protocol. Port
  naming, baud rate and modem lines are left out for the same reason.
- The other members of `Serial` (`read(char*, int)`, `readLine`,
  `dataAvailable`, the string and buffer `write` overloads, RTS/DTR/CTS/DSR)
  are not used by the receive loop.
- Blocking reads and timeouts are not modelled as time. A read that never
  returns is the end of the input sequence, with outcome `InputExhausted`.
- Writes to the port are modelled as the `trace` of bytes written back. A
  failed write is not modelled, because the program ignores it.
- The sender is not part of the repository. `Framing` is a reference
  definition of what the receiver expects, not a model of existing code.
- `Receiver.NextStep`: its own contract states only how many read results a
  pass consumes. What the pass does is stated by `Receiver.StepTransitions`,
  so that proofs about whole runs stay small.
- `Receiver.Loop` and `Receiver.Receive`: their own contracts state only
  the bounds on the unread input and the startup NAK. What they compute is
  stated by the lemmas named in their rows, so that the recursion stays cheap
  to unfold.
