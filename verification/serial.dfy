/** What the receiver sees of the serial port: the value returned by one
    blocking single-byte read. Opening, configuring and closing the port,
    timeouts and modem lines are not modelled. */
module Serial {
  import opened Protocol

  /** The result of `Serial::read()`: a byte 0..255, or -1 when the port is
      not open or the read failed. */
  type ReadValue = x: int | -1 <= x < 256

  const ReadFailed: ReadValue := -1

  /** The conversion `(unsigned char)bi` applied to a read result when it is
      stored into the block buffer: a byte stays itself, the error value
      becomes 0xFF (conversion to an unsigned type is modulo 256). */
  function AsUnsignedChar(v: ReadValue): (b: byte)
    ensures v != ReadFailed ==> b == v
    ensures v == ReadFailed ==> b == 0xFF
  {
    v % 256
  }

  /** The conversion applied to every element of a run of read results. */
  function AsBytes(vs: seq<ReadValue>): (bs: seq<byte>)
    ensures |bs| == |vs|
    ensures forall i :: 0 <= i < |vs| ==> bs[i] == AsUnsignedChar(vs[i])
  {
    seq(|vs|, i requires 0 <= i < |vs| => AsUnsignedChar(vs[i]))
  }

  /** Read results that are all real bytes (no read failed) convert to
      themselves. */
  lemma AsBytesOfBytes(bs: seq<byte>)
    ensures AsBytes(bs) == bs
  {
  }
}
