/** The wire format of the simplified XMODEM block: control bytes, block
    geometry, the additive checksum, block validation and the removal of
    ETX padding from an accepted payload. */
module Protocol {

  /** An unsigned char. */
  type byte = x: int | 0 <= x < 256

  // Control bytes
  const SOH: byte := 0x01  // start of a block
  const ETX: byte := 0x03  // payload padding
  const EOT: byte := 0x04  // end of transmission
  const ACK: byte := 0x06  // block (or EOT) accepted
  const NAK: byte := 0x15  // block rejected, or receiver ready

  // Block geometry: | SOH | n | 255-n | data (5) | checksum |
  const DATABYTES: nat := 5
  const BLOCKSIZE: nat := 3 + DATABYTES + 1

  /** The fixed-width data field of a block. */
  type Payload = d: seq<byte> | |d| == DATABYTES witness [0, 0, 0, 0, 0]

  /** A block as it sits in the receiver's buffer after the SOH byte. */
  datatype Block = Block(n: byte, inv: byte, data: Payload, check: byte)

  /** The block's bytes on the wire, SOH included. */
  function Serialize(b: Block): (w: seq<byte>)
    ensures |w| == BLOCKSIZE
    ensures w[0] == SOH && w[1] == b.n && w[2] == b.inv && w[8] == b.check
    ensures w[3..8] == b.data
  {
    [SOH, b.n, b.inv] + b.data + [b.check]
  }

  /** Sum of the bytes, accumulated left to right. */
  function Sum(d: seq<byte>): nat
  {
    if |d| == 0 then 0 else Sum(d[..|d| - 1]) + d[|d| - 1]
  }

  /** The checksum of a data field: the sum of its bytes, truncated to a byte. */
  function Checksum5(d: Payload): (r: byte)
    ensures r == (d[0] as int + d[1] + d[2] + d[3] + d[4]) % 256
  {
    SumOfFive(d);
    Sum(d) % 256
  }

  lemma SumOfFive(d: Payload)
    ensures Sum(d) == d[0] as int + d[1] + d[2] + d[3] + d[4]
  {
    assert d[..4][..3] == d[..3];
    assert d[..3][..2] == d[..2];
    assert d[..2][..1] == d[..1];
    assert d[..1][..0] == [];
    assert Sum(d[..1]) == d[0];
    assert Sum(d[..2]) == d[0] as int + d[1];
    assert Sum(d[..3]) == d[0] as int + d[1] + d[2];
    assert Sum(d[..4]) == d[0] as int + d[1] + d[2] + d[3];
  }

  /** Changing any one data byte always changes the checksum. */
  lemma ChecksumDetectsSingleByteChange(d: Payload, i: nat, v: byte)
    requires i < DATABYTES && v != d[i]
    ensures Checksum5(d[i := v]) != Checksum5(d)
  {
    var d' := d[i := v];
    var s := d[0] as int + d[1] + d[2] + d[3] + d[4];
    var s' := d'[0] as int + d'[1] + d'[2] + d'[3] + d'[4];
    assert s' == s + (v - d[i]);
    ModDiffers(s, v - d[i]);
  }

  /** Adding a non-zero amount smaller than 256 in magnitude moves the residue. */
  lemma ModDiffers(s: int, k: int)
    requires 0 < k < 256 || -256 < k < 0
    ensures (s + k) % 256 != s % 256
  {
    assert s == 256 * (s / 256) + s % 256;
    assert s + k == 256 * ((s + k) / 256) + (s + k) % 256;
  }

  /** The value the header check expects in the second header byte:
      (unsigned char)(255 - n). */
  function Complement(n: byte): (c: byte)
    ensures c + n == 255
  {
    (255 - n) % 256
  }

  /** Why a block was rejected, in the order the checks are made. */
  datatype Verdict = Accepted(payload: seq<byte>) | ComplementMismatch | ChecksumMismatch

  /** The data bytes of the field with every ETX dropped, order kept. */
  function StripPadding(d: seq<byte>): (r: seq<byte>)
    ensures ETX !in r
    ensures |r| <= |d|
    ensures forall x: byte {:trigger multiset(r)[x]} :: x != ETX ==> multiset(r)[x] == multiset(d)[x]
  {
    if |d| == 0 then []
    else
      var init := d[..|d| - 1];
      assert d == init + [d[|d| - 1]];
      StripPadding(init) + (if d[|d| - 1] == ETX then [] else [d[|d| - 1]])
  }

  /** Header check first, then the checksum; an accepted block yields its
      data without padding. */
  function Validate(b: Block): (v: Verdict)
    ensures v.Accepted? <==> b.inv == 255 - b.n && b.check == Checksum5(b.data)
    ensures v == ComplementMismatch <==> b.inv != 255 - b.n
    ensures v == ChecksumMismatch <==> b.inv == 255 - b.n && b.check != Checksum5(b.data)
    ensures v.Accepted? ==> v.payload == StripPadding(b.data)
    ensures v.Accepted? ==> ETX !in v.payload && |v.payload| <= DATABYTES
  {
    if Complement(b.n) != b.inv then ComplementMismatch
    else if Checksum5(b.data) != b.check then ChecksumMismatch
    else Accepted(StripPadding(b.data))
  }

  /** Stripping distributes over concatenation. */
  lemma {:induction false} StripPaddingAppend(a: seq<byte>, b: seq<byte>)
    ensures StripPadding(a + b) == StripPadding(a) + StripPadding(b)
    decreases |b|
  {
    if |b| == 0 {
      assert a + b == a;
    } else {
      var b' := b[..|b| - 1];
      assert (a + b)[..|a + b| - 1] == a + b';
      StripPaddingAppend(a, b');
    }
  }

  /** Data without ETX passes through unchanged. */
  lemma {:induction false} StripPaddingKeeps(d: seq<byte>)
    requires ETX !in d
    ensures StripPadding(d) == d
    decreases |d|
  {
    if |d| > 0 {
      var init := d[..|d| - 1];
      assert d == init + [d[|d| - 1]];
      StripPaddingKeeps(init);
    }
  }

  /** A run of ETX bytes strips to nothing. */
  lemma {:induction false} StripPaddingAllEtx(k: nat)
    ensures StripPadding(Padding(k)) == []
  {
    if k > 0 {
      var p := Padding(k);
      assert p[..k - 1] == Padding(k - 1);
      assert p[k - 1] == ETX;
      StripPaddingAllEtx(k - 1);
    }
  }

  /** k ETX bytes. */
  function Padding(k: nat): (p: seq<byte>)
    ensures |p| == k && forall i :: 0 <= i < k ==> p[i] == ETX
  {
    seq(k, _ => ETX)
  }
}
