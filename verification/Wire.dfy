/** The 32-byte STP header and the packet around it (protocol.rs). */
module Wire {
  import opened Numbers

  const HEADER_SIZE: nat := 32

  datatype Header = Header(packetNumber: u64, timestamp: u64, latestAck: u64, ackTimestampEcho: u64)

  datatype Packet = Packet(header: Header, payload: bytes)

  function Pow256(n: nat): (p: nat)
    ensures p > 0
  {
    if n == 0 then 1 else 256 * Pow256(n - 1)
  }

  /** The `n` low-order bytes of `x`, most significant first. */
  function BigEndian(x: nat, n: nat): (b: bytes)
    ensures |b| == n
  {
    if n == 0 then [] else BigEndian(x / 256, n - 1) + [x % 256]
  }

  function FromBigEndian(b: bytes): (x: nat)
    ensures x < Pow256(|b|)
  {
    if b == [] then 0 else 256 * FromBigEndian(b[..|b| - 1]) + b[|b| - 1]
  }

  lemma AppendDigit(b: bytes, d: byte)
    ensures FromBigEndian(b + [d]) == 256 * FromBigEndian(b) + d
  {
    assert (b + [d])[..|b|] == b;
  }

  lemma SplitDigit(x: nat, n: nat)
    requires n > 0 && x < Pow256(n)
    ensures x / 256 < Pow256(n - 1) && x == 256 * (x / 256) + x % 256
  {
  }

  lemma {:induction false} BigEndianInverse(x: nat, n: nat)
    requires x < Pow256(n)
    ensures FromBigEndian(BigEndian(x, n)) == x
  {
    if n > 0 {
      hide FromBigEndian, Pow256;
      SplitDigit(x, n);
      BigEndianInverse(x / 256, n - 1);
      AppendDigit(BigEndian(x / 256, n - 1), x % 256);
    }
  }

  lemma {:induction false} FromBigEndianInverse(b: bytes)
    ensures BigEndian(FromBigEndian(b), |b|) == b
  {
    if b != [] {
      FromBigEndianInverse(b[..|b| - 1]);
      assert b == b[..|b| - 1] + [b[|b| - 1]];
    }
  }

  lemma EightBytes()
    ensures Pow256(8) == U64_LIMIT
  {
    assert Pow256(4) == 0x1_0000_0000;
  }

  function U64Bytes(x: u64): (b: bytes)
    ensures |b| == 8
  {
    BigEndian(x, 8)
  }

  function BytesU64(b: bytes): u64
    requires |b| == 8
  {
    EightBytes();
    FromBigEndian(b)
  }

  function EncodeHeader(h: Header): (b: bytes)
    ensures |b| == HEADER_SIZE
  {
    U64Bytes(h.packetNumber) + U64Bytes(h.timestamp) + U64Bytes(h.latestAck) + U64Bytes(h.ackTimestampEcho)
  }

  function DecodeHeader(b: bytes): (r: Option<Header>)
    ensures r.Some? <==> |b| >= HEADER_SIZE
  {
    if |b| < HEADER_SIZE then None
    else Some(Header(BytesU64(b[0..8]), BytesU64(b[8..16]), BytesU64(b[16..24]), BytesU64(b[24..32])))
  }

  function Encode(p: Packet): (b: bytes)
    ensures |b| == HEADER_SIZE + |p.payload|
  {
    EncodeHeader(p.header) + p.payload
  }

  function Decode(d: bytes): (r: Option<Packet>)
    ensures r.Some? <==> |d| >= HEADER_SIZE
    ensures r.Some? ==> r.value.payload == d[HEADER_SIZE..]
  {
    if |d| < HEADER_SIZE then None
    else Some(Packet(DecodeHeader(d[0..HEADER_SIZE]).value, d[HEADER_SIZE..]))
  }

  /** Byte `i` of the encoding is the `i`-th most significant digit of `x` in base 256. */
  lemma {:induction false} BigEndianDigit(x: nat, n: nat, i: nat)
    requires i < n
    ensures BigEndian(x, n)[i] == x / Pow256(n - 1 - i) % 256
  {
    if i < n - 1 {
      BigEndianDigit(x / 256, n - 1, i);
      var p := Pow256(n - 2 - i);
      DivDiv(x, p);
    }
  }

  lemma DivDiv(x: nat, p: nat)
    requires p > 0
    ensures x / 256 / p == x / (256 * p)
  {
    var q := x / 256 / p;
    var r := x / 256 % p;
    assert x / 256 == p * q + r;
    assert x == (256 * p) * q + (256 * r + x % 256);
    QuotientUnique(x, 256 * p, q, 256 * r + x % 256);
  }

  lemma BetweenMultiples(d: int, k: int)
    requires -d < d * k < d
    ensures k == 0
  {
    assert k >= 1 ==> d * k >= d;
    assert k <= -1 ==> d * -k >= d;
  }

  lemma QuotientUnique(x: nat, d: int, q: nat, r: nat)
    requires d > 0 && x == d * q + r && r < d
    ensures x / d == q
  {
    var k := x / d - q;
    assert d * k == r - x % d;
    assert -d < d * k < d;
    BetweenMultiples(d, k);
  }

  /** Where each header field sits: packet number, timestamp, latest ACK and echo, in
      that order, eight bytes each, most significant byte first; then the payload. */
  lemma PacketLayout(p: Packet, i: nat)
    requires i < 8
    ensures Encode(p)[i] == p.header.packetNumber / Pow256(7 - i) % 256
    ensures Encode(p)[8 + i] == p.header.timestamp / Pow256(7 - i) % 256
    ensures Encode(p)[16 + i] == p.header.latestAck / Pow256(7 - i) % 256
    ensures Encode(p)[24 + i] == p.header.ackTimestampEcho / Pow256(7 - i) % 256
    ensures Encode(p)[32..] == p.payload
  {
    BigEndianDigit(p.header.packetNumber, 8, i);
    BigEndianDigit(p.header.timestamp, 8, i);
    BigEndianDigit(p.header.latestAck, 8, i);
    BigEndianDigit(p.header.ackTimestampEcho, 8, i);
  }

  lemma U64RoundTrip(x: u64)
    ensures BytesU64(U64Bytes(x)) == x
  {
    EightBytes();
    BigEndianInverse(x, 8);
  }

  lemma HeaderRoundTrip(h: Header)
    ensures DecodeHeader(EncodeHeader(h)) == Some(h)
  {
    var b := EncodeHeader(h);
    U64RoundTrip(h.packetNumber);
    U64RoundTrip(h.timestamp);
    U64RoundTrip(h.latestAck);
    U64RoundTrip(h.ackTimestampEcho);
    assert b[0..8] == U64Bytes(h.packetNumber);
    assert b[8..16] == U64Bytes(h.timestamp);
    assert b[16..24] == U64Bytes(h.latestAck);
    assert b[24..32] == U64Bytes(h.ackTimestampEcho);
  }

  /** Decoding undoes encoding, for every packet. */
  lemma DecodeEncode(p: Packet)
    ensures Decode(Encode(p)) == Some(p)
  {
    HeaderRoundTrip(p.header);
    var d := Encode(p);
    assert d[0..HEADER_SIZE] == EncodeHeader(p.header);
    assert d[HEADER_SIZE..] == p.payload;
  }

  /** Encoding undoes decoding, for every datagram long enough to hold a header. */
  lemma EncodeDecode(d: bytes)
    requires |d| >= HEADER_SIZE
    ensures Encode(Decode(d).value) == d
  {
    var b := d[0..HEADER_SIZE];
    FromBigEndianInverse(b[0..8]);
    FromBigEndianInverse(b[8..16]);
    FromBigEndianInverse(b[16..24]);
    FromBigEndianInverse(b[24..32]);
    assert b == b[0..8] + b[8..16] + b[16..24] + b[24..32];
    assert d == b + d[HEADER_SIZE..];
  }

  /** Two datagrams with equal contents after decoding are the same datagram. */
  lemma DecodeInjective(d1: bytes, d2: bytes)
    requires Decode(d1).Some? && Decode(d1) == Decode(d2)
    ensures d1 == d2
  {
    EncodeDecode(d1);
    EncodeDecode(d2);
  }

  /** The growable buffer that headers are written into. */
  class BytesMut {
    var data: bytes

    constructor ()
      ensures data == []
    {
      data := [];
    }

    method PutU64(x: u64)
      modifies this
      ensures data == old(data) + U64Bytes(x)
    {
      data := data + U64Bytes(x);
    }

    method PutSlice(s: bytes)
      modifies this
      ensures data == old(data) + s
    {
      data := data + s;
    }

    method PutHeader(h: Header)
      modifies this
      ensures data == old(data) + EncodeHeader(h)
    {
      PutU64(h.packetNumber);
      PutU64(h.timestamp);
      PutU64(h.latestAck);
      PutU64(h.ackTimestampEcho);
    }
  }

  /** Packet encoding as the program does it, through a buffer. */
  method EncodeThroughBuffer(p: Packet) returns (b: bytes)
    ensures b == Encode(p)
    ensures Decode(b) == Some(p)
  {
    var buf := new BytesMut();
    buf.PutHeader(p.header);
    buf.PutSlice(p.payload);
    b := buf.data;
    DecodeEncode(p);
  }
}
