/** ICMP as src/icmp.c handles it (RFC 792): the echo reply built from a
    received echo request, and the destination-unreachable message that
    quotes the IP header and first 8 data bytes of the offending datagram.
    The 8-byte header is type, code, checksum, id and sequence number; the
    checksum covers the whole message with its own field zeroed. */
module Icmp {
  import opened Bytes

  const HeaderLen: nat := 8
  const TypeEchoReply: byte := 0
  const TypeUnreach: byte := 3
  const TypeEchoRequest: byte := 8
  const CodeProtocolUnreach: byte := 2
  /** The IP header and first 8 data bytes quoted by an unreachable message. */
  const QuoteLen: nat := 28

  /** The message with its checksum field (bytes 2-3) zeroed. */
  function ZeroedChecksum(m: seq<byte>): (r: seq<byte>)
    requires |m| >= 4
    ensures |r| == |m|
  {
    m[..2] + [0, 0] + m[4..]
  }

  /** The checksum stored big-endian in bytes 2-3 is that of the message
      with the field zeroed. */
  predicate ChecksumOk(cs: seq<byte> -> Word16, m: seq<byte>)
    requires |m| >= 4
  {
    cs(ZeroedChecksum(m)) == Read16(m, 2)
  }

  /** A message whose checksum field is zero, with the checksum of the
      whole of it stored in that field. */
  function WithChecksum(cs: seq<byte> -> Word16, z: seq<byte>): seq<byte>
    requires |z| >= 4
  {
    z[..2] + BE16(cs(z)) + z[4..]
  }

  /** Storing the checksum is undone by zeroing the field again, and the
      result carries a valid checksum; nothing outside bytes 2-3 moves. */
  lemma WithChecksumOk(cs: seq<byte> -> Word16, z: seq<byte>)
    requires |z| >= 4 && z[2] == 0 && z[3] == 0
    ensures var m := WithChecksum(cs, z);
      && |m| == |z|
      && ZeroedChecksum(m) == z
      && ChecksumOk(cs, m)
      && m[..2] == z[..2] && m[4..] == z[4..]
  {
    var m := WithChecksum(cs, z);
    assert m[..2] == z[..2] && m[4..] == z[4..];
    assert ZeroedChecksum(m) == z[..2] + z[2..4] + z[4..];
    assert m[2..4] == BE16(cs(z));
  }

  /** A received message is an echo request: at least a header long, type
      8 and code 0. */
  predicate IsEchoRequest(m: seq<byte>)
  {
    |m| >= HeaderLen && m[0] == TypeEchoRequest && m[1] == 0
  }

  /** The reply icmp_in sends: a copy of the request with type 0, code 0
      and a fresh checksum; id, sequence number and data are echoed. */
  function EchoReply(cs: seq<byte> -> Word16, m: seq<byte>): seq<byte>
    requires |m| >= HeaderLen
  {
    WithChecksum(cs, [TypeEchoReply, 0, 0, 0] + m[4..])
  }

  /** The message icmp_unreachable sends for a datagram d: type 3, the
      given code, id and sequence number 0, then the first 28 bytes of d. */
  function Unreachable(cs: seq<byte> -> Word16, d: seq<byte>, code: byte): seq<byte>
    requires |d| >= QuoteLen
  {
    WithChecksum(cs, [TypeUnreach, code, 0, 0, 0, 0, 0, 0] + d[..QuoteLen])
  }

  /** The body of icmp_in's reply: copy the request (buf_copy), then set
      type and code, zero the checksum and store the checksum of the whole
      copy. */
  method BuildEchoReply(cs: seq<byte> -> Word16, m: seq<byte>) returns (r: seq<byte>)
    requires |m| >= HeaderLen
    ensures r == EchoReply(cs, m)
  {
    r := m;
    r := r[0 := TypeEchoReply];
    r := r[1 := 0];
    r := Write16(r, 2, 0);
    ghost var z := [TypeEchoReply, 0, 0, 0] + m[4..];
    assert r == z by {
      assert r[..4] == z[..4] && r[4..] == z[4..];
      assert r == r[..4] + r[4..];
    }
    r := Write16(r, 2, cs(r));
  }

  /** The body of icmp_unreachable: 28 bytes copied from the start of the
      datagram, an 8-byte header in front of them, every header field
      written, then the checksum of all 36 bytes. */
  method BuildUnreachable(cs: seq<byte> -> Word16, d: seq<byte>, code: byte) returns (r: seq<byte>)
    requires |d| >= QuoteLen
    ensures r == Unreachable(cs, d, code)
  {
    var quote := Memcpy(Blank(QuoteLen), 0, d[..QuoteLen]);
    r := FillUnreachableHeader(Blank(HeaderLen) + quote, code);
    assert r == [TypeUnreach, code, 0, 0, 0, 0, 0, 0] + d[..QuoteLen] by {
      assert r == r[..8] + r[8..];
    }
    r := Write16(r, 2, cs(r));
  }

  /** The stores of type, code, checksum, id and seq into the 8-byte
      header in front of the quoted bytes; the quote is untouched. */
  method FillUnreachableHeader(m: seq<byte>, code: byte) returns (r: seq<byte>)
    requires |m| >= HeaderLen
    ensures |r| == |m|
    ensures r[..HeaderLen] == [TypeUnreach, code, 0, 0, 0, 0, 0, 0]
    ensures r[HeaderLen..] == m[HeaderLen..]
  {
    r := m[0 := TypeUnreach];
    r := r[1 := code];
    r := Write16(r, 2, 0);
    r := Write16(r, 4, 0);
    r := Write16(r, 6, 0);
    assert r[..HeaderLen] == [TypeUnreach, code, 0, 0, 0, 0, 0, 0];
  }

  /** The echo reply has the request's length, type 0 and code 0, the
      request's id, sequence number and data, and a valid checksum; it is
      itself no echo request, so it is never answered in turn. */
  lemma EchoReplyFields(cs: seq<byte> -> Word16, m: seq<byte>)
    requires |m| >= HeaderLen
    ensures var r := EchoReply(cs, m);
      && |r| == |m|
      && r[0] == TypeEchoReply && r[1] == 0
      && r[4..] == m[4..]
      && ChecksumOk(cs, r)
      && !IsEchoRequest(r)
  {
    WithChecksumOk(cs, [TypeEchoReply, 0, 0, 0] + m[4..]);
  }

  /** The unreachable message is 36 bytes: type 3, the code, id and
      sequence number 0, a valid checksum, and the datagram's first 28
      bytes (its 20-byte header and 8 data bytes) from offset 8 on. */
  lemma UnreachableFields(cs: seq<byte> -> Word16, d: seq<byte>, code: byte)
    requires |d| >= QuoteLen
    ensures var r := Unreachable(cs, d, code);
      && |r| == HeaderLen + QuoteLen
      && r[0] == TypeUnreach && r[1] == code
      && Read16(r, 4) == 0 && Read16(r, 6) == 0
      && r[HeaderLen..] == d[..QuoteLen]
      && ChecksumOk(cs, r)
  {
    var z := [TypeUnreach, code, 0, 0, 0, 0, 0, 0] + d[..QuoteLen];
    WithChecksumOk(cs, z);
    var r := Unreachable(cs, d, code);
    assert r[4..] == z[4..];
    assert r[4] == 0 && r[5] == 0 && r[6] == 0 && r[7] == 0;
    assert r[HeaderLen..] == z[HeaderLen..];
  }
}
