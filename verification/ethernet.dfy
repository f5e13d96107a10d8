/** The Ethernet II envelope (src/ethernet.c): 6-byte destination, 6-byte
    source and a 2-byte big-endian EtherType in front of the payload. */
module Ethernet {
  import opened Bytes

  const HeaderLen: nat := 14

  /** The all-ones destination of a broadcast. */
  const Broadcast: Mac := [0xff, 0xff, 0xff, 0xff, 0xff, 0xff]

  /** The frame handed to the driver for payload `payload`. */
  function Frame(dst: Mac, src: Mac, etherType: Word16, payload: seq<byte>): (f: seq<byte>)
    ensures |f| == HeaderLen + |payload|
  {
    dst + src + BE16(etherType) + payload
  }

  /** Bytes 12-13 of a received frame, read big-endian. */
  function EtherType(f: seq<byte>): Word16
    requires |f| >= HeaderLen
  {
    Read16(f, 12)
  }

  /** The body of ethernet_out up to driver_send: make room for 14 bytes,
      then write destination, source and EtherType through a moving
      pointer. */
  method PrependHeader(buf: seq<byte>, dst: Mac, src: Mac, etherType: Word16) returns (f: seq<byte>)
    ensures f == Frame(dst, src, etherType, buf)
  {
    f := Blank(HeaderLen) + buf;
    assert f[HeaderLen..] == buf;
    var p := 0;
    f := Memcpy(f, p, dst);
    assert f[HeaderLen..] == buf;
    p := p + 6;
    f := Memcpy(f, p, src);
    assert f[..6] == dst && f[HeaderLen..] == buf;
    p := p + 6;
    f := Write16(f, p, etherType);
    assert f[..6] == dst && f[6..12] == src && f[12..14] == BE16(etherType) && f[14..] == buf;
    assert f == f[..6] + f[6..12] + f[12..14] + f[14..];
  }

  /** A frame carries its three header fields at their fixed offsets, its
      payload unchanged after them, and is 14 bytes longer than the payload. */
  lemma FrameLayout(dst: Mac, src: Mac, etherType: Word16, payload: seq<byte>)
    ensures var f := Frame(dst, src, etherType, payload);
      && |f| == |payload| + HeaderLen
      && f[..6] == dst && f[6..12] == src
      && EtherType(f) == etherType
      && f[HeaderLen..] == payload
  {
    var f := Frame(dst, src, etherType, payload);
    assert f[12..14] == BE16(etherType);
  }
}
