/** Byte-level vocabulary shared by every layer: octets, 16-bit words in
    network byte order, hardware and network addresses, and the copy
    primitive the layers use to fill headers. Buffers are byte sequences;
    a header is added by prepending bytes and removed by dropping a prefix. */
module Bytes {

  type byte = x: int | 0 <= x < 0x100
  type Word16 = x: int | 0 <= x < 0x1_0000

  /** A 6-byte hardware (MAC) address. */
  type Mac = s: seq<byte> | |s| == 6 witness [0, 0, 0, 0, 0, 0]

  /** A 4-byte network (IPv4) address. */
  type Ip = s: seq<byte> | |s| == 4 witness [0, 0, 0, 0]

  datatype Option<T> = None | Some(value: T)

  /** Space made by buf_add_header / buf_init; every caller overwrites it. */
  function Blank(n: nat): (r: seq<byte>)
    ensures |r| == n
  {
    seq(n, _ => 0)
  }

  /** A 16-bit value as it is laid out on the wire (big-endian). */
  function BE16(v: Word16): (r: seq<byte>)
    ensures |r| == 2
    ensures r[0] as int * 0x100 + r[1] as int == v
  {
    [v / 0x100, v % 0x100]
  }

  /** The big-endian 16-bit field at offset i. */
  function Read16(s: seq<byte>, i: nat): Word16
    requires i + 2 <= |s|
  {
    s[i] as int * 0x100 + s[i + 1] as int
  }

  /** Store a 16-bit field at offset i in network byte order. */
  function Write16(s: seq<byte>, i: nat, v: Word16): (r: seq<byte>)
    requires i + 2 <= |s|
    ensures r == s[..i] + BE16(v) + s[i + 2..]
  {
    s[i := v / 0x100][i + 1 := v % 0x100]
  }

  /** memcpy(dst + at, src, |src|) on a buffer held as a value: the bytes
      of src replace those at offsets at .. at + |src| and nothing else
      changes. */
  method Memcpy(dst: seq<byte>, at: nat, src: seq<byte>) returns (r: seq<byte>)
    requires at + |src| <= |dst|
    ensures |r| == |dst| && r[at..at + |src|] == src
    ensures forall j :: 0 <= j < |dst| && (j < at || at + |src| <= j) ==> r[j] == dst[j]
    ensures r == dst[..at] + src + dst[at + |src|..]
  {
    r := dst;
    var i := 0;
    while i < |src|
      invariant 0 <= i <= |src|
      invariant |r| == |dst|
      invariant forall j :: 0 <= j < |r| ==> r[j] == (if at <= j < at + i then src[j - at] else dst[j])
    {
      r := r[at + i := src[i]];
      i := i + 1;
    }
    assert forall j :: 0 <= j < |r| ==> r[j] == (dst[..at] + src + dst[at + |src|..])[j];
  }
}
