/** IPv4 as src/ip.c handles it: the 20-byte header of RFC 791 section 3.1
    that ip_fragment_out writes, the checks ip_in makes on a received
    header, and the fragmentation plan of ip_out (RFC 791 section 2.3)
    with fragments of at most 1480 data bytes. */
module Ip {
  import opened Bytes
  import opened Host

  const Version4: nat := 4
  const HeaderLen: nat := 20
  /** pac_len: the largest fragment payload, 1500 - 20. */
  const MaxFragment: nat := 1480
  /** IP_MORE_FRAGMENT, the more-fragments bit of the flags field. */
  const MoreFragments: Word16 := 0x2000

  // ---------------------------------------------------------------------
  // Output: the header of ip_fragment_out
  // ---------------------------------------------------------------------

  /** v | IP_MORE_FRAGMENT on a 16-bit value. */
  function WithMoreFragments(v: Word16): Word16
  {
    if (v / MoreFragments) % 2 == 1 then v else v + MoreFragments
  }

  /** The flags_fragment value: offset | IP_MORE_FRAGMENT iff mf == 1. */
  function FlagsFragment(offset: Word16, mf: int): Word16
  {
    if mf == 1 then WithMoreFragments(offset) else offset
  }

  /** The first nine bytes of the header: version and header length, tos,
      total length, id, flags and offset, TTL. */
  function HeadFields(c: Config, totalLen: Word16, id: Word16, flags: Word16): (r: seq<byte>)
    ensures |r| == 9
  {
    [Version4 * 16 + 5, 0] + BE16(totalLen) + BE16(id) + BE16(flags) + [c.ttl]
  }

  /** The header with its checksum field zeroed, as it stands when
      checksum16 is computed over it. */
  function ZeroedHeader(c: Config, totalLen: Word16, id: Word16, flags: Word16, proto: byte, dst: Ip): (z: seq<byte>)
    ensures |z| == HeaderLen
  {
    HeadFields(c, totalLen, id, flags) + [proto, 0, 0] + c.ip + dst
  }

  /** The header with the checksum of its zeroed form stored in bytes 10-11. */
  function Header(c: Config, totalLen: Word16, id: Word16, flags: Word16, proto: byte, dst: Ip): (h: seq<byte>)
    ensures |h| == HeaderLen
  {
    HeadFields(c, totalLen, id, flags) + [proto] + BE16(c.checksum16(ZeroedHeader(c, totalLen, id, flags, proto, dst))) + c.ip + dst
  }

  /** The datagram ip_fragment_out hands to arp_out: version 4, header
      length 5, tos 0, total length, the id, flags and offset, the default
      TTL, the protocol, the checksum, this host as source, dst as
      destination, then the payload. The id and the lengths are cut to 16
      bits and the protocol to 8 bits, as the C assignments cut them. */
  function Datagram(c: Config, payload: seq<byte>, dst: Ip, proto: Word16, id: nat, offset: Word16, mf: int): seq<byte>
  {
    Header(c, (HeaderLen + |payload|) % 0x1_0000, id % 0x1_0000, FlagsFragment(offset, mf), proto % 0x100, dst) + payload
  }

  /** The stores of ip_fragment_out into bytes 0-8 of the header; the
      total length is that of the whole buffer. */
  method WriteHead(c: Config, d0: seq<byte>, id: nat, offset: Word16, mf: int) returns (d: seq<byte>)
    requires |d0| >= HeaderLen
    ensures |d| == |d0|
    ensures d[..9] == HeadFields(c, |d0| % 0x1_0000, id % 0x1_0000, FlagsFragment(offset, mf))
    ensures d[9..] == d0[9..]
  {
    ghost var h := HeadFields(c, |d0| % 0x1_0000, id % 0x1_0000, FlagsFragment(offset, mf));
    d := d0[0 := Version4 * 16 + 5];
    d := d[1 := 0];
    d := Write16(d, 2, |d| % 0x1_0000);
    assert d[..4] == h[..4];
    d := Write16(d, 4, id % 0x1_0000);
    assert d[..6] == h[..6];
    if mf == 1 {
      d := Write16(d, 6, WithMoreFragments(offset));
    } else {
      d := Write16(d, 6, offset);
    }
    assert d[..8] == h[..8];
    d := d[8 := c.ttl];
  }

  /** The stores of ip_fragment_out into bytes 9-19: the destination, the
      source, the protocol and a zeroed checksum field. */
  method WriteTail(c: Config, d0: seq<byte>, proto: Word16, dst: Ip) returns (d: seq<byte>)
    requires |d0| >= HeaderLen
    ensures |d| == |d0|
    ensures d[..9] == d0[..9]
    ensures d[9..20] == [proto % 0x100, 0, 0] + c.ip + dst
    ensures d[20..] == d0[20..]
  {
    d := Memcpy(d0, 16, dst);
    d := Memcpy(d, 12, c.ip);
    d := d[9 := proto % 0x100];
    d := Write16(d, 10, 0);
    assert d[9..20] == [d[9]] + d[10..12] + d[12..16] + d[16..20];
  }

  /** The header fields in place in front of the payload make the zeroed
      header, and storing its checksum in bytes 10-11 gives the header. */
  lemma ChecksumCompletesHeader(c: Config, d: seq<byte>, totalLen: Word16, id: Word16, flags: Word16, proto: byte, dst: Ip, payload: seq<byte>)
    requires |d| == HeaderLen + |payload|
    requires d[..9] == HeadFields(c, totalLen, id, flags)
    requires d[9..20] == [proto, 0, 0] + c.ip + dst
    requires d[HeaderLen..] == payload
    ensures d[..HeaderLen] == ZeroedHeader(c, totalLen, id, flags, proto, dst)
    ensures Write16(d, 10, c.checksum16(d[..HeaderLen])) == Header(c, totalLen, id, flags, proto, dst) + payload
  {
    assert d[..HeaderLen] == d[..9] + d[9..20];
    var r := Write16(d, 10, c.checksum16(d[..HeaderLen]));
    assert r[9..10] == d[9..10] && r[12..16] == d[12..16] && r[16..20] == d[16..20];
    assert r == r[..9] + r[9..10] + r[10..12] + r[12..16] + r[16..20] + r[20..];
  }

  /** The body of ip_fragment_out up to arp_out: make room for 20 bytes,
      write the header fields, then the checksum of the header computed
      with its field zeroed. */
  method BuildDatagram(c: Config, payload: seq<byte>, dst: Ip, proto: Word16, id: nat, offset: Word16, mf: int)
    returns (d: seq<byte>)
    ensures d == Datagram(c, payload, dst, proto, id, offset, mf)
  {
    d := Blank(HeaderLen) + payload;
    assert d[HeaderLen..] == payload;
    d := WriteHead(c, d, id, offset, mf);
    d := WriteTail(c, d, proto, dst);
    ChecksumCompletesHeader(c, d, (HeaderLen + |payload|) % 0x1_0000, id % 0x1_0000, FlagsFragment(offset, mf), proto % 0x100, dst, payload);
    d := Write16(d, 10, c.checksum16(d[..HeaderLen]));
  }

  // ---------------------------------------------------------------------
  // Input: the checks of ip_in
  // ---------------------------------------------------------------------

  function Version(d: seq<byte>): nat
    requires |d| >= 1
  {
    d[0] / 16
  }

  /** The header length in 4-byte words. */
  function HdrLen(d: seq<byte>): nat
    requires |d| >= 1
  {
    d[0] % 16
  }

  function Protocol(d: seq<byte>): byte
    requires |d| >= HeaderLen
  {
    d[9]
  }

  function Src(d: seq<byte>): Ip
    requires |d| >= HeaderLen
  {
    d[12..16]
  }

  function Dst(d: seq<byte>): Ip
    requires |d| >= HeaderLen
  {
    d[16..20]
  }

  /** The first 20 bytes with the checksum field zeroed: what ip_in
      checksums, whatever the header length. */
  function ChecksumInput(d: seq<byte>): seq<byte>
    requires |d| >= HeaderLen
  {
    d[..10] + [0, 0] + d[12..20]
  }

  /** Version 4 and a header length of 5 or 6 words. */
  predicate HeaderOk(d: seq<byte>)
    requires |d| >= 1
  {
    Version(d) == Version4 && 5 <= HdrLen(d) <= 6
  }

  predicate ChecksumOk(c: Config, d: seq<byte>)
    requires |d| >= HeaderLen
  {
    c.checksum16(ChecksumInput(d)) == Read16(d, 10)
  }

  /** A datagram ip_in processes: sound header, matching checksum, and
      addressed to this host. The total length field is never looked at. */
  predicate Accepted(c: Config, d: seq<byte>)
    requires |d| >= HeaderLen
  {
    HeaderOk(d) && ChecksumOk(c, d) && Dst(d) == c.ip
  }

  /** The bytes ip_in reads are present: the 20-byte header always, the
      whole header when it is stripped, and 28 bytes when they are quoted
      in a protocol-unreachable message. */
  predicate Readable(c: Config, d: seq<byte>)
  {
    && |d| >= HeaderLen
    && (Accepted(c, d) && (Protocol(d) == ProtoIcmp || Protocol(d) == ProtoUdp) ==> |d| >= 4 * HdrLen(d))
    && (Accepted(c, d) && Protocol(d) != ProtoIcmp && Protocol(d) != ProtoUdp ==> |d| >= 28)
  }

  /** The checksum step of ip_in: save the field, zero it, checksum the
      first 20 bytes, write the saved value back. The verdict is the
      comparison of the stored and the computed checksum, and the buffer
      comes back byte for byte as it was. */
  method CheckHeaderChecksum(c: Config, d: seq<byte>) returns (ok: bool, restored: seq<byte>)
    requires |d| >= HeaderLen
    ensures restored == d
    ensures ok <==> ChecksumOk(c, d)
  {
    var check := Read16(d, 10);
    var b := Write16(d, 10, 0);
    assert b[..HeaderLen] == ChecksumInput(d);
    var computed := c.checksum16(b[..HeaderLen]);
    b := Write16(b, 10, check);
    assert b[10..12] == d[10..12];
    assert b == d[..10] + d[10..12] + d[12..];
    ok := computed == check;
    restored := b;
  }

  /** Each field of the header sits at its RFC 791 offset, and zeroing
      the checksum field gives back the bytes the checksum was computed
      over. */
  lemma HeaderLayout(c: Config, totalLen: Word16, id: Word16, flags: Word16, proto: byte, dst: Ip)
    ensures var h := Header(c, totalLen, id, flags, proto, dst);
      var z := ZeroedHeader(c, totalLen, id, flags, proto, dst);
      && h[0] == Version4 * 16 + 5 && h[1] == 0
      && Read16(h, 2) == totalLen && Read16(h, 4) == id && Read16(h, 6) == flags
      && h[8] == c.ttl && h[9] == proto
      && Read16(h, 10) == c.checksum16(z)
      && h[12..16] == c.ip && h[16..20] == dst
      && h[..10] + [0, 0] + h[12..] == z
  {
    var h := Header(c, totalLen, id, flags, proto, dst);
    var f := HeadFields(c, totalLen, id, flags);
    var z := ZeroedHeader(c, totalLen, id, flags, proto, dst);
    assert h[..9] == f && h[9..10] == [proto] && h[10..12] == BE16(c.checksum16(z));
    assert h[12..16] == c.ip && h[16..20] == dst;
    assert h[2..4] == f[2..4] && h[4..6] == f[4..6] && h[6..8] == f[6..8];
    assert h[..10] + [0, 0] + h[12..] == f + [proto, 0, 0] + h[12..16] + h[16..20];
  }

  /** A datagram built by ip_fragment_out carries every field it was given
      at the offset ip_in reads it from, and passes ip_in's version, length
      and checksum checks: the checksum is stored big-endian and read back
      big-endian over the same zeroed 20 bytes. */
  lemma DatagramFields(c: Config, payload: seq<byte>, dst: Ip, proto: Word16, id: nat, offset: Word16, mf: int)
    ensures var d := Datagram(c, payload, dst, proto, id, offset, mf);
      && |d| == HeaderLen + |payload|
      && Version(d) == Version4 && HdrLen(d) == 5 && d[1] == 0
      && Read16(d, 2) == (HeaderLen + |payload|) % 0x1_0000
      && Read16(d, 4) == id % 0x1_0000
      && Read16(d, 6) == FlagsFragment(offset, mf)
      && d[8] == c.ttl
      && Protocol(d) == proto % 0x100
      && Src(d) == c.ip && Dst(d) == dst
      && HeaderOk(d) && ChecksumOk(c, d)
      && d[HeaderLen..] == payload
  {
    var totalLen, ident, flags, p := (HeaderLen + |payload|) % 0x1_0000, id % 0x1_0000, FlagsFragment(offset, mf), proto % 0x100;
    var h := Header(c, totalLen, ident, flags, p, dst);
    HeaderLayout(c, totalLen, ident, flags, p, dst);
    var d := h + payload;
    assert d[..HeaderLen] == h && d[HeaderLen..] == payload;
    assert ChecksumInput(d) == h[..10] + [0, 0] + h[12..];
  }

  /** Bytes 6-7 as src/ip.c:104-108 leaves them: flags_fragment is
      assigned without swap16, unlike every other 16-bit field of the
      header, so on a little-endian host its low byte comes first. */
  function FlagsBytesAsWritten(offset: Word16, mf: int): (r: seq<byte>)
    ensures |r| == 2 && r[1] as int * 0x100 + r[0] as int == FlagsFragment(offset, mf)
  {
    var v := FlagsFragment(offset, mf);
    [v % 0x100, v / 0x100]
  }

  /** The last fragment of a 3000-byte payload, offset 370 with mf clear,
      as written: a receiver reading bytes 6-7 in network order sees the
      more-fragments bit set and an offset of 0x1201, so the datagram is
      never complete. */
  lemma LastFragmentFlagsAsWritten()
    ensures var w := Read16(FlagsBytesAsWritten(370, 0), 0);
      && (w / MoreFragments) % 2 == 1
      && w % MoreFragments == 0x1201
  {
  }

  /** The more-fragments bit: for an offset below 2^13, as every offset of
      ip_out is, flags_fragment is the offset plus 0x2000 when mf == 1 and
      the offset alone otherwise. */
  lemma FlagsFragmentSplits(offset: Word16, mf: int)
    requires offset < MoreFragments
    ensures FlagsFragment(offset, mf) == if mf == 1 then offset + MoreFragments else offset
    ensures FlagsFragment(offset, mf) % MoreFragments == offset
    ensures (FlagsFragment(offset, mf) / MoreFragments) % 2 == 1 <==> mf == 1
  {
  }

  // ---------------------------------------------------------------------
  // Fragmentation: the do-while loop of ip_out
  // ---------------------------------------------------------------------

  /** One fragment: offset in 8-byte units, data size, mf flag. */
  datatype Fragment = Fragment(offset: nat, size: nat, mf: int)

  /** The fragments the loop emits from the num-th on, with len bytes left:
      full 1480-byte pieces with mf 1 while more than 1480 remain, then the
      rest with mf 0. */
  function PlanFrom(num: nat, len: nat): seq<Fragment>
    decreases len
  {
    if len > MaxFragment then
      [Fragment(MaxFragment * num / 8, MaxFragment, 1)] + PlanFrom(num + 1, len - MaxFragment)
    else
      [Fragment(MaxFragment * num / 8, len, 0)]
  }

  function Plan(len: nat): seq<Fragment>
  {
    PlanFrom(0, len)
  }

  function Total(fs: seq<Fragment>): nat
  {
    if fs == [] then 0 else fs[0].size + Total(fs[1..])
  }

  lemma {:induction false} PlanFromShape(num: nat, len: nat)
    ensures var p := PlanFrom(num, len);
      && |p| == (if len == 0 then 1 else (len - 1) / MaxFragment + 1)
      && Total(p) == len
      && (forall k :: 0 <= k < |p| ==> p[k].offset == MaxFragment * (num + k) / 8)
      && (forall k :: 0 <= k < |p| - 1 ==> p[k].size == MaxFragment && p[k].mf == 1)
      && p[|p| - 1].mf == 0
      && p[|p| - 1].size <= MaxFragment
      && (len > 0 ==> p[|p| - 1].size > 0)
    decreases len
  {
    var p := PlanFrom(num, len);
    if len > MaxFragment {
      PlanFromShape(num + 1, len - MaxFragment);
      assert p[1..] == PlanFrom(num + 1, len - MaxFragment);
    }
  }

  /** The fragmentation of a len-byte payload: fragment k has offset
      1480 * k / 8 = 185 * k; all but the last carry 1480 bytes with mf 1;
      the last carries the remaining 1 to 1480 bytes with mf 0; their sizes
      add up to len; there are ceil(len / 1480) of them. */
  lemma PlanShape(len: nat)
    requires MaxFragment < len < 0x1_0000
    ensures var p := Plan(len);
      && |p| == (len - 1) / MaxFragment + 1
      && Total(p) == len
      && (forall k :: 0 <= k < |p| ==> p[k].offset == 185 * k && p[k].offset < 0x2000)
      && (forall k :: 0 <= k < |p| - 1 ==> p[k].size == MaxFragment && p[k].mf == 1)
      && p[|p| - 1].mf == 0
      && 0 < p[|p| - 1].size <= MaxFragment
      && p[|p| - 1].size == len - MaxFragment * (|p| - 1)
  {
    var p := Plan(len);
    PlanFromShape(0, len);
    TotalOfFull(p);
    forall k | 0 <= k < |p| ensures p[k].offset == 185 * k && p[k].offset < 0x2000 {
      assert p[k].offset == MaxFragment * k / 8;
      assert k <= 44;
    }
  }

  /** Sizes add up: with all but the last fragment full, the last carries
      what the others leave. */
  lemma {:induction false} TotalOfFull(p: seq<Fragment>)
    requires |p| > 0
    requires forall k :: 0 <= k < |p| - 1 ==> p[k].size == MaxFragment
    ensures Total(p) == MaxFragment * (|p| - 1) + p[|p| - 1].size
  {
    if |p| > 1 {
      TotalOfFull(p[1..]);
    }
  }

  /** One turn of the do-while loop: with more than 1480 bytes left, the
      next fragment is a full one with mf set, and the plan goes on from
      the next fragment number with 1480 bytes fewer. */
  lemma PlanFromStep(plan: seq<Fragment>, num: nat, len: nat)
    requires num < |plan| && plan[num..] == PlanFrom(num, len)
    requires len > MaxFragment
    ensures plan[num] == Fragment(MaxFragment * num / 8, MaxFragment, 1)
    ensures num + 1 < |plan| && plan[num + 1..] == PlanFrom(num + 1, len - MaxFragment)
  {
    assert plan[num + 1..] == plan[num..][1..];
  }

  /** The loop's exit: with at most 1480 bytes left, the next fragment is
      the last one, carrying what is left with mf clear. */
  lemma PlanFromLast(plan: seq<Fragment>, num: nat, len: nat)
    requires num < |plan| && plan[num..] == PlanFrom(num, len)
    requires len <= MaxFragment
    ensures num == |plan| - 1
    ensures plan[num] == Fragment(MaxFragment * num / 8, len, 0)
  {
    assert |plan[num..]| == 1;
  }

  /** The three fragments of a 3000-byte payload: offsets 0, 185 and 370
      (bytes 0, 1480 and 2960), the first two with mf set. */
  lemma PlanOf3000()
    ensures Plan(3000) == [Fragment(0, 1480, 1), Fragment(185, 1480, 1), Fragment(370, 40, 0)]
  {
    assert PlanFrom(2, 40) == [Fragment(370, 40, 0)];
    assert PlanFrom(1, 1520) == [Fragment(185, 1480, 1), Fragment(370, 40, 0)];
  }

  /** The datagrams of the fragments, in order. The data of a fragment is
      not the matching slice of the payload: the copy at src/ip.c:156 and
      src/ip.c:167 reads from the start of the buffer's storage and writes
      to the start of txbuf's storage, so what lands under the data pointer
      is left unspecified (c.stale). */
  function FragmentDatagrams(c: Config, plan: seq<Fragment>, dst: Ip, proto: Word16, id: nat): (ds: seq<seq<byte>>)
    ensures |ds| == |plan|
  {
    seq(|plan|, k requires 0 <= k < |plan| =>
      Datagram(c, c.stale(plan[k].size), dst, proto, id, plan[k].offset % 0x1_0000, plan[k].mf))
  }

  /** What ip_out hands to ip_fragment_out, in order: the buffer itself as
      one unfragmented datagram when its length (cut to 16 bits) is at most
      1480, else one datagram per fragment of the plan. */
  function Datagrams(c: Config, buf: seq<byte>, dst: Ip, proto: Word16, id: nat): seq<seq<byte>>
  {
    var len := |buf| % 0x1_0000;
    if len > MaxFragment then FragmentDatagrams(c, Plan(len), dst, proto, id)
    else [Datagram(c, buf, dst, proto, id, 0, 0)]
  }

  /** After num turns of the do-while loop, len0 - 1480 * num bytes are
      left and the plan goes on from fragment num. */
  lemma {:induction false} PlanSuffix(len0: nat, num: nat)
    requires MaxFragment * num < len0
    ensures num < |Plan(len0)| && Plan(len0)[num..] == PlanFrom(num, len0 - MaxFragment * num)
  {
    if num > 0 {
      PlanSuffix(len0, num - 1);
      PlanFromStep(Plan(len0), num - 1, len0 - MaxFragment * (num - 1));
    }
  }

  /** Datagram num of a buffer longer than 1480 bytes, while more than
      1480 bytes are left before it: a full fragment with mf set. */
  lemma FullFragmentAt(c: Config, buf: seq<byte>, dst: Ip, proto: Word16, id: nat, num: nat, len: int)
    requires len == |buf| % 0x1_0000 - MaxFragment * num && len > MaxFragment
    ensures var ds := Datagrams(c, buf, dst, proto, id);
      && num + 1 < |ds|
      && ds[num] == Datagram(c, c.stale(MaxFragment), dst, proto, id, (MaxFragment * num / 8) % 0x1_0000, 1)
  {
    var len0 := |buf| % 0x1_0000;
    PlanSuffix(len0, num);
    PlanFromStep(Plan(len0), num, len);
  }

  /** Datagram num of a buffer longer than 1480 bytes, when 1 to 1480
      bytes are left before it: the last fragment, carrying the rest with
      mf clear. */
  lemma LastFragmentAt(c: Config, buf: seq<byte>, dst: Ip, proto: Word16, id: nat, num: nat, len: int)
    requires |buf| % 0x1_0000 > MaxFragment
    requires len == |buf| % 0x1_0000 - MaxFragment * num && 0 < len <= MaxFragment
    ensures var ds := Datagrams(c, buf, dst, proto, id);
      && num == |ds| - 1
      && ds[num] == Datagram(c, c.stale(len), dst, proto, id, (MaxFragment * num / 8) % 0x1_0000, 0)
  {
    var len0 := |buf| % 0x1_0000;
    PlanSuffix(len0, num);
    PlanFromLast(Plan(len0), num, len);
  }

  /** Every datagram of one ip_out call carries the same id, the caller's
      protocol and destination, and a header that passes ip_in's checks;
      fragment k carries the k-th size, offset and flag of the plan. */
  lemma DatagramsShareId(c: Config, buf: seq<byte>, dst: Ip, proto: Word16, id: nat)
    ensures var ds := Datagrams(c, buf, dst, proto, id);
      && |ds| > 0
      && forall k :: 0 <= k < |ds| ==>
           && |ds[k]| >= HeaderLen
           && Read16(ds[k], 4) == id % 0x1_0000
           && Protocol(ds[k]) == proto % 0x100
           && Dst(ds[k]) == dst && Src(ds[k]) == c.ip
           && HeaderOk(ds[k]) && ChecksumOk(c, ds[k])
  {
    var ds := Datagrams(c, buf, dst, proto, id);
    var len := |buf| % 0x1_0000;
    if len > MaxFragment {
      var p := Plan(len);
      assert |p| > 0;
      forall k | 0 <= k < |ds|
        ensures |ds[k]| >= HeaderLen && Read16(ds[k], 4) == id % 0x1_0000 && Protocol(ds[k]) == proto % 0x100
        ensures Dst(ds[k]) == dst && Src(ds[k]) == c.ip && HeaderOk(ds[k]) && ChecksumOk(c, ds[k])
      {
        DatagramFields(c, c.stale(p[k].size), dst, proto, id, p[k].offset % 0x1_0000, p[k].mf);
      }
    } else {
      DatagramFields(c, buf, dst, proto, id, 0, 0);
    }
  }

  /** The header fields ip_out's fragments differ in: with at most 1480
      data bytes and an offset below 2^13, the total length is 20 plus
      the data and flags_fragment is the offset, plus 0x2000 when mf is
      set. */
  lemma FragmentHeader(c: Config, size: nat, dst: Ip, proto: Word16, id: nat, offset: Word16, mf: int)
    requires size <= MaxFragment && offset < MoreFragments
    ensures var d := Datagram(c, c.stale(size), dst, proto, id, offset, mf);
      && |d| == HeaderLen + size
      && Read16(d, 6) == (if mf == 1 then offset + MoreFragments else offset)
      && Read16(d, 2) == HeaderLen + size
  {
    assert (HeaderLen + size) % 0x1_0000 == HeaderLen + size;
    FlagsFragmentSplits(offset, mf);
    DatagramFields(c, c.stale(size), dst, proto, id, offset, mf);
  }

  /** Fragment k of a payload longer than 1480 bytes: offset 185 * k and
      the plan's size and flag in its header, and the plan's size in
      payload bytes. */
  lemma FragmentAt(c: Config, buf: seq<byte>, dst: Ip, proto: Word16, id: nat, k: nat)
    requires |buf| % 0x1_0000 > MaxFragment
    requires k < |Plan(|buf| % 0x1_0000)|
    ensures var f := Plan(|buf| % 0x1_0000)[k];
      var d := Datagrams(c, buf, dst, proto, id)[k];
      && |d| == HeaderLen + f.size
      && Read16(d, 6) == (if f.mf == 1 then 185 * k + MoreFragments else 185 * k)
      && Read16(d, 2) == HeaderLen + f.size
  {
    var len := |buf| % 0x1_0000;
    PlanShape(len);
    var f := Plan(len)[k];
    assert f.offset == 185 * k < MoreFragments;
    assert f.size <= MaxFragment && f.offset % 0x1_0000 == f.offset;
    FragmentHeader(c, f.size, dst, proto, id, f.offset, f.mf);
  }

  /** Read in network order, bytes 6-7 of fragment k hold offset 185 * k,
      and the more-fragments bit is set on every fragment but the last. */
  lemma FragmentFlags(c: Config, buf: seq<byte>, dst: Ip, proto: Word16, id: nat, k: nat)
    requires |buf| % 0x1_0000 > MaxFragment
    requires k < |Plan(|buf| % 0x1_0000)|
    ensures var d := Datagrams(c, buf, dst, proto, id)[k];
      && |d| >= HeaderLen
      && Read16(d, 6) % MoreFragments == 185 * k
      && ((Read16(d, 6) / MoreFragments) % 2 == 1 <==> k < |Plan(|buf| % 0x1_0000)| - 1)
  {
    var p := Plan(|buf| % 0x1_0000);
    PlanShape(|buf| % 0x1_0000);
    var last := k == |p| - 1;
    assert p[k].mf == (if last then 0 else 1);
    assert 185 * k < MoreFragments;
    FlagsFragmentSplits(185 * k, p[k].mf);
    FragmentAt(c, buf, dst, proto, id, k);
  }

}
