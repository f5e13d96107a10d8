/** The stack as a state machine: the state the C globals hold (arp_table,
    arp_buf, g_id), what has been handed to the driver and what has been
    delivered to UDP, and one transition per function of src/arp.c,
    src/ip.c, src/ethernet.c and src/icmp.c. The class in NetStack
    implements these transitions step by step. */
module StackSpec {
  import opened Bytes
  import opened Host
  import Ethernet
  import opened Arp
  import Ip
  import Icmp

  /** arp_buf: the one datagram waiting for an address to resolve. */
  datatype Pending = Pending(valid: bool, buf: seq<byte>, protocol: Word16, ip: Bytes.Ip)

  /** One call of udp_in: the payload and the sender's address. */
  datatype Delivery = Delivery(payload: seq<byte>, src: Bytes.Ip)

  /** table: arp_table; pending: arp_buf; gId: g_id; sent: the frames
      passed to driver_send, in order; delivered: the calls of udp_in. */
  datatype State = State(
    table: seq<Entry>,
    pending: Pending,
    gId: nat,
    sent: seq<seq<byte>>,
    delivered: seq<Delivery>)

  // ---------------------------------------------------------------------
  // Transitions
  // ---------------------------------------------------------------------

  /** ethernet_out: the frame for buf goes to the driver. */
  function EthernetOut(c: Config, s: State, buf: seq<byte>, mac: Mac, protocol: Word16): (r: State)
    ensures r.table == s.table && r.pending == s.pending && r.gId == s.gId && r.delivered == s.delivered
    ensures s.sent <= r.sent && |r.sent| == |s.sent| + 1
  {
    s.(sent := s.sent + [Ethernet.Frame(mac, c.mac, protocol, buf)])
  }

  /** The packet arp_req writes into txbuf; target_mac is not written. */
  function RequestPacket(c: Config, target: Bytes.Ip): seq<byte>
  {
    Packet(OpRequest, c.mac, c.ip, c.stale(PacketLen)[18..24], target)
  }

  /** arp_req: a request for target, broadcast. */
  function ArpReq(c: Config, s: State, target: Bytes.Ip): (r: State)
    ensures r.table == s.table && r.pending == s.pending && r.gId == s.gId && r.delivered == s.delivered
    ensures s.sent <= r.sent && |r.sent| == |s.sent| + 1
  {
    EthernetOut(c, s, RequestPacket(c, target), Ethernet.Broadcast, ProtoArp)
  }

  /** arp_out: send at once when the table knows ip; otherwise park the
      datagram in arp_buf (replacing whatever was there) and ask for ip. */
  function ArpOut(c: Config, s: State, buf: seq<byte>, ip: Bytes.Ip, protocol: Word16): (r: State)
    ensures r.table == s.table && r.gId == s.gId && r.delivered == s.delivered
    ensures s.sent <= r.sent && |r.sent| == |s.sent| + 1
  {
    match Lookup(s.table, ip)
    case Some(mac) => EthernetOut(c, s, buf, mac, protocol)
    case None => ArpReq(c, s.(pending := Pending(true, buf, protocol, ip)), ip)
  }

  /** The reply arp_in sends to a request for this host. */
  function ReplyPacket(c: Config, p: seq<byte>): seq<byte>
    requires |p| >= PacketLen
  {
    Packet(OpReply, c.mac, c.ip, SenderMac(p), SenderIp(p))
  }

  /** arp_in at time now: a malformed packet is dropped; otherwise the
      sender is entered in the table, then either the parked datagram is
      sent if its address now resolves, or -- only when nothing is parked
      -- a request for this host is answered. */
  function ArpIn(c: Config, s: State, p: seq<byte>, now: int): (r: State)
    requires |p| >= PacketLen && |s.table| > 0
    ensures |r.table| == |s.table| && r.gId == s.gId && r.delivered == s.delivered
    ensures s.sent <= r.sent && |r.sent| <= |s.sent| + 1
  {
    if !WellFormed(p) then s
    else
      var s1 := s.(table := Updated(s.table, SenderIp(p), SenderMac(p), Valid, now, c.arpTimeoutSec));
      if s1.pending.valid then
        match Lookup(s1.table, s1.pending.ip)
        case Some(mac) =>
          var s2 := EthernetOut(c, s1, s1.pending.buf, mac, s1.pending.protocol);
          s2.(pending := s2.pending.(valid := false))
        case None => s1
      else if Opcode(p) == OpRequest && TargetIp(p) == c.ip then
        EthernetOut(c, s1, ReplyPacket(c, p), SenderMac(p), ProtoArp)
      else s1
  }

  /** arp_init: every entry INVALID, nothing parked, and a request for
      this host's own address. */
  function ArpInit(c: Config, s: State): (r: State)
    ensures |r.table| == |s.table| && !r.pending.valid && r.gId == s.gId && r.delivered == s.delivered
    ensures s.sent <= r.sent && |r.sent| == |s.sent| + 1
  {
    ArpReq(c, s.(table := Cleared(s.table), pending := s.pending.(valid := false)), c.ip)
  }

  /** ip_fragment_out: the datagram goes to arp_out as IP. */
  function IpFragmentOut(c: Config, s: State, payload: seq<byte>, dst: Bytes.Ip, protocol: Word16, id: nat, offset: Word16, mf: int): (r: State)
    ensures r.table == s.table && r.gId == s.gId && r.delivered == s.delivered
    ensures s.sent <= r.sent && |r.sent| == |s.sent| + 1
  {
    ArpOut(c, s, Ip.Datagram(c, payload, dst, protocol, id, offset, mf), dst, ProtoIp)
  }

  /** The first n datagrams of ds passed to arp_out one after the other. */
  function SendFirst(c: Config, s: State, ds: seq<seq<byte>>, n: nat, dst: Bytes.Ip): (r: State)
    requires n <= |ds|
    ensures r.table == s.table && r.gId == s.gId && r.delivered == s.delivered
    ensures s.sent <= r.sent && |r.sent| == |s.sent| + n
  {
    if n == 0 then s
    else ArpOut(c, SendFirst(c, s, ds, n - 1, dst), ds[n - 1], dst, ProtoIp)
  }

  /** ip_out: the datagrams of the buffer, all with id g_id, then g_id + 1. */
  function IpOut(c: Config, s: State, buf: seq<byte>, dst: Bytes.Ip, protocol: Word16): (r: State)
    ensures r.table == s.table && r.gId == s.gId + 1 && r.delivered == s.delivered
    ensures s.sent <= r.sent
  {
    var ds := Ip.Datagrams(c, buf, dst, protocol, s.gId);
    SendFirst(c, s, ds, |ds|, dst).(gId := s.gId + 1)
  }

  /** icmp_in: an echo request is answered through ip_out; anything else,
      a message shorter than the header included, is ignored. */
  function IcmpIn(c: Config, s: State, m: seq<byte>, src: Bytes.Ip): (r: State)
    ensures r.table == s.table && r.delivered == s.delivered && s.sent <= r.sent
    ensures r.gId == (if Icmp.IsEchoRequest(m) then s.gId + 1 else s.gId)
  {
    if Icmp.IsEchoRequest(m) then IpOut(c, s, Icmp.EchoReply(c.checksum16, m), src, ProtoIcmp)
    else s
  }

  /** icmp_unreachable: the unreachable message for d goes to src. */
  function IcmpUnreachable(c: Config, s: State, d: seq<byte>, src: Bytes.Ip, code: byte): (r: State)
    requires |d| >= Icmp.QuoteLen
    ensures r.table == s.table && r.gId == s.gId + 1 && r.delivered == s.delivered && s.sent <= r.sent
  {
    IpOut(c, s, Icmp.Unreachable(c.checksum16, d, code), src, ProtoIcmp)
  }

  /** udp_in, which is outside this model, recorded as a delivery. */
  function UdpIn(s: State, payload: seq<byte>, src: Bytes.Ip): State
  {
    s.(delivered := s.delivered + [Delivery(payload, src)])
  }

  /** ip_in: drop a datagram with a bad version or header length, a bad
      checksum or another destination; otherwise strip the header and pass
      ICMP and UDP up, and answer any other protocol with a
      protocol-unreachable message quoting the datagram. */
  function IpIn(c: Config, s: State, d: seq<byte>): (r: State)
    requires Ip.Readable(c, d)
    ensures r.table == s.table && s.sent <= r.sent && s.delivered <= r.delivered
    ensures |r.delivered| <= |s.delivered| + 1 && s.gId <= r.gId <= s.gId + 1
    ensures !Ip.Accepted(c, d) ==> r == s
  {
    if !Ip.HeaderOk(d) || !Ip.ChecksumOk(c, d) || Ip.Dst(d) != c.ip then s
    else if Ip.Protocol(d) == ProtoIcmp then IcmpIn(c, s, d[4 * Ip.HdrLen(d)..], Ip.Src(d))
    else if Ip.Protocol(d) == ProtoUdp then UdpIn(s, d[4 * Ip.HdrLen(d)..], Ip.Src(d))
    else IcmpUnreachable(c, s, d, Ip.Src(d), Icmp.CodeProtocolUnreach)
  }

  /** The bytes ethernet_in and the handler it calls read are present. */
  predicate FrameReadable(c: Config, f: seq<byte>)
  {
    && |f| >= Ethernet.HeaderLen
    && (Ethernet.EtherType(f) == ProtoArp ==> |f| >= Ethernet.HeaderLen + PacketLen)
    && (Ethernet.EtherType(f) == ProtoIp ==> Ip.Readable(c, f[Ethernet.HeaderLen..]))
  }

  /** ethernet_in at time now: ARP and IP frames lose their 14-byte header
      and go up; other EtherTypes are dropped. */
  function EthernetIn(c: Config, s: State, f: seq<byte>, now: int): (r: State)
    requires FrameReadable(c, f) && |s.table| > 0
    ensures |r.table| == |s.table| && s.sent <= r.sent && s.delivered <= r.delivered
    ensures s.gId <= r.gId <= s.gId + 1
  {
    if Ethernet.EtherType(f) == ProtoArp then ArpIn(c, s, f[Ethernet.HeaderLen..], now)
    else if Ethernet.EtherType(f) == ProtoIp then IpIn(c, s, f[Ethernet.HeaderLen..])
    else s
  }

  // ---------------------------------------------------------------------
  // Properties
  // ---------------------------------------------------------------------

  /** After arp_init no address resolves, nothing is parked, and the only
      frame sent is a broadcast request for this host's address. */
  lemma ArpInitClears(c: Config, s: State, ip: Bytes.Ip)
    ensures var s1 := ArpInit(c, s);
      && |s1.table| == |s.table|
      && (forall k :: 0 <= k < |s1.table| ==> s1.table[k].state == Invalid)
      && Lookup(s1.table, ip).None?
      && !s1.pending.valid
      && s1.sent == s.sent + [Ethernet.Frame(Ethernet.Broadcast, c.mac, ProtoArp, RequestPacket(c, c.ip))]
  {
    LookupFinds(ArpInit(c, s).table, ip);
  }

  /** A packet that fails arp_in's header check changes nothing, not even
      the table. */
  lemma ArpInDropsMalformed(c: Config, s: State, p: seq<byte>, now: int)
    requires |p| >= PacketLen && |s.table| > 0
    requires !WellFormed(p)
    ensures ArpIn(c, s, p, now) == s
  {
  }

  /** With nothing parked, every request for this host's address, padded
      or not, is answered with a reply to the sender's MAC carrying this
      host's addresses; when the table did not know the sender, the sender
      resolves afterwards. */
  lemma ArpInAnswersRequest(c: Config, s: State, p: seq<byte>, now: int)
    requires |p| >= PacketLen && |s.table| > 0 && !s.pending.valid
    requires WellFormed(p) && Opcode(p) == OpRequest && TargetIp(p) == c.ip
    ensures var s1 := ArpIn(c, s, p, now);
      && s1.sent == s.sent + [Ethernet.Frame(SenderMac(p), c.mac, ProtoArp, Packet(OpReply, c.mac, c.ip, SenderMac(p), SenderIp(p)))]
      && s1.table == Updated(s.table, SenderIp(p), SenderMac(p), Valid, now, c.arpTimeoutSec)
      && s1.pending == s.pending && s1.gId == s.gId
      && (Lookup(s.table, SenderIp(p)).None? ==> Lookup(s1.table, SenderIp(p)) == Some(SenderMac(p)))
  {
    if Lookup(s.table, SenderIp(p)).None? {
      SweepKeepsUnknown(s.table, SenderIp(p), now, c.arpTimeoutSec);
      LookupAfterUpdate(s.table, SenderIp(p), SenderMac(p), now, c.arpTimeoutSec);
    }
  }

  /** The unpadded instance: a request built as Packet, whatever its
      target_mac, is answered as above. */
  lemma ArpInAnswersPacketRequest(c: Config, s: State, senderMac: Mac, senderIp: Bytes.Ip, targetMac: Mac, now: int)
    requires |s.table| > 0 && !s.pending.valid
    ensures var s1 := ArpIn(c, s, Packet(OpRequest, senderMac, senderIp, targetMac, c.ip), now);
      && s1.sent == s.sent + [Ethernet.Frame(senderMac, c.mac, ProtoArp, Packet(OpReply, c.mac, c.ip, senderMac, senderIp))]
      && s1.table == Updated(s.table, senderIp, senderMac, Valid, now, c.arpTimeoutSec)
      && s1.pending == s.pending && s1.gId == s.gId
  {
    var q := Packet(OpRequest, senderMac, senderIp, targetMac, c.ip);
    PacketFields(OpRequest, senderMac, senderIp, targetMac, c.ip);
    ArpInAnswersRequest(c, s, q, now);
  }

  /** While a datagram is parked, arp_in answers no request, not even one
      for this host: if the parked address still does not resolve, nothing
      at all is sent and the datagram stays parked, whatever the packet. */
  lemma ArpInIgnoresRequestWhilePending(c: Config, s: State, p: seq<byte>, now: int)
    requires |p| >= PacketLen && |s.table| > 0 && s.pending.valid
    requires WellFormed(p)
    requires Lookup(Updated(s.table, SenderIp(p), SenderMac(p), Valid, now, c.arpTimeoutSec), s.pending.ip).None?
    ensures ArpIn(c, s, p, now).sent == s.sent
    ensures ArpIn(c, s, p, now).pending == s.pending
  {
  }

  /** Whenever a datagram is parked and its address resolves once the
      sender has been entered, arp_in sends the parked datagram to the MAC
      found, in a frame of the parked protocol, and empties arp_buf. */
  lemma ArpInFlushes(c: Config, s: State, p: seq<byte>, now: int, mac: Mac)
    requires |p| >= PacketLen && |s.table| > 0
    requires WellFormed(p) && s.pending.valid
    requires Lookup(Updated(s.table, SenderIp(p), SenderMac(p), Valid, now, c.arpTimeoutSec), s.pending.ip) == Some(mac)
    ensures var r := ArpIn(c, s, p, now);
      && r.sent == s.sent + [Ethernet.Frame(mac, c.mac, s.pending.protocol, s.pending.buf)]
      && !r.pending.valid
      && r.table == Updated(s.table, SenderIp(p), SenderMac(p), Valid, now, c.arpTimeoutSec)
  {
  }

  /** The converse of ArpInAnswersRequest: with nothing parked, a packet
      that is not a request for this host's address makes arp_in send
      nothing and park nothing; only the table changes. */
  lemma ArpInRepliesOnlyToRequestsForHost(c: Config, s: State, p: seq<byte>, now: int)
    requires |p| >= PacketLen && |s.table| > 0 && !s.pending.valid
    requires !(Opcode(p) == OpRequest && TargetIp(p) == c.ip)
    ensures var r := ArpIn(c, s, p, now);
      && r.sent == s.sent && r.pending == s.pending && r.gId == s.gId
  {
  }

  /** arp_out sends exactly one frame. When the table knows ip it is the
      datagram itself, to the MAC found, and arp_buf is untouched; otherwise
      the datagram is parked in arp_buf and the frame is a broadcast,
      well-formed request from this host's addresses for ip. */
  lemma ArpOutSends(c: Config, s: State, buf: seq<byte>, ip: Bytes.Ip, protocol: Word16)
    ensures var r := ArpOut(c, s, buf, ip, protocol);
      && r.table == s.table && r.gId == s.gId && r.delivered == s.delivered
      && |r.sent| == |s.sent| + 1 && r.sent[..|s.sent|] == s.sent
      && (Lookup(s.table, ip).Some? ==>
            && r.sent[|s.sent|] == Ethernet.Frame(Lookup(s.table, ip).value, c.mac, protocol, buf)
            && r.pending == s.pending)
      && (Lookup(s.table, ip).None? ==>
            var q := RequestPacket(c, ip);
            && r.sent[|s.sent|] == Ethernet.Frame(Ethernet.Broadcast, c.mac, ProtoArp, q)
            && |q| == PacketLen && WellFormed(q) && Opcode(q) == OpRequest
            && SenderMac(q) == c.mac && SenderIp(q) == c.ip && TargetIp(q) == ip
            && r.pending == Pending(true, buf, protocol, ip))
  {
    PacketFields(OpRequest, c.mac, c.ip, c.stale(PacketLen)[18..24], ip);
  }

  /** Address resolution end to end: arp_out for an unknown address parks
      the datagram and broadcasts a request; when the reply arrives, the
      parked datagram goes to the replying MAC, nothing stays parked and
      the address resolves from then on. */
  lemma ResolveThenFlush(c: Config, s: State, buf: seq<byte>, ip: Bytes.Ip, protocol: Word16, mac: Mac, now: int)
    requires |s.table| > 0
    requires Lookup(s.table, ip).None?
    ensures var s1 := ArpOut(c, s, buf, ip, protocol);
      var s2 := ArpIn(c, s1, Packet(OpReply, mac, ip, c.mac, c.ip), now);
      && s1.pending == Pending(true, buf, protocol, ip)
      && s1.sent == s.sent + [Ethernet.Frame(Ethernet.Broadcast, c.mac, ProtoArp, RequestPacket(c, ip))]
      && s2.sent == s1.sent + [Ethernet.Frame(mac, c.mac, protocol, buf)]
      && !s2.pending.valid
      && Lookup(s2.table, ip) == Some(mac)
  {
    var s1 := ArpOut(c, s, buf, ip, protocol);
    PacketFields(OpReply, mac, ip, c.mac, c.ip);
    SweepKeepsUnknown(s1.table, ip, now, c.arpTimeoutSec);
    LookupAfterUpdate(s1.table, ip, mac, now, c.arpTimeoutSec);
  }

  /** A frame that carries an IP datagram or an ARP packet reaches ip_in or
      arp_in with the Ethernet header stripped, whatever its destination
      (ethernet_in never reads it): a broadcast request, or a frame
      ethernet_out built for any MAC. */
  lemma EthernetInDispatches(c: Config, s: State, dst: Mac, src: Mac, etherType: Word16, payload: seq<byte>, now: int)
    requires |s.table| > 0
    requires FrameReadable(c, Ethernet.Frame(dst, src, etherType, payload))
    ensures var s1 := EthernetIn(c, s, Ethernet.Frame(dst, src, etherType, payload), now);
      && (etherType == ProtoIp ==> Ip.Readable(c, payload) && s1 == IpIn(c, s, payload))
      && (etherType == ProtoArp ==> |payload| >= PacketLen && s1 == ArpIn(c, s, payload, now))
      && (etherType != ProtoIp && etherType != ProtoArp ==> s1 == s)
  {
    Ethernet.FrameLayout(dst, src, etherType, payload);
  }

  /** When dst resolves to mac, the first n datagrams go out in order,
      each in a frame to mac, and nothing is parked. */
  lemma {:induction false} SendFirstResolved(c: Config, s: State, ds: seq<seq<byte>>, n: nat, dst: Bytes.Ip, mac: Mac)
    requires n <= |ds|
    requires Lookup(s.table, dst) == Some(mac)
    ensures var r := SendFirst(c, s, ds, n, dst);
      && r.sent == s.sent + seq(n, k requires 0 <= k < n => Ethernet.Frame(mac, c.mac, ProtoIp, ds[k]))
      && r.pending == s.pending
  {
    if n > 0 {
      var prev := SendFirst(c, s, ds, n - 1, dst);
      var fs := seq(n, k requires 0 <= k < n => Ethernet.Frame(mac, c.mac, ProtoIp, ds[k]));
      assert prev.sent == s.sent + fs[..n - 1] && prev.pending == s.pending by {
        SendFirstResolved(c, s, ds, n - 1, dst, mac);
        assert fs[..n - 1] == seq(n - 1, k requires 0 <= k < n - 1 => Ethernet.Frame(mac, c.mac, ProtoIp, ds[k]));
      }
      ArpOutResolved(c, prev, ds[n - 1], dst, ProtoIp, mac);
      assert fs == fs[..n - 1] + [fs[n - 1]];
    }
  }

  /** One step of the above: arp_out to a resolved address is eth_out. */
  lemma ArpOutResolved(c: Config, s: State, buf: seq<byte>, ip: Bytes.Ip, protocol: Word16, mac: Mac)
    requires Lookup(s.table, ip) == Some(mac)
    ensures ArpOut(c, s, buf, ip, protocol) == s.(sent := s.sent + [Ethernet.Frame(mac, c.mac, protocol, buf)])
  {
  }

  /** When dst does not resolve, each of the first n datagrams is parked
      in turn and a request for dst is broadcast for each one; only the
      last of them remains parked. */
  lemma {:induction false} SendFirstUnresolved(c: Config, s: State, ds: seq<seq<byte>>, n: nat, dst: Bytes.Ip)
    requires 0 < n <= |ds|
    requires Lookup(s.table, dst).None?
    ensures var r := SendFirst(c, s, ds, n, dst);
      && |r.sent| == |s.sent| + n
      && r.sent[..|s.sent|] == s.sent
      && (forall k :: |s.sent| <= k < |r.sent| ==>
            r.sent[k] == Ethernet.Frame(Ethernet.Broadcast, c.mac, ProtoArp, RequestPacket(c, dst)))
      && r.pending == Pending(true, ds[n - 1], ProtoIp, dst)
  {
    if n > 1 {
      SendFirstUnresolved(c, s, ds, n - 1, dst);
    }
  }

  /** ip_out to a resolved address: the frames of all datagrams of the
      buffer, in order, each with id g_id; g_id advances by one. */
  lemma IpOutResolved(c: Config, s: State, buf: seq<byte>, dst: Bytes.Ip, protocol: Word16, mac: Mac)
    requires Lookup(s.table, dst) == Some(mac)
    ensures var ds := Ip.Datagrams(c, buf, dst, protocol, s.gId);
      var r := IpOut(c, s, buf, dst, protocol);
      && r.sent == s.sent + seq(|ds|, k requires 0 <= k < |ds| => Ethernet.Frame(mac, c.mac, ProtoIp, ds[k]))
      && r.gId == s.gId + 1 && r.pending == s.pending && r.table == s.table
  {
    var ds := Ip.Datagrams(c, buf, dst, protocol, s.gId);
    SendFirstResolved(c, s, ds, |ds|, dst, mac);
  }

  /** ip_out of more than 1480 bytes to an unresolved address: one
      broadcast request per fragment, and arp_buf ends up holding only the
      last fragment -- the earlier ones are overwritten and never sent. */
  lemma IpOutUnresolved(c: Config, s: State, buf: seq<byte>, dst: Bytes.Ip, protocol: Word16)
    requires Lookup(s.table, dst).None?
    requires |buf| % 0x1_0000 > Ip.MaxFragment
    ensures var ds := Ip.Datagrams(c, buf, dst, protocol, s.gId);
      var r := IpOut(c, s, buf, dst, protocol);
      && |ds| >= 2
      && |r.sent| == |s.sent| + |ds|
      && (forall k :: |s.sent| <= k < |r.sent| ==>
            r.sent[k] == Ethernet.Frame(Ethernet.Broadcast, c.mac, ProtoArp, RequestPacket(c, dst)))
      && r.pending == Pending(true, ds[|ds| - 1], ProtoIp, dst)
      && r.gId == s.gId + 1
  {
    var ds := Ip.Datagrams(c, buf, dst, protocol, s.gId);
    Ip.PlanShape(|buf| % 0x1_0000);
    SendFirstUnresolved(c, s, ds, |ds|, dst);
  }

  /** A UDP datagram this host addresses to itself, passed back to ip_in,
      is delivered to udp_in with its payload and this host as sender. */
  lemma LoopbackUdp(c: Config, s: State, payload: seq<byte>, id: nat)
    requires |payload| < 0x1_0000 - Ip.HeaderLen
    ensures var d := Ip.Datagram(c, payload, c.ip, ProtoUdp, id, 0, 0);
      && Ip.Readable(c, d)
      && IpIn(c, s, d) == UdpIn(s, payload, c.ip)
  {
    var d := Ip.Datagram(c, payload, c.ip, ProtoUdp, id, 0, 0);
    Ip.DatagramFields(c, payload, c.ip, ProtoUdp, id, 0, 0);
    assert Ip.Accepted(c, d) && Ip.Protocol(d) == ProtoUdp && 4 * Ip.HdrLen(d) == Ip.HeaderLen;
  }

  /** ip_in drops a datagram with a bad version or header length, a bad
      checksum or another destination without any effect, and icmp_in
      ignores every message that is not an echo request. */
  lemma IpInDropsRejected(c: Config, s: State, d: seq<byte>, m: seq<byte>, src: Bytes.Ip)
    requires Ip.Readable(c, d)
    ensures !Ip.Accepted(c, d) ==> IpIn(c, s, d) == s
    ensures !Icmp.IsEchoRequest(m) ==> IcmpIn(c, s, m, src) == s
  {
  }

  /** An accepted ICMP or UDP datagram goes up with its whole header,
      4 * hdr_len bytes (20 or 24), stripped and its source address. */
  lemma IpInDispatches(c: Config, s: State, d: seq<byte>)
    requires Ip.Readable(c, d) && Ip.Accepted(c, d)
    ensures Ip.Protocol(d) == ProtoIcmp || Ip.Protocol(d) == ProtoUdp ==> |d| >= 4 * Ip.HdrLen(d)
    ensures Ip.Protocol(d) == ProtoIcmp ==> IpIn(c, s, d) == IcmpIn(c, s, d[4 * Ip.HdrLen(d)..], Ip.Src(d))
    ensures Ip.Protocol(d) == ProtoUdp ==> IpIn(c, s, d) == UdpIn(s, d[4 * Ip.HdrLen(d)..], Ip.Src(d))
  {
  }

  /** A datagram for this host with a protocol other than ICMP and UDP is
      answered with a protocol-unreachable message to its sender that
      quotes its first 28 bytes. */
  lemma UnknownProtocolUnreachable(c: Config, s: State, d: seq<byte>)
    requires Ip.Readable(c, d) && Ip.Accepted(c, d)
    requires Ip.Protocol(d) != ProtoIcmp && Ip.Protocol(d) != ProtoUdp
    ensures |d| >= Icmp.QuoteLen
    ensures IpIn(c, s, d) == IpOut(c, s, Icmp.Unreachable(c.checksum16, d, Icmp.CodeProtocolUnreach), Ip.Src(d), ProtoIcmp)
  {
  }

  /** ping: an echo request of at most 1480 bytes from a resolved sender
      is answered by one frame to the sender's MAC holding an unfragmented
      datagram with id g_id whose payload is the echo reply. */
  lemma EchoAnswered(c: Config, s: State, m: seq<byte>, src: Bytes.Ip, mac: Mac)
    requires Icmp.IsEchoRequest(m) && |m| <= Ip.MaxFragment
    requires Lookup(s.table, src) == Some(mac)
    ensures var r := IcmpIn(c, s, m, src);
      && r.sent == s.sent + [Ethernet.Frame(mac, c.mac, ProtoIp,
           Ip.Datagram(c, Icmp.EchoReply(c.checksum16, m), src, ProtoIcmp, s.gId, 0, 0))]
      && r.gId == s.gId + 1
  {
    var e := Icmp.EchoReply(c.checksum16, m);
    Icmp.EchoReplyFields(c.checksum16, m);
    IpOutResolved(c, s, e, src, ProtoIcmp, mac);
  }
}
