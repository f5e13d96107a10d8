/** The stack as the C code runs it: the globals arp_table (an array
    updated in place), arp_buf and g_id are fields of one object, and each
    function of src/arp.c, src/ip.c, src/ethernet.c and src/icmp.c is a
    method that follows the C statements. Each method is proved to make
    exactly the transition StackSpec gives for it, so the properties
    proved there hold of the code. */
module NetStack {
  import opened Bytes
  import opened Host
  import Ethernet
  import opened Arp
  import Ip
  import Icmp
  import opened StackSpec

  /** A zero-initialised arp_table entry. */
  const Unused: Entry := Entry([0, 0, 0, 0], [0, 0, 0, 0, 0, 0], Invalid, 0)

  /** The reply of arp_in, built in rxbuf: arp_req's fields with the
      reply opcode, the sender as target, then the sender's MAC copied
      over target_mac. */
  method BuildReply(c: Config, p: seq<byte>) returns (reply: seq<byte>)
    requires |p| >= PacketLen
    ensures reply == ReplyPacket(c, p)
    ensures reply[18..24] == SenderMac(p)
  {
    reply := FillPacket(c.stale(PacketLen), OpReply, c.mac, c.ip, SenderIp(p));
    reply := Memcpy(reply, 18, SenderMac(p));
    ghost var r := ReplyPacket(c, p);
    assert reply[..18] == r[..18] && reply[18..24] == r[18..24] && reply[24..] == r[24..];
    assert reply == reply[..18] + reply[18..24] + reply[24..];
  }

  class Stack {
    /** The host's addresses and settings. */
    const cfg: Config
    /** arp_table; its length is ARP_MAX_ENTRY. */
    const table: array<Entry>
    /** arp_buf. */
    var pending: Pending
    /** g_id. */
    var gId: nat
    /** Every frame passed to driver_send, in order. */
    var sent: seq<seq<byte>>
    /** Every call of udp_in, in order. */
    var delivered: seq<Delivery>

    /** The table has at least one entry, as arp_update needs. */
    ghost predicate Valid()
    {
      table.Length > 0
    }

    /** The state StackSpec describes. */
    ghost function Abs(): State
      reads this, table
    {
      State(table[..], pending, gId, sent, delivered)
    }

    /** The globals as the C program starts: every entry unused, nothing
        parked, g_id 0, nothing sent or delivered. */
    constructor(cfg: Config, entries: nat)
      requires entries > 0
      ensures Valid() && this.cfg == cfg && table.Length == entries
      ensures Abs() == State(seq(entries, _ => Unused), Pending(false, [], 0, [0, 0, 0, 0]), 0, [], [])
      ensures fresh(table)
    {
      this.cfg := cfg;
      table := new Entry[entries](_ => Unused);
      pending := Pending(false, [], 0, [0, 0, 0, 0]);
      gId := 0;
      sent := [];
      delivered := [];
    }

    // -------------------------------------------------------------------
    // src/ethernet.c
    // -------------------------------------------------------------------

    /** ethernet_out: prepend the header and hand the frame to the driver. */
    method EthernetOut(buf: seq<byte>, mac: Mac, protocol: Word16)
      modifies this
      ensures Abs() == StackSpec.EthernetOut(cfg, old(Abs()), buf, mac, protocol)
    {
      var f := Ethernet.PrependHeader(buf, mac, cfg.mac, protocol);
      sent := sent + [f];
    }

    /** ethernet_in at time now: dispatch on the EtherType. */
    method EthernetIn(f: seq<byte>, now: int)
      requires Valid() && FrameReadable(cfg, f)
      modifies this, table
      ensures Abs() == StackSpec.EthernetIn(cfg, old(Abs()), f, now)
    {
      var value := Read16(f, 12);
      if value == ProtoArp {
        ArpIn(f[Ethernet.HeaderLen..], now);
      } else if value == ProtoIp {
        IpIn(f[Ethernet.HeaderLen..]);
      }
    }

    // -------------------------------------------------------------------
    // src/arp.c
    // -------------------------------------------------------------------

    /** arp_update at time now: the timeout sweep, then the first INVALID
        slot, or failing that the slot the eviction scan picks. */
    method ArpUpdate(ip: Bytes.Ip, mac: Mac, state: EntryState, now: int)
      requires Valid()
      modifies table
      ensures table[..] == Updated(old(table[..]), ip, mac, state, now, cfg.arpTimeoutSec)
    {
      ExpireEntries(now);
      ghost var w := table[..];
      var flag := false;
      var i := 0;
      while i < table.Length
        invariant 0 <= i <= table.Length
        invariant table[..] == w
        invariant FirstInvalidFrom(w, 0) == FirstInvalidFrom(w, i)
      {
        if table[i].state == Invalid {
          table[i] := Entry(ip, mac, state, now);
          flag := true;
          break;
        }
        i := i + 1;
      }
      if !flag {
        var indexMax := EvictionIndex();
        table[indexMax] := Entry(ip, mac, state, now);
      }
    }

    /** The first loop of arp_update: every VALID entry at least
        ARP_TIMEOUT_SEC old at time now becomes INVALID. */
    method ExpireEntries(now: int)
      modifies table
      ensures table[..] == Sweep(old(table[..]), now, cfg.arpTimeoutSec)
    {
      ghost var t := table[..];
      var i := 0;
      while i < table.Length
        invariant 0 <= i <= table.Length
        invariant forall j :: 0 <= j < i ==> table[j] == Sweep(t, now, cfg.arpTimeoutSec)[j]
        invariant forall j :: i <= j < table.Length ==> table[j] == t[j]
      {
        if table[i].state != Invalid && now - table[i].stamp >= cfg.arpTimeoutSec {
          table[i] := table[i].(state := Invalid);
        }
        i := i + 1;
      }
    }

    /** The eviction loop of arp_update: indexMax ends at the first entry
        with the largest timestamp above 0, or at 0. */
    method EvictionIndex() returns (indexMax: nat)
      requires Valid()
      ensures indexMax < table.Length
      ensures indexMax == VictimScan(table[..], table.Length).1
    {
      var timeoutMax := 0;
      indexMax := 0;
      var i := 0;
      while i < table.Length
        invariant 0 <= i <= table.Length
        invariant (timeoutMax, indexMax) == VictimScan(table[..], i)
      {
        if table[i].stamp > timeoutMax {
          timeoutMax := table[i].stamp;
          indexMax := i;
        }
        i := i + 1;
      }
    }

    /** arp_lookup: the MAC of the first VALID entry for ip. */
    method ArpLookup(ip: Bytes.Ip) returns (r: Option<Mac>)
      ensures r == Lookup(table[..], ip)
    {
      var i := 0;
      while i < table.Length
        invariant 0 <= i <= table.Length
        invariant Lookup(table[..], ip) == LookupFrom(table[..], ip, i)
      {
        if table[i].state == EntryState.Valid && table[i].ip == ip {
          return Some(table[i].mac);
        }
        i := i + 1;
      }
      return None;
    }

    /** arp_req: fill a request for target and broadcast it. */
    method ArpReq(target: Bytes.Ip)
      modifies this
      ensures Abs() == StackSpec.ArpReq(cfg, old(Abs()), target)
    {
      var p := FillPacket(cfg.stale(PacketLen), OpRequest, cfg.mac, cfg.ip, target);
      EthernetOut(p, Ethernet.Broadcast, ProtoArp);
    }

    /** arp_in at time now. */
    method ArpIn(p: seq<byte>, now: int)
      requires Valid() && |p| >= PacketLen
      modifies this, table
      ensures Abs() == StackSpec.ArpIn(cfg, old(Abs()), p, now)
    {
      var opcode := Read16(p, 6);
      if Read16(p, 0) != HwEther || Read16(p, 2) != ProtoIp || p[4] != 6 || p[5] != 4
        || (opcode != OpRequest && opcode != OpReply)
      {
        return;
      }
      ArpUpdate(SenderIp(p), SenderMac(p), EntryState.Valid, now);
      if pending.valid {
        var mac := ArpLookup(pending.ip);
        if mac.Some? {
          EthernetOut(pending.buf, mac.value, pending.protocol);
          pending := pending.(valid := false);
        }
      } else if opcode == OpRequest && TargetIp(p) == cfg.ip {
        var reply := BuildReply(cfg, p);
        EthernetOut(reply, reply[18..24], ProtoArp);
      }
    }

    /** arp_out: send, or park the datagram and ask for ip. */
    method ArpOut(buf: seq<byte>, ip: Bytes.Ip, protocol: Word16)
      modifies this
      ensures Abs() == StackSpec.ArpOut(cfg, old(Abs()), buf, ip, protocol)
    {
      var mac := ArpLookup(ip);
      if mac.Some? {
        EthernetOut(buf, mac.value, protocol);
      } else {
        pending := Pending(true, buf, protocol, ip);
        ArpReq(ip);
      }
    }

    /** arp_init: mark every entry INVALID, empty arp_buf, and ask for this
        host's own address. */
    method ArpInit()
      modifies this, table
      ensures Abs() == StackSpec.ArpInit(cfg, old(Abs()))
    {
      ghost var t := table[..];
      for i := 0 to table.Length
        modifies table
        invariant forall j :: 0 <= j < i ==> table[j] == t[j].(state := Invalid)
        invariant forall j :: i <= j < table.Length ==> table[j] == t[j]
      {
        table[i] := table[i].(state := Invalid);
      }
      assert table[..] == Cleared(t);
      pending := pending.(valid := false);
      ArpReq(cfg.ip);
    }

    // -------------------------------------------------------------------
    // src/ip.c
    // -------------------------------------------------------------------

    /** ip_fragment_out: build the datagram and pass it to arp_out. */
    method IpFragmentOut(payload: seq<byte>, dst: Bytes.Ip, protocol: Word16, id: nat, offset: Word16, mf: int)
      modifies this
      ensures Abs() == StackSpec.IpFragmentOut(cfg, old(Abs()), payload, dst, protocol, id, offset, mf)
    {
      var d := Ip.BuildDatagram(cfg, payload, dst, protocol, id, offset, mf);
      ArpOut(d, dst, ProtoIp);
    }

    /** ip_out: a buffer of at most 1480 bytes (its length cut to 16
        bits) goes out whole; a longer one goes out as the full fragments
        of the do-while loop, then the rest with mf clear. All carry id
        g_id, which advances once per call. */
    method IpOut(buf: seq<byte>, dst: Bytes.Ip, protocol: Word16)
      modifies this
      ensures Abs() == StackSpec.IpOut(cfg, old(Abs()), buf, dst, protocol)
    {
      ghost var ds := Ip.Datagrams(cfg, buf, dst, protocol, gId);
      var len := |buf| % 0x1_0000;
      if len > Ip.MaxFragment {
        FragmentedOut(ds, buf, dst, protocol);
      } else {
        FragmentOut(old(Abs()), ds, 0, buf, dst, protocol, 0, 0);
      }
      gId := gId + 1;
    }

    /** ip_out for more than 1480 bytes: the full fragments of the
        do-while loop, then the 1 to 1480 bytes left as the last fragment
        with mf clear. */
    method FragmentedOut(ghost ds: seq<seq<byte>>, buf: seq<byte>, dst: Bytes.Ip, protocol: Word16)
      requires ds == Ip.Datagrams(cfg, buf, dst, protocol, gId)
      requires |buf| % 0x1_0000 > Ip.MaxFragment
      modifies this
      ensures gId == old(gId) && Abs() == SendFirst(cfg, old(Abs()), ds, |ds|, dst)
    {
      var num, len := FullFragmentsOut(ds, buf, dst, protocol);
      Ip.LastFragmentAt(cfg, buf, dst, protocol, gId, num, len);
      var txbuf := cfg.stale(len);
      FragmentOut(old(Abs()), ds, num, txbuf, dst, protocol, (Ip.MaxFragment * num / 8) % 0x1_0000, 0);
    }

    /** The do-while loop of ip_out: while more than 1480 bytes remain, a
        full fragment with mf set and id g_id; num counts the fragments
        sent and len what is left, 1 to 1480 bytes. */
    method FullFragmentsOut(ghost ds: seq<seq<byte>>, buf: seq<byte>, dst: Bytes.Ip, protocol: Word16) returns (num: nat, len: int)
      requires ds == Ip.Datagrams(cfg, buf, dst, protocol, gId)
      requires |buf| % 0x1_0000 > Ip.MaxFragment
      modifies this
      ensures 0 < len <= Ip.MaxFragment && len == |buf| % 0x1_0000 - Ip.MaxFragment * num
      ensures gId == old(gId) && num < |ds| && Abs() == SendFirst(cfg, old(Abs()), ds, num, dst)
    {
      ghost var s0 := Abs();
      len := |buf| % 0x1_0000;
      num := 0;
      while true
        invariant Ip.MaxFragment < len && len == |buf| % 0x1_0000 - Ip.MaxFragment * num
        invariant gId == s0.gId && num < |ds| && Abs() == SendFirst(cfg, s0, ds, num, dst)
        decreases len
      {
        FullFragmentOut(s0, ds, buf, dst, protocol, num, len);
        len := len - Ip.MaxFragment;
        num := num + 1;
        if len <= Ip.MaxFragment {
          break;
        }
      }
    }

    /** One turn of the do-while loop: fragment num, the next 1480 bytes
        of more than 1480 left, goes out with mf set. */
    method FullFragmentOut(ghost s0: State, ghost ds: seq<seq<byte>>, buf: seq<byte>, dst: Bytes.Ip, protocol: Word16, num: nat, len: int)
      requires ds == Ip.Datagrams(cfg, buf, dst, protocol, gId)
      requires len == |buf| % 0x1_0000 - Ip.MaxFragment * num && len > Ip.MaxFragment
      requires num < |ds| && Abs() == SendFirst(cfg, s0, ds, num, dst)
      modifies this
      ensures gId == old(gId) && num + 1 < |ds| && Abs() == SendFirst(cfg, s0, ds, num + 1, dst)
    {
      Ip.FullFragmentAt(cfg, buf, dst, protocol, gId, num, len);
      var txbuf := cfg.stale(Ip.MaxFragment);
      FragmentOut(s0, ds, num, txbuf, dst, protocol, (Ip.MaxFragment * num / 8) % 0x1_0000, 1);
    }

    /** One ip_fragment_out call of ip_out, for datagram num of the list
        ds that ip_out sends with id g_id: it takes the state from the
        first num datagrams sent to the first num + 1. */
    method FragmentOut(ghost s0: State, ghost ds: seq<seq<byte>>, num: nat,
                       payload: seq<byte>, dst: Bytes.Ip, protocol: Word16, offset: Word16, mf: int)
      requires num < |ds| && ds[num] == Ip.Datagram(cfg, payload, dst, protocol, gId, offset, mf)
      requires Abs() == SendFirst(cfg, s0, ds, num, dst)
      modifies this
      ensures gId == old(gId) && Abs() == SendFirst(cfg, s0, ds, num + 1, dst)
      ensures num + 1 == |ds| ==> Abs() == SendFirst(cfg, s0, ds, |ds|, dst)
    {
      IpFragmentOut(payload, dst, protocol, gId, offset, mf);
    }

    /** ip_in: header check, checksum check, destination check, then
        dispatch on the protocol. */
    method IpIn(d: seq<byte>)
      requires Ip.Readable(cfg, d)
      modifies this
      ensures Abs() == StackSpec.IpIn(cfg, old(Abs()), d)
    {
      if Ip.Version(d) != Ip.Version4 || Ip.HdrLen(d) > 6 || Ip.HdrLen(d) < 5 {
        return;
      }
      var ok, restored := Ip.CheckHeaderChecksum(cfg, d);
      var srcIp := Ip.Src(restored);
      if ok {
        if Ip.Dst(restored) == cfg.ip {
          if Ip.Protocol(restored) == ProtoIcmp {
            IcmpIn(restored[4 * Ip.HdrLen(restored)..], srcIp);
          } else if Ip.Protocol(restored) == ProtoUdp {
            UdpIn(restored[4 * Ip.HdrLen(restored)..], srcIp);
          } else {
            IcmpUnreachable(restored, srcIp, Icmp.CodeProtocolUnreach);
          }
        }
      }
    }

    /** udp_in, outside this model: the delivery is recorded. */
    method UdpIn(payload: seq<byte>, src: Bytes.Ip)
      modifies this
      ensures Abs() == StackSpec.UdpIn(old(Abs()), payload, src)
    {
      delivered := delivered + [Delivery(payload, src)];
    }

    // -------------------------------------------------------------------
    // src/icmp.c
    // -------------------------------------------------------------------

    /** icmp_in: answer an echo request through ip_out. */
    method IcmpIn(m: seq<byte>, src: Bytes.Ip)
      modifies this
      ensures Abs() == StackSpec.IcmpIn(cfg, old(Abs()), m, src)
    {
      if |m| >= Icmp.HeaderLen {
        if m[0] == Icmp.TypeEchoRequest && m[1] == 0 {
          var reply := Icmp.BuildEchoReply(cfg.checksum16, m);
          IpOut(reply, src, ProtoIcmp);
        }
      }
    }

    /** icmp_unreachable: send the unreachable message for d to src. */
    method IcmpUnreachable(d: seq<byte>, src: Bytes.Ip, code: byte)
      requires |d| >= Icmp.QuoteLen
      modifies this
      ensures Abs() == StackSpec.IcmpUnreachable(cfg, old(Abs()), d, src, code)
    {
      var msg := Icmp.BuildUnreachable(cfg.checksum16, d, code);
      IpOut(msg, src, ProtoIcmp);
    }
  }
}
