/** The address-resolution protocol of src/arp.c: the 28-byte packet of
    RFC 826 for Ethernet and IPv4, and the translation table as a sequence
    of entries, with the update (sweep, insert, evict) and lookup rules the
    source implements. */
module Arp {
  import opened Bytes
  import opened Host

  /** Hardware type of Ethernet (ARP_HW_ETHER). */
  const HwEther: Word16 := 1
  const OpRequest: Word16 := 1
  const OpReply: Word16 := 2
  const PacketLen: nat := 28

  // ---------------------------------------------------------------------
  // Packet format
  // ---------------------------------------------------------------------

  /** hw_type, pro_type, hw_len, pro_len, opcode, sender_mac, sender_ip,
      target_mac, target_ip, multi-byte fields big-endian. */
  function Packet(op: Word16, senderMac: Mac, senderIp: Ip, targetMac: Mac, targetIp: Ip): seq<byte>
  {
    BE16(HwEther) + BE16(ProtoIp) + [6, 4] + BE16(op) + senderMac + senderIp + targetMac + targetIp
  }

  function Opcode(p: seq<byte>): Word16
    requires |p| >= PacketLen
  {
    Read16(p, 6)
  }

  function SenderMac(p: seq<byte>): Mac
    requires |p| >= PacketLen
  {
    p[8..14]
  }

  function SenderIp(p: seq<byte>): Ip
    requires |p| >= PacketLen
  {
    p[14..18]
  }

  function TargetMac(p: seq<byte>): Mac
    requires |p| >= PacketLen
  {
    p[18..24]
  }

  function TargetIp(p: seq<byte>): Ip
    requires |p| >= PacketLen
  {
    p[24..28]
  }

  /** The header check of arp_in: Ethernet over IPv4, 6-byte and 4-byte
      addresses, and an opcode that is a request or a reply. */
  predicate WellFormed(p: seq<byte>)
    requires |p| >= PacketLen
  {
    && Read16(p, 0) == HwEther
    && Read16(p, 2) == ProtoIp
    && p[4] == 6
    && p[5] == 4
    && (Opcode(p) == OpRequest || Opcode(p) == OpReply)
  }

  /** Every field written by Packet reads back from its offset, and the
      packet passes arp_in's header check exactly when its opcode is a
      request or a reply. */
  lemma PacketFields(op: Word16, senderMac: Mac, senderIp: Ip, targetMac: Mac, targetIp: Ip)
    ensures var p := Packet(op, senderMac, senderIp, targetMac, targetIp);
      && |p| == PacketLen
      && Opcode(p) == op
      && SenderMac(p) == senderMac && SenderIp(p) == senderIp
      && TargetMac(p) == targetMac && TargetIp(p) == targetIp
      && (WellFormed(p) <==> op == OpRequest || op == OpReply)
  {
    var p := Packet(op, senderMac, senderIp, targetMac, targetIp);
    assert p[0..2] == BE16(HwEther) && p[2..4] == BE16(ProtoIp) && p[6..8] == BE16(op);
  }

  /** The field-by-field fill of arp_req and of the reply in arp_in: every
      field but target_mac is written; target_mac keeps what buf held. */
  method FillPacket(buf: seq<byte>, op: Word16, senderMac: Mac, senderIp: Ip, targetIp: Ip)
    returns (p: seq<byte>)
    requires |buf| == PacketLen
    ensures p == Packet(op, senderMac, senderIp, buf[18..24], targetIp)
  {
    p := FillHeader(buf, op);
    assert p[18..24] == buf[18..24];
    p := FillAddresses(p, senderMac, senderIp, targetIp);
  }

  /** The stores of hw_type, pro_type, hw_len, pro_len and opcode into
      bytes 0-7; the addresses after them are untouched. */
  method FillHeader(buf: seq<byte>, op: Word16) returns (p: seq<byte>)
    requires |buf| == PacketLen
    ensures |p| == PacketLen
    ensures p[..8] == BE16(HwEther) + BE16(ProtoIp) + [6, 4] + BE16(op)
    ensures p[8..] == buf[8..]
  {
    p := Write16(buf, 0, HwEther);
    p := Write16(p, 2, ProtoIp);
    p := p[4 := 6];
    p := p[5 := 4];
    p := Write16(p, 6, op);
    assert p[..8] == BE16(HwEther) + BE16(ProtoIp) + [6, 4] + BE16(op);
  }

  /** The copies of sender_ip, sender_mac and target_ip; the fixed fields
      in bytes 0-7 and target_mac keep what h held. */
  method FillAddresses(h: seq<byte>, senderMac: Mac, senderIp: Ip, targetIp: Ip) returns (p: seq<byte>)
    requires |h| == PacketLen
    ensures p == h[..8] + senderMac + senderIp + h[18..24] + targetIp
  {
    p := Memcpy(h, 14, senderIp);
    p := Memcpy(p, 8, senderMac);
    assert p[..8] == h[..8] && p[14..18] == senderIp && p[18..24] == h[18..24];
    p := Memcpy(p, 24, targetIp);
    assert p[..8] == h[..8] && p[8..14] == senderMac && p[14..18] == senderIp && p[18..24] == h[18..24] && p[24..] == targetIp;
    assert p == p[..8] + p[8..14] + p[14..18] + p[18..24] + p[24..];
  }

  // ---------------------------------------------------------------------
  // Translation table
  // ---------------------------------------------------------------------

  datatype EntryState = Invalid | Valid

  /** One row of arp_table; stamp is the time of the last update. */
  datatype Entry = Entry(ip: Ip, mac: Mac, state: EntryState, stamp: int)

  /** The sweep's timeout test at time now. */
  predicate Expired(e: Entry, now: int, limit: int)
  {
    e.state != Invalid && now - e.stamp >= limit
  }

  /** The table after the timeout sweep of arp_update. */
  function Sweep(t: seq<Entry>, now: int, limit: int): (w: seq<Entry>)
    ensures |w| == |t|
  {
    seq(|t|, i requires 0 <= i < |t| => if Expired(t[i], now, limit) then t[i].(state := Invalid) else t[i])
  }

  /** The first INVALID slot at or after i, as the insert loop finds it. */
  function FirstInvalidFrom(t: seq<Entry>, i: nat): (r: Option<nat>)
    ensures r.Some? ==> i <= r.value < |t| && t[r.value].state == Invalid
    decreases |t| - i
  {
    if i >= |t| then None
    else if t[i].state == Invalid then Some(i)
    else FirstInvalidFrom(t, i + 1)
  }

  /** (timeoutMax, indexMax) after the eviction loop has looked at the
      first n entries: the largest timestamp seen, starting from 0, and the
      first index where it was seen. */
  function VictimScan(t: seq<Entry>, n: nat): (r: (int, nat))
    requires n <= |t|
    ensures r.1 == 0 || r.1 < n
  {
    if n == 0 then (0, 0)
    else
      var r' := VictimScan(t, n - 1);
      if t[n - 1].stamp > r'.0 then (t[n - 1].stamp, n - 1) else r'
  }

  /** The slot arp_update rewrites: the first INVALID one, else the
      eviction victim. */
  function Slot(w: seq<Entry>): (k: nat)
    requires |w| > 0
    ensures k < |w|
  {
    match FirstInvalidFrom(w, 0)
    case Some(i) => i
    case None => VictimScan(w, |w|).1
  }

  /** arp_update(ip, mac, state) at time now. */
  function Updated(t: seq<Entry>, ip: Ip, mac: Mac, state: EntryState, now: int, limit: int): (u: seq<Entry>)
    requires |t| > 0
    ensures |u| == |t|
  {
    var w := Sweep(t, now, limit);
    w[Slot(w) := Entry(ip, mac, state, now)]
  }

  /** arp_init's loop: every entry marked INVALID, nothing else changed. */
  function Cleared(t: seq<Entry>): (r: seq<Entry>)
    ensures |r| == |t|
  {
    seq(|t|, i requires 0 <= i < |t| => t[i].(state := Invalid))
  }

  /** Entry k is a VALID entry for ip. */
  predicate Holds(t: seq<Entry>, ip: Ip, k: int)
  {
    0 <= k < |t| && t[k].state == Valid && t[k].ip == ip
  }

  function LookupFrom(t: seq<Entry>, ip: Ip, i: nat): Option<Mac>
    decreases |t| - i
  {
    if i >= |t| then None
    else if t[i].state == Valid && t[i].ip == ip then Some(t[i].mac)
    else LookupFrom(t, ip, i + 1)
  }

  /** arp_lookup: the MAC of the first VALID entry for ip, None for NULL. */
  function Lookup(t: seq<Entry>, ip: Ip): Option<Mac>
  {
    LookupFrom(t, ip, 0)
  }

  // ---------------------------------------------------------------------
  // Properties of the table operations
  // ---------------------------------------------------------------------

  lemma {:induction false} FirstInvalidFromIsFirst(t: seq<Entry>, i: nat)
    ensures FirstInvalidFrom(t, i).None? <==> forall j :: i <= j < |t| ==> t[j].state != Invalid
    ensures FirstInvalidFrom(t, i).Some? ==> forall j :: i <= j < FirstInvalidFrom(t, i).value ==> t[j].state != Invalid
    decreases |t| - i
  {
    if i < |t| && t[i].state != Invalid {
      FirstInvalidFromIsFirst(t, i + 1);
    }
  }

  /** The eviction scan ends on the lowest index holding the strictly
      largest positive timestamp, or on index 0 when no timestamp is
      positive. */
  lemma {:induction false} VictimScanIsLatest(t: seq<Entry>, n: nat)
    requires n <= |t|
    ensures var (m, k) := VictimScan(t, n);
      && m >= 0
      && (forall j :: 0 <= j < n ==> t[j].stamp <= m)
      && (m == 0 ==> k == 0)
      && (m > 0 ==> k < n && t[k].stamp == m && forall j :: 0 <= j < k ==> t[j].stamp < m)
  {
    if n > 0 {
      VictimScanIsLatest(t, n - 1);
    }
  }

  lemma {:induction false} LookupFromFinds(t: seq<Entry>, ip: Ip, i: nat)
    ensures LookupFrom(t, ip, i).None? <==> forall k :: i <= k < |t| ==> !Holds(t, ip, k)
    ensures forall k :: (i <= k && Holds(t, ip, k) && (forall j :: i <= j < k ==> !Holds(t, ip, j))
      ==> LookupFrom(t, ip, i) == Some(t[k].mac))
    decreases |t| - i
  {
    if i < |t| && !Holds(t, ip, i) {
      LookupFromFinds(t, ip, i + 1);
    }
  }

  /** arp_lookup returns NULL exactly when no VALID entry holds ip, and
      otherwise the MAC of the lowest-index VALID entry for ip. */
  lemma LookupFinds(t: seq<Entry>, ip: Ip)
    ensures Lookup(t, ip).None? <==> forall k :: 0 <= k < |t| ==> !Holds(t, ip, k)
    ensures forall k :: (Holds(t, ip, k) && (forall j :: 0 <= j < k ==> !Holds(t, ip, j))
      ==> Lookup(t, ip) == Some(t[k].mac))
  {
    LookupFromFinds(t, ip, 0);
  }

  /** After arp_update, every entry that was VALID and had reached the
      timeout is INVALID, unless it is the slot that was then rewritten;
      the table keeps its size. */
  lemma UpdateExpires(t: seq<Entry>, ip: Ip, mac: Mac, state: EntryState, now: int, limit: int)
    requires |t| > 0
    ensures var u := Updated(t, ip, mac, state, now, limit);
      && |u| == |t|
      && forall i :: 0 <= i < |t| && Expired(t[i], now, limit) ==>
           u[i].state == Invalid || u[i] == Entry(ip, mac, state, now)
  {
  }

  /** When the sweep leaves an INVALID slot, the lowest such slot receives
      (ip, mac, state, now) and no other entry differs from the swept table. */
  lemma UpdateFillsLowestInvalid(t: seq<Entry>, ip: Ip, mac: Mac, state: EntryState, now: int, limit: int, k: nat)
    requires k < |t|
    requires Sweep(t, now, limit)[k].state == Invalid
    requires forall j :: 0 <= j < k ==> Sweep(t, now, limit)[j].state != Invalid
    ensures var u := Updated(t, ip, mac, state, now, limit);
      && u[k] == Entry(ip, mac, state, now)
      && forall i :: 0 <= i < |t| && i != k ==> u[i] == Sweep(t, now, limit)[i]
  {
    var w := Sweep(t, now, limit);
    FirstInvalidFromIsFirst(w, 0);
    assert Slot(w) == k;
  }

  /** When no slot is INVALID after the sweep, the entry overwritten is the
      lowest index holding the strictly largest timestamp -- the most
      recently updated entry, not the oldest -- or index 0 when no
      timestamp is positive; nothing else differs from the swept table. */
  lemma UpdateEvictsLatest(t: seq<Entry>, ip: Ip, mac: Mac, state: EntryState, now: int, limit: int, k: nat)
    requires k < |t|
    requires forall j :: 0 <= j < |t| ==> Sweep(t, now, limit)[j].state != Invalid
    requires || (k == 0 && forall j :: 0 <= j < |t| ==> t[j].stamp <= 0)
             || (&& t[k].stamp > 0
                 && (forall j :: 0 <= j < |t| ==> t[j].stamp <= t[k].stamp)
                 && (forall j :: 0 <= j < k ==> t[j].stamp < t[k].stamp))
    ensures var u := Updated(t, ip, mac, state, now, limit);
      && u[k] == Entry(ip, mac, state, now)
      && forall i :: 0 <= i < |t| && i != k ==> u[i] == Sweep(t, now, limit)[i]
  {
    var w := Sweep(t, now, limit);
    FirstInvalidFromIsFirst(w, 0);
    VictimScanIsLatest(w, |w|);
    var (m, v) := VictimScan(w, |w|);
    assert Slot(w) == v;
    assert forall j :: 0 <= j < |t| ==> w[j].stamp == t[j].stamp;
    assert v == k;
  }

  /** Lookup from index i answers the same on two tables that agree from
      i up to an index k at or below which the first one holds ip. */
  lemma {:induction false} LookupFromAgrees(t: seq<Entry>, u: seq<Entry>, ip: Ip, i: nat, k: nat)
    requires |t| == |u| && i <= k < |t|
    requires forall j :: i <= j <= k ==> t[j] == u[j]
    requires Holds(t, ip, k)
    ensures LookupFrom(t, ip, i) == LookupFrom(u, ip, i)
    decreases k - i
  {
    if !Holds(t, ip, i) {
      LookupFromAgrees(t, u, ip, i + 1, k);
    }
  }

  /** The sweep only ever invalidates: an address with no VALID entry
      still has none after it. */
  lemma SweepKeepsUnknown(t: seq<Entry>, ip: Ip, now: int, limit: int)
    requires Lookup(t, ip).None?
    ensures forall j :: 0 <= j < |t| ==> !Holds(Sweep(t, now, limit), ip, j)
  {
    LookupFinds(t, ip);
    var w := Sweep(t, now, limit);
    forall j | 0 <= j < |t| ensures !Holds(w, ip, j) {
      assert !Holds(t, ip, j);
    }
  }

  /** When no VALID entry for ip lies below the slot arp_update rewrites
      (in particular when ip had no VALID entry at all), lookup(ip) after
      arp_update(ip, mac, VALID) returns mac. */
  lemma LookupAfterUpdate(t: seq<Entry>, ip: Ip, mac: Mac, now: int, limit: int)
    requires |t| > 0
    requires var w := Sweep(t, now, limit);
      forall j :: 0 <= j < Slot(w) ==> !Holds(w, ip, j)
    ensures Lookup(Updated(t, ip, mac, Valid, now, limit), ip) == Some(mac)
  {
    var w := Sweep(t, now, limit);
    var u := Updated(t, ip, mac, Valid, now, limit);
    var k := Slot(w);
    forall j | 0 <= j < k ensures !Holds(u, ip, j) {
      assert u[j] == w[j] && !Holds(w, ip, j);
    }
    assert Holds(u, ip, k);
    LookupFinds(u, ip);
  }

  /** arp_update does not look for an existing entry for the address: when
      a VALID entry for ip lies below the slot it rewrites, lookup(ip)
      afterwards still answers what it answered on the swept table, so a
      changed MAC is not seen. Together with LookupAfterUpdate this decides
      every case. */
  lemma StaleDuplicateShadowsUpdate(t: seq<Entry>, ip: Ip, mac: Mac, now: int, limit: int, j: nat)
    requires |t| > 0
    requires var w := Sweep(t, now, limit);
      j < Slot(w) && Holds(w, ip, j)
    ensures Lookup(Updated(t, ip, mac, Valid, now, limit), ip) == Lookup(Sweep(t, now, limit), ip)
    ensures Lookup(Sweep(t, now, limit), ip).Some?
  {
    var w := Sweep(t, now, limit);
    LookupFromAgrees(w, Updated(t, ip, mac, Valid, now, limit), ip, 0, j);
    LookupFinds(w, ip);
  }

  /** An instance: with a VALID entry for A at index 0 and a free slot at
      index 1, updating A to a new MAC fills index 1 and keeps index 0, so
      the table holds two VALID entries for A and lookup(A) still answers
      the old MAC. */
  lemma DuplicateExample(a: Ip, was: Mac, newer: Mac, other: Entry, limit: int)
    requires was != newer && other.state == Invalid && limit > 1
    ensures var u := Updated([Entry(a, was, Valid, 100), other], a, newer, Valid, 101, limit);
      && u == [Entry(a, was, Valid, 100), Entry(a, newer, Valid, 101)]
      && Lookup(u, a) == Some(was)
  {
    var t := [Entry(a, was, Valid, 100), other];
    var w := Sweep(t, 101, limit);
    assert w == t;
    assert FirstInvalidFrom(w, 0) == Some(1);
  }

  /** With a full table, the entry updated most recently is the one
      replaced: of two VALID entries stamped 10 and 20, the one stamped 20
      is overwritten and the older one survives. */
  lemma EvictionReplacesNewest(e0: Entry, e1: Entry, ip: Ip, mac: Mac, limit: int)
    requires e0.state == Valid && e0.stamp == 10
    requires e1.state == Valid && e1.stamp == 20
    requires limit > 11
    ensures Updated([e0, e1], ip, mac, Valid, 21, limit) == [e0, Entry(ip, mac, Valid, 21)]
  {
    var w := Sweep([e0, e1], 21, limit);
    assert w == [e0, e1];
    assert FirstInvalidFrom(w, 0) == None;
    assert VictimScan(w, 1) == (10, 0);
    assert VictimScan(w, 2) == (20, 1);
  }
}
