# netLab protocol stack core in Dafny

This project models the core of the netLab teaching stack: Ethernet II
framing, ARP address resolution with its translation table and one-packet
pending buffer (`arp_buf`), IPv4 output with fragmentation and IPv4 input
with header checks, and the ICMP echo reply and protocol-unreachable
messages. The C functions in `src/ethernet.c`, `src/arp.c`, `src/ip.c` and
`src/icmp.c` change global state step by step. The model therefore has
three layers:

- **Packet layouts.** One module per protocol: `Bytes`, `Ethernet`, `Arp`,
  `Ip` and `Icmp`. Each gives the bytes a function writes as a pure
  function, for example `Ethernet.Frame`, `Arp.Packet`, `Ip.Datagram` and
  `Icmp.EchoReply`. A method follows the C stores one by one and is proved
  to produce exactly those bytes (`Ip.BuildDatagram`, `Arp.FillPacket`, …).
  The one exception is bytes 6-7 of the IP header: the model writes
  them in network order, whereas the C code stores them in host order
  (see Findings).
  Lemmas then say where each field sits and what the receiving side reads
  back.
- **ARP table.** `Arp.Updated` and `Arp.Lookup` give `arp_update` and
  `arp_lookup` on the table as a sequence. Lemmas state which slot is
  rewritten and what a later lookup answers.
- **State machine.** `StackSpec` gives the globals as one `State`:
  - `arp_table` and `arp_buf`;
  - `g_id`;
  - the frames passed to `driver_send`;
  - the payloads passed to `udp_in`.

  It has one transition function per C function. `NetStack.Stack` holds
  the same globals as fields. `arp_table` is an `array` updated in place,
  and every C function is a method. Each method is proved to perform
  exactly its `StackSpec` transition (`Abs() == StackSpec.X(old(Abs()), …)`).
  End-to-end properties such as resolve-then-flush, loopback UDP, ping and
  fragmentation are proved as lemmas about `StackSpec`.

The host is a `Host.Config` with these fields:

- its IP and MAC addresses;
- the default TTL;
- `ARP_TIMEOUT_SEC`;
- the 16-bit Internet checksum, left uninterpreted;
- `stale`: the bytes a freshly initialised `txbuf` holds where the code
  never writes.

The current time is a `now` parameter. The C code is read as running on a
little-endian host: `swap16` converts between host and network order.

## Model

| member | source | states |
|---|---|---|
| Ethernet.Frame | src/ethernet.c:53-84 | The frame sent is 14 bytes longer than the payload. Ethernet.FrameLayout states where each field sits. |
| Bytes.Memcpy | src/arp.c:135-137 | The copied bytes land at the given offset; every other byte stays as it was. |
| Ethernet.PrependHeader | src/ethernet.c:58-78 | The frame is the destination MAC, then the source MAC, then the big-endian EtherType, then the payload. |
| Ethernet.FrameLayout | src/ethernet.c:21-28 | A frame is 14 bytes longer than its payload. The receiver reads back the addresses, the EtherType (bytes 12-13) and the payload. |
| Arp.PacketFields | src/arp.c:125-137 | A packet is 28 bytes and every field reads back as written. It passes the header check of arp_in exactly when the opcode is request or reply. |
| Arp.FillPacket | src/arp.c:125-137 | The field-by-field fill gives the packet with hardware type Ethernet, protocol IPv4, lengths 6 and 4, the opcode and the addresses. target_mac keeps what the buffer held. |
| Arp.FillHeader | src/arp.c:128-132 | The stores of hardware type, protocol type, the two lengths and the opcode fill bytes 0-7 in network order. The addresses after them are untouched. |
| Arp.FillAddresses | src/arp.c:135-137 | The copies of sender_ip, sender_mac and target_ip land in their fields. Bytes 0-7 and target_mac keep what the buffer held. |
| Arp.Sweep | src/arp.c:53-58 | The sweep keeps the table's length. |
| Arp.FirstInvalidFrom | src/arp.c:60-75 | A slot it returns is INVALID and lies at or after the start index. |
| Arp.FirstInvalidFromIsFirst | src/arp.c:61-74 | The insert loop finds no slot exactly when none is INVALID. Otherwise it finds the lowest INVALID slot. |
| Arp.VictimScan | src/arp.c:78-86 | The index it returns is 0 or one of the entries scanned. |
| Arp.VictimScanIsLatest | src/arp.c:81-86 | The eviction scan ends on the lowest index holding the strictly largest positive timestamp, or on 0 when no timestamp is positive. |
| Arp.Slot | src/arp.c:60-96 | The slot arp_update rewrites is inside the table. |
| Arp.Updated | src/arp.c:46-98 | arp_update keeps the table's length. Arp.UpdateExpires, Arp.UpdateFillsLowestInvalid and Arp.UpdateEvictsLatest state which entries change; Arp.LookupAfterUpdate and Arp.StaleDuplicateShadowsUpdate state what a later lookup answers. |
| Arp.Lookup | src/arp.c:106-112 | arp_lookup; Arp.LookupFinds states its result. |
| Arp.Cleared | src/arp.c:263-264 | Clearing keeps the table's length. |
| Arp.LookupFinds | src/arp.c:106-112 | arp_lookup returns NULL exactly when no VALID entry holds the address. Otherwise it returns the MAC of the lowest VALID entry for it. |
| Arp.UpdateExpires | src/arp.c:53-58 | After arp_update, every entry that had reached the timeout is INVALID unless it is the slot just rewritten. The table keeps its size. |
| Arp.UpdateFillsLowestInvalid | src/arp.c:60-75 | When the sweep leaves an INVALID slot, the lowest one receives the new entry. No other entry changes. |
| Arp.UpdateEvictsLatest | src/arp.c:76-96 | With no INVALID slot, the entry with the largest timestamp is overwritten, which is the newest, not the oldest. No other entry changes. |
| Arp.LookupAfterUpdate | src/arp.c:46-112 | When no VALID entry for the address lies below the slot arp_update rewrites (in particular when the address was unknown), a lookup after arp_update with VALID returns the new MAC. |
| Arp.StaleDuplicateShadowsUpdate | src/arp.c:60-112 | arp_update never looks for an existing entry. When a VALID entry for the address lies below the slot it rewrites, a later lookup still answers the older entry's MAC, the one it answered on the swept table. With Arp.LookupAfterUpdate this covers every table. |
| Arp.DuplicateExample | src/arp.c:60-75 | An instance: with A VALID at index 0 and a free slot at index 1, updating A to a new MAC fills index 1 and keeps index 0, so the table holds two VALID entries for A, and lookup keeps answering the old MAC. |
| Arp.EvictionReplacesNewest | src/arp.c:76-96 | In a full table of entries stamped 10 and 20, the one stamped 20 is replaced. |
| Ip.Datagram | src/ip.c:91-119 | The datagram ip_fragment_out hands to arp_out. Ip.BuildDatagram shows the C stores produce it, and Ip.DatagramFields states what ip_in reads back from it. |
| Ip.Datagrams | src/ip.c:147-175 | The buffers ip_fragment_out builds for one ip_out call and hands to arp_out, in order. Ip.DatagramsShareId, Ip.FragmentAt and Ip.FragmentFlags state their headers, and Ip.PlanShape states the fragment sizes and offsets. |
| Ip.WriteHead | src/ip.c:97-110 | The stores into bytes 0-8 give version 4, header length 5, tos 0, the 16-bit total length, the id, flags and offset, and the TTL. The rest of the buffer is unchanged. |
| Ip.WriteTail | src/ip.c:113-117 | The stores into bytes 9-19 give the protocol cut to 8 bits, a zero checksum field, the source and the destination. The rest is unchanged. |
| Ip.ChecksumCompletesHeader | src/ip.c:117-119 | The fields in place form the zeroed header. Storing its checksum in bytes 10-11 gives the complete header in front of the payload. |
| Ip.BuildDatagram | src/ip.c:91-119 | ip_fragment_out's buffer is exactly the datagram: the header with its checksum, then the payload. |
| Ip.CheckHeaderChecksum | src/ip.c:37-48 | The verdict is true exactly when the stored checksum matches the checksum of the first 20 bytes with the field zeroed. The buffer is restored byte for byte. |
| Ip.HeaderLayout | src/ip.c:97-119 | Each header field sits at its RFC 791 offset. Zeroing the checksum field gives back the bytes it was computed over. |
| Ip.DatagramFields | src/ip.c:30-50 | A datagram built by ip_fragment_out reads back every field at the offset ip_in reads it from. It passes ip_in's version, length and checksum checks. |
| Ip.FlagsFragmentSplits | src/ip.c:104-108 | For an offset below 2^13, the flags word is the offset plus 0x2000 when mf is 1, and the offset alone otherwise. Its low 13 bits give back the offset, and its more-fragments bit is set exactly when mf is 1. |
| Ip.FlagsBytesAsWritten | src/ip.c:104-108 | As written, bytes 6-7 hold the flags word low byte first. |
| Ip.LastFragmentFlagsAsWritten | src/ip.c:104-108 | As written, the last fragment of 3000 bytes reads in network order with the more-fragments bit set and an offset of 0x1201. |
| Ip.PlanFromShape | src/ip.c:152-169 | From fragment num with len bytes left, the loop emits max(1, ceil(len/1480)) fragments; for len = 0 that is one empty last fragment. Their offsets are 1480*(num+k)/8. All but the last are full with mf 1. The last has at most 1480 bytes, at least 1 when len > 0, and mf 0. The sizes sum to len. |
| Ip.PlanShape | src/ip.c:144-169 | A payload of more than 1480 bytes is split into fragments at offsets 185*k, each below 2^13. All but the last are full with mf set. The last carries the rest with mf clear. |
| Ip.TotalOfFull | src/ip.c:154-167 | When all fragments but the last are full, the last carries what the others leave. |
| Ip.PlanFromStep | src/ip.c:154-164 | One turn of the do-while loop emits a full fragment with mf set. The plan continues with 1480 bytes fewer. |
| Ip.PlanFromLast | src/ip.c:164-169 | On leaving the loop, the next fragment is the last, carrying what is left with mf clear. |
| Ip.PlanOf3000 | src/ip.c:152-169 | 3000 bytes go out as 1480 + 1480 + 40 bytes, at offsets 0, 185 and 370. |
| Ip.PlanSuffix | src/ip.c:152-164 | After num turns of the loop, the plan continues from fragment num with len0 - 1480*num bytes. |
| Ip.FullFragmentAt | src/ip.c:154-160 | While more than 1480 bytes are left, datagram num is a full fragment with mf set and id g_id. |
| Ip.LastFragmentAt | src/ip.c:166-169 | With 1 to 1480 bytes left, datagram num is the last one and has mf clear. |
| Ip.DatagramsShareId | src/ip.c:147-175 | Every datagram of one ip_out call carries g_id, the protocol, the destination and this host as source. Each passes ip_in's checks. |
| Ip.FragmentHeader | src/ip.c:94-108 | A fragment of at most 1480 bytes has total length 20 plus its size, and flags word offset plus 0x2000 exactly when mf is set. |
| Ip.FragmentAt | src/ip.c:152-169 | Fragment k has the plan's size, total length 20 plus that size, and offset 185*k with the plan's flag. |
| Ip.FragmentFlags | src/ip.c:104-108 | With the flags stored in network order, fragment k reads back offset 185*k, and the more-fragments bit is set exactly on the fragments before the last. |
| Icmp.EchoReply | src/icmp.c:28-38 | The reply icmp_in sends. Icmp.EchoReplyFields states its fields. |
| Icmp.Unreachable | src/icmp.c:63-76 | The message icmp_unreachable sends. Icmp.UnreachableFields states its fields. |
| Icmp.ZeroedChecksum | src/icmp.c:36 | Zeroing the checksum field keeps the message length. |
| Icmp.WithChecksumOk | src/icmp.c:36-38 | Storing the checksum of the zeroed message gives a message with a valid checksum. Zeroing the field again gives back the original. Nothing else moves. |
| Icmp.BuildEchoReply | src/icmp.c:28-38 | Copying the request and rewriting type, code and checksum gives exactly the echo reply. |
| Icmp.BuildUnreachable | src/icmp.c:63-76 | The 28 quoted bytes, then an 8-byte header with type 3, the code, zero id and sequence, and the checksum, give exactly the unreachable message. |
| Icmp.FillUnreachableHeader | src/icmp.c:68-74 | The header stores give type 3, the code and zero checksum, id and sequence in bytes 0-7. The quoted bytes after them are untouched. |
| Icmp.EchoReplyFields | src/icmp.c:25-38 | The reply has the request's length, type 0, code 0, the request's id, sequence and data, and a valid checksum. It is not itself an echo request. |
| Icmp.UnreachableFields | src/icmp.c:63-76 | The message is 36 bytes with type 3, the code, zero id and sequence, a valid checksum, and the datagram's first 28 bytes. |
| StackSpec.EthernetOut | src/ethernet.c:53-84 | ethernet_out appends exactly one frame to what the driver sent. Nothing else changes. |
| StackSpec.ArpReq | src/arp.c:122-143 | arp_req appends exactly one frame. Nothing else changes. |
| StackSpec.ArpOut | src/arp.c:235-255 | arp_out appends exactly one frame and changes neither the table, nor g_id, nor the deliveries. StackSpec.ArpOutSends states the frame in each case. |
| StackSpec.ArpIn | src/arp.c:162-221 | arp_in keeps the table's length, g_id and the deliveries, and appends at most one frame. Its cases are stated by StackSpec.ArpInDropsMalformed (malformed packet), StackSpec.ArpInFlushes (parked datagram resolves), StackSpec.ArpInIgnoresRequestWhilePending (parked datagram does not resolve), StackSpec.ArpInAnswersRequest (request for this host, nothing parked) and StackSpec.ArpInRepliesOnlyToRequestsForHost (any other packet, nothing parked). StackSpec.ResolveThenFlush combines arp_out and arp_in. |
| StackSpec.ArpInit | src/arp.c:261-267 | arp_init leaves nothing parked, keeps the table's length, g_id and the deliveries, and appends exactly one frame. StackSpec.ArpInitClears states the rest. |
| StackSpec.IpFragmentOut | src/ip.c:91-123 | ip_fragment_out appends exactly one frame, through arp_out, and changes neither the table, nor g_id, nor the deliveries. |
| StackSpec.SendFirst | src/ip.c:152-172 | Sending n datagrams through arp_out appends exactly n frames and changes neither the table, nor g_id, nor the deliveries. |
| StackSpec.IpOut | src/ip.c:147-176 | ip_out only appends frames, advances g_id by one, and changes neither the table nor the deliveries. StackSpec.IpOutResolved and StackSpec.IpOutUnresolved state the frames. |
| StackSpec.IcmpIn | src/icmp.c:20-46 | icmp_in changes neither the table nor the deliveries, only appends frames, and uses one id exactly when the message is an echo request. StackSpec.EchoAnswered states the reply. |
| StackSpec.IcmpUnreachable | src/icmp.c:59-80 | icmp_unreachable only appends frames, uses one id, and changes neither the table nor the deliveries. |
| StackSpec.UdpIn | src/ip.c:60 | The call of udp_in, recorded as one delivery. |
| StackSpec.IpIn | src/ip.c:24-75 | ip_in never changes the ARP table, only appends frames, delivers at most one payload and uses at most one id. A datagram it does not accept changes nothing. StackSpec.IpInDispatches and StackSpec.UnknownProtocolUnreachable state where an accepted datagram goes. |
| StackSpec.EthernetIn | src/ethernet.c:17-42 | ethernet_in keeps the table's length, only appends frames and deliveries, and uses at most one id. StackSpec.EthernetInDispatches states the dispatch. |
| StackSpec.ArpInitClears | src/arp.c:261-267 | After arp_init, every entry is INVALID, no address resolves and nothing is parked. The only frame sent is a broadcast request for this host's address. |
| StackSpec.ArpInDropsMalformed | src/arp.c:170-178 | A packet failing the header check changes nothing, not even the table. |
| StackSpec.ArpInAnswersRequest | src/arp.c:181-219 | With nothing parked, every well-formed request for this host, of 28 bytes or padded beyond them, gets a reply to the sender's MAC carrying this host's addresses, and the sender is entered through arp_update. When the table did not know the sender, the sender then resolves. |
| StackSpec.ArpInAnswersPacketRequest | src/arp.c:181-219 | The unpadded instance: a request built as Arp.Packet for this host's address, whatever its target_mac, gets that reply, and the sender is entered through arp_update. |
| StackSpec.ArpInIgnoresRequestWhilePending | src/arp.c:184-198 | While a datagram is parked and its address still does not resolve, no packet, not even a request for this host, makes arp_in send anything. The datagram stays parked. |
| StackSpec.ArpInFlushes | src/arp.c:184-197 | When a datagram is parked and its address resolves in the table as arp_update leaves it, arp_in sends the parked datagram to the MAC found, in a frame of the parked protocol. arp_buf is emptied and the table is the updated one. |
| StackSpec.ArpInRepliesOnlyToRequestsForHost | src/arp.c:199-219 | With nothing parked, a packet that is not a request for this host's address makes arp_in send nothing and park nothing. g_id is unchanged. |
| StackSpec.ArpOutSends | src/arp.c:235-255 | arp_out sends exactly one frame. On a hit it is the datagram to the MAC found, and arp_buf is untouched. On a miss the datagram is parked and the frame is a broadcast, well-formed request from this host for the address. |
| StackSpec.ResolveThenFlush | src/arp.c:192-197 | A datagram for an unknown address is parked and a request is broadcast. The reply sends the parked datagram to the replying MAC, clears arp_buf and makes the address resolve. |
| StackSpec.EthernetInDispatches | src/ethernet.c:17-42 | An ARP or IP frame, whatever its destination MAC, reaches arp_in or ip_in with its 14-byte header stripped. Any other EtherType is dropped. |
| StackSpec.SendFirstResolved | src/arp.c:239-241 | To a resolved address, the first n datagrams go out in order, each in a frame to the MAC, and nothing is parked. |
| StackSpec.ArpOutResolved | src/arp.c:239-241 | arp_out to an address the table resolves is exactly eth_out of the datagram to the MAC found. |
| StackSpec.SendFirstUnresolved | src/arp.c:242-253 | To an unresolved address, each datagram triggers one broadcast request, and only the last datagram stays parked. |
| StackSpec.IpOutResolved | src/ip.c:147-175 | ip_out to a resolved address sends the frames of all its datagrams in order and advances g_id by one. The table and arp_buf are unchanged. |
| StackSpec.IpOutUnresolved | src/ip.c:152-175 | ip_out of more than 1480 bytes to an unresolved address sends one request per fragment. arp_buf holds only the last fragment, so the earlier ones are lost. |
| StackSpec.LoopbackUdp | src/ip.c:30-60 | A UDP datagram this host builds for itself, fed back to ip_in, is delivered to udp_in with its payload and this host as sender. |
| StackSpec.IpInDropsRejected | src/ip.c:30-50 | ip_in ignores a datagram with a bad version, header length, checksum or destination. icmp_in ignores anything but an echo request. |
| StackSpec.IpInDispatches | src/ip.c:52-61 | An accepted ICMP datagram goes to icmp_in, and an accepted UDP datagram to udp_in. Either one goes with its 4 * hdr_len header bytes removed and with its source address. |
| StackSpec.UnknownProtocolUnreachable | src/ip.c:62-65 | An accepted datagram of another protocol is answered with a protocol-unreachable message quoting its first 28 bytes. |
| StackSpec.EchoAnswered | src/icmp.c:20-46 | An echo request of up to 1480 bytes from a resolved sender gets one frame to the sender's MAC. It holds an unfragmented datagram with id g_id carrying the echo reply. |
| NetStack.BuildReply | src/arp.c:203-218 | The reply built in the buffer is the reply packet of arp_in, and its target_mac is the requester's MAC. |
| NetStack.Stack.constructor | src/arp.c:26-32 | Every table entry starts unused and INVALID, nothing is parked, g_id is 0, and nothing has been sent or delivered. |
| NetStack.Stack.EthernetOut | src/ethernet.c:53-85 | Exactly one frame, header then buffer, is appended to what the driver sent. |
| NetStack.Stack.EthernetIn | src/ethernet.c:17-42 | Performs exactly the EthernetIn transition. |
| NetStack.Stack.ArpUpdate | src/arp.c:46-98 | The table after the three loops is the table given by Arp.Updated. |
| NetStack.Stack.ExpireEntries | src/arp.c:53-58 | The table after the sweep loop is the swept table. |
| NetStack.Stack.EvictionIndex | src/arp.c:78-86 | The index found is the eviction victim VictimScan gives. |
| NetStack.Stack.ArpLookup | src/arp.c:106-112 | The result is the lookup of the address in the current table. |
| NetStack.Stack.ArpReq | src/arp.c:122-143 | Exactly one broadcast ARP frame carrying the request packet is sent. |
| NetStack.Stack.ArpIn | src/arp.c:162-221 | Performs exactly the ArpIn transition. |
| NetStack.Stack.ArpOut | src/arp.c:235-255 | Performs exactly the ArpOut transition. |
| NetStack.Stack.ArpInit | src/arp.c:261-267 | Performs exactly the ArpInit transition. |
| NetStack.Stack.IpFragmentOut | src/ip.c:91-123 | The datagram is built and passed to arp_out. |
| NetStack.Stack.IpOut | src/ip.c:147-176 | Performs exactly the IpOut transition: every datagram of the buffer through arp_out, then g_id advances. |
| NetStack.Stack.FragmentedOut | src/ip.c:152-169 | The full fragments, then the last one, go out in plan order. |
| NetStack.Stack.FullFragmentsOut | src/ip.c:153-164 | After the do-while loop, num full fragments have gone out and 1 to 1480 bytes are left. |
| NetStack.Stack.FullFragmentOut | src/ip.c:155-162 | One loop turn sends the next full fragment. |
| NetStack.Stack.FragmentOut | src/ip.c:160 | One ip_fragment_out call sends datagram num of the list. |
| NetStack.Stack.IpIn | src/ip.c:24-75 | Performs exactly the IpIn transition. |
| NetStack.Stack.UdpIn | src/ip.c:60 | Exactly one delivery is recorded. |
| NetStack.Stack.IcmpIn | src/icmp.c:20-46 | Performs exactly the IcmpIn transition. |
| NetStack.Stack.IcmpUnreachable | src/icmp.c:59-80 | Performs exactly the IcmpUnreachable transition. |

## Findings

| source | as written | input that shows it | evidently intended | confidence | as-written member | corrected member |
|---|---|---|---|---|---|---|
| src/ip.c:104-108 | `flags_fragment` is assigned without `swap16`, so on a little-endian host bytes 6-7 go out low byte first | the last fragment of a 3000-byte payload (offset 370, mf 0): the bytes are 0x72 0x01, which a receiver reads as more-fragments set and offset 0x1201 | the field stored in network order, like `total_len` and `id` | high on a little-endian host; not executed | Ip.LastFragmentFlagsAsWritten | Ip.FragmentFlags |

`Ip.Datagram` and everything built on it use the corrected big-endian
field.

## Left out

- Driver I/O is not modelled: `ethernet_init`, `ethernet_poll` and `driver_open`/`driver_recv`. The `driver_send` calls are recorded in the `sent` log.
- `udp_in` is not part of this model. Its calls are recorded in the `delivered` log.
- Time is not read from a clock. Each `arp_update` takes one instant `now`. The C code calls `time()` once per entry in the sweep, so an entry can expire at a slightly later instant there.
- The Internet checksum (`checksum16`, which is in utils.c) is a parameter of `Config` and is left uninterpreted. Its byte-order handling inside that function is not modelled.
- The buffer helpers (buf.c: `buf_init`, `buf_add_header`, `buf_remove_header`, `buf_copy`) are not part of this model. Buffers are byte sequences: a header is added by prepending and removed by dropping a prefix.
- Aliasing between `rxbuf`, `txbuf` and `arp_buf.buf` is not modelled. Examples:
  - `arp_in` builds its reply by re-initialising `rxbuf`, which holds the packet being read. The C code writes the reply's header and sender fields first and reads the requester's `sender_ip` and `sender_mac` only afterwards (src/arp.c:206-216). The model takes those two fields from the received packet as it arrived, so any overwrite through the re-initialised `rxbuf` is ignored.
  - `ip_out` reuses `txbuf`.
- Bytes the C code never writes are abstract, given by `Config.stale`: the target MAC of an ARP request, and the data of each fragment. The fragment copy in `ip_out` reads from the payload pointer, not the advancing data pointer, so a fragment's data is not the matching slice of the buffer.
- `Config.stale` is a fixed function of the length alone. In the C code these bytes are leftovers in `txbuf` and depend on what was written there before; for example, `arp_req` rewrites `txbuf` between two fragments on the unresolved path (src/arp.c:125, src/ip.c:155). The model does not capture that history. So the following results hold only under this assumption:
  - StackSpec.SendFirstUnresolved, StackSpec.IpOutUnresolved and StackSpec.ArpInitClears, where the request frames are byte-identical, `target_mac` included;
  - Ip.FullFragmentAt, where every full fragment carries the same data.
- Ip.WriteHead and Ip.Datagram store bytes 6-7 (flags and fragment offset) in network order. The C code stores them in host order, without `swap16` (src/ip.c:104-108). The model uses the evidently intended field; the as-written bytes appear only in Ip.FlagsBytesAsWritten and Ip.LastFragmentFlagsAsWritten (see Findings).
- NetStack.Stack.ArpIn, NetStack.Stack.IpOut and the other methods do not record that `ethernet_out` leaves the 14-byte header inside `arp_buf.buf` or the caller's buffer. Only the frame sent is modelled.
- `arp_init_pkt` (src/arp.c:12-19) is never used by the code and is not modelled.
- The header files are not part of this model:
  - `ARP_MAX_ENTRY` is the table's length;
  - `ARP_TIMEOUT_SEC` and `IP_DEFALUT_TTL` are `Config` fields;
  - `DRIVER_IF_MAC`, `DRIVER_IF_IP`, `net_if_mac` and `net_if_ip` are taken to be the same addresses.
- `g_id` is an unbounded `nat`. The C `int` overflow after 2^31 datagrams is not modelled. The id written into the header is cut to 16 bits, as `swap16` cuts it.
- Reads the C code makes without checking a length are preconditions:
  - 14 bytes for `ethernet_in`;
  - at least 28 bytes for `arp_in`, which reads only its first 28 and accepts padded packets;
  - `Ip.Readable` for `ip_in`;
  - 28 bytes for `icmp_unreachable`.
- Where the code and its documented intent differ, the model follows the code:
  - eviction replaces the newest entry, not the oldest;
  - `arp_update` does not look for an existing entry for the address;
  - `ip_in` never checks the total length field;
  - the header check accepts a header length of 6 words but checksums only 20 bytes.
- `arp_in` answers no request while a datagram is parked (src/arp.c:156-158, 184-197). The model follows the code. The reception rule of RFC 826 instead answers every request for the host's address. StackSpec.ArpInIgnoresRequestWhilePending states the behaviour.
- Some C functions are split into helper methods so that each proof stays small: `ExpireEntries`, `EvictionIndex`, `BuildReply`, `FragmentedOut`, `FullFragmentsOut`, `FullFragmentOut` and `FragmentOut`. Their statements are those of the single C function.
