/** Host configuration and the protocol numbers shared by the layers
    (the net_protocol_t tags). The header files that define these values
    (config.h, net.h) are not part of this model: the protocol numbers are
    the registered ones, and the host-specific values are fields of Config. */
module Host {
  import opened Bytes

  /** EtherType of the address-resolution protocol (NET_PROTOCOL_ARP). */
  const ProtoArp: Word16 := 0x0806
  /** EtherType of IPv4 (NET_PROTOCOL_IP). */
  const ProtoIp: Word16 := 0x0800
  /** IPv4 protocol number of ICMP (NET_PROTOCOL_ICMP). */
  const ProtoIcmp: Word16 := 1
  /** IPv4 protocol number of UDP (NET_PROTOCOL_UDP). */
  const ProtoUdp: Word16 := 17

  /** For each length n, n bytes whose values the model does not fix. */
  type Filler = f: nat -> seq<byte> | forall n: nat :: |f(n)| == n witness Blank

  /** What the stack knows about the host it runs on.
      - ip, mac: net_if_ip and net_if_mac (also DRIVER_IF_IP, DRIVER_IF_MAC);
      - ttl: IP_DEFALUT_TTL;
      - arpTimeoutSec: ARP_TIMEOUT_SEC;
      - checksum16: the 16-bit Internet checksum over a byte range, left
        uninterpreted;
      - stale: what the data area of the shared transmit buffer holds after
        buf_init(&txbuf, n) when the code does not write it (the target
        hardware address of a request, the bytes of a fragment). */
  datatype Config = Config(
    ip: Ip,
    mac: Mac,
    ttl: byte,
    arpTimeoutSec: int,
    checksum16: seq<byte> -> Word16,
    stale: Filler)
}
