/** Value types shared by the NAPT engine: address/port tuples, the decoded
    packet the engine is handed, dispositions, and byte-order conversion.

    Header fields inside a `Packet` are kept as they are on the wire
    (network byte order); tuples stored in the translation tables are in
    host byte order. `Swap16`/`Swap32` convert between the two. */
module NatTypes {

  datatype Option<T> = None | Some(value: T)

  type Mac = bv48

  /** An (IPv4 address, L4 port) pair in host byte order. */
  datatype Tuple = Tuple(addr: bv32, port: bv16)

  /** What the engine tells the packet I/O layer to do with a packet. */
  datatype Dir = Send | Drop | Kni

  /** The two attachment points of a port pair. */
  datatype Side = Public | Private

  /** The L4 protocols that own a translation table. */
  datatype Proto = TCP | UDP | ICMP

  /** One value per translated protocol (`PublicToPrivateTranslation` indexes its tables and port maps by IP protocol number). */
  datatype PerProto<T> = PerProto(tcp: T, udp: T, icmp: T)
  {
    function Get(p: Proto): T
    {
      match p
      case TCP => tcp
      case UDP => udp
      case ICMP => icmp
    }

    function Set(p: Proto, v: T): (r: PerProto<T>)
      ensures r.Get(p) == v
      ensures forall q :: q != p ==> r.Get(q) == Get(q)
    {
      match p
      case TCP => this.(tcp := v)
      case UDP => this.(udp := v)
      case ICMP => this.(icmp := v)
    }
  }

  // ---- decoded packet (wire byte order) ----

  datatype L4 =
    | TcpHdr(srcPort: bv16, dstPort: bv16, flags: bv8)
    | UdpHdr(srcPort: bv16, dstPort: bv16)
    | IcmpHdr(icmpType: bv8, code: bv8, identifier: bv16)
    | OtherL4

  datatype Ipv4Hdr = Ipv4Hdr(srcAddr: bv32, dstAddr: bv32, l4: L4)

  /** ARP header; `spa`/`tpa` are the protocol addresses read as wire-order words. */
  datatype ArpHdr = ArpHdr(operation: bv16, sha: Mac, spa: bv32, tha: Mac, tpa: bv32)

  datatype L3 = Ipv4(ip: Ipv4Hdr) | Arp(arp: ArpHdr) | OtherL3

  datatype Packet = Packet(ethSrc: Mac, ethDst: Mac, l3: L3)

  /** Protocol whose translation table a packet uses, if any. */
  function ProtoOf(l4: L4): (r: Option<Proto>)
    ensures r.None? <==> l4.OtherL4?
    ensures r == Some(TCP) <==> l4.TcpHdr?
    ensures r == Some(ICMP) <==> l4.IcmpHdr?
  {
    match l4
    case TcpHdr(_, _, _) => Some(TCP)
    case UdpHdr(_, _) => Some(UDP)
    case IcmpHdr(_, _, _) => Some(ICMP)
    case OtherL4 => None
  }

  // ---- protocol constants (host byte order) ----

  const ARP_REQUEST: bv16 := 1
  const ARP_REPLY: bv16 := 2
  const ICMP_ECHO_REQUEST: bv8 := 8
  const ICMP_ECHO_REPLY: bv8 := 0
  const TCP_FLAG_FIN: bv8 := 0x01
  const TCP_FLAG_RST: bv8 := 0x04
  const TCP_FLAG_ACK: bv8 := 0x10

  // ---- byte order ----

  /** Exchanges the two bytes of a 16-bit word. */
  function Swap16(x: bv16): bv16
  {
    (x << 8) | (x >> 8)
  }

  /** Reverses the four bytes of a 32-bit word. */
  function Swap32(x: bv32): bv32
  {
    ((x & 0xff) << 24) | ((x & 0xff00) << 8) | ((x >> 8) & 0xff00) | (x >> 24)
  }

  lemma Swap16Involution(x: bv16)
    ensures Swap16(Swap16(x)) == x
  {
  }

  lemma Swap32Involution(x: bv32)
    ensures Swap32(Swap32(x)) == x
  {
  }

  // ---- configuration ----

  /** Per attachment point: its subnet address (host order), its MAC, and
      whether a kernel-fallback (KNI) interface is configured. */
  datatype PortConfig = PortConfig(addr: bv32, mac: Mac, hasKni: bool)

  /** A host-order IPv4 address as the key of an ARP cache. The wrapper lets
      the verifier read an entry back at the key it was just stored under,
      which it cannot do for a map keyed by a bare bit-vector. */
  datatype HostAddr = HostAddr(addr: bv32)

  /** An ARP cache: IPv4 address to MAC. */
  type ArpTable = map<HostAddr, Mac>

  /** The two idle timeouts, in the same unit as the clock. */
  datatype Timeouts = Timeouts(connectionTimeout: int, portReuseTimeout: int)

  /** Packets the engine injects itself, recorded with the side they leave on. */
  datatype Emitted =
    | ArpReplyOut(side: Side, sha: Mac, tha: Mac, spa: bv32, tpa: bv32)
    | ArpRequestOut(side: Side, sha: Mac, spa: bv32, tpa: bv32)
    | EchoReplyOut(side: Side, ip: Ipv4Hdr)
}
