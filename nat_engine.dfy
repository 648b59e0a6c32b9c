/** The translation engine of one port pair: the public and private
    attachment points' translation tables and ARP caches, the public port's
    per-protocol port map, and the log of packets the engine injects
    itself (ARP replies and requests, ICMP echo replies). */
module Engine {
  import opened NatTypes
  import opened Tables
  import opened Keys
  import opened TcpTermination
  import opened ArpHandling
  import opened IcmpHandling

  /** Number of entries in each port map: one per 16-bit port. */
  const PORTS := 0x1_0000

  /** For every protocol the two translation tables are each other's inverse. */
  ghost predicate AllConsistent(pub: PerProto<Table>, priv: PerProto<Table>)
  {
    forall p: Proto :: Consistent(pub.Get(p), priv.Get(p))
  }

  /** Binding a fresh pair in one protocol keeps every protocol consistent. */
  lemma InsertKeepsAllConsistent(pub: PerProto<Table>, priv: PerProto<Table>, proto: Proto, q: Tuple, p: Tuple)
    requires AllConsistent(pub, priv)
    requires q !in pub.Get(proto) && p !in priv.Get(proto)
    ensures AllConsistent(pub.Set(proto, pub.Get(proto)[q := p]), priv.Set(proto, priv.Get(proto)[p := q]))
  {
    InsertPreservesConsistent(pub.Get(proto), priv.Get(proto), q, p);
    AllConsistentAfterSet(pub, priv, proto, pub.Get(proto)[q := p], priv.Get(proto)[p := q]);
  }

  /** Removing a port in one protocol keeps every protocol consistent. */
  lemma RemoveKeepsAllConsistent(pub: PerProto<Table>, priv: PerProto<Table>, proto: Proto, port: bv16)
    requires AllConsistent(pub, priv)
    ensures var r := RemovePort(pub.Get(proto), priv.Get(proto), port);
            AllConsistent(pub.Set(proto, r.0), priv.Set(proto, r.1)) && PortUnbound(r.0, port)
  {
    var r := RemovePort(pub.Get(proto), priv.Get(proto), port);
    RemovePortPreservesConsistent(pub.Get(proto), priv.Get(proto), port);
    AllConsistentAfterSet(pub, priv, proto, r.0, r.1);
  }

  /** Replacing one protocol's pair of tables by a consistent pair keeps all
      protocols consistent. */
  lemma AllConsistentAfterSet(pub: PerProto<Table>, priv: PerProto<Table>, proto: Proto, a: Table, b: Table)
    requires AllConsistent(pub, priv) && Consistent(a, b)
    ensures AllConsistent(pub.Set(proto, a), priv.Set(proto, b))
  {
    forall p: Proto ensures Consistent(pub.Set(proto, a).Get(p), priv.Set(proto, b).Get(p)) {
      if p != proto {
        assert pub.Set(proto, a).Get(p) == pub.Get(p);
      }
    }
  }

  /** The part of a port pair's state that one translation step reads and
      writes, seen from one port-map slot: both translation tables, that
      slot's entry, and the log of injected packets. */
  datatype Snapshot = Snapshot(pub: PerProto<Table>, priv: PerProto<Table>, entry: PortMapEntry, sent: seq<Emitted>)

  /** Every entry of one port map has a well-formed close state. */
  ghost predicate SlotsWellFormed(a: array<PortMapEntry>)
    reads a
  {
    forall i | 0 <= i < a.Length :: WellFormed(a[i])
  }

  /** The public port a binding occupies; port 0 stands in when there is none. */
  function SlotOf(b: Option<Tuple>): bv16
  {
    if b.Some? then b.value.port else 0
  }

  class PortPair {
    const publicCfg: PortConfig
    const privateCfg: PortConfig
    const timeouts: Timeouts
    /** Per protocol, public tuple -> private tuple (kept by the public port). */
    var publicTable: PerProto<Table>
    /** Per protocol, private tuple -> public tuple (kept by the private port). */
    var privateTable: PerProto<Table>
    var publicArp: ArpTable
    var privateArp: ArpTable
    /** Per protocol, the public port's bookkeeping, indexed by port number. */
    const portmap: PerProto<array<PortMapEntry>>
    /** Packets injected by the engine, oldest first. */
    var sent: seq<Emitted>

    ghost predicate Valid()
    {
      && portmap.tcp.Length == PORTS && portmap.udp.Length == PORTS && portmap.icmp.Length == PORTS
      && portmap.tcp != portmap.udp && portmap.tcp != portmap.icmp && portmap.udp != portmap.icmp
    }

    /** Every port-map entry has a well-formed close state: in particular no
        FIN count exceeds two. */
    ghost predicate PortMapWellFormed()
      reads portmap.tcp, portmap.udp, portmap.icmp
    {
      SlotsWellFormed(portmap.tcp) && SlotsWellFormed(portmap.udp) && SlotsWellFormed(portmap.icmp)
    }

    ghost predicate TablesConsistent()
      reads this`publicTable, this`privateTable
    {
      AllConsistent(publicTable, privateTable)
    }

    function Cfg(side: Side): PortConfig
    {
      if side == Public then publicCfg else privateCfg
    }

    function ArpCache(side: Side): ArpTable
      reads this`publicArp, this`privateArp
    {
      if side == Public then publicArp else privateArp
    }

    /** Egress traffic for the private port's own address, which goes to its KNI. */
    predicate ForPrivateKni(ip: Ipv4Hdr)
    {
      privateCfg.hasKni && privateCfg.addr == Swap32(ip.dstAddr)
    }

    function Entry(p: Proto, port: bv16): PortMapEntry
      requires Valid()
      reads portmap.Get(p)
    {
      portmap.Get(p)[port as int]
    }

    /** An ICMP key has a translation entry used within the connection timeout. */
    function Live(key: Tuple, now: int): bool
      requires Valid()
      reads this`publicTable, portmap.icmp
    {
      key in publicTable.icmp && !(now - Entry(ICMP, key.port).lastused > timeouts.connectionTimeout)
    }

    constructor (publicCfg: PortConfig, privateCfg: PortConfig, timeouts: Timeouts)
      ensures Valid() && TablesConsistent() && PortMapWellFormed()
      ensures this.publicCfg == publicCfg && this.privateCfg == privateCfg && this.timeouts == timeouts
      ensures publicTable == PerProto(map[], map[], map[]) && privateTable == PerProto(map[], map[], map[])
      ensures publicArp == map[] && privateArp == map[] && sent == []
      ensures fresh(portmap.tcp) && fresh(portmap.udp) && fresh(portmap.icmp)
      ensures forall p: Proto, i | 0 <= i < PORTS :: portmap.Get(p)[i] == EmptyEntry
    {
      this.publicCfg := publicCfg;
      this.privateCfg := privateCfg;
      this.timeouts := timeouts;
      publicTable := PerProto(map[], map[], map[]);
      privateTable := PerProto(map[], map[], map[]);
      publicArp := map[];
      privateArp := map[];
      var tcp := new PortMapEntry[PORTS](_ => EmptyEntry);
      var udp := new PortMapEntry[PORTS](_ => EmptyEntry);
      var icmp := new PortMapEntry[PORTS](_ => EmptyEntry);
      portmap := PerProto(tcp, udp, icmp);
      sent := [];
    }

    /** Stores an ARP cache entry on one side. */
    method Learn(side: Side, ip: bv32, mac: Mac)
      modifies this`publicArp, this`privateArp
      ensures ArpCache(side) == old(ArpCache(side))[HostAddr(ip) := mac]
      ensures side == Public ==> privateArp == old(privateArp)
      ensures side == Private ==> publicArp == old(publicArp)
    {
      if side == Public {
        publicArp := publicArp[HostAddr(ip) := mac];
      } else {
        privateArp := privateArp[HostAddr(ip) := mac];
      }
    }

    /** Removes the connection bound to public port `port`. The routine's
        body lies outside this model; its contract here is that afterwards
        no entry of either table refers to that port, and nothing else changes. */
    method DeleteOldConnection(proto: Proto, port: bv16)
      modifies this`publicTable, this`privateTable
      ensures var r := RemovePort(old(publicTable.Get(proto)), old(privateTable.Get(proto)), port);
              publicTable == old(publicTable).Set(proto, r.0) && privateTable == old(privateTable).Set(proto, r.1)
      ensures old(TablesConsistent()) ==> TablesConsistent() && PortUnbound(publicTable.Get(proto), port)
    {
      var r := RemovePort(publicTable.Get(proto), privateTable.Get(proto), port);
      publicTable := publicTable.Set(proto, r.0);
      privateTable := privateTable.Set(proto, r.1);
      if old(TablesConsistent()) {
        RemoveKeepsAllConsistent(old(publicTable), old(privateTable), proto, port);
      }
    }

    /** Binds `privEntry` to a newly allocated public port. `alloc` is what the
        port allocator answered: a port with no connection bound to it, or
        None when the pool is exhausted. */
    method AllocateNewEgressConnection(proto: Proto, privEntry: Tuple, alloc: Option<bv16>, now: int)
      returns (r: Option<Tuple>)
      requires Valid()
      requires alloc.Some? ==> PortUnbound(publicTable.Get(proto), alloc.value)
      modifies this`publicTable, this`privateTable, portmap.Get(proto)
      ensures alloc.None? ==> r.None?
      ensures alloc.None? ==> publicTable == old(publicTable) && privateTable == old(privateTable)
      ensures alloc.None? ==> unchanged(portmap.Get(proto))
      ensures alloc.Some? ==> r == Some(Tuple(publicCfg.addr, alloc.value))
      ensures alloc.Some? ==>
        && publicTable == old(publicTable).Set(proto, old(publicTable.Get(proto))[r.value := privEntry])
        && privateTable == old(privateTable).Set(proto, old(privateTable.Get(proto))[privEntry := r.value])
        && Entry(proto, alloc.value) == FreshEntry(now, publicCfg.addr)
      ensures alloc.Some? ==> forall i | 0 <= i < PORTS && i != alloc.value as int ::
        portmap.Get(proto)[i] == old(portmap.Get(proto)[i])
      ensures old(TablesConsistent()) && privEntry !in old(privateTable.Get(proto)) ==> TablesConsistent()
      ensures old(PortMapWellFormed()) ==> PortMapWellFormed()
    {
      if alloc.None? {
        return None;
      }
      var pubEntry := BindNewConnection(proto, privEntry, alloc.value, now);
      r := Some(pubEntry);
    }

    /** The allocation proper, once a free port has been found. */
    method BindNewConnection(proto: Proto, privEntry: Tuple, port: bv16, now: int)
      returns (pubEntry: Tuple)
      requires Valid()
      requires PortUnbound(publicTable.Get(proto), port)
      modifies this`publicTable, this`privateTable, portmap.Get(proto)
      ensures pubEntry == Tuple(publicCfg.addr, port)
      ensures publicTable == old(publicTable).Set(proto, old(publicTable.Get(proto))[pubEntry := privEntry])
      ensures privateTable == old(privateTable).Set(proto, old(privateTable.Get(proto))[privEntry := pubEntry])
      ensures Entry(proto, port) == FreshEntry(now, publicCfg.addr)
      ensures forall i | 0 <= i < PORTS && i != port as int :: portmap.Get(proto)[i] == old(portmap.Get(proto)[i])
      ensures old(TablesConsistent()) && privEntry !in old(privateTable.Get(proto)) ==> TablesConsistent()
      ensures old(PortMapWellFormed()) ==> PortMapWellFormed()
    {
      pubEntry := Tuple(publicCfg.addr, port);
      if TablesConsistent() && privEntry !in privateTable.Get(proto) {
        InsertKeepsAllConsistent(publicTable, privateTable, proto, pubEntry, privEntry);
      }
      Store(proto, port, FreshEntry(now, publicCfg.addr));
      publicTable := publicTable.Set(proto, publicTable.Get(proto)[pubEntry := privEntry]);
      privateTable := privateTable.Set(proto, privateTable.Get(proto)[privEntry := pubEntry]);
    }

    /** Feeds one TCP segment to the close tracker of public port `port`. */
    method CheckTCPTermination(flags: bv8, port: bv16, d: Direction, now: int)
      requires Valid()
      modifies this`publicTable, this`privateTable, portmap.tcp
      ensures var res := TermStep(old(Entry(TCP, port)), flags, d, now, timeouts);
              && Entry(TCP, port) == res.entry
              && (res.teardown ==>
                   var r := RemovePort(old(publicTable.tcp), old(privateTable.tcp), port);
                   publicTable == old(publicTable).(tcp := r.0) && privateTable == old(privateTable).(tcp := r.1))
              && (!res.teardown ==> publicTable == old(publicTable) && privateTable == old(privateTable))
      ensures forall i | 0 <= i < PORTS && i != port as int :: portmap.tcp[i] == old(portmap.tcp[i])
      ensures old(TablesConsistent()) ==> TablesConsistent()
      ensures old(PortMapWellFormed()) ==> PortMapWellFormed()
    {
      if flags & TCP_FLAG_FIN != 0 {
        RecordFin(flags, port, d, now);
      } else if flags & TCP_FLAG_RST != 0 {
        assert Classify(flags) == RstSeen;
        DeleteOldConnection(TCP, port);
      } else if flags & TCP_FLAG_ACK != 0 {
        ReleaseAfterClose(flags, port, d, now);
      } else {
        assert Classify(flags) == NoEvent;
      }
    }

    /** The close tracker on a FIN: the first FIN records its direction, a
        FIN from the opposite direction completes the close, and anything
        else leaves the entry alone. */
    method RecordFin(flags: bv8, port: bv16, d: Direction, now: int)
      requires Valid() && Classify(flags) == FinSeen
      modifies portmap.tcp
      ensures Entry(TCP, port) == TermStep(old(Entry(TCP, port)), flags, d, now, timeouts).entry
      ensures forall i | 0 <= i < PORTS && i != port as int :: portmap.tcp[i] == old(portmap.tcp[i])
      ensures old(PortMapWellFormed()) ==> PortMapWellFormed()
    {
      var pme := portmap.tcp[port as int];
      assert PortMapWellFormed() ==> WellFormed(pme);
      if pme.finCount == 0 {
        Store(TCP, port, pme.(finCount := 1, terminationDirection := Closing(d)));
      } else if pme.finCount == 1 && pme.terminationDirection == Closing(Opposite(d)) {
        Store(TCP, port, pme.(finCount := 2));
      }
    }

    /** The close tracker on a bare ACK: after FINs from both directions
        the connection is removed and the port held for the reuse delay;
        otherwise nothing changes. */
    method ReleaseAfterClose(flags: bv8, port: bv16, d: Direction, now: int)
      requires Valid() && Classify(flags) == AckSeen
      modifies this`publicTable, this`privateTable, portmap.tcp
      ensures var res := TermStep(old(Entry(TCP, port)), flags, d, now, timeouts);
              && Entry(TCP, port) == res.entry
              && (res.teardown ==>
                   var r := RemovePort(old(publicTable.tcp), old(privateTable.tcp), port);
                   publicTable == old(publicTable).(tcp := r.0) && privateTable == old(privateTable).(tcp := r.1))
              && (!res.teardown ==> publicTable == old(publicTable) && privateTable == old(privateTable))
      ensures forall i | 0 <= i < PORTS && i != port as int :: portmap.tcp[i] == old(portmap.tcp[i])
      ensures old(TablesConsistent()) ==> TablesConsistent()
      ensures old(PortMapWellFormed()) ==> PortMapWellFormed()
    {
      var pme := portmap.tcp[port as int];
      assert PortMapWellFormed() ==> WellFormed(pme);
      if pme.finCount == 2 {
        DeleteOldConnection(TCP, port);
        Store(TCP, port, pme.(lastused := now + (timeouts.portReuseTimeout - timeouts.connectionTimeout)));
      }
    }

    /** Looks up the hardware address of `ip` on one side; on a miss an ARP
        request for it is sent from that side. */
    method GetMACForIP(side: Side, ip: bv32) returns (mac: Option<Mac>)
      modifies this`sent
      ensures HostAddr(ip) in ArpCache(side) ==> mac == Some(ArpCache(side)[HostAddr(ip)]) && sent == old(sent)
      ensures HostAddr(ip) !in ArpCache(side) ==>
        mac.None? && sent == old(sent) + [ArpRequestFor(side, Cfg(side), ip)]
    {
      var cache := ArpCache(side);
      if HostAddr(ip) in cache {
        return Some(cache[HostAddr(ip)]);
      }
      sent := sent + [ArpRequestFor(side, Cfg(side), ip)];
      return None;
    }

    /** Handles an incoming ARP packet on one side. */
    method HandleARP(side: Side, arp: ArpHdr) returns (dir: Dir)
      modifies this`publicArp, this`privateArp, this`sent
      ensures var o := ArpDecision(side, Cfg(side), arp);
              && dir == o.dir
              && ArpCache(side) == (if o.learn.Some? then old(ArpCache(side))[HostAddr(o.learn.value.0) := o.learn.value.1]
                                    else old(ArpCache(side)))
              && sent == old(sent) + (if o.reply.Some? then [o.reply.value] else [])
      ensures side == Public ==> privateArp == old(privateArp)
      ensures side == Private ==> publicArp == old(publicArp)
    {
      var cfg := Cfg(side);
      ghost var o := ArpDecision(side, cfg, arp);
      if Swap16(arp.operation) != ARP_REQUEST {
        assert o.reply.None?;
        if Swap16(arp.operation) == ARP_REPLY {
          assert o.learn == Some((Swap32(arp.spa), arp.sha));
          Learn(side, Swap32(arp.spa), arp.sha);
        } else {
          assert o.learn.None?;
        }
        if cfg.hasKni {
          return Kni;
        }
        return Drop;
      }
      assert o.learn.None?;
      if cfg.hasKni {
        return Kni;
      }
      if arp.tpa != Swap32(cfg.addr) {
        return Drop;
      }
      if arp.tha != 0 {
        return Drop;
      }
      assert o.reply == Some(ArpReplyOut(side, cfg.mac, arp.sha, arp.tpa, arp.spa));
      sent := sent + [ArpReplyOut(side, cfg.mac, arp.sha, arp.tpa, arp.spa)];
      return Drop;
    }

    /** Separates IPv4 from ARP and everything else: ARP is handled here,
        anything that is neither is dropped. */
    method ParsePacketAndCheckARP(side: Side, pkt: Packet) returns (dir: Dir, ip: Option<Ipv4Hdr>)
      modifies this`publicArp, this`privateArp, this`sent
      ensures pkt.l3.Ipv4? ==> dir == Send && ip == Some(pkt.l3.ip)
      ensures pkt.l3.Ipv4? || pkt.l3.OtherL3? ==>
        publicArp == old(publicArp) && privateArp == old(privateArp) && sent == old(sent)
      ensures pkt.l3.OtherL3? ==> dir == Drop && ip.None?
      ensures pkt.l3.Arp? ==>
        var o := ArpDecision(side, Cfg(side), pkt.l3.arp);
        && ip.None? && dir == o.dir
        && ArpCache(side) == (if o.learn.Some? then old(ArpCache(side))[HostAddr(o.learn.value.0) := o.learn.value.1]
                              else old(ArpCache(side)))
        && sent == old(sent) + (if o.reply.Some? then [o.reply.value] else [])
      ensures side == Public ==> privateArp == old(privateArp)
      ensures side == Private ==> publicArp == old(publicArp)
    {
      match pkt.l3
      case Ipv4(h) =>
        return Send, Some(h);
      case Arp(a) =>
        dir := HandleARP(side, a);
        return dir, None;
      case OtherL3 =>
        return Drop, None;
    }

    /** ICMP addressed to this side's own address: answered, redirected to
        KNI, or left to translation. `key` is given on ingress only. */
    method HandleICMP(side: Side, ip: Ipv4Hdr, key: Option<Tuple>, now: int) returns (dir: Dir)
      requires Valid()
      requires ip.l4.IcmpHdr?
      requires side == Private ==> key.None?
      modifies this`sent
      ensures var o := IcmpDecision(Cfg(side), ip, key.Some?, key.Some? && Live(key.value, now));
              && dir == DirOf(o)
              && sent == old(sent) + (if o.Answer? then [EchoReplyOut(side, o.reply)] else [])
    {
      var cfg := Cfg(side);
      if Swap32(ip.dstAddr) != cfg.addr {
        return Send;
      }
      if cfg.hasKni {
        if key.Some? {
          var ok := key.value in publicTable.icmp;
          if !ok || now - portmap.icmp[key.value.port as int].lastused > timeouts.connectionTimeout {
            return Kni;
          }
        }
      }
      if ip.l4.icmpType != ICMP_ECHO_REQUEST || ip.l4.code != 0 {
        return Send;
      }
      sent := sent + [EchoReplyOut(side, EchoReplyTo(ip))];
      return Drop;
    }

    /** The ingress lookup key, after the ICMP self-handling: a key exactly
        when translation goes on. */
    function IngressKey(ip: Ipv4Hdr, now: int): (r: (Option<Tuple>, Dir))
      requires Valid()
      reads this`publicTable, portmap.icmp
      ensures r.0.Some? <==> r.1 == Send
      ensures r.0.Some? ==> r.0 == DstKey(ip)
      ensures ip.l4.OtherL4? ==> r == (None, Drop)
      ensures ip.l4.TcpHdr? || ip.l4.UdpHdr? ==> r == (DstKey(ip), Send)
      ensures ip.l4.IcmpHdr? ==> r.1 == DirOf(IcmpDecision(publicCfg, ip, true, Live(DstKey(ip).value, now)))
    {
      match ip.l4
      case TcpHdr(_, _, _) => (DstKey(ip), Send)
      case UdpHdr(_, _) => (DstKey(ip), Send)
      case IcmpHdr(_, _, _) =>
        var o := IcmpDecision(publicCfg, ip, true, Live(DstKey(ip).value, now));
        if o.Continue? then (DstKey(ip), Send) else (None, DirOf(o))
      case OtherL4 => (None, Drop)
    }

    /** The egress lookup key, after the ICMP self-handling. */
    function EgressKey(ip: Ipv4Hdr): (r: (Option<Tuple>, Dir))
      ensures r.0.Some? <==> r.1 == Send
      ensures r.0.Some? ==> r.0 == SrcKey(ip)
      ensures ip.l4.OtherL4? ==> r == (None, Drop)
      ensures ip.l4.TcpHdr? || ip.l4.UdpHdr? ==> r == (SrcKey(ip), Send)
      ensures ip.l4.IcmpHdr? ==> r.1 == DirOf(IcmpDecision(privateCfg, ip, false, false))
    {
      match ip.l4
      case TcpHdr(_, _, _) => (SrcKey(ip), Send)
      case UdpHdr(_, _) => (SrcKey(ip), Send)
      case IcmpHdr(_, _, _) =>
        var o := IcmpDecision(privateCfg, ip, false, false);
        if o.Continue? then (SrcKey(ip), Send) else (None, DirOf(o))
      case OtherL4 => (None, Drop)
    }

    /** The ICMP reply the ingress key derivation injects, if any. */
    function IngressIcmpReply(ip: Ipv4Hdr, now: int): seq<Emitted>
      requires Valid()
      reads this`publicTable, portmap.icmp
    {
      if !ip.l4.IcmpHdr? then []
      else
        var o := IcmpDecision(publicCfg, ip, true, Live(DstKey(ip).value, now));
        if o.Answer? then [EchoReplyOut(Public, o.reply)] else []
    }

    /** The ICMP reply the egress key derivation injects, if any. */
    function EgressIcmpReply(ip: Ipv4Hdr): seq<Emitted>
    {
      if !ip.l4.IcmpHdr? then []
      else
        var o := IcmpDecision(privateCfg, ip, false, false);
        if o.Answer? then [EchoReplyOut(Private, o.reply)] else []
    }

    method GenerateLookupKeyFromDstAndHandleICMP(ip: Ipv4Hdr, now: int) returns (key: Option<Tuple>, dir: Dir)
      requires Valid()
      modifies this`sent
      ensures (key, dir) == IngressKey(ip, now)
      ensures sent == old(sent) + IngressIcmpReply(ip, now)
    {
      match ip.l4
      case TcpHdr(_, dst, _) =>
        return Some(Tuple(Swap32(ip.dstAddr), Swap16(dst))), Send;
      case UdpHdr(_, dst) =>
        return Some(Tuple(Swap32(ip.dstAddr), Swap16(dst))), Send;
      case IcmpHdr(_, _, id) =>
        var k := Tuple(Swap32(ip.dstAddr), Swap16(id));
        dir := HandleICMP(Public, ip, Some(k), now);
        if dir != Send {
          return None, dir;
        }
        return Some(k), Send;
      case OtherL4 =>
        return None, Drop;
    }

    method GenerateLookupKeyFromSrcAndHandleICMP(ip: Ipv4Hdr, now: int) returns (key: Option<Tuple>, dir: Dir)
      requires Valid()
      modifies this`sent
      ensures (key, dir) == EgressKey(ip)
      ensures sent == old(sent) + EgressIcmpReply(ip)
    {
      match ip.l4
      case TcpHdr(src, _, _) =>
        return Some(Tuple(Swap32(ip.srcAddr), Swap16(src))), Send;
      case UdpHdr(src, _) =>
        return Some(Tuple(Swap32(ip.srcAddr), Swap16(src))), Send;
      case IcmpHdr(_, _, id) =>
        dir := HandleICMP(Private, ip, None, now);
        if dir != Send {
          return None, dir;
        }
        return Some(Tuple(Swap32(ip.srcAddr), Swap16(id))), Send;
      case OtherL4 =>
        return None, Drop;
    }

    /** Ingress (public -> private) translation of one packet. A lookup miss
        drops the packet; ingress never creates a mapping. */
    method PublicToPrivateTranslation(pkt: Packet, now: int) returns (dir: Dir, out: Packet)
      requires Valid()
      modifies this, portmap.tcp, portmap.udp, portmap.icmp
      ensures Valid()
      ensures old(TablesConsistent()) ==> TablesConsistent()
      ensures old(PortMapWellFormed()) ==> PortMapWellFormed()
      // no mapping is ever created on ingress
      ensures forall p: Proto :: publicTable.Get(p).Keys <= old(publicTable.Get(p)).Keys
      ensures forall p: Proto :: privateTable.Get(p).Keys <= old(privateTable.Get(p)).Keys
      ensures privateArp == old(privateArp)
      // ARP and other non-IPv4 traffic: no translation state changes
      ensures !pkt.l3.Ipv4? ==>
        && out == pkt && publicTable == old(publicTable) && privateTable == old(privateTable)
        && unchanged(portmap.tcp, portmap.udp, portmap.icmp)
      ensures pkt.l3.OtherL3? ==> dir == Drop && publicArp == old(publicArp) && sent == old(sent)
      ensures pkt.l3.Arp? ==>
        var o := ArpDecision(Public, publicCfg, pkt.l3.arp);
        && dir == o.dir
        && publicArp == (if o.learn.Some? then old(publicArp)[HostAddr(o.learn.value.0) := o.learn.value.1] else old(publicArp))
        && sent == old(sent) + (if o.reply.Some? then [o.reply.value] else [])
      ensures pkt.l3.Ipv4? ==> publicArp == old(publicArp)
      // no key: unknown L4, or ICMP handled locally
      ensures pkt.l3.Ipv4? && old(IngressKey(pkt.l3.ip, now)).0.None? ==>
        && dir == old(IngressKey(pkt.l3.ip, now)).1 && out == pkt
        && sent == old(sent) + old(IngressIcmpReply(pkt.l3.ip, now))
        && publicTable == old(publicTable) && privateTable == old(privateTable)
        && unchanged(portmap.tcp, portmap.udp, portmap.icmp)
      // with a key, the lookup and its consequences
      ensures pkt.l3.Ipv4? && old(IngressKey(pkt.l3.ip, now)).0.Some? ==>
        var proto := ProtoOf(pkt.l3.ip.l4).value;
        var k := DstKey(pkt.l3.ip).value;
        && IngressOutcome(old(Snap(proto, k.port)), Snap(proto, k.port), privateArp, pkt, pkt.l3.ip, proto, k, now, dir, out)
        // only the key's own port-map slot can change
        && forall p: Proto, i | 0 <= i < PORTS && (p != proto || i != k.port as int) ::
             portmap.Get(p)[i] == old(portmap.Get(p)[i])
    {
      var ipo;
      dir, ipo := ParsePacketAndCheckARP(Public, pkt);
      out := pkt;
      if ipo.None? {
        return;
      }
      var ip := ipo.value;
      var key;
      key, dir := GenerateLookupKeyFromDstAndHandleICMP(ip, now);
      if key.None? {
        return;
      }
      var proto := ProtoOf(ip.l4).value;
      ghost var s0 := Snap(proto, key.value.port);
      assert s0 == old(Snap(proto, key.value.port));
      dir, out := IngressTranslate(pkt, ip, proto, key.value, now);
      IngressNeverAddsMappings(s0, Snap(proto, key.value.port), privateArp, pkt, ip, proto, key.value, now, dir, out);
    }

    /** The part of the state a translation step reads and writes, seen
        from one port-map slot. */
    function Snap(p: Proto, port: bv16): Snapshot
      requires Valid()
      reads this`publicTable, this`privateTable, this`sent, portmap.Get(p)
    {
      Snapshot(publicTable, privateTable, Entry(p, port), sent)
    }

    /** The close tracker's effect on a forwarded packet of a connection on
        public port `port` whose translated address is `addr`, starting from
        tables `pub`/`priv` and slot entry `e`: a TCP segment with a nonzero
        address steps the tracker, and a teardown removes the connection;
        anything else leaves tables and entry as they are. */
    predicate TrackerOutcome(pub: PerProto<Table>, priv: PerProto<Table>, e: PortMapEntry, s1: Snapshot,
                             ip: Ipv4Hdr, proto: Proto, addr: bv32, port: bv16, d: Direction, now: int)
      requires ProtoOf(ip.l4) == Some(proto)
    {
      if proto == TCP && addr != 0 then
        var res := TermStep(e, ip.l4.flags, d, now, timeouts);
        && s1.entry == res.entry
        && if res.teardown then
             var closed := RemovePort(pub.tcp, priv.tcp, port);
             s1.pub == pub.(tcp := closed.0) && s1.priv == priv.(tcp := closed.1)
           else s1.pub == pub && s1.priv == priv
      else s1.entry == e && s1.pub == pub && s1.priv == priv
    }

    /** What ingress does once packet `pkt` (header `ip`) has key `k` in the
        `proto` table, from state `s0` to state `s1` seen at the key's slot,
        with private ARP cache `arp`. A miss drops the packet and changes
        nothing. A hit on an idle, non-static port removes the connection
        and drops the packet. A live hit refreshes the port, and TCP steps
        the close tracker; then a zero private address goes to KNI, and
        otherwise the packet is forwarded exactly when the private host's
        MAC is known (else an ARP request goes out). */
    predicate IngressOutcome(s0: Snapshot, s1: Snapshot, arp: ArpTable, pkt: Packet, ip: Ipv4Hdr,
                             proto: Proto, k: Tuple, now: int, dir: Dir, out: Packet)
      requires ProtoOf(ip.l4) == Some(proto)
    {
      var e := s0.entry;
      if k !in s0.pub.Get(proto) then
        && dir == Drop && out == pkt && s1.sent == s0.sent
        && s1.pub == s0.pub && s1.priv == s0.priv && s1.entry == e
      else if !Alive(e, now, timeouts) then
        var removed := RemovePort(s0.pub.Get(proto), s0.priv.Get(proto), k.port);
        && dir == Drop && out == pkt && s1.sent == s0.sent
        && s1.pub == s0.pub.Set(proto, removed.0) && s1.priv == s0.priv.Set(proto, removed.1)
        && s1.entry == e
      else
        IngressForwardOutcome(s0.pub, s0.priv, e.(lastused := now), s0.sent, s1, arp, pkt, ip, proto, k,
                              s0.pub.Get(proto)[k], now, dir, out)
    }

    /** Ingress once key `k` of packet `pkt` resolves to private tuple `v`,
        from tables `pub`/`priv`, slot entry `e` and injected packets `sent`. */
    predicate IngressForwardOutcome(pub: PerProto<Table>, priv: PerProto<Table>, e: PortMapEntry, sent: seq<Emitted>,
                                    s1: Snapshot, arp: ArpTable, pkt: Packet, ip: Ipv4Hdr, proto: Proto,
                                    k: Tuple, v: Tuple, now: int, dir: Dir, out: Packet)
      requires ProtoOf(ip.l4) == Some(proto)
    {
      && TrackerOutcome(pub, priv, e, s1, ip, proto, v.addr, k.port, PubToPri, now)
      && if v.addr == 0 then
           dir == Kni && out == pkt && s1.sent == sent
         else if HostAddr(v.addr) in arp then
           dir == Send && s1.sent == sent && out == Packet(publicCfg.mac, arp[HostAddr(v.addr)], Ipv4(RewriteDst(ip, v)))
         else
           dir == Drop && out == pkt && s1.sent == sent + [ArpRequestFor(Private, privateCfg, v.addr)]
    }

    /** Ingress forwards a packet only after a live hit on a mapping with a
        nonzero private address whose MAC is known, with the destination
        rewritten to that private tuple and nothing injected. */
    lemma IngressSendsOnlyLiveMappings(s0: Snapshot, s1: Snapshot, arp: ArpTable, pkt: Packet, ip: Ipv4Hdr,
                                       proto: Proto, k: Tuple, now: int, out: Packet)
      requires ProtoOf(ip.l4) == Some(proto)
      requires IngressOutcome(s0, s1, arp, pkt, ip, proto, k, now, Send, out)
      ensures k in s0.pub.Get(proto) && Alive(s0.entry, now, timeouts)
      ensures var v := s0.pub.Get(proto)[k];
              && v.addr != 0 && HostAddr(v.addr) in arp && s1.sent == s0.sent
              && out == Packet(publicCfg.mac, arp[HostAddr(v.addr)], Ipv4(RewriteDst(ip, v)))
    {
    }

    /** No mapping is ever created on ingress: every outcome keeps the keys
        of both tables of every protocol or removes some. */
    lemma IngressNeverAddsMappings(s0: Snapshot, s1: Snapshot, arp: ArpTable, pkt: Packet, ip: Ipv4Hdr,
                                   proto: Proto, k: Tuple, now: int, dir: Dir, out: Packet)
      requires ProtoOf(ip.l4) == Some(proto)
      requires IngressOutcome(s0, s1, arp, pkt, ip, proto, k, now, dir, out)
      ensures forall p: Proto :: s1.pub.Get(p).Keys <= s0.pub.Get(p).Keys
      ensures forall p: Proto :: s1.priv.Get(p).Keys <= s0.priv.Get(p).Keys
    {
    }

    /** Ingress from the lookup on, for a packet whose key is `k`. */
    method IngressTranslate(pkt: Packet, ip: Ipv4Hdr, proto: Proto, k: Tuple, now: int)
      returns (dir: Dir, out: Packet)
      requires Valid()
      requires ProtoOf(ip.l4) == Some(proto) && DstKey(ip) == Some(k)
      modifies this`publicTable, this`privateTable, this`sent, portmap.Get(proto), portmap.tcp
      ensures old(TablesConsistent()) ==> TablesConsistent()
      ensures old(PortMapWellFormed()) ==> PortMapWellFormed()
      ensures IngressOutcome(old(Snap(proto, k.port)), Snap(proto, k.port), privateArp, pkt, ip, proto, k, now, dir, out)
      ensures forall p: Proto, i | 0 <= i < PORTS && (p != proto || i != k.port as int) ::
        portmap.Get(p)[i] == old(portmap.Get(p)[i])
    {
      ghost var s0 := Snap(proto, k.port);
      var v := IngressLookup(proto, k, now);
      if v.None? {
        dir, out := Drop, pkt;
      } else {
        assert k in s0.pub.Get(proto) && Alive(s0.entry, now, timeouts) && v.value == s0.pub.Get(proto)[k];
        dir, out := IngressForward(pkt, ip, proto, k, v.value, now);
      }
    }

    /** Marks public port `port` as used at time `now`. */
    method Refresh(proto: Proto, port: bv16, now: int)
      requires Valid()
      modifies portmap.Get(proto)
      ensures Entry(proto, port) == old(Entry(proto, port)).(lastused := now)
      ensures forall i | 0 <= i < PORTS && i != port as int :: portmap.Get(proto)[i] == old(portmap.Get(proto)[i])
      ensures old(PortMapWellFormed()) ==> PortMapWellFormed()
    {
      assert old(PortMapWellFormed()) ==> WellFormed(Entry(proto, port));
      Store(proto, port, Entry(proto, port).(lastused := now));
    }

    /** Writes entry `e` into the slot of public port `port`: the one place
        a port map is written. A well-formed entry keeps every port map
        well-formed. */
    method Store(proto: Proto, port: bv16, e: PortMapEntry)
      requires Valid()
      modifies portmap.Get(proto)
      ensures Entry(proto, port) == e
      ensures forall i | 0 <= i < PORTS && i != port as int :: portmap.Get(proto)[i] == old(portmap.Get(proto)[i])
      ensures old(PortMapWellFormed()) && WellFormed(e) ==> PortMapWellFormed()
    {
      var pm := portmap.Get(proto);
      pm[port as int] := e;
      if old(PortMapWellFormed()) && WellFormed(e) {
        assert old(SlotsWellFormed(pm));
        assert SlotsWellFormed(pm) by {
          forall i | 0 <= i < pm.Length ensures WellFormed(pm[i]) {
            if i != port as int {
              assert WellFormed(old(pm[i]));
            }
          }
        }
      }
    }

    /** Ingress lookup with lazy aging: a miss gives None; a hit on a static
        or recently used port refreshes it; a hit on a port idle for longer
        than the connection timeout removes the connection and gives None. */
    method IngressLookup(proto: Proto, k: Tuple, now: int) returns (v: Option<Tuple>)
      requires Valid()
      modifies this`publicTable, this`privateTable, portmap.Get(proto)
      ensures var e := old(Entry(proto, k.port));
              var live := e.isStatic || now - e.lastused <= timeouts.connectionTimeout;
              && (k !in old(publicTable.Get(proto)) ==>
                   v.None? && publicTable == old(publicTable) && privateTable == old(privateTable)
                   && unchanged(portmap.Get(proto)))
              && (k in old(publicTable.Get(proto)) && !live ==>
                   var r := RemovePort(old(publicTable.Get(proto)), old(privateTable.Get(proto)), k.port);
                   v.None? && publicTable == old(publicTable).Set(proto, r.0)
                   && privateTable == old(privateTable).Set(proto, r.1)
                   && unchanged(portmap.Get(proto)))
              && (k in old(publicTable.Get(proto)) && live ==>
                   v == Some(old(publicTable.Get(proto))[k])
                   && publicTable == old(publicTable) && privateTable == old(privateTable)
                   && Entry(proto, k.port) == e.(lastused := now))
      ensures forall i | 0 <= i < PORTS && i != k.port as int ::
        portmap.Get(proto)[i] == old(portmap.Get(proto)[i])
      ensures old(TablesConsistent()) ==> TablesConsistent()
      ensures old(PortMapWellFormed()) ==> PortMapWellFormed()
    {
      if k !in publicTable.Get(proto) {
        return None;
      }
      var value := publicTable.Get(proto)[k];
      var pm := portmap.Get(proto);
      var pme := pm[k.port as int];
      if pme.isStatic || now - pme.lastused <= timeouts.connectionTimeout {
        Refresh(proto, k.port, now);
        return Some(value);
      }
      DeleteOldConnection(proto, k.port);
      return None;
    }

    /** Ingress after a live hit on `k` resolving to `v`: a zero private
        address goes to KNI; otherwise TCP feeds the close tracker, the
        private host's MAC is resolved and the destination is rewritten. */
    method IngressForward(pkt: Packet, ip: Ipv4Hdr, proto: Proto, k: Tuple, v: Tuple, now: int)
      returns (dir: Dir, out: Packet)
      requires Valid()
      requires ProtoOf(ip.l4) == Some(proto)
      modifies this`publicTable, this`privateTable, this`sent, portmap.tcp
      ensures IngressForwardOutcome(old(publicTable), old(privateTable), old(Entry(proto, k.port)), old(sent),
                                    Snap(proto, k.port), privateArp, pkt, ip, proto, k, v, now, dir, out)
      ensures proto != TCP ==> unchanged(portmap.tcp)
      ensures forall i | 0 <= i < PORTS && i != k.port as int :: portmap.tcp[i] == old(portmap.tcp[i])
      ensures old(TablesConsistent()) ==> TablesConsistent()
      ensures old(PortMapWellFormed()) ==> PortMapWellFormed()
    {
      if v.addr == 0 {
        return Kni, pkt;
      }
      if proto == TCP {
        CheckTCPTermination(ip.l4.flags, k.port, PubToPri, now);
      }
      var mac := GetMACForIP(Private, v.addr);
      if mac.None? {
        return Drop, pkt;
      }
      out := Packet(publicCfg.mac, mac.value, Ipv4(RewriteDst(ip, v)));
      return Send, out;
    }
    /** The public tuple an egress packet keyed by `k` leaves with: its
        existing mapping, else the newly allocated port, else none. */
    function EgressBinding(priv: Table, k: Tuple, alloc: Option<bv16>): (r: Option<Tuple>)
      ensures k in priv ==> r == Some(priv[k])
      ensures k !in priv ==> (r.Some? <==> alloc.Some?)
      ensures k !in priv && alloc.Some? ==> r.value == Tuple(publicCfg.addr, alloc.value)
    {
      if k in priv then Some(priv[k])
      else if alloc.Some? then Some(Tuple(publicCfg.addr, alloc.value))
      else None
    }

    /** What egress does once packet `pkt` (header `ip`) has key `k` in the
        `proto` table, from state `s0` to state `s1` seen at the slot of the
        public port it leaves with, private ARP cache `arp0` before and
        `arp1` after, and public ARP cache `pubArp`. A hit refreshes the
        port; a miss learns the sender's MAC and, when the allocator gave a
        port, binds the key to it with a fresh entry, or else drops the
        packet. A packet with a binding then goes through the close tracker;
        a zero public address goes to KNI, and otherwise the packet is
        forwarded with its source rewritten exactly when the destination's
        MAC is known (else an ARP request goes out). */
    predicate EgressOutcome(s0: Snapshot, s1: Snapshot, arp0: ArpTable, arp1: ArpTable,
                            pubArp: ArpTable, pkt: Packet, ip: Ipv4Hdr, proto: Proto, k: Tuple,
                            alloc: Option<bv16>, now: int, dir: Dir, out: Packet)
      requires ProtoOf(ip.l4) == Some(proto)
    {
      var priv := s0.priv.Get(proto);
      if k in priv then
        && arp1 == arp0
        && EgressForwardOutcome(s0.pub, s0.priv, s0.entry.(lastused := now), s0.sent, s1, pubArp,
                                pkt, ip, proto, priv[k], now, dir, out)
      else if alloc.None? then
        && arp1 == arp0[HostAddr(k.addr) := pkt.ethSrc]
        && dir == Drop && out == pkt && s1 == s0
      else
        var b := Tuple(publicCfg.addr, alloc.value);
        && arp1 == arp0[HostAddr(k.addr) := pkt.ethSrc]
        && EgressForwardOutcome(s0.pub.Set(proto, s0.pub.Get(proto)[b := k]), s0.priv.Set(proto, priv[k := b]),
                                FreshEntry(now, publicCfg.addr), s0.sent, s1, pubArp, pkt, ip, proto, b, now, dir, out)
    }

    /** Egress once packet `pkt` is bound to public tuple `b`, from tables
        `pub`/`priv`, slot entry `e` and injected packets `sent`. */
    predicate EgressForwardOutcome(pub: PerProto<Table>, priv: PerProto<Table>, e: PortMapEntry, sent: seq<Emitted>,
                                   s1: Snapshot, pubArp: ArpTable, pkt: Packet, ip: Ipv4Hdr, proto: Proto,
                                   b: Tuple, now: int, dir: Dir, out: Packet)
      requires ProtoOf(ip.l4) == Some(proto)
    {
      var dst := Swap32(ip.dstAddr);
      && TrackerOutcome(pub, priv, e, s1, ip, proto, b.addr, b.port, PriToPub, now)
      && if b.addr == 0 then
           dir == Kni && out == pkt && s1.sent == sent
         else if HostAddr(dst) in pubArp then
           dir == Send && s1.sent == sent && out == Packet(privateCfg.mac, pubArp[HostAddr(dst)], Ipv4(RewriteSrc(ip, b)))
         else
           dir == Drop && out == pkt && s1.sent == sent + [ArpRequestFor(Public, publicCfg, dst)]
    }

    /** Egress forwards a packet only with a binding to a nonzero public
        address and a known destination MAC: the existing mapping of its
        key, or else the allocated port, with the source rewritten to it
        and nothing injected. */
    lemma EgressSendsOnlyBoundPackets(s0: Snapshot, s1: Snapshot, arp0: ArpTable, arp1: ArpTable,
                                      pubArp: ArpTable, pkt: Packet, ip: Ipv4Hdr, proto: Proto, k: Tuple,
                                      alloc: Option<bv16>, now: int, out: Packet)
      requires ProtoOf(ip.l4) == Some(proto)
      requires EgressOutcome(s0, s1, arp0, arp1, pubArp, pkt, ip, proto, k, alloc, now, Send, out)
      ensures k in s0.priv.Get(proto) || alloc.Some?
      ensures var b := if k in s0.priv.Get(proto) then s0.priv.Get(proto)[k] else Tuple(publicCfg.addr, alloc.value);
              var dst := Swap32(ip.dstAddr);
              && b.addr != 0 && HostAddr(dst) in pubArp && s1.sent == s0.sent
              && out == Packet(privateCfg.mac, pubArp[HostAddr(dst)], Ipv4(RewriteSrc(ip, b)))
    {
    }

    /** Egress (private -> public) translation of one packet. A lookup miss
        learns the sender's MAC and binds the private tuple to a newly
        allocated public port; `alloc` is the port allocator's answer. */
    method PrivateToPublicTranslation(pkt: Packet, now: int, alloc: Option<bv16>) returns (dir: Dir, out: Packet)
      requires Valid()
      requires pkt.l3.Ipv4? && ProtoOf(pkt.l3.ip.l4).Some? && alloc.Some? ==>
        PortUnbound(publicTable.Get(ProtoOf(pkt.l3.ip.l4).value), alloc.value)
      modifies this, portmap.tcp, portmap.udp, portmap.icmp
      ensures Valid()
      ensures old(TablesConsistent()) ==> TablesConsistent()
      ensures old(PortMapWellFormed()) ==> PortMapWellFormed()
      ensures publicArp == old(publicArp)
      // ARP and other non-IPv4 traffic: no translation state changes
      ensures !pkt.l3.Ipv4? ==>
        && out == pkt && publicTable == old(publicTable) && privateTable == old(privateTable)
        && unchanged(portmap.tcp, portmap.udp, portmap.icmp)
      ensures pkt.l3.OtherL3? ==> dir == Drop && privateArp == old(privateArp) && sent == old(sent)
      ensures pkt.l3.Arp? ==>
        var o := ArpDecision(Private, privateCfg, pkt.l3.arp);
        && dir == o.dir
        && privateArp == (if o.learn.Some? then old(privateArp)[HostAddr(o.learn.value.0) := o.learn.value.1] else old(privateArp))
        && sent == old(sent) + (if o.reply.Some? then [o.reply.value] else [])
      // no key: unknown L4, or ICMP handled locally
      ensures pkt.l3.Ipv4? && EgressKey(pkt.l3.ip).0.None? ==>
        && dir == EgressKey(pkt.l3.ip).1 && out == pkt
        && sent == old(sent) + EgressIcmpReply(pkt.l3.ip) && privateArp == old(privateArp)
        && publicTable == old(publicTable) && privateTable == old(privateTable)
        && unchanged(portmap.tcp, portmap.udp, portmap.icmp)
      // traffic for the private port's own address goes to its KNI
      ensures pkt.l3.Ipv4? && EgressKey(pkt.l3.ip).0.Some? && ForPrivateKni(pkt.l3.ip) ==>
        && dir == Kni && out == pkt && sent == old(sent) && privateArp == old(privateArp)
        && publicTable == old(publicTable) && privateTable == old(privateTable)
        && unchanged(portmap.tcp, portmap.udp, portmap.icmp)
      // otherwise the lookup, binding and forwarding
      ensures pkt.l3.Ipv4? && EgressKey(pkt.l3.ip).0.Some? && !ForPrivateKni(pkt.l3.ip) ==>
        var proto := ProtoOf(pkt.l3.ip.l4).value;
        var k := SrcKey(pkt.l3.ip).value;
        var port := SlotOf(old(EgressBinding(privateTable.Get(proto), k, alloc)));
        && EgressOutcome(old(Snap(proto, port)), Snap(proto, port), old(privateArp), privateArp, publicArp,
                         pkt, pkt.l3.ip, proto, k, alloc, now, dir, out)
        // only the bound port's own port-map slot can change
        && forall p: Proto, i | 0 <= i < PORTS && (p != proto || i != port as int) ::
             portmap.Get(p)[i] == old(portmap.Get(p)[i])
    {
      var ipo;
      dir, ipo := ParsePacketAndCheckARP(Private, pkt);
      out := pkt;
      if ipo.None? {
        return;
      }
      var ip := ipo.value;
      var key;
      key, dir := GenerateLookupKeyFromSrcAndHandleICMP(ip, now);
      if key.None? {
        return;
      }
      if ForPrivateKni(ip) {
        return Kni, pkt;
      }
      var proto := ProtoOf(ip.l4).value;
      var port := SlotOf(EgressBinding(privateTable.Get(proto), key.value, alloc));
      ghost var s0 := Snap(proto, port);
      assert s0 == old(Snap(proto, port));
      dir, out := EgressTranslate(pkt, ip, proto, key.value, alloc, now);
    }

    /** A forwarded UDP datagram leaves with the binding of its key `k`,
        which the public table now maps back to `k`, on a slot just
        refreshed, with its source rewritten to that binding. */
    lemma UdpEgressLeavesBinding(s0: Snapshot, s1: Snapshot, arp0: ArpTable, arp1: ArpTable,
                                 pubArp: ArpTable, pkt: Packet, ip: Ipv4Hdr, k: Tuple,
                                 alloc: Option<bv16>, now: int, out: Packet)
      requires ip.l4.UdpHdr? && Consistent(s0.pub.udp, s0.priv.udp)
      requires EgressOutcome(s0, s1, arp0, arp1, pubArp, pkt, ip, UDP, k, alloc, now, Send, out)
      ensures EgressBinding(s0.priv.udp, k, alloc).Some?
      ensures var b := EgressBinding(s0.priv.udp, k, alloc).value;
              && b in s1.pub.udp && s1.pub.udp[b] == k && s1.entry.lastused == now
              && out.l3 == Ipv4(RewriteSrc(ip, b))
      // a first datagram teaches the private cache the sender's MAC
      ensures k !in s0.priv.udp ==> HostAddr(k.addr) in arp1 && arp1[HostAddr(k.addr)] == pkt.ethSrc
    {
      EgressSendsOnlyBoundPackets(s0, s1, arp0, arp1, pubArp, pkt, ip, UDP, k, alloc, now, out);
    }

    /** The answer to a datagram that left with binding `b` of private
        tuple `k`, arriving while the slot is still live and the sender's
        MAC is known, is forwarded to the sender with the original
        addresses and ports reversed. */
    lemma UdpAnswerReachesSender(s1: Snapshot, s2: Snapshot, arp: ArpTable, ip: Ipv4Hdr, k: Tuple, b: Tuple,
                                 answer: Packet, now: int, dir: Dir, out: Packet)
      requires ip.l4.UdpHdr? && SrcKey(ip) == Some(k) && k.addr != 0 && HostAddr(k.addr) in arp
      requires b in s1.pub.udp && s1.pub.udp[b] == k && Alive(s1.entry, now, timeouts)
      requires answer.l3 == Ipv4(Reversed(RewriteSrc(ip, b)))
      requires IngressOutcome(s1, s2, arp, answer, answer.l3.ip, UDP, b, now, dir, out)
      ensures dir == Send && out == Packet(publicCfg.mac, arp[HostAddr(k.addr)], Ipv4(Reversed(ip)))
    {
      AnswerReachesSender(ip, b);
    }

    /** A UDP datagram leaves from the private side and the peer it reached
        answers it from the public side, within the connection timeout,
        with the same flow reversed. The datagram is answered exactly when
        it was forwarded; then, when the sender's address is nonzero and
        its MAC is cached, the answer is forwarded to it, from the public
        port's MAC to the cached MAC, carrying the original IPv4 header
        with its addresses and ports reversed. A first datagram of its flow
        makes the engine learn the sender's MAC, so its answer always goes
        back to the MAC the datagram came from. */
    method ExchangeThroughTranslator(pkt: Packet, alloc: Option<bv16>, now1: int, now2: int)
      returns (d1: Dir, out1: Packet, reply: Option<(Dir, Packet)>)
      requires Valid() && TablesConsistent()
      requires pkt.l3.Ipv4? && pkt.l3.ip.l4.UdpHdr?
      requires alloc.Some? ==> PortUnbound(publicTable.udp, alloc.value)
      requires now1 <= now2 <= now1 + timeouts.connectionTimeout
      modifies this, portmap.tcp, portmap.udp, portmap.icmp
      ensures reply.Some? <==> d1 == Send
      ensures d1 == Send && pkt.l3.ip.srcAddr != 0 && HostAddr(Swap32(pkt.l3.ip.srcAddr)) in privateArp ==>
        && reply.value.0 == Send
        && reply.value.1 == Packet(publicCfg.mac, privateArp[HostAddr(Swap32(pkt.l3.ip.srcAddr))], Ipv4(Reversed(pkt.l3.ip)))
      ensures d1 == Send && pkt.l3.ip.srcAddr != 0 && SrcKey(pkt.l3.ip).value !in old(privateTable.udp) ==>
        reply.value == (Send, Packet(publicCfg.mac, pkt.ethSrc, Ipv4(Reversed(pkt.l3.ip))))
    {
      var ip := pkt.l3.ip;
      ghost var k := SrcKey(ip).value;
      ghost var port := SlotOf(EgressBinding(privateTable.udp, k, alloc));
      ghost var s0 := Snap(UDP, port);
      ghost var arp0 := privateArp;
      d1, out1 := PrivateToPublicTranslation(pkt, now1, alloc);
      if d1 != Send {
        return d1, out1, None;
      }
      UdpEgressLeavesBinding(s0, Snap(UDP, port), arp0, privateArp, publicArp, pkt, ip, k, alloc, now1, out1);
      ghost var b := EgressBinding(s0.priv.udp, k, alloc).value;
      ghost var s1 := Snap(UDP, b.port);
      ghost var arp1 := privateArp;
      var answer := Packet(out1.ethDst, out1.ethSrc, Ipv4(Reversed(out1.l3.ip)));
      Swap32Involution(ip.srcAddr);
      var d2, out2 := AnswerThroughIngress(ip, k, b, answer, now2);
      reply := Some((d2, out2));
    }

    /** The peer's answer to a UDP datagram that left with binding `b` of
        private tuple `k`, on a slot still live, goes through ingress: when
        the sender's address is nonzero and its MAC is cached, the answer is
        forwarded to it with the original addresses and ports reversed. */
    method AnswerThroughIngress(ip: Ipv4Hdr, ghost k: Tuple, ghost b: Tuple, answer: Packet, now: int)
      returns (dir: Dir, out: Packet)
      requires Valid()
      requires ip.l4.UdpHdr? && SrcKey(ip) == Some(k)
      requires b in publicTable.udp && publicTable.udp[b] == k && Alive(Entry(UDP, b.port), now, timeouts)
      requires answer.l3 == Ipv4(Reversed(RewriteSrc(ip, b)))
      modifies this, portmap.tcp, portmap.udp, portmap.icmp
      ensures privateArp == old(privateArp)
      ensures k.addr != 0 && HostAddr(k.addr) in privateArp ==>
        dir == Send && out == Packet(publicCfg.mac, privateArp[HostAddr(k.addr)], Ipv4(Reversed(ip)))
    {
      ghost var s1 := Snap(UDP, b.port);
      SrcKeyOfRewriteSrc(ip, b);
      dir, out := PublicToPrivateTranslation(answer, now);
      if k.addr != 0 && HostAddr(k.addr) in privateArp {
        UdpAnswerReachesSender(s1, Snap(UDP, b.port), privateArp, ip, k, b, answer, now, dir, out);
      }
    }

    /** Egress from the lookup on, for a packet whose key is `k`. */
    method EgressTranslate(pkt: Packet, ip: Ipv4Hdr, proto: Proto, k: Tuple, alloc: Option<bv16>, now: int)
      returns (dir: Dir, out: Packet)
      requires Valid()
      requires ProtoOf(ip.l4) == Some(proto) && SrcKey(ip) == Some(k)
      requires alloc.Some? ==> PortUnbound(publicTable.Get(proto), alloc.value)
      modifies this`publicTable, this`privateTable, this`privateArp, this`sent, portmap.Get(proto), portmap.tcp
      ensures old(TablesConsistent()) ==> TablesConsistent()
      ensures old(PortMapWellFormed()) ==> PortMapWellFormed()
      ensures var port := SlotOf(old(EgressBinding(privateTable.Get(proto), k, alloc)));
        && EgressOutcome(old(Snap(proto, port)), Snap(proto, port), old(privateArp), privateArp, publicArp,
                         pkt, ip, proto, k, alloc, now, dir, out)
        && forall p: Proto, i | 0 <= i < PORTS && (p != proto || i != port as int) ::
             portmap.Get(p)[i] == old(portmap.Get(p)[i])
    {
      ghost var port := SlotOf(EgressBinding(privateTable.Get(proto), k, alloc));
      ghost var s0 := Snap(proto, port);
      ghost var arp0 := privateArp;
      var v := EgressLookup(pkt.ethSrc, proto, k, alloc, now);
      assert privateArp == if k in s0.priv.Get(proto) then arp0 else arp0[HostAddr(k.addr) := pkt.ethSrc];
      if v.None? {
        return Drop, pkt;
      }
      ghost var mid := Snap(proto, port);
      assert mid.entry == if k in s0.priv.Get(proto) then s0.entry.(lastused := now) else FreshEntry(now, publicCfg.addr);
      dir, out := EgressForward(pkt, ip, proto, v.value, now);
      assert EgressForwardOutcome(mid.pub, mid.priv, mid.entry, mid.sent, Snap(proto, port), publicArp,
                                  pkt, ip, proto, v.value, now, dir, out);
    }

    /** Egress lookup: a hit refreshes the public port (egress does no aging);
        a miss learns the sender's MAC and allocates a new connection. */
    method EgressLookup(ethSrc: Mac, proto: Proto, k: Tuple, alloc: Option<bv16>, now: int) returns (v: Option<Tuple>)
      requires Valid()
      requires alloc.Some? ==> PortUnbound(publicTable.Get(proto), alloc.value)
      modifies this`publicTable, this`privateTable, this`privateArp, portmap.Get(proto)
      ensures v == old(EgressBinding(privateTable.Get(proto), k, alloc))
      ensures k in old(privateTable.Get(proto)) ==>
        && publicTable == old(publicTable) && privateTable == old(privateTable) && privateArp == old(privateArp)
        && Entry(proto, v.value.port) == old(Entry(proto, v.value.port)).(lastused := now)
      ensures k !in old(privateTable.Get(proto)) ==> privateArp == old(privateArp)[HostAddr(k.addr) := ethSrc]
      ensures k !in old(privateTable.Get(proto)) && alloc.None? ==>
        publicTable == old(publicTable) && privateTable == old(privateTable) && unchanged(portmap.Get(proto))
      ensures k !in old(privateTable.Get(proto)) && alloc.Some? ==>
        && publicTable == old(publicTable).Set(proto, old(publicTable.Get(proto))[v.value := k])
        && privateTable == old(privateTable).Set(proto, old(privateTable.Get(proto))[k := v.value])
        && Entry(proto, v.value.port) == FreshEntry(now, publicCfg.addr)
      ensures v.Some? ==> forall i | 0 <= i < PORTS && i != v.value.port as int ::
        portmap.Get(proto)[i] == old(portmap.Get(proto)[i])
      ensures old(TablesConsistent()) ==> TablesConsistent()
      ensures old(PortMapWellFormed()) ==> PortMapWellFormed()
    {
      if k in privateTable.Get(proto) {
        var value := privateTable.Get(proto)[k];
        Refresh(proto, value.port, now);
        return Some(value);
      }
      privateArp := privateArp[HostAddr(k.addr) := ethSrc];
      v := AllocateNewEgressConnection(proto, k, alloc, now);
    }

    /** Egress once the public tuple `v` is known: a zero public address goes
        to KNI; otherwise TCP feeds the close tracker, the destination's MAC
        is resolved on the public side and the source is rewritten. */
    method EgressForward(pkt: Packet, ip: Ipv4Hdr, proto: Proto, v: Tuple, now: int)
      returns (dir: Dir, out: Packet)
      requires Valid()
      requires ProtoOf(ip.l4) == Some(proto)
      modifies this`publicTable, this`privateTable, this`sent, portmap.tcp
      ensures EgressForwardOutcome(old(publicTable), old(privateTable), old(Entry(proto, v.port)), old(sent),
                                   Snap(proto, v.port), publicArp, pkt, ip, proto, v, now, dir, out)
      ensures proto != TCP ==> unchanged(portmap.tcp)
      ensures forall i | 0 <= i < PORTS && i != v.port as int :: portmap.tcp[i] == old(portmap.tcp[i])
      ensures old(TablesConsistent()) ==> TablesConsistent()
      ensures old(PortMapWellFormed()) ==> PortMapWellFormed()
    {
      if v.addr == 0 {
        return Kni, pkt;
      }
      if proto == TCP {
        CheckTCPTermination(ip.l4.flags, v.port, PriToPub, now);
      }
      var mac := GetMACForIP(Public, Swap32(ip.dstAddr));
      if mac.None? {
        return Drop, pkt;
      }
      out := Packet(privateCfg.mac, mac.value, Ipv4(RewriteSrc(ip, v)));
      return Send, out;
    }
  }
}
