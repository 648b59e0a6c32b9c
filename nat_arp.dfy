/** Handling of incoming ARP packets (RFC 826) on one attachment point:
    replies are learned into the ARP cache, requests for this point's own
    address are answered, and the ARP packet itself is never forwarded. */
module ArpHandling {
  import opened NatTypes

  /** What handling one ARP packet does: an optional cache entry to learn
      (address in host order, hardware address), an optional reply to
      inject, and the disposition of the ARP packet itself. */
  datatype ArpOutcome = ArpOutcome(learn: Option<(bv32, Mac)>, reply: Option<Emitted>, dir: Dir)

  /** A request is answered when it asks for this point's own address
      and its target hardware address is blank. */
  predicate AsksForUs(cfg: PortConfig, arp: ArpHdr)
  {
    arp.tpa == Swap32(cfg.addr) && arp.tha == 0
  }

  function ArpDecision(side: Side, cfg: PortConfig, arp: ArpHdr): (o: ArpOutcome)
    // the ARP packet is never forwarded: it goes to KNI if there is one, else it is dropped
    ensures o.dir != Send
    ensures o.dir == Kni <==> cfg.hasKni
    // replies are always learned, sender protocol address -> sender hardware address
    ensures o.learn.Some? <==> Swap16(arp.operation) == ARP_REPLY
    ensures o.learn.Some? ==> Swap32(o.learn.value.0) == arp.spa && o.learn.value.1 == arp.sha
    // only a request for our own address with a blank target, and no KNI, is answered
    ensures o.reply.Some? <==>
      Swap16(arp.operation) == ARP_REQUEST && !cfg.hasKni && AsksForUs(cfg, arp)
    // the answer comes from this point's MAC, with the protocol addresses exchanged
    ensures o.reply.Some? ==>
      o.reply.value == ArpReplyOut(side, cfg.mac, arp.sha, arp.tpa, arp.spa)
  {
    Swap32Involution(arp.spa);
    var op := Swap16(arp.operation);
    if op != ARP_REQUEST then
      var learn := if op == ARP_REPLY then Some((Swap32(arp.spa), arp.sha)) else None;
      ArpOutcome(learn, None, if cfg.hasKni then Kni else Drop)
    else if cfg.hasKni then
      ArpOutcome(None, None, Kni)
    else if arp.tpa != Swap32(cfg.addr) then
      ArpOutcome(None, None, Drop)
    else if arp.tha != 0 then
      ArpOutcome(None, None, Drop)
    else
      ArpOutcome(None, Some(ArpReplyOut(side, cfg.mac, arp.sha, arp.tpa, arp.spa)), Drop)
  }

  /** The request a port sends when it needs the hardware address of `ip`:
      from its own MAC and address, asking for `ip` (both in wire order). */
  function ArpRequestFor(side: Side, cfg: PortConfig, ip: bv32): (e: Emitted)
    ensures e.ArpRequestOut? && e.side == side && e.sha == cfg.mac
    ensures Swap32(e.tpa) == ip && Swap32(e.spa) == cfg.addr
  {
    Swap32Involution(ip);
    Swap32Involution(cfg.addr);
    ArpRequestOut(side, cfg.mac, Swap32(cfg.addr), Swap32(ip))
  }
}
