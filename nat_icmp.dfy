/** ICMP addressed to the translator itself: echo requests (RFC 792) are
    answered locally; everything else continues through translation or, when
    it has no live translation entry and a KNI is configured, goes to KNI. */
module IcmpHandling {
  import opened NatTypes

  datatype IcmpOutcome = Continue | ToKni | Answer(reply: Ipv4Hdr)

  /** The disposition handed back to the translation path. */
  function DirOf(o: IcmpOutcome): (d: Dir)
    ensures d == Send <==> o.Continue?
    ensures d == Kni <==> o.ToKni?
  {
    match o
    case Continue => Send
    case ToKni => Kni
    case Answer(_) => Drop
  }

  /** Echo reply to `ip`: addresses exchanged, type echo-reply, code and identifier kept. */
  function EchoReplyTo(ip: Ipv4Hdr): (r: Ipv4Hdr)
    requires ip.l4.IcmpHdr?
    ensures r.srcAddr == ip.dstAddr && r.dstAddr == ip.srcAddr
    ensures r.l4 == ip.l4.(icmpType := ICMP_ECHO_REPLY)
  {
    Ipv4Hdr(ip.dstAddr, ip.srcAddr, ip.l4.(icmpType := ICMP_ECHO_REPLY))
  }

  /** `keyed`: the caller supplied a lookup key (ingress only).
      `live`: that key has a translation entry used within the timeout. */
  function IcmpDecision(cfg: PortConfig, ip: Ipv4Hdr, keyed: bool, live: bool): (o: IcmpOutcome)
    requires ip.l4.IcmpHdr?
    // not for us: translate as usual
    ensures Swap32(ip.dstAddr) != cfg.addr ==> o == Continue
    // for us, with a KNI, and (ingress) no live entry: to KNI
    ensures o == ToKni <==> Swap32(ip.dstAddr) == cfg.addr && cfg.hasKni && keyed && !live
    // exactly a genuine echo request for us, not redirected, is answered
    ensures o.Answer? <==>
      && Swap32(ip.dstAddr) == cfg.addr
      && !(cfg.hasKni && keyed && !live)
      && ip.l4.icmpType == ICMP_ECHO_REQUEST && ip.l4.code == 0
    ensures o.Answer? ==> o.reply == EchoReplyTo(ip)
  {
    if Swap32(ip.dstAddr) != cfg.addr then Continue
    else if cfg.hasKni && keyed && !live then ToKni
    else if ip.l4.icmpType != ICMP_ECHO_REQUEST || ip.l4.code != 0 then Continue
    else Answer(EchoReplyTo(ip))
  }
}
