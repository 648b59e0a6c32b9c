/** Lookup-key derivation and header rewriting. Ingress packets are looked
    up by their destination, egress packets by their source; ICMP uses its
    identifier in place of a port. Rewriting writes a host-order tuple back
    into wire-order header fields. */
module Keys {
  import opened NatTypes
  import opened Tables

  /** Ingress key: destination address and TCP/UDP destination port or ICMP identifier. */
  function DstKey(h: Ipv4Hdr): (r: Option<Tuple>)
    ensures r.None? <==> h.l4.OtherL4?
    ensures r.Some? ==> Swap32(r.value.addr) == h.dstAddr
  {
    Swap32Involution(h.dstAddr);
    match h.l4
    case TcpHdr(_, dst, _) => Some(Tuple(Swap32(h.dstAddr), Swap16(dst)))
    case UdpHdr(_, dst) => Some(Tuple(Swap32(h.dstAddr), Swap16(dst)))
    case IcmpHdr(_, _, id) => Some(Tuple(Swap32(h.dstAddr), Swap16(id)))
    case OtherL4 => None
  }

  /** Egress key: source address and TCP/UDP source port or ICMP identifier. */
  function SrcKey(h: Ipv4Hdr): (r: Option<Tuple>)
    ensures r.None? <==> h.l4.OtherL4?
    ensures r.Some? ==> Swap32(r.value.addr) == h.srcAddr
  {
    Swap32Involution(h.srcAddr);
    match h.l4
    case TcpHdr(src, _, _) => Some(Tuple(Swap32(h.srcAddr), Swap16(src)))
    case UdpHdr(src, _) => Some(Tuple(Swap32(h.srcAddr), Swap16(src)))
    case IcmpHdr(_, _, id) => Some(Tuple(Swap32(h.srcAddr), Swap16(id)))
    case OtherL4 => None
  }

  /** The port of each key, written back in network order, is the header's
      own field: the destination (ingress) or source (egress) port for TCP
      and UDP, the identifier for ICMP. */
  lemma KeyPorts(h: Ipv4Hdr)
    ensures h.l4.TcpHdr? || h.l4.UdpHdr? ==>
      Swap16(DstKey(h).value.port) == h.l4.dstPort && Swap16(SrcKey(h).value.port) == h.l4.srcPort
    ensures h.l4.IcmpHdr? ==>
      Swap16(DstKey(h).value.port) == h.l4.identifier && Swap16(SrcKey(h).value.port) == h.l4.identifier
  {
    match h.l4
    case TcpHdr(src, dst, _) => Swap16Involution(src); Swap16Involution(dst);
    case UdpHdr(src, dst) => Swap16Involution(src); Swap16Involution(dst);
    case IcmpHdr(_, _, id) => Swap16Involution(id);
    case OtherL4 =>
  }

  /** Writes a host-order port into the destination port field (the identifier for ICMP). */
  function SetDstPort(l4: L4, port: bv16): (r: L4)
    ensures r.TcpHdr? == l4.TcpHdr? && r.UdpHdr? == l4.UdpHdr? && r.IcmpHdr? == l4.IcmpHdr?
    ensures r.TcpHdr? ==> r.srcPort == l4.srcPort && r.flags == l4.flags && Swap16(r.dstPort) == port
    ensures r.UdpHdr? ==> r.srcPort == l4.srcPort && Swap16(r.dstPort) == port
    ensures r.IcmpHdr? ==> r.icmpType == l4.icmpType && r.code == l4.code && Swap16(r.identifier) == port
  {
    Swap16Involution(port);
    match l4
    case TcpHdr(src, _, flags) => TcpHdr(src, Swap16(port), flags)
    case UdpHdr(src, _) => UdpHdr(src, Swap16(port))
    case IcmpHdr(t, c, _) => IcmpHdr(t, c, Swap16(port))
    case OtherL4 => OtherL4
  }

  /** Writes a host-order port into the source port field (the identifier for ICMP). */
  function SetSrcPort(l4: L4, port: bv16): (r: L4)
    ensures r.TcpHdr? == l4.TcpHdr? && r.UdpHdr? == l4.UdpHdr? && r.IcmpHdr? == l4.IcmpHdr?
    ensures r.TcpHdr? ==> r.dstPort == l4.dstPort && r.flags == l4.flags && Swap16(r.srcPort) == port
    ensures r.UdpHdr? ==> r.dstPort == l4.dstPort && Swap16(r.srcPort) == port
    ensures r.IcmpHdr? ==> r.icmpType == l4.icmpType && r.code == l4.code && Swap16(r.identifier) == port
  {
    Swap16Involution(port);
    match l4
    case TcpHdr(_, dst, flags) => TcpHdr(Swap16(port), dst, flags)
    case UdpHdr(_, dst) => UdpHdr(Swap16(port), dst)
    case IcmpHdr(t, c, _) => IcmpHdr(t, c, Swap16(port))
    case OtherL4 => OtherL4
  }

  /** Ingress rewrite: destination becomes the private tuple. */
  function RewriteDst(h: Ipv4Hdr, t: Tuple): (r: Ipv4Hdr)
    ensures r.srcAddr == h.srcAddr && Swap32(r.dstAddr) == t.addr
    ensures ProtoOf(r.l4) == ProtoOf(h.l4)
  {
    Swap32Involution(t.addr);
    h.(dstAddr := Swap32(t.addr), l4 := SetDstPort(h.l4, t.port))
  }

  /** Egress rewrite: source becomes the public tuple. */
  function RewriteSrc(h: Ipv4Hdr, t: Tuple): (r: Ipv4Hdr)
    ensures r.dstAddr == h.dstAddr && Swap32(r.srcAddr) == t.addr
    ensures ProtoOf(r.l4) == ProtoOf(h.l4)
  {
    Swap32Involution(t.addr);
    h.(srcAddr := Swap32(t.addr), l4 := SetSrcPort(h.l4, t.port))
  }

  /** After an ingress rewrite to `t`, the packet's destination key reads back
      as `t`: the header writes and the key derivation are inverse. */
  lemma DstKeyOfRewriteDst(h: Ipv4Hdr, t: Tuple)
    requires !h.l4.OtherL4?
    ensures DstKey(RewriteDst(h, t)) == Some(t)
    ensures RewriteDst(h, t).srcAddr == h.srcAddr
    ensures ProtoOf(RewriteDst(h, t).l4) == ProtoOf(h.l4)
  {
    Swap32Involution(t.addr);
    Swap16Involution(t.port);
    var h' := RewriteDst(h, t);
    assert h'.dstAddr == Swap32(t.addr);
    match h.l4
    case TcpHdr(s, d, f) =>
      assert h'.l4 == TcpHdr(s, Swap16(t.port), f);
    case UdpHdr(s, d) =>
      assert h'.l4 == UdpHdr(s, Swap16(t.port));
    case IcmpHdr(ty, c, id) =>
      assert h'.l4 == IcmpHdr(ty, c, Swap16(t.port));
  }

  /** After an egress rewrite to `t`, the packet's source key reads back as `t`. */
  lemma SrcKeyOfRewriteSrc(h: Ipv4Hdr, t: Tuple)
    requires !h.l4.OtherL4?
    ensures SrcKey(RewriteSrc(h, t)) == Some(t)
    ensures RewriteSrc(h, t).dstAddr == h.dstAddr
    ensures ProtoOf(RewriteSrc(h, t).l4) == ProtoOf(h.l4)
  {
    Swap32Involution(t.addr);
    Swap16Involution(t.port);
    var h' := RewriteSrc(h, t);
    assert h'.srcAddr == Swap32(t.addr);
    match h.l4
    case TcpHdr(s, d, f) =>
      assert h'.l4 == TcpHdr(Swap16(t.port), d, f);
    case UdpHdr(s, d) =>
      assert h'.l4 == UdpHdr(Swap16(t.port), d);
    case IcmpHdr(ty, c, id) =>
      assert h'.l4 == IcmpHdr(ty, c, Swap16(t.port));
  }

  /** A TCP/UDP ingress rewrite leaves the source key alone (ICMP shares one
      identifier field between both keys, so it is excluded). */
  lemma RewriteDstKeepsSrcKey(h: Ipv4Hdr, t: Tuple)
    requires h.l4.TcpHdr? || h.l4.UdpHdr?
    ensures SrcKey(RewriteDst(h, t)) == SrcKey(h)
  {
  }

  /** The answer a remote peer sends back: source and destination exchanged. */
  function Reversed(h: Ipv4Hdr): (r: Ipv4Hdr)
    ensures DstKey(r) == SrcKey(h)
    ensures SrcKey(r) == DstKey(h)
  {
    Ipv4Hdr(h.dstAddr, h.srcAddr,
      match h.l4
      case TcpHdr(s, d, f) => TcpHdr(d, s, f)
      case UdpHdr(s, d) => UdpHdr(d, s)
      case IcmpHdr(t, c, id) => IcmpHdr(t, c, id)
      case OtherL4 => OtherL4)
  }

  /** Egress-then-ingress symmetry. An egress packet from private tuple `p`
      whose mapping is `q` leaves with source `q`; the peer's answer is
      addressed to `q`, the public table resolves `q` back to `p`, and the
      ingress rewrite delivers it with destination `p`. */
  lemma EgressThenIngressRestoresPrivate(pub: Table, priv: Table, h: Ipv4Hdr)
    requires Consistent(pub, priv)
    requires SrcKey(h).Some? && SrcKey(h).value in priv
    ensures var p := SrcKey(h).value;
            var answer := Reversed(RewriteSrc(h, priv[p]));
            && DstKey(answer) == Some(priv[p])
            && priv[p] in pub && pub[priv[p]] == p
            && DstKey(RewriteDst(answer, pub[priv[p]])) == Some(p)
  {
    var p := SrcKey(h).value;
    var q := priv[p];
    SrcKeyOfRewriteSrc(h, q);
    var answer := Reversed(RewriteSrc(h, q));
    DstKeyOfRewriteDst(answer, p);
  }

  /** The answer to a rewritten egress packet, rewritten on ingress back to
      the sender's own tuple, is exactly the answer the sender would have
      received with no translator in between. */
  lemma AnswerReachesSender(h: Ipv4Hdr, q: Tuple)
    requires !h.l4.OtherL4?
    ensures RewriteDst(Reversed(RewriteSrc(h, q)), SrcKey(h).value) == Reversed(h)
  {
    var back := RewriteDst(Reversed(RewriteSrc(h, q)), SrcKey(h).value);
    AnswerAddressesReturn(h, q);
    match h.l4
    case TcpHdr(s, d, f) =>
      Swap16Involution(s);
      assert back.l4 == TcpHdr(d, Swap16(Swap16(s)), f);
    case UdpHdr(s, d) =>
      Swap16Involution(s);
      assert back.l4 == UdpHdr(d, Swap16(Swap16(s)));
    case IcmpHdr(ty, c, id) =>
      Swap16Involution(id);
      assert back.l4 == IcmpHdr(ty, c, Swap16(Swap16(id)));
  }

  /** The address half of `AnswerReachesSender`. */
  lemma AnswerAddressesReturn(h: Ipv4Hdr, q: Tuple)
    requires !h.l4.OtherL4?
    ensures var back := RewriteDst(Reversed(RewriteSrc(h, q)), SrcKey(h).value);
            back.srcAddr == h.dstAddr && back.dstAddr == h.srcAddr
  {
    Swap32Involution(h.srcAddr);
  }
}
