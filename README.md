# NAPT translation engine of the nff-go NAT example

A Dafny model of the packet translation and connection-state engine of the
nff-go NAT example (`examples/nat/translation.go`). The engine implements
network address and port translation (NAPT, section 2.2 of RFC 3022) between
a public and a private attachment point ("port pair").

## What is modelled

**State.** One `PortPair` object (class `Engine.PortPair`) holds:

- per protocol (TCP, UDP, ICMP), the public table (public tuple → private tuple)
  and the private table (private tuple → public tuple);
- per protocol, the public port's port map: an array of 65536 entries, each
  holding `lastused`, `addr`, `finCount`, `terminationDirection` and the
  static flag;
- one ARP cache per side (IPv4 address → MAC);
- a log of the packets the engine injects itself: ARP replies, ARP requests
  and ICMP echo replies.

**Packets.** A packet is an already-decoded value (`NatTypes.Packet`): Ethernet
addresses plus an IPv4, ARP or other layer 3. The IPv4 header carries a
TCP, UDP, ICMP or other layer 4. Header fields stay in network byte order
(`bv16`/`bv32`). Table tuples are in host order, and `Swap16`/`Swap32`
(byte reversal) convert between the two. The translation methods return the
rewritten packet together with the disposition: `Send`, `Drop` or `Kni`.

**Modules.**

- `NatTypes`: the packet and configuration values, and byte swapping.
- `Tables`: the bidirectional translation tables, their consistency
  invariant, and removal of a port's connection.
- `Keys`: lookup-key derivation (destination on ingress, source on egress;
  the ICMP identifier stands in for a port) and header rewriting.
- `TcpTermination`: the port-map entry and the FIN/RST/ACK close tracker.
- `ArpHandling`: the ARP decision rules.
- `IcmpHandling`: the ICMP self-handling rules.
- `Engine`: the stateful port pair, with ingress and egress translation.

**Main invariant.** Consistency (`Tables.Consistent`) requires that, for every
protocol, `public[q] == p` exactly when `private[p] == q`. Both translation
paths preserve it. Allocation preserves it because the new public port is
unbound. Removal preserves it because it drops both directions of every
connection on the port. A second invariant (`Engine.PortPair.PortMapWellFormed`)
says that every port-map entry has a FIN count of at most two and records a
close direction exactly when a FIN was counted. Every step that writes a
slot keeps it.

**Outcomes.** Each translation direction's effect, from the lookup on, is
stated once as a predicate over a before and an after `Snapshot` (the
tables, the injection log, and the one port-map slot involved):
`IngressOutcome` and `EgressOutcome`, which share the close-tracker step
`TrackerOutcome`. The entry points and their helpers promise that outcome,
and that no other slot changes. The lemmas about forwarding and mappings are
proved about the predicates.

**Round trip.** An egress packet from private tuple `p` mapped to `q` leaves
with source `q`. The peer's answer is addressed to `q`, and the ingress
rewrite delivers it with destination `p` (`Keys.EgressThenIngressRestoresPrivate`).
Run through the engine itself (`Engine.PortPair.ExchangeThroughTranslator`),
the peer answers a UDP datagram only when it was forwarded, and the answer
arrives within the connection timeout. When the sender's address is nonzero
and its MAC is cached, the answer is forwarded to the sender. It carries the
original IPv4 header with its addresses and ports reversed. Its Ethernet
header runs from the public port's MAC to the cached MAC; it is not the
original's MACs swapped. For the first datagram of a flow the engine has just
cached the MAC the datagram came from, so the answer goes back to that MAC.

**ARP caches.** The two caches map a host-order IPv4 address to a MAC. They
are keyed by the `HostAddr` wrapper rather than by the bare 32-bit value so
that an entry can be read back at the address it was stored under.

**Ingress MAC.** On ingress the forwarded packet's source MAC is the public
port's own MAC. This is what the code writes (`port.SrcMACAddress` with
`port` the public port, `translation.go:112`), and the model follows it.

## Model

| member | source | states |
|---|---|---|
| NatTypes.Swap16Involution | examples/nat/translation.go:211-217 | swapping the two bytes of a 16-bit field twice gives the field back, so host-order ports written into headers read back unchanged |
| NatTypes.Swap32Involution | examples/nat/translation.go:206-208 | reversing the bytes of an address twice gives the address back |
| NatTypes.ProtoOf | examples/nat/translation.go:67-68 | the protocol table index is defined exactly for TCP, UDP and ICMP layer 4 |
| Tables.ConsistentIff | examples/nat/translation.go:45-46 | under the consistency invariant, `public[q] == p` holds exactly when `private[p] == q` |
| Tables.RemovePort | examples/nat/translation.go:297-317 | removing a port's connection keeps exactly the public entries on other ports and exactly the private entries mapped to other ports, with their values unchanged |
| Tables.InsertPreservesConsistent | examples/nat/translation.go:45-46 | storing `q → p` in the public table and `p → q` in the private table, when neither key is bound, keeps the two tables inverse |
| Tables.RemovePortPreservesConsistent | examples/nat/translation.go:297-317 | removal keeps the tables inverse and leaves the port unbound in the public table |
| Keys.DstKey | examples/nat/translation.go:205-227 | the ingress key exists exactly for TCP, UDP and ICMP, and its address is the destination address in host order |
| Keys.SrcKey | examples/nat/translation.go:230-254 | the egress key exists exactly for TCP, UDP and ICMP, and its address is the source address in host order |
| Keys.KeyPorts | examples/nat/translation.go:205-254 | the port of the ingress key is the TCP/UDP destination port, and the port of the egress key is the TCP/UDP source port, each in host order; for ICMP both are the identifier |
| Keys.SetDstPort | examples/nat/translation.go:256-267 | writing a host-order port into a layer 4 header keeps its kind (TCP, UDP, ICMP or other) and its other fields, and puts the port in network order into the destination port, or into the identifier for ICMP |
| Keys.SetSrcPort | examples/nat/translation.go:269-280 | the same for the source port: the kind and other fields are kept, and the port goes in network order into the source port, or into the identifier for ICMP |
| Keys.RewriteDst | examples/nat/translation.go:116-117 | the ingress header write keeps the source address and the protocol, and puts the tuple's address in network order into the destination address (and its port via `SetDstPort`) |
| Keys.RewriteSrc | examples/nat/translation.go:193-194 | the egress header write keeps the destination address and the protocol, and puts the tuple's address in network order into the source address (and its port via `SetSrcPort`) |
| Keys.DstKeyOfRewriteDst | examples/nat/translation.go:256-267 | after the destination address and port (or ICMP identifier) are rewritten to tuple `t`, the packet's ingress key is `t`; the source address and protocol are untouched |
| Keys.SrcKeyOfRewriteSrc | examples/nat/translation.go:269-280 | after the source address and port (or ICMP identifier) are rewritten to tuple `t`, the packet's egress key is `t`; the destination address and protocol are untouched |
| Keys.RewriteDstKeepsSrcKey | examples/nat/translation.go:256-267 | for TCP and UDP, an ingress rewrite does not change the packet's source key |
| Keys.Reversed | examples/nat/translation.go:205-254 | the answer a peer sends back has as ingress key the egress key of the original, and the reverse |
| Keys.EgressThenIngressRestoresPrivate | examples/nat/translation.go:158-194 | with consistent tables, an egress packet from `p` leaves with source `private[p]`; its answer looks up `private[p]`, the public table maps it back to `p`, and the ingress rewrite yields destination key `p` |
| Keys.AnswerReachesSender | examples/nat/translation.go:116-194 | the answer to an egress packet whose source was rewritten, once its destination is rewritten on ingress to the sender's own tuple, is exactly the answer the sender would have received with no translator: addresses and ports of the original, reversed |
| TcpTermination.Opposite | examples/nat/translation.go:292 | the opposite of a direction is a different direction |
| TcpTermination.FreshEntry | examples/nat/translation.go:36-42 | a newly allocated port's entry has no FIN seen, no close direction, is not static, and records the allocation time and the public address |
| TcpTermination.Alive | examples/nat/translation.go:87 | the ingress aging test: a port is still in use when it is static or was used no longer than the connection timeout ago |
| TcpTermination.Classify | examples/nat/translation.go:284-302 | FIN is acted on whenever set; RST only without FIN; ACK only without FIN and RST |
| TcpTermination.TermStep | examples/nat/translation.go:283-318 | the close tracker: a FIN never tears down; the first FIN records its direction, a FIN from the opposite direction moves the count from 1 to 2 and changes nothing else; a repeated FIN from the same direction, and any FIN at count 2, changes nothing; the count never exceeds 2; RST tears down; a bare ACK tears down exactly after two FINs and sets `lastused` to `now + (portReuseTimeout - connectionTimeout)`; the address and static flag never change |
| TcpTermination.SymmetricCloseTearsDown | examples/nat/translation.go:283-318 | FIN from one side, FIN(+ACK) from the other, then a bare ACK: only the last tears down, and it holds the port for the reuse delay |
| TcpTermination.RepeatedFinDoesNotClose | examples/nat/translation.go:289-310 | two FINs from the same side leave a single FIN counted, and a following ACK does not tear down |
| TcpTermination.RstTearsDownImmediately | examples/nat/translation.go:297-301 | an RST without FIN tears down whatever the close state and leaves the entry as it was |
| TcpTermination.Replay | examples/nat/translation.go:283-318 | over any run of segments fed to the tracker, the FIN count stays at most two and a recorded close direction stays consistent with it; the address and static flag never change |
| TcpTermination.HalfCloseNeverArmsRelease | examples/nat/translation.go:289-294 | while every segment comes from one direction, at most one FIN is counted, so a bare ACK never releases the port early; only an RST can |
| ArpHandling.ArpDecision | examples/nat/translation.go:337-386 | an ARP packet is never forwarded: it goes to KNI exactly when one is configured, else it is dropped; a reply is always learned as sender address → sender MAC; only a request for the port's own address with a blank target MAC, with no KNI, is answered, from the port's MAC with the addresses exchanged |
| ArpHandling.ArpRequestFor | examples/nat/translation.go:397-412 | the request for `ip` comes from the port's MAC and address and asks for `ip`, both addresses in network order |
| IcmpHandling.DirOf | examples/nat/translation.go:414-460 | an ICMP outcome continues translation exactly when its disposition is send, and goes to KNI exactly when its disposition is KNI |
| IcmpHandling.EchoReplyTo | examples/nat/translation.go:452-454 | the echo reply exchanges source and destination and has type echo-reply, keeping code and identifier |
| IcmpHandling.IcmpDecision | examples/nat/translation.go:414-460 | ICMP not addressed to the port continues translation; with a KNI, a keyed (ingress) packet without a live entry goes to KNI; exactly a genuine echo request (code 0) addressed to the port, not redirected, is answered with the echo reply |
| Engine.InsertKeepsAllConsistent | examples/nat/translation.go:45-46 | a fresh binding in one protocol keeps every protocol's table pair inverse |
| Engine.RemoveKeepsAllConsistent | examples/nat/translation.go:297-317 | removing a port's connection in one protocol keeps every protocol consistent and leaves the port unbound |
| Engine.AllConsistentAfterSet | examples/nat/translation.go:45-46 | replacing one protocol's tables by a consistent pair leaves all protocols consistent |
| Engine.PortPair.ForPrivateKni | examples/nat/translation.go:151 | egress traffic goes to the private port's KNI exactly when that port has a KNI and the destination address, read in host order, is the port's own address |
| Engine.PortPair.Live | examples/nat/translation.go:429-430 | the ICMP liveness test: the key has a public ICMP mapping and its port was used no longer than the connection timeout ago (no static exemption) |
| Engine.PortPair.Learn | examples/nat/translation.go:162 | storing an ARP cache entry changes exactly that side's cache, at that address |
| Engine.PortPair.DeleteOldConnection | examples/nat/translation.go:91-93 | afterwards no table entry of the protocol refers to the port, nothing else changes, and consistency is kept |
| Engine.PortPair.AllocateNewEgressConnection | examples/nat/translation.go:21-50 | on allocator failure nothing changes and the result is the error; otherwise the public tuple is (public address, new port), both tables gain the pair, the port's entry is fresh with `lastused = now`, no other entry changes, and consistency is kept when the private tuple was unbound |
| Engine.PortPair.BindNewConnection | examples/nat/translation.go:31-46 | the successful allocation: the new tuple is bound in both directions, only the allocated port's entry changes, and consistency is kept |
| Engine.PortPair.CheckTCPTermination | examples/nat/translation.go:283-318 | the port's new entry is the close tracker's step; on teardown the connection is removed from both TCP tables; no other entry changes; consistency is kept |
| Engine.PortPair.RecordFin | examples/nat/translation.go:284-296 | on a FIN the port's entry becomes the close tracker's step: the first FIN records its direction, a FIN from the opposite direction after one FIN completes the close, anything else leaves the entry; no other slot changes and well-formedness is kept |
| Engine.PortPair.ReleaseAfterClose | examples/nat/translation.go:302-317 | on a bare ACK after FINs from both directions the connection is removed from both TCP tables and the port is held for the reuse delay; otherwise nothing changes; consistency and well-formedness are kept |
| Engine.PortPair.GetMACForIP | examples/nat/translation.go:388-395 | a cached address gives its MAC; otherwise there is no MAC and an ARP request for it is injected |
| Engine.PortPair.HandleARP | examples/nat/translation.go:337-386 | the disposition, learned entry and injected reply are those of the ARP decision, and the other side's cache is untouched |
| Engine.PortPair.ParsePacketAndCheckARP | examples/nat/translation.go:320-335 | IPv4 continues with its header and no state change; ARP is handled as above; anything else is dropped |
| Engine.PortPair.HandleICMP | examples/nat/translation.go:414-460 | the disposition and any injected echo reply are those of the ICMP decision, with liveness read from the ICMP table and port map |
| Engine.PortPair.IngressKey | examples/nat/translation.go:205-227 | a key is produced exactly when translation goes on, and it is the destination key; other layer 4 is dropped; for ICMP the disposition is that of the ICMP decision on the public port, with liveness read from the ICMP table |
| Engine.PortPair.EgressKey | examples/nat/translation.go:230-254 | a key is produced exactly when translation goes on, and it is the source key; other layer 4 is dropped; for ICMP the disposition is that of the ICMP decision on the private port |
| Engine.PortPair.GenerateLookupKeyFromDstAndHandleICMP | examples/nat/translation.go:205-227 | returns the ingress key and disposition, and injects the ICMP echo reply when one is due |
| Engine.PortPair.GenerateLookupKeyFromSrcAndHandleICMP | examples/nat/translation.go:230-254 | returns the egress key and disposition, and injects the ICMP echo reply when one is due |
| Engine.PortPair.PublicToPrivateTranslation | examples/nat/translation.go:52-125 | ingress, on the whole state: ARP learns and answers on the public side; other non-IPv4 traffic is dropped with nothing changed; with no key, the ICMP disposition and echo reply with nothing else changed; with a key, the outcome below, and no port-map slot but the key's changes; never creates a mapping; the public ARP cache is untouched for IPv4 and the private one always; consistency and port-map well-formedness are kept |
| Engine.PortPair.IngressSendsOnlyLiveMappings | examples/nat/translation.go:74-124 | ingress forwards a packet only after a live hit on a mapping with a nonzero private address whose MAC is known, with the destination rewritten to that mapping and nothing injected |
| Engine.PortPair.IngressNeverAddsMappings | examples/nat/translation.go:74-124 | every ingress outcome keeps, for every protocol, the keys of both tables or drops some: ingress never creates a mapping |
| Engine.PortPair.IngressTranslate | examples/nat/translation.go:74-124 | from the lookup on: a miss drops with nothing changed; a hit on an idle, non-static port removes the connection and drops; a live hit sets `lastused = now`, steps the close tracker for TCP with a nonzero private address (removing the connection on teardown), then goes to KNI for private address 0, else is forwarded with destination rewritten exactly when the private MAC is known, else drops and injects an ARP request; only the key's slot changes |
| Engine.PortPair.IngressLookup | examples/nat/translation.go:74-97 | lazy aging: a miss changes nothing; a hit on a static or recently used port refreshes `lastused`; a hit on a port idle longer than the timeout removes the connection |
| Engine.PortPair.Refresh | examples/nat/translation.go:88 | marking a port used sets its entry's `lastused` to now, leaves the rest of the entry and every other slot alone, and keeps well-formedness |
| Engine.PortPair.Store | examples/nat/translation.go:36-42 | writing an entry into one port-map slot sets that slot to it and leaves every other slot alone; a well-formed entry keeps every port map well-formed (the writes at 36-42, 88, 173 and in the close tracker all go through it) |
| Engine.PortPair.IngressForward | examples/nat/translation.go:99-124 | private address 0 goes to KNI; TCP steps the close tracker on the public port; forwarded exactly when the MAC is known, with destination rewritten |
| Engine.PortPair.EgressBinding | examples/nat/translation.go:158-174 | the public tuple egress uses: the existing mapping, else the allocated (public address, port), else none |
| Engine.PortPair.PrivateToPublicTranslation | examples/nat/translation.go:127-202 | egress, on the whole state: ARP learns and answers on the private side; other non-IPv4 is dropped; with no key, the ICMP disposition and echo reply; traffic for the private port's own address goes to its KNI; in all these no table or port map changes; otherwise the outcome below, and no slot but the bound port's changes; the public ARP cache is never touched; consistency and well-formedness are kept |
| Engine.PortPair.EgressSendsOnlyBoundPackets | examples/nat/translation.go:155-201 | egress forwards a packet only with a binding (the existing mapping of its key, else the allocated port) to a nonzero public address and a known destination MAC, with the source rewritten to it and nothing injected |
| Engine.PortPair.EgressTranslate | examples/nat/translation.go:155-201 | from the lookup on: a hit keeps the tables and sets the bound port's `lastused = now`; a miss learns the sender's MAC and either binds the key to (public address, allocated port) in both tables with a fresh entry, or, on allocation failure, drops with nothing else changed; with a binding, TCP to a nonzero public address steps the close tracker, a zero public address goes to KNI, and otherwise it is forwarded with source rewritten exactly when the destination MAC is known, else dropped with an ARP request injected; only the bound port's slot changes |
| Engine.PortPair.EgressLookup | examples/nat/translation.go:155-174 | a hit returns the existing public tuple and refreshes its `lastused` with no aging check; a miss learns the sender's MAC and allocates |
| Engine.PortPair.EgressForward | examples/nat/translation.go:176-201 | from the binding on: TCP to a nonzero public address steps the close tracker in the private-to-public direction (removing the connection on teardown); public address 0 goes to KNI; otherwise forwarded with source rewritten exactly when the destination MAC is known, else an ARP request is injected and it is dropped |
| Engine.PortPair.UdpEgressLeavesBinding | examples/nat/translation.go:155-194 | a forwarded UDP datagram leaves with the binding of its key, which the public table afterwards maps back to the key, on a slot whose `lastused` is now, with its source rewritten to that binding; a first datagram of its flow leaves the sender's MAC cached at the sender's address |
| Engine.PortPair.UdpAnswerReachesSender | examples/nat/translation.go:74-124 | the answer to such a datagram, arriving while the slot is live and the sender's MAC is known, is forwarded to the sender, from the public port's MAC to the cached MAC, with the original IPv4 header (addresses and ports) reversed |
| Engine.PortPair.ExchangeThroughTranslator | examples/nat/translation.go:53-202 | a UDP datagram out through egress and the peer's answer back through ingress within the connection timeout: the answer is sent through ingress only when the datagram was forwarded, and then, when the sender's address is nonzero and its MAC is cached, the answer is forwarded to it with the original IPv4 header (addresses and ports) reversed, from the public port's MAC to the cached MAC; for the first datagram of a flow, that MAC is the one the datagram came from |
| Engine.PortPair.AnswerThroughIngress | examples/nat/translation.go:53-125 | the answer to a UDP datagram that left with a still-live binding goes through ingress without touching the private ARP cache; when the sender's address is nonzero and its MAC is cached, the answer is forwarded to that MAC with the original addresses and ports reversed |

## Left out

- Packet buffers, parsing and injection: packets are decoded values, and
  injected packets are records in the `sent` log. `NewPacket`, `SendPacket`
  and the header parsers are not part of this model.
- Checksum recomputation after a rewrite (`setIPv4*Checksum`) is not modelled;
  only the rewritten address and port fields are.
- VLAN: the VLAN header, `SetVLANTagIdentifier` and `AddVLANTag` are not
  modelled.
- Concurrency: the port pair's mutex and the concurrent-map semantics of the
  translation and ARP tables are not modelled. Every operation is a single
  sequential step.
- Wall-clock time: `time.Now` is the parameter `now`, and durations are integers.
- Logging, packet dumps and fatal exits are not modelled.
- `allocNewPort` is not part of this model. Its answer is the `alloc`
  parameter, and its promise that the port is unbound is a precondition.
- `deleteOldConnection` is not part of this model. Its assumed effect is that
  every table entry on the port, in both directions, is removed and the port
  map is untouched.
- The direction constants `pub2pri`/`pri2pub` are not part of this model. They
  are taken to be bitwise complements of each other, as the `^dir` test at
  line 292 requires, and are modelled as an enumeration with `Opposite`.
- Static mappings loaded from configuration are not modelled: a new port pair
  starts with no static entries, though the static flag is honoured wherever
  it is read.
- The private port's own port map is never read or written by this code, so it
  is not modelled.
- The global configuration (`Natconfig`) is replaced by the port pair's
  constant fields.
- Engine.PortPair.AllocateNewEgressConnection: keeps consistency only when the
  private tuple was unbound, which is the only way egress calls it.
- Engine.PortPair.constructor: port-pair initialisation is not part of this
  model. A new port pair is taken to start with empty tables and ARP caches,
  an empty injection log, every port-map entry empty, and no static entries.
