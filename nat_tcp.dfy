/** Per-port bookkeeping and the TCP connection-close tracker (connection
    close as in section 3.5 of RFC 793): a FIN from each direction followed
    by a bare ACK releases the port early; an RST releases it at once. */
module TcpTermination {
  import opened NatTypes

  /** Which way a packet crosses the translator. */
  datatype Direction = PubToPri | PriToPub

  function Opposite(d: Direction): (r: Direction)
    ensures r != d
  {
    match d
    case PubToPri => PriToPub
    case PriToPub => PubToPri
  }

  /** The direction of the first FIN seen, if any. */
  datatype TermDir = NoTermination | Closing(dir: Direction)

  /** Bookkeeping for one public port of one protocol. */
  datatype PortMapEntry = PortMapEntry(
    lastused: int,
    addr: bv32,
    finCount: nat,
    terminationDirection: TermDir,
    isStatic: bool)

  const EmptyEntry := PortMapEntry(0, 0, 0, NoTermination, false)

  /** The entry written when a port is handed to a new egress connection. */
  function FreshEntry(now: int, addr: bv32): (e: PortMapEntry)
    ensures e.finCount == 0 && e.terminationDirection == NoTermination && !e.isStatic
    ensures e.lastused == now && e.addr == addr
  {
    PortMapEntry(now, addr, 0, NoTermination, false)
  }

  /** A port still in use: static, or used within the connection timeout. */
  predicate Alive(e: PortMapEntry, now: int, t: Timeouts)
  {
    e.isStatic || now - e.lastused <= t.connectionTimeout
  }

  /** Well-formed close state: a pending close records its direction, and
      the counter never goes past two. */
  predicate WellFormed(e: PortMapEntry)
  {
    && e.finCount <= 2
    && (e.finCount == 0 <==> e.terminationDirection == NoTermination)
  }

  /** The flag the tracker reacts to; FIN outranks RST, RST outranks ACK. */
  datatype TcpEvent = FinSeen | RstSeen | AckSeen | NoEvent

  function Classify(flags: bv8): (ev: TcpEvent)
    ensures ev == FinSeen <==> flags & TCP_FLAG_FIN != 0
    ensures ev == RstSeen <==> flags & TCP_FLAG_FIN == 0 && flags & TCP_FLAG_RST != 0
    ensures ev == AckSeen <==>
      flags & TCP_FLAG_FIN == 0 && flags & TCP_FLAG_RST == 0 && flags & TCP_FLAG_ACK != 0
  {
    if flags & TCP_FLAG_FIN != 0 then FinSeen
    else if flags & TCP_FLAG_RST != 0 then RstSeen
    else if flags & TCP_FLAG_ACK != 0 then AckSeen
    else NoEvent
  }

  /** Effect of one TCP segment on a port: the new entry, and whether the
      connection is torn down (both translation entries removed). */
  datatype TermResult = TermResult(entry: PortMapEntry, teardown: bool)

  function TermStep(e: PortMapEntry, flags: bv8, d: Direction, now: int, t: Timeouts): (r: TermResult)
    ensures r.entry.addr == e.addr && r.entry.isStatic == e.isStatic
    ensures WellFormed(e) ==> WellFormed(r.entry)
    // a FIN never tears down; it only advances the counter
    ensures Classify(flags) == FinSeen ==> !r.teardown && r.entry.lastused == e.lastused
    ensures Classify(flags) == FinSeen && e.finCount == 0 ==>
      r.entry.finCount == 1 && r.entry.terminationDirection == Closing(d)
    ensures Classify(flags) == FinSeen && (e.finCount == 1 || e.finCount == 2) ==>
      (r.entry.finCount == 2 <==>
        (e.finCount == 2 || e.terminationDirection == Closing(Opposite(d))))
    ensures Classify(flags) == FinSeen && e.finCount == 1 && e.terminationDirection == Closing(d) ==>
      r.entry == e
    ensures Classify(flags) == FinSeen && e.finCount == 1 && e.terminationDirection == Closing(Opposite(d)) ==>
      r.entry == e.(finCount := 2)
    ensures Classify(flags) == FinSeen && e.finCount == 2 ==> r.entry == e
    // an RST tears down and leaves the entry as it was
    ensures Classify(flags) == RstSeen ==> r.teardown && r.entry == e
    // a bare ACK tears down exactly after FINs from both directions
    ensures Classify(flags) == AckSeen ==> (r.teardown <==> e.finCount == 2)
    ensures Classify(flags) == AckSeen && e.finCount == 2 ==>
      r.entry == e.(lastused := now + (t.portReuseTimeout - t.connectionTimeout))
    ensures Classify(flags) == AckSeen && e.finCount != 2 ==> r.entry == e
    ensures Classify(flags) == NoEvent ==> r == TermResult(e, false)
  {
    match Classify(flags)
    case FinSeen =>
      if e.finCount == 0 then
        TermResult(e.(finCount := 1, terminationDirection := Closing(d)), false)
      else if e.finCount == 1 && e.terminationDirection == Closing(Opposite(d)) then
        TermResult(e.(finCount := 2), false)
      else
        TermResult(e, false)
    case RstSeen => TermResult(e, true)
    case AckSeen =>
      if e.finCount == 2 then
        TermResult(e.(lastused := now + (t.portReuseTimeout - t.connectionTimeout)), true)
      else
        TermResult(e, false)
    case NoEvent => TermResult(e, false)
  }

  /** A symmetric close: FIN from one side, FIN from the other, then a bare
      ACK tears the connection down and holds the port until
      `portReuseTimeout - connectionTimeout` past the ACK. */
  lemma SymmetricCloseTearsDown(e: PortMapEntry, d: Direction, t: Timeouts,
                                now1: int, now2: int, now3: int)
    requires e.finCount == 0
    ensures var r1 := TermStep(e, TCP_FLAG_FIN, d, now1, t);
            var r2 := TermStep(r1.entry, TCP_FLAG_FIN | TCP_FLAG_ACK, Opposite(d), now2, t);
            var r3 := TermStep(r2.entry, TCP_FLAG_ACK, d, now3, t);
            && !r1.teardown && !r2.teardown && r3.teardown
            && r3.entry.lastused == now3 + (t.portReuseTimeout - t.connectionTimeout)
  {
    var r1 := TermStep(e, TCP_FLAG_FIN, d, now1, t);
    assert Classify(TCP_FLAG_FIN) == FinSeen;
    assert r1.entry.finCount == 1 && r1.entry.terminationDirection == Closing(d);
    assert Classify(TCP_FLAG_FIN | TCP_FLAG_ACK) == FinSeen;
    assert Opposite(Opposite(d)) == d;
    var r2 := TermStep(r1.entry, TCP_FLAG_FIN | TCP_FLAG_ACK, Opposite(d), now2, t);
    assert r2.entry.finCount == 2;
    assert Classify(TCP_FLAG_ACK) == AckSeen;
  }

  /** A second FIN from the same side is not a close from the other side:
      the following ACK does not tear the connection down. */
  lemma RepeatedFinDoesNotClose(e: PortMapEntry, d: Direction, t: Timeouts,
                                now1: int, now2: int, now3: int, d3: Direction)
    requires e.finCount == 0
    ensures var r1 := TermStep(e, TCP_FLAG_FIN, d, now1, t);
            var r2 := TermStep(r1.entry, TCP_FLAG_FIN, d, now2, t);
            var r3 := TermStep(r2.entry, TCP_FLAG_ACK, d3, now3, t);
            && r2.entry == r1.entry && r2.entry.finCount == 1
            && !r3.teardown && r3.entry == r1.entry
  {
    var r1 := TermStep(e, TCP_FLAG_FIN, d, now1, t);
    assert Classify(TCP_FLAG_FIN) == FinSeen;
    assert r1.entry.terminationDirection == Closing(d);
    assert Classify(TCP_FLAG_ACK) == AckSeen;
  }

  /** An RST tears down whatever the close state, with no reuse hold. */
  lemma RstTearsDownImmediately(e: PortMapEntry, flags: bv8, d: Direction, now: int, t: Timeouts)
    requires flags & TCP_FLAG_RST != 0 && flags & TCP_FLAG_FIN == 0
    ensures TermStep(e, flags, d, now, t) == TermResult(e, true)
  {
  }

  /** One TCP segment as the tracker sees it: its flags, the direction it
      crosses the translator, and when. */
  datatype Segment = Segment(flags: bv8, dir: Direction, now: int)

  /** The port's entry after a run of segments, each fed to the tracker in
      turn (a teardown leaves the entry in the port map). */
  function Replay(e: PortMapEntry, segs: seq<Segment>, t: Timeouts): (r: PortMapEntry)
    // the count never exceeds two, however many segments arrive
    ensures WellFormed(e) ==> WellFormed(r)
    ensures r.addr == e.addr && r.isStatic == e.isStatic
    decreases |segs|
  {
    if segs == [] then e
    else Replay(TermStep(e, segs[0].flags, segs[0].dir, segs[0].now, t).entry, segs[1..], t)
  }

  /** A half-close never arms the early release: while every segment comes
      from direction `d`, at most one FIN is counted, so no bare ACK can tear
      the connection down (only an RST can). */
  lemma {:induction false} HalfCloseNeverArmsRelease(e: PortMapEntry, segs: seq<Segment>, d: Direction, t: Timeouts)
    requires e.finCount <= 1 && (e.finCount == 1 ==> e.terminationDirection == Closing(d))
    requires forall i | 0 <= i < |segs| :: segs[i].dir == d
    ensures var r := Replay(e, segs, t);
            r.finCount <= 1 && (r.finCount == 1 ==> r.terminationDirection == Closing(d))
    decreases |segs|
  {
    if segs != [] {
      var e' := TermStep(e, segs[0].flags, d, segs[0].now, t).entry;
      assert e'.finCount <= 1 && (e'.finCount == 1 ==> e'.terminationDirection == Closing(d));
      assert forall i | 0 <= i < |segs[1..]| :: segs[1..][i].dir == d;
      HalfCloseNeverArmsRelease(e', segs[1..], d, t);
    }
  }
}
