/** What a node knows of its peers over every run: their host names, control addresses and times, and that
    a peer that has left stays Dead until it is heard of again. */
module Identity {
  import opened Bytes
  import opened MacText
  import opened Membership
  import opened Detector
  import opened GossipMerge

  // ---------------------------------------------------------------------------
  // The default name
  // ---------------------------------------------------------------------------

  /** The default name is a fixed prefix and the id's two octets in hexadecimal. */
  lemma DefaultHostnameReadsBack(nid: u16)
    ensures var name, octets := DefaultHostname(nid), U16Bytes(nid);
      && |name| == 11 && name[..7] == Ascii("node-0x")
      && ParseHexU8(name[7..9]) == Some(octets[0]) && ParseHexU8(name[9..11]) == Some(octets[1])
  {
    var name, b := DefaultHostname(nid), U16Bytes(nid);
    ParseFmtHex2(b[0]);
    ParseFmtHex2(b[1]);
    assert name[7..9] == FmtHex2(b[0]) && name[9..11] == FmtHex2(b[1]);
  }

  /** Id 0x00a5 is called `node-0x00a5`. */
  lemma DefaultHostnameOfA5()
    ensures DefaultHostname(0xA5) == [110, 111, 100, 101, 45, 48, 120, 48, 48, 97, 53]
  {
    assert U16Bytes(0xA5) == [0, 0xA5];
    assert FmtHex2(0) == [48, 48] && FmtHex2(0xA5) == [97, 53];
    assert Ascii("node-0x") == [110, 111, 100, 101, 45, 48, 120];
  }

  // ---------------------------------------------------------------------------
  // Names, addresses and times
  // ---------------------------------------------------------------------------

  /** The event comes from `k` and says that it is there. */
  predicate Heard(e: Event, k: u16) {
    (e.Heartbeat? || e.Announce?) && e.nid == k
  }

  /** The last announcement of `k`. */
  function LastAnnounce(events: seq<Event>, k: u16): Option<Event>
    decreases |events|
  {
    if events == [] then None
    else
      var e := events[|events| - 1];
      if e.Announce? && e.nid == k then Some(e) else LastAnnounce(events[..|events| - 1], k)
  }

  /** The last event that says that `k` is there. */
  function LastHeard(events: seq<Event>, k: u16): Option<Event>
    decreases |events|
  {
    if events == [] then None
    else
      var e := events[|events| - 1];
      if Heard(e, k) then Some(e) else LastHeard(events[..|events| - 1], k)
  }

  /** `k` is in the table all along. */
  ghost predicate StaysIn(m: Table, self: u16, th: Thresholds, events: seq<Event>, k: u16) {
    forall i :: 0 <= i <= |events| ==> k in Run(m, self, th, events[..i])
  }

  /** One event: only an announcement of the peer changes its name and address, and only that or its
      heartbeat its time. */
  lemma EventKeepsIdentity(m: Table, self: u16, th: Thresholds, e: Event, k: u16)
    requires k != self && k in m && k in Apply(m, self, th, e)
    ensures var n := Apply(m, self, th, e)[k];
      && (if e.Announce? && e.nid == k then n.hostname == e.hostname && n.controlAddr == e.addr
          else n.hostname == m[k].hostname && n.controlAddr == m[k].controlAddr)
      && (if Heard(e, k) then n.lastSeen == e.now else n.lastSeen == m[k].lastSeen)
  {
    match e
    case Gossip(nid, entries, from, now) =>
      if nid != self {
        GossipClosedForm(m, self, entries, from, now, k);
        assert Lookup(OnGossip(m, self, entries, from, now), k).Some?;
      }
    case DetectorTick(now) => TickEntry(m, self, now, th, k);
    case _ =>
  }

  lemma {:induction false} RunKeepsIdentity(m: Table, self: u16, th: Thresholds, events: seq<Event>, k: u16)
    requires k != self && StaysIn(m, self, th, events, k)
    ensures k in m && k in Run(m, self, th, events)
    ensures var n := Run(m, self, th, events)[k];
      && (match LastAnnounce(events, k)
          case Some(a) => a.Announce? && n.hostname == a.hostname && n.controlAddr == a.addr
          case None => n.hostname == m[k].hostname && n.controlAddr == m[k].controlAddr)
      && (match LastHeard(events, k)
          case Some(h) => Heard(h, k) && n.lastSeen == h.now
          case None => n.lastSeen == m[k].lastSeen)
    decreases |events|
  {
    assert events[..|events|] == events && events[..0] == [];
    assert k in Run(m, self, th, events[..0]);
    if events != [] {
      var front := events[..|events| - 1];
      assert forall i :: 0 <= i <= |front| ==> front[..i] == events[..i];
      RunKeepsIdentity(m, self, th, front, k);
      EventKeepsIdentity(Run(m, self, th, front), self, th, events[|events| - 1], k);
    }
  }

  /** The event that puts a peer into the table: its announcement, with the announced name and address, or its
      heartbeat or anybody's gossip about it, with the default name and the address of that frame.  The
      time is that of the event, and the flag is down. */
  lemma InsertedBy(m: Table, self: u16, th: Thresholds, e: Event, k: u16)
    requires k !in m && k in Apply(m, self, th, e)
    ensures var n := Apply(m, self, th, e)[k];
      && k != self && n.nodeId == k && !n.isMaster
      && match e
         case Announce(nid, hostname, addr, _, now) =>
           nid == k && n.hostname == hostname && n.controlAddr == addr && n.lastSeen == now
         case Heartbeat(nid, _, from, now) =>
           nid == k && n.hostname == DefaultHostname(k) && n.controlAddr == from && n.lastSeen == now
         case Gossip(_, entries, from, now) =>
           && (exists g :: g in entries && g.nodeId == k)
           && n.hostname == DefaultHostname(k) && n.controlAddr == from && n.lastSeen == now
         case _ => false
  {
    match e
    case Gossip(nid, entries, from, now) =>
      GossipClosedForm(m, self, entries, from, now, k);
      assert Lookup(OnGossip(m, self, entries, from, now), k).Some?;
    case DetectorTick(now) => TickEntry(m, self, now, th, k);
    case _ =>
  }

  /** Over every run: as long as a peer stays in the table, its host name and address are those of its last
      announcement since it was put there; without one, they are the default name and the address of the
      frame that put it there.  Its time is that of the last it was heard of, or of that frame. */
  lemma PeerIdentity(self: u16, th: Thresholds, before: seq<Event>, e: Event, after: seq<Event>, k: u16)
    requires var m := Run(map[], self, th, before);
      k !in m && StaysIn(Apply(m, self, th, e), self, th, after, k)
    ensures var start := Apply(Run(map[], self, th, before), self, th, e);
      && k in Run(start, self, th, after)
      && var n := Run(start, self, th, after)[k];
      && (match LastAnnounce([e] + after, k)
          case Some(a) => a.Announce? && n.hostname == a.hostname && n.controlAddr == a.addr
          case None => (e.Heartbeat? || e.Gossip?) && n.hostname == DefaultHostname(k) && n.controlAddr == e.from)
      && (match LastHeard([e] + after, k)
          case Some(h) => Heard(h, k) && n.lastSeen == h.now
          case None => e.Gossip? && n.lastSeen == e.now)
  {
    var m := Run(map[], self, th, before);
    var start := Apply(m, self, th, e);
    assert after[..0] == [] && Run(start, self, th, after[..0]) == start;
    InsertedBy(m, self, th, e, k);
    RunKeepsIdentity(start, self, th, after, k);
    LastOfAll(e, after, k);
  }

  lemma {:induction false} LastOfAll(e: Event, after: seq<Event>, k: u16)
    ensures LastAnnounce([e] + after, k) ==
      if LastAnnounce(after, k).Some? then LastAnnounce(after, k)
      else if e.Announce? && e.nid == k then Some(e) else None
    ensures LastHeard([e] + after, k) ==
      if LastHeard(after, k).Some? then LastHeard(after, k) else if Heard(e, k) then Some(e) else None
    decreases |after|
  {
    var all := [e] + after;
    if after == [] {
      assert all[..0] == [];
    } else {
      assert all[..|all| - 1] == [e] + after[..|after| - 1];
      LastOfAll(e, after[..|after| - 1], k);
    }
  }

  // ---------------------------------------------------------------------------
  // Leaving
  // ---------------------------------------------------------------------------

  /** Nothing in these events says that `k` is there, or gossips about it. */
  ghost predicate Silent(events: seq<Event>, k: u16) {
    forall e :: e in events ==> !Heard(e, k) && (e.Gossip? ==> forall g :: g in e.entries ==> g.nodeId != k)
  }

  ghost predicate DeadOrGone(m: Table, k: u16) {
    k in m ==> m[k].state.Dead?
  }

  lemma SilentKeepsDead(m: Table, self: u16, th: Thresholds, e: Event, k: u16)
    requires k != self && DeadOrGone(m, k) && Silent([e], k)
    ensures DeadOrGone(Apply(m, self, th, e), k)
  {
    assert e in [e];
    match e
    case Gossip(nid, entries, from, now) =>
      GossipClosedForm(m, self, entries, from, now, k);
      assert Lookup(m, k) == Lookup(OnGossip(m, self, entries, from, now), k);
    case DetectorTick(now) => TickEntry(m, self, now, th, k);
    case _ =>
  }

  /** A peer that leaves is Dead from then on, through all ticks and all messages that do not concern it,
      until it is removed or heard or gossiped of again. */
  lemma {:induction false} LeftStaysDead(m: Table, self: u16, th: Thresholds, events: seq<Event>, k: u16)
    requires k != self && Silent(events, k)
    ensures DeadOrGone(Run(Apply(m, self, th, Leave(k)), self, th, events), k)
    ensures k in m ==> k in Apply(m, self, th, Leave(k)) && Apply(m, self, th, Leave(k))[k].state.Dead?
    decreases |events|
  {
    if events != [] {
      var n := |events| - 1;
      assert forall e :: e in events[..n] || e in [events[n]] ==> e in events;
      LeftStaysDead(m, self, th, events[..n], k);
      SilentKeepsDead(Run(Apply(m, self, th, Leave(k)), self, th, events[..n]), self, th, events[n], k);
    }
  }
}
