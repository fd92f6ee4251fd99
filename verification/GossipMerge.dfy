/** The gossip merge in closed form, and what follows from it: merging twice changes nothing more, and
    the order of entries matters only between equal incarnations that disagree. */
module GossipMerge {
  import opened Bytes
  import opened Membership
  import opened Detector

  /** The greatest incarnation that the list carries for `id`, -1 if it carries none. */
  function MaxIncarnation(entries: seq<GossipEntry>, id: u16): (r: int)
    ensures r >= -1
    ensures forall g :: g in entries && g.nodeId == id ==> g.incarnation <= r
    ensures r >= 0 ==> exists g :: g in entries && g.nodeId == id && g.incarnation == r
  {
    if entries == [] then -1
    else
      var n := |entries| - 1;
      var r := MaxIncarnation(entries[..n], id);
      assert entries == entries[..n] + [entries[n]];
      if entries[n].nodeId == id && entries[n].incarnation >= r then
        assert entries[n] in entries;
        entries[n].incarnation
      else r
  }

  /** The state in the last entry for `id` with this incarnation. */
  function LastState(entries: seq<GossipEntry>, id: u16, incarnation: int): (s: NodeState)
    requires exists g :: g in entries && g.nodeId == id && g.incarnation == incarnation
    ensures exists g :: g in entries && g.nodeId == id && g.incarnation == incarnation && g.state == s
  {
    var n := |entries| - 1;
    assert entries == entries[..n] + [entries[n]];
    if entries[n].nodeId == id && entries[n].incarnation == incarnation then
      assert entries[n] in entries;
      entries[n].state
    else LastState(entries[..n], id, incarnation)
  }

  function Lookup(m: Table, id: u16): Option<NodeInfo> {
    if id in m then Some(m[id]) else None
  }

  /** What a merge makes of one entry: the maximum incarnation, and, when the list reaches the old
      incarnation, the state of its last entry at that maximum. */
  function Merged(
      before: Option<NodeInfo>, entries: seq<GossipEntry>, id: u16, from: SocketAddr, now: nat): Option<NodeInfo>
  {
    var top := MaxIncarnation(entries, id);
    if top < 0 then before
    else
      var e := if before.Some? then before.value else NewPeer(id, from, LastState(entries, id, top), top, now);
      Some(if top >= e.incarnation then e.(state := LastState(entries, id, top), incarnation := top) else e)
  }

  /** Folding any list of entries: every other id gets the closed form, the node's own id is untouched. */
  lemma {:induction false} GossipClosedForm(
      m: Table, self: u16, entries: seq<GossipEntry>, from: SocketAddr, now: nat, id: u16)
    ensures Lookup(OnGossip(m, self, entries, from, now), id)
      == if id == self then Lookup(m, id) else Merged(Lookup(m, id), entries, id, from, now)
    decreases |entries|
  {
    if entries != [] {
      var n := |entries| - 1;
      GossipClosedForm(m, self, entries[..n], from, now, id);
      MergeLast(Lookup(m, id), entries, id, from, now);
    }
  }

  lemma MergeLast(before: Option<NodeInfo>, entries: seq<GossipEntry>, id: u16, from: SocketAddr, now: nat)
    requires entries != []
    ensures var n := |entries| - 1;
      var front, last := Merged(before, entries[..n], id, from, now), entries[n];
      Merged(before, entries, id, from, now) ==
        if last.nodeId != id then front
        else
          var e := if front.Some? then front.value else NewPeer(id, from, last.state, last.incarnation, now);
          Some(if last.incarnation < e.incarnation then e
               else e.(state := last.state, incarnation := last.incarnation))
  {
  }

  /** Gossip can turn a known node Alive, but not for longer than to the next tick: if the node was last
      heard of too long ago, that tick demotes or drops it, whatever was gossiped. */
  lemma GossipCannotRefresh(
      m: Table, self: u16, entries: seq<GossipEntry>, from: SocketAddr, now: nat, tickAt: nat, th: Thresholds, id: u16)
    requires id in m && id != self
    requires Age(tickAt, m[id].lastSeen) > th.suspect || Age(tickAt, m[id].lastSeen) > th.dead
    ensures var t := Tick(OnGossip(m, self, entries, from, now), self, tickAt, th);
      id in t ==> !t[id].state.Alive?
  {
    var g := OnGossip(m, self, entries, from, now);
    GossipClosedForm(m, self, entries, from, now, id);
    assert Lookup(g, id).Some? && g[id].lastSeen == m[id].lastSeen;
    TickEntry(g, self, tickAt, th, id);
  }

  /** Tables that agree at every id are equal. */
  lemma SameLookups(a: Table, b: Table)
    requires forall id: u16 :: Lookup(a, id) == Lookup(b, id)
    ensures a == b
  {
    forall id ensures id in a <==> id in b {
      assert Lookup(a, id) == Lookup(b, id);
    }
    forall id | id in a ensures a[id] == b[id] {
      assert Lookup(a, id) == Lookup(b, id);
    }
  }

  /** Receiving the same gossip again changes nothing. */
  lemma GossipIdempotent(m: Table, self: u16, entries: seq<GossipEntry>, from: SocketAddr, now: nat, later: nat)
    ensures var once := OnGossip(m, self, entries, from, now);
      OnGossip(once, self, entries, from, later) == once
  {
    var once := OnGossip(m, self, entries, from, now);
    forall id: u16 ensures Lookup(OnGossip(once, self, entries, from, later), id) == Lookup(once, id) {
      GossipClosedForm(m, self, entries, from, now, id);
      GossipClosedForm(once, self, entries, from, later, id);
    }
    SameLookups(OnGossip(once, self, entries, from, later), once);
  }

  /** Entries for one id at one incarnation agree on the state. */
  ghost predicate Consistent(entries: seq<GossipEntry>) {
    forall g, h :: g in entries && h in entries && g.nodeId == h.nodeId && g.incarnation == h.incarnation
      ==> g.state == h.state
  }

  ghost predicate SameEntries(a: seq<GossipEntry>, b: seq<GossipEntry>) {
    forall g :: g in a <==> g in b
  }

  lemma SameMaximum(a: seq<GossipEntry>, b: seq<GossipEntry>, id: u16)
    requires SameEntries(a, b)
    ensures MaxIncarnation(a, id) == MaxIncarnation(b, id)
  {
    var x, y := MaxIncarnation(a, id), MaxIncarnation(b, id);
    if x >= 0 {
      var g :| g in a && g.nodeId == id && g.incarnation == x;
      assert g in b;
    }
    if y >= 0 {
      var g :| g in b && g.nodeId == id && g.incarnation == y;
      assert g in a;
    }
  }

  /** Reordering or repeating entries never changes which ids a merge knows or their incarnations. */
  lemma OrderKeepsIncarnations(
      m: Table, self: u16, a: seq<GossipEntry>, b: seq<GossipEntry>, from: SocketAddr, now: nat, id: u16)
    requires SameEntries(a, b)
    ensures var x, y := OnGossip(m, self, a, from, now), OnGossip(m, self, b, from, now);
      && (id in x <==> id in y)
      && (id in x ==> x[id].incarnation == y[id].incarnation && x[id] == y[id].(state := x[id].state))
  {
    GossipClosedForm(m, self, a, from, now, id);
    GossipClosedForm(m, self, b, from, now, id);
    SameMaximum(a, b, id);
    var x, y := OnGossip(m, self, a, from, now), OnGossip(m, self, b, from, now);
    assert id in x <==> Lookup(x, id).Some?;
    assert id in y <==> Lookup(y, id).Some?;
  }

  lemma PermutationSameEntries(a: seq<GossipEntry>, b: seq<GossipEntry>)
    requires multiset(a) == multiset(b)
    ensures SameEntries(a, b)
  {
    forall g ensures g in a <==> g in b {
      assert g in a <==> g in multiset(a);
      assert g in b <==> g in multiset(b);
    }
  }

  /** This incarnation of a peer is the list's greatest and reaches the old one. */
  predicate Decides(m: Table, self: u16, entries: seq<GossipEntry>, id: u16, incarnation: u32) {
    && id != self
    && incarnation == MaxIncarnation(entries, id)
    && (id in m ==> m[id].incarnation <= incarnation)
  }

  predicate BothDecide(m: Table, self: u16, entries: seq<GossipEntry>, g: GossipEntry, h: GossipEntry) {
    && g.nodeId == h.nodeId && g.incarnation == h.incarnation
    && Decides(m, self, entries, g.nodeId, g.incarnation)
  }

  /** The entries that decide a peer's state agree on it. */
  ghost predicate DecidersAgree(m: Table, self: u16, entries: seq<GossipEntry>) {
    forall g, h :: g in entries && h in entries && BothDecide(m, self, entries, g, h) ==> g.state == h.state
  }

  lemma LastStateShared(
      m: Table, self: u16, a: seq<GossipEntry>, b: seq<GossipEntry>, id: u16, from: SocketAddr, now: nat)
    requires SameEntries(a, b) && DecidersAgree(m, self, a)
    ensures Lookup(OnGossip(m, self, a, from, now), id) == Lookup(OnGossip(m, self, b, from, now), id)
  {
    GossipClosedForm(m, self, a, from, now, id);
    GossipClosedForm(m, self, b, from, now, id);
    SameMaximum(a, b, id);
    var top := MaxIncarnation(a, id);
    if id != self && top >= 0 && (id in m ==> m[id].incarnation <= top) {
      var s, t := LastState(a, id, top), LastState(b, id, top);
      var g :| g in a && g.nodeId == id && g.incarnation == top && g.state == s;
      var h :| h in b && h.nodeId == id && h.incarnation == top && h.state == t;
      assert h in a && BothDecide(m, self, a, g, h);
    }
  }

  lemma MoveToEnd(a: seq<GossipEntry>, g: GossipEntry) returns (b: seq<GossipEntry>)
    requires g in a
    ensures multiset(b) == multiset(a) && b != [] && b[|b| - 1] == g
  {
    var i :| 0 <= i < |a| && a[i] == g;
    assert a == a[..i] + [a[i]] + a[i + 1..];
    b := a[..i] + a[i + 1..] + [a[i]];
  }

  /** Put last, a deciding entry has its way. */
  lemma LastDecides(m: Table, self: u16, b: seq<GossipEntry>, from: SocketAddr, now: nat)
    requires b != [] && Decides(m, self, b, b[|b| - 1].nodeId, b[|b| - 1].incarnation)
    ensures var g := b[|b| - 1];
      Lookup(OnGossip(m, self, b, from, now), g.nodeId).Some?
      && Lookup(OnGossip(m, self, b, from, now), g.nodeId).value.state == g.state
  {
    GossipClosedForm(m, self, b, from, now, b[|b| - 1].nodeId);
  }

  /** A deciding entry has its way in some order of the list. */
  lemma SomeOrderDecides(m: Table, self: u16, a: seq<GossipEntry>, g: GossipEntry, from: SocketAddr, now: nat)
    returns (b: seq<GossipEntry>)
    requires g in a && Decides(m, self, a, g.nodeId, g.incarnation)
    ensures multiset(b) == multiset(a)
    ensures Lookup(OnGossip(m, self, b, from, now), g.nodeId).Some?
    ensures Lookup(OnGossip(m, self, b, from, now), g.nodeId).value.state == g.state
  {
    b := MoveToEnd(a, g);
    PermutationSameEntries(a, b);
    SameMaximum(a, b, g.nodeId);
    LastDecides(m, self, b, from, now);
  }

  /** The order of a list does not matter if and only if the entries that decide a peer's state, those at
      its greatest incarnation where that reaches the old one, agree on the state. */
  lemma OrderIrrelevantExactly(m: Table, self: u16, a: seq<GossipEntry>, from: SocketAddr, now: nat)
    ensures (forall b | multiset(b) == multiset(a) ::
               OnGossip(m, self, b, from, now) == OnGossip(m, self, a, from, now))
      <==> DecidersAgree(m, self, a)
  {
    if DecidersAgree(m, self, a) {
      forall b | multiset(b) == multiset(a)
        ensures OnGossip(m, self, b, from, now) == OnGossip(m, self, a, from, now)
      {
        PermutationSameEntries(a, b);
        forall id: u16
          ensures Lookup(OnGossip(m, self, b, from, now), id) == Lookup(OnGossip(m, self, a, from, now), id)
        {
          LastStateShared(m, self, a, b, id, from, now);
        }
        SameLookups(OnGossip(m, self, b, from, now), OnGossip(m, self, a, from, now));
      }
    } else {
      var g, h :| g in a && h in a && BothDecide(m, self, a, g, h) && g.state != h.state;
      var b := SomeOrderDecides(m, self, a, g, from, now);
      var c := SomeOrderDecides(m, self, a, h, from, now);
      assert OnGossip(m, self, b, from, now) != OnGossip(m, self, c, from, now);
    }
  }

  /** In particular it does not when all entries of equal id and incarnation agree. */
  lemma OrderIrrelevant(m: Table, self: u16, a: seq<GossipEntry>, b: seq<GossipEntry>, from: SocketAddr, now: nat)
    requires multiset(a) == multiset(b) && Consistent(a)
    ensures OnGossip(m, self, a, from, now) == OnGossip(m, self, b, from, now)
  {
    OrderIrrelevantExactly(m, self, a, from, now);
  }

  /** It does for any two entries that disagree about a peer at an incarnation not below the old one. */
  lemma OrderMatters(m: Table, self: u16, g: GossipEntry, h: GossipEntry, from: SocketAddr, now: nat)
    requires g.nodeId == h.nodeId != self && g.incarnation == h.incarnation && g.state != h.state
    requires g.nodeId in m ==> m[g.nodeId].incarnation <= g.incarnation
    ensures OnGossip(m, self, [g, h], from, now) != OnGossip(m, self, [h, g], from, now)
  {
    TopOfTwo(g, h);
    TopOfTwo(h, g);
    LastDecides(m, self, [g, h], from, now);
    LastDecides(m, self, [h, g], from, now);
  }

  lemma TopOfTwo(g: GossipEntry, h: GossipEntry)
    requires g.nodeId == h.nodeId && g.incarnation == h.incarnation
    ensures MaxIncarnation([g, h], h.nodeId) == h.incarnation
  {
    assert h in [g, h];
  }
}
