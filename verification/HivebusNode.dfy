/** One hivebus daemon as an object: the listener's and the detector's updates of the shared table, the
    gossip snapshot, and the control plane's queries. */
module HivebusNode {
  import opened Bytes
  import opened Membership
  import opened Detector
  import opened GossipMerge

  // ---------------------------------------------------------------------------
  // The library sorts: `sort_unstable` on ids, `sort_unstable_by_key` on entries with distinct ids
  // ---------------------------------------------------------------------------

  function InsertId(x: u16, s: seq<u16>): (r: seq<u16>)
    requires forall i, j :: 0 <= i < j < |s| ==> s[i] <= s[j]
    ensures forall i, j :: 0 <= i < j < |r| ==> r[i] <= r[j]
    ensures forall y :: y in r <==> y == x || y in s
  {
    if s == [] || x <= s[0] then [x] + s
    else
      assert s == [s[0]] + s[1..];
      var rest := InsertId(x, s[1..]);
      assert forall i :: 0 <= i < |rest| ==> rest[i] in rest && s[0] <= rest[i];
      [s[0]] + rest
  }

  function SortIds(s: seq<u16>): (r: seq<u16>)
    ensures forall i, j :: 0 <= i < j < |r| ==> r[i] <= r[j]
    ensures forall y :: y in r <==> y in s
  {
    if s == [] then []
    else
      assert s == [s[0]] + s[1..];
      InsertId(s[0], SortIds(s[1..]))
  }

  ghost predicate Ascending(s: seq<NodeInfo>) {
    forall i, j :: 0 <= i < j < |s| ==> s[i].nodeId < s[j].nodeId
  }

  ghost predicate DistinctIds(s: seq<NodeInfo>) {
    forall i, j :: 0 <= i < j < |s| ==> s[i].nodeId != s[j].nodeId
  }

  function InsertNode(x: NodeInfo, s: seq<NodeInfo>): (r: seq<NodeInfo>)
    requires Ascending(s) && forall n :: n in s ==> n.nodeId != x.nodeId
    ensures Ascending(r)
    ensures forall n :: n in r <==> n == x || n in s
  {
    if s == [] || x.nodeId < s[0].nodeId then [x] + s
    else
      assert s == [s[0]] + s[1..];
      var rest := InsertNode(x, s[1..]);
      assert forall n :: n in rest ==> s[0].nodeId < n.nodeId;
      [s[0]] + rest
  }

  function SortNodes(s: seq<NodeInfo>): (r: seq<NodeInfo>)
    requires DistinctIds(s)
    ensures Ascending(r)
    ensures forall n :: n in r <==> n in s
  {
    if s == [] then []
    else
      assert s == [s[0]] + s[1..];
      InsertNode(s[0], SortNodes(s[1..]))
  }

  // ---------------------------------------------------------------------------
  // Query answers
  // ---------------------------------------------------------------------------

  /** What a node knows of itself. */
  datatype Local = Local(id: u16, hostname: Text, addr: SocketAddr, incarnation: u32)

  function LocalInfo(local: Local, now: nat, isMaster: bool): NodeInfo {
    NodeInfo(local.id, local.hostname, local.addr, Alive, local.incarnation, now, isMaster)
  }

  /** What a node says of itself. */
  predicate IsSelf(n: NodeInfo, local: Local, now: nat) {
    && n.nodeId == local.id && n.hostname == local.hostname && n.controlAddr == local.addr
    && n.state.Alive? && n.incarnation == local.incarnation && n.lastSeen == now
  }

  function MasterReply(m: Table, local: Local, now: nat): Option<NodeInfo> {
    var id := MasterFrom(m, local.id);
    if id == local.id then Some(LocalInfo(local, now, true))
    else if id in m then Some(m[id])
    else None
  }

  function SelfEntry(m: Table, local: Local, now: nat): NodeInfo {
    LocalInfo(local, now, MasterFrom(m, local.id) == local.id)
  }

  /** `nodes` lists the table and the node itself, strictly ascending by id. */
  ghost predicate IsListing(nodes: seq<NodeInfo>, m: Table, local: Local, now: nat) {
    && Ascending(nodes)
    && forall n :: n in nodes <==> n == SelfEntry(m, local, now) || exists k :: k in m && m[k] == n
  }

  /** Some entry under one of these keys is Alive and has this id. */
  ghost predicate AliveAmong(m: Table, keys: set<u16>, id: u16) {
    exists k :: k in keys && k in m && m[k].state.Alive? && m[k].nodeId == id
  }

  lemma AliveAmongAll(m: Table, keys: set<u16>)
    requires keys == m.Keys
    ensures forall id :: AliveAmong(m, keys, id) <==> id in AliveIds(m)
  {
  }

  lemma LeastIs(s: set<u16>, r: u16)
    requires r in s && forall x :: x in s ==> r <= x
    ensures Least(s) == r
  {
  }

  function SnapshotEntry(n: NodeInfo, epochMs: nat): GossipEntry {
    GossipEntry(n.nodeId, n.incarnation, n.state, epochMs)
  }

  ghost predicate SnapshotAmong(m: Table, keys: set<u16>, epochMs: nat, g: GossipEntry) {
    exists k :: k in keys && k in m && g == SnapshotEntry(m[k], epochMs)
  }

  /** The entry tells of this node: its id, incarnation and state. */
  predicate TellsOf(g: GossipEntry, n: NodeInfo) {
    g.nodeId == n.nodeId && g.incarnation == n.incarnation && g.state == n.state
  }

  /** The entries tell of all the table's nodes and of no others. */
  ghost predicate IsSnapshot(m: Table, entries: seq<GossipEntry>) {
    && (forall g :: g in entries ==> exists k :: k in m && TellsOf(g, m[k]))
    && (forall k :: k in m ==> exists g :: g in entries && TellsOf(g, m[k]))
  }

  class Node {
    const local: Local
    const thresholds: Thresholds
    var members: Table

    constructor (local: Local, thresholds: Thresholds)
      ensures this.local == local && this.thresholds == thresholds && members == map[] && Valid()
    {
      this.local, this.thresholds, members := local, thresholds, map[];
    }

    ghost predicate Valid()
      reads this
    {
      TableInv(members, local.id)
    }

    method OnHeartbeat(nid: u16, incarnation: u32, from: SocketAddr, now: nat)
      requires Valid()
      modifies this`members
      ensures Valid() && members == Apply(old(members), local.id, thresholds, Heartbeat(nid, incarnation, from, now))
    {
      ApplyKeepsInv(members, local.id, thresholds, Heartbeat(nid, incarnation, from, now));
      if nid == local.id {
        return;
      }
      if nid !in members {
        members := members[nid := NewPeer(nid, from, Alive, incarnation, now)];
      }
      var entry := members[nid];
      entry := entry.(state := Alive);
      entry := entry.(incarnation := incarnation);
      entry := entry.(lastSeen := now);
      members := members[nid := entry];
      assert members == Membership.OnHeartbeat(old(members), nid, incarnation, from, now);
    }

    method OnAnnounce(nid: u16, hostname: Text, addr: SocketAddr, incarnation: u32, now: nat)
      requires Valid()
      modifies this`members
      ensures Valid()
      ensures members == Apply(old(members), local.id, thresholds, Announce(nid, hostname, addr, incarnation, now))
    {
      ApplyKeepsInv(members, local.id, thresholds, Announce(nid, hostname, addr, incarnation, now));
      if nid != local.id {
        members := members[nid := NodeInfo(nid, hostname, addr, Alive, incarnation, now, false)];
      }
    }

    method OnLeave(nid: u16)
      requires Valid()
      modifies this`members
      ensures Valid() && members == Apply(old(members), local.id, thresholds, Leave(nid))
    {
      ApplyKeepsInv(members, local.id, thresholds, Leave(nid));
      if nid != local.id && nid in members {
        members := members[nid := members[nid].(state := Dead)];
      }
    }

    method OnGossip(nid: u16, entries: seq<GossipEntry>, from: SocketAddr, now: nat)
      requires Valid()
      modifies this`members
      ensures Valid() && members == Apply(old(members), local.id, thresholds, Gossip(nid, entries, from, now))
    {
      ApplyKeepsInv(members, local.id, thresholds, Gossip(nid, entries, from, now));
      if nid == local.id {
        return;
      }
      for i := 0 to |entries|
        invariant members == Membership.OnGossip(old(members), local.id, entries[..i], from, now)
      {
        ghost var before := members;
        var g := entries[i];
        assert entries[..i + 1][..i] == entries[..i] && entries[..i + 1][i] == g;
        if g.nodeId == local.id {
          continue;
        }
        if g.nodeId !in members {
          members := members[g.nodeId := NewPeer(g.nodeId, from, g.state, g.incarnation, now)];
        }
        var e := members[g.nodeId];
        if g.incarnation >= e.incarnation {
          members := members[g.nodeId := e.(state := g.state, incarnation := g.incarnation)];
        }
        assert members == MergeEntry(before, local.id, g, from, now);
      }
      assert entries[..|entries|] == entries;
    }

    /** `master_from`: collect the Alive ids and the node's own, sort, take the first. */
    method ElectMaster() returns (r: u16)
      ensures r == MasterFrom(members, local.id)
    {
      var aliveIds: seq<u16> := [];
      var todo := members.Keys;
      while todo != {}
        invariant todo <= members.Keys
        invariant forall id :: id in aliveIds <==> AliveAmong(members, members.Keys - todo, id)
        decreases todo
      {
        var k :| k in todo;
        if members[k].state.Alive? {
          aliveIds := aliveIds + [members[k].nodeId];
        }
        todo := todo - {k};
      }
      AliveAmongAll(members, members.Keys - todo);
      aliveIds := aliveIds + [local.id];
      var sorted := SortIds(aliveIds);
      r := sorted[0];
      assert local.id in sorted && forall id :: id in sorted ==> r <= id;
      assert forall id :: id in AliveIds(members) + {local.id} <==> id in sorted;
      LeastIs(AliveIds(members) + {local.id}, r);
    }

    /** `m.retain(…)` */
    method RetainRecent(now: nat)
      modifies this`members
      ensures members == Retain(old(members), now)
    {
      var kept: Table := map[];
      var todo := members.Keys;
      while todo != {}
        invariant todo <= members.Keys && members == old(members)
        invariant kept == map k | k in members && k !in todo && Age(now, members[k].lastSeen) < CLEANUP :: members[k]
        decreases todo
      {
        var k :| k in todo;
        if Age(now, members[k].lastSeen) < CLEANUP {
          kept := kept[k := members[k]];
        }
        todo := todo - {k};
      }
      members := kept;
    }

    /** The first `values_mut` loop: age every entry. */
    method JudgeMembers(now: nat)
      modifies this`members
      ensures members == JudgeAll(old(members), now, thresholds)
    {
      var todo := members.Keys;
      while todo != {}
        invariant members.Keys == old(members).Keys && todo <= members.Keys
        invariant forall k :: k in members ==>
          members[k] == if k in todo then old(members)[k] else Judge(old(members)[k], now, thresholds)
        decreases todo
      {
        var k :| k in todo;
        var age := Age(now, members[k].lastSeen);
        if age > thresholds.dead {
          members := members[k := members[k].(state := Dead)];
        } else if age > thresholds.suspect && members[k].state == Alive {
          members := members[k := members[k].(state := Suspect)];
        }
        todo := todo - {k};
      }
    }

    /** The second `values_mut` loop: set every flag. */
    method FlagMembers(master: u16)
      modifies this`members
      ensures members == FlagMaster(old(members), master)
    {
      var todo := members.Keys;
      while todo != {}
        invariant members.Keys == old(members).Keys && todo <= members.Keys
        invariant forall k :: k in members ==>
          members[k] == if k in todo then old(members)[k]
                        else old(members)[k].(isMaster := old(members)[k].nodeId == master)
        decreases todo
      {
        var k :| k in todo;
        members := members[k := members[k].(isMaster := members[k].nodeId == master)];
        todo := todo - {k};
      }
    }

    /** One pass of the failure detector. */
    method DetectorTick(now: nat)
      requires Valid()
      modifies this`members
      ensures Valid() && members == Apply(old(members), local.id, thresholds, Event.DetectorTick(now))
    {
      TickKeepsInv(members, local.id, now, thresholds);
      RetainRecent(now);
      JudgeMembers(now);
      assert members == JudgeAll(Retain(old(members), now), now, thresholds);
      var master := ElectMaster();
      FlagMembers(master);
      assert members == Tick(old(members), local.id, now, thresholds);
    }

    /** The snapshot that `gossip_task` sends, in whatever order the table yields it. */
    method GossipEntries(epochMs: nat) returns (entries: seq<GossipEntry>)
      ensures IsSnapshot(members, entries)
      ensures forall g :: g in entries <==> SnapshotAmong(members, members.Keys, epochMs, g)
    {
      entries := [];
      var todo := members.Keys;
      while todo != {}
        invariant todo <= members.Keys
        invariant forall g :: g in entries <==> SnapshotAmong(members, members.Keys - todo, epochMs, g)
        decreases todo
      {
        var k :| k in todo;
        entries := entries + [SnapshotEntry(members[k], epochMs)];
        todo := todo - {k};
      }
      assert members.Keys - todo == members.Keys;
      forall k | k in members
        ensures exists g :: g in entries && TellsOf(g, members[k])
      {
        assert SnapshotAmong(members, members.Keys, epochMs, SnapshotEntry(members[k], epochMs));
      }
    }

    method GetMaster(now: nat) returns (r: Option<NodeInfo>)
      ensures r == MasterReply(members, local, now)
      ensures MasterFrom(members, local.id) == local.id ==> r.Some? && IsSelf(r.value, local, now) && r.value.isMaster
    {
      var id := ElectMaster();
      if id == local.id {
        r := Some(LocalInfo(local, now, true));
      } else if id in members {
        r := Some(members[id]);
      } else {
        r := None;
      }
    }

    method GetNodes(now: nat) returns (nodes: seq<NodeInfo>)
      requires Valid()
      ensures IsListing(nodes, members, local, now)
    {
      var master := ElectMaster();
      nodes := [];
      var todo := members.Keys;
      while todo != {}
        invariant todo <= members.Keys
        invariant DistinctIds(nodes)
        invariant forall n :: n in nodes <==> exists k :: k in members && k !in todo && members[k] == n
        decreases todo
      {
        var k :| k in todo;
        assert forall n :: n in nodes ==> n.nodeId != k;
        nodes := nodes + [members[k]];
        todo := todo - {k};
      }
      assert forall n :: n in nodes ==> n.nodeId != local.id;
      nodes := nodes + [LocalInfo(local, now, master == local.id)];
      nodes := SortNodes(nodes);
    }
  }

  // ---------------------------------------------------------------------------
  // What the answers mean
  // ---------------------------------------------------------------------------

  /** In every reachable state `GetMaster` has an answer: the lowest of the node's own id and the ids
      that it holds Alive. */
  lemma MasterAlwaysKnown(local: Local, th: Thresholds, events: seq<Event>, now: nat)
    ensures var m := Run(map[], local.id, th, events);
      var reply := MasterReply(m, local, now);
      && reply.Some? && reply.value.state.Alive?
      && reply.value.nodeId <= local.id
      && (forall k :: k in m && m[k].state.Alive? ==> reply.value.nodeId <= k)
      && (if reply.value.nodeId == local.id then IsSelf(reply.value, local, now) && reply.value.isMaster
          else reply.value.nodeId in m && m[reply.value.nodeId] == reply.value)
  {
    var m := Run(map[], local.id, th, events);
    ReachableInv(local.id, th, events);
    AliveKeys(m, local.id);
  }

  /** Right after a tick the master is the node itself or was last heard of within both thresholds. */
  lemma MasterRecentAfterTick(m: Table, local: Local, tickAt: nat, th: Thresholds, now: nat)
    requires KeysOk(m, local.id)
    ensures var reply := MasterReply(Tick(m, local.id, tickAt, th), local, now);
      && reply.Some?
      && (reply.value.nodeId == local.id
          || (reply.value.lastSeen <= tickAt
              && tickAt - reply.value.lastSeen <= th.suspect && tickAt - reply.value.lastSeen <= th.dead))
  {
    var t := Tick(m, local.id, tickAt, th);
    TickKeepsInv(m, local.id, tickAt, th);
    AliveKeys(t, local.id);
    var id := MasterFrom(t, local.id);
    if id != local.id {
      AliveAfterTickIsRecent(m, local.id, tickAt, th, id);
      TickEntry(m, local.id, tickAt, th, id);
    }
  }

  /** The flags in the table agree with an election held now. */
  ghost predicate FlagsCurrent(m: Table, self: u16) {
    forall k :: k in m ==> (m[k].isMaster <==> k == MasterFrom(m, self))
  }

  /** A listing holds the node itself exactly once, with its own name, address and incarnation, and flagged
      if and only if it elects itself. */
  lemma ListsSelfOnce(nodes: seq<NodeInfo>, m: Table, local: Local, now: nat)
    requires IsListing(nodes, m, local, now)
    ensures exists i :: 0 <= i < |nodes| && nodes[i].nodeId == local.id && IsSelf(nodes[i], local, now)
              && (nodes[i].isMaster <==> MasterFrom(m, local.id) == local.id)
              && forall j :: 0 <= j < |nodes| && nodes[j].nodeId == local.id ==> j == i
  {
    assert SelfEntry(m, local, now) in nodes;
  }

  /** Gossip carries over what it is sent for: a node that knows nobody and merges a whole snapshot ends with
      the sender's ids, incarnations and states, its own id aside. */
  lemma SnapshotExchange(
      m: Table, owner: u16, entries: seq<GossipEntry>, self: u16, from: SocketAddr, now: nat)
    requires KeysOk(m, owner) && IsSnapshot(m, entries)
    ensures var t := Membership.OnGossip(map[], self, entries, from, now);
      && (forall k :: k in t <==> k in m && k != self)
      && (forall k :: k in t ==> t[k].nodeId == k && t[k].incarnation == m[k].incarnation && t[k].state == m[k].state)
  {
    var t := Membership.OnGossip(map[], self, entries, from, now);
    forall k: u16
      ensures k in t <==> k in m && k != self
      ensures k in t ==> t[k].nodeId == k && t[k].incarnation == m[k].incarnation && t[k].state == m[k].state
    {
      SnapshotOf(m, owner, entries, self, from, now, k);
    }
  }

  lemma SnapshotOf(
      m: Table, owner: u16, entries: seq<GossipEntry>, self: u16, from: SocketAddr, now: nat, k: u16)
    requires KeysOk(m, owner) && IsSnapshot(m, entries)
    ensures var found := Lookup(Membership.OnGossip(map[], self, entries, from, now), k);
      && (found.Some? <==> k in m && k != self)
      && (found.Some? ==>
            found.value.nodeId == k && found.value.incarnation == m[k].incarnation && found.value.state == m[k].state)
  {
    GossipClosedForm(map[], self, entries, from, now, k);
    var top := MaxIncarnation(entries, k);
    assert forall g :: g in entries && g.nodeId == k ==> k in m && TellsOf(g, m[k]);
    if k in m {
      var g :| g in entries && TellsOf(g, m[k]);
    }
  }

  /** A listing flags exactly the elected master if and only if the table's flags are current. */
  lemma ListingFlags(nodes: seq<NodeInfo>, m: Table, local: Local, now: nat)
    requires KeysOk(m, local.id) && IsListing(nodes, m, local, now)
    ensures (forall n :: n in nodes ==> (n.isMaster <==> n.nodeId == MasterFrom(m, local.id)))
      <==> FlagsCurrent(m, local.id)
  {
    if forall n :: n in nodes ==> (n.isMaster <==> n.nodeId == MasterFrom(m, local.id)) {
      forall k | k in m ensures m[k].isMaster <==> k == MasterFrom(m, local.id) {
        assert m[k] in nodes;
      }
    }
  }

  /** After a tick, and until the next message, a listing flags one entry: the elected master. */
  lemma ListingAfterTick(nodes: seq<NodeInfo>, m: Table, local: Local, tickAt: nat, th: Thresholds, now: nat)
    requires KeysOk(m, local.id)
    requires IsListing(nodes, Tick(m, local.id, tickAt, th), local, now)
    ensures var master := MasterFrom(Tick(m, local.id, tickAt, th), local.id);
      exists i :: 0 <= i < |nodes| && nodes[i].isMaster && nodes[i].nodeId == master
        && forall j :: 0 <= j < |nodes| && nodes[j].isMaster ==> j == i
  {
    var t := Tick(m, local.id, tickAt, th);
    TickKeepsInv(m, local.id, tickAt, th);
    TickFlagsMaster(m, local.id, tickAt, th);
    ListingFlags(nodes, t, local, now);
    AliveKeys(t, local.id);
    var master := MasterFrom(t, local.id);
    var chosen := if master == local.id then SelfEntry(t, local, now) else t[master];
    assert chosen in nodes;
  }

  // ---------------------------------------------------------------------------
  // Flags between ticks
  // ---------------------------------------------------------------------------

  /** The table flags this entry and no other. */
  ghost predicate FlagsOnly(m: Table, flagged: Option<u16>) {
    && (flagged.Some? ==> flagged.value in m)
    && forall k :: k in m ==> (m[k].isMaster <==> flagged == Some(k))
  }

  ghost predicate MessagesOnly(events: seq<Event>) {
    forall e :: e in events ==> !e.DetectorTick?
  }

  ghost predicate Announced(events: seq<Event>, id: u16) {
    exists e :: e in events && e.Announce? && e.nid == id
  }

  /** Of all messages, only the flagged peer's announcement takes the flag down. */
  ghost function FlaggedAfter(flagged: Option<u16>, events: seq<Event>): Option<u16> {
    if flagged.Some? && Announced(events, flagged.value) then None else flagged
  }

  lemma {:induction false} GossipKeepsFlags(
      m: Table, self: u16, entries: seq<GossipEntry>, from: SocketAddr, now: nat, flagged: Option<u16>)
    requires KeysOk(m, self) && FlagsOnly(m, flagged)
    ensures var t := Membership.OnGossip(m, self, entries, from, now); KeysOk(t, self) && FlagsOnly(t, flagged)
    decreases |entries|
  {
    if entries != [] {
      GossipKeepsFlags(m, self, entries[..|entries| - 1], from, now, flagged);
    }
  }

  lemma MessageKeepsFlags(m: Table, self: u16, th: Thresholds, e: Event, flagged: Option<u16>)
    requires KeysOk(m, self) && FlagsOnly(m, flagged) && !e.DetectorTick?
    ensures KeysOk(Apply(m, self, th, e), self)
    ensures FlagsOnly(Apply(m, self, th, e), if e.Announce? && flagged == Some(e.nid) then None else flagged)
  {
    if e.Gossip? {
      GossipKeepsFlags(m, self, e.entries, e.from, e.now, flagged);
    }
  }

  lemma {:induction false} MessagesKeepFlags(
      m: Table, self: u16, th: Thresholds, msgs: seq<Event>, flagged: Option<u16>)
    requires KeysOk(m, self) && FlagsOnly(m, flagged) && MessagesOnly(msgs)
    ensures KeysOk(Run(m, self, th, msgs), self)
    ensures FlagsOnly(Run(m, self, th, msgs), FlaggedAfter(flagged, msgs))
    decreases |msgs|
  {
    if msgs != [] {
      var front, last := msgs[..|msgs| - 1], msgs[|msgs| - 1];
      assert msgs == front + [last];
      MessagesKeepFlags(m, self, th, front, flagged);
      MessageKeepsFlags(Run(m, self, th, front), self, th, last, FlaggedAfter(flagged, front));
    }
  }

  lemma FlagsCurrentIff(m: Table, self: u16, flagged: Option<u16>)
    requires KeysOk(m, self) && FlagsOnly(m, flagged)
    ensures FlagsCurrent(m, self)
      <==> flagged == if MasterFrom(m, self) == self then None else Some(MasterFrom(m, self))
  {
    AliveKeys(m, self);
    var master := MasterFrom(m, self);
    assert master != self ==> master in m;
  }

  /** After a tick and any messages: the flags are current if and only if the elected master is still the
      tick's and has not announced itself, or is now the node itself and the tick's was, too, or has
      announced itself. */
  lemma FlagsCurrentExactly(m: Table, self: u16, tickAt: nat, th: Thresholds, msgs: seq<Event>)
    requires KeysOk(m, self) && MessagesOnly(msgs)
    ensures var t := Tick(m, self, tickAt, th);
      var master, after := MasterFrom(t, self), Run(t, self, th, msgs);
      var next := MasterFrom(after, self);
      && KeysOk(after, self)
      && (FlagsCurrent(after, self)
          <==> if next == self then master == self || Announced(msgs, master)
               else next == master && !Announced(msgs, master))
  {
    var t := Tick(m, self, tickAt, th);
    var flagged := if MasterFrom(t, self) == self then None else Some(MasterFrom(t, self));
    TickKeepsInv(m, self, tickAt, th);
    TickFlagsMaster(m, self, tickAt, th);
    AliveKeys(t, self);
    MessagesKeepFlags(t, self, th, msgs, flagged);
    FlagsCurrentIff(Run(t, self, th, msgs), self, FlaggedAfter(flagged, msgs));
  }

  /** Before the first tick: if and only if the node elects itself. */
  lemma FlagsBeforeFirstTick(self: u16, th: Thresholds, msgs: seq<Event>)
    requires MessagesOnly(msgs)
    ensures var m := Run(map[], self, th, msgs); FlagsCurrent(m, self) <==> MasterFrom(m, self) == self
  {
    MessagesKeepFlags(map[], self, th, msgs, None);
    FlagsCurrentIff(Run(map[], self, th, msgs), self, None);
  }

  /** So this is when a listing flags exactly the elected master. */
  lemma ListingFlagsExactly(
      nodes: seq<NodeInfo>, m: Table, local: Local, tickAt: nat, th: Thresholds, msgs: seq<Event>, now: nat)
    requires KeysOk(m, local.id) && MessagesOnly(msgs)
    requires IsListing(nodes, Run(Tick(m, local.id, tickAt, th), local.id, th, msgs), local, now)
    ensures var t := Tick(m, local.id, tickAt, th);
      var master, next := MasterFrom(t, local.id), MasterFrom(Run(t, local.id, th, msgs), local.id);
      (forall n :: n in nodes ==> (n.isMaster <==> n.nodeId == next))
      <==> if next == local.id then master == local.id || Announced(msgs, master)
           else next == master && !Announced(msgs, master)
  {
    var t := Tick(m, local.id, tickAt, th);
    FlagsCurrentExactly(m, local.id, tickAt, th, msgs);
    ListingFlags(nodes, Run(t, local.id, th, msgs), local, now);
  }

  /** When the flagged peer leaves and no other is Alive, a listing shows two masters. */
  lemma LeaveShowsTwoMasters(nodes: seq<NodeInfo>, m: Table, local: Local, peer: u16, now: nat)
    requires KeysOk(m, local.id) && peer in m && m[peer].isMaster
    requires forall k :: k in m && m[k].state.Alive? ==> k == peer
    requires IsListing(nodes, OnLeave(m, peer), local, now)
    ensures exists i, j :: 0 <= i < |nodes| && 0 <= j < |nodes|
              && nodes[i].nodeId == peer && nodes[i].isMaster && nodes[j].nodeId == local.id && nodes[j].isMaster
  {
    var left := OnLeave(m, peer);
    assert AliveIds(left) == {};
    assert left[peer] in nodes && SelfEntry(left, local, now) in nodes;
    var i :| 0 <= i < |nodes| && nodes[i] == left[peer];
    var j :| 0 <= j < |nodes| && nodes[j] == SelfEntry(left, local, now);
    assert nodes[i].nodeId == peer && nodes[i].isMaster && nodes[j].nodeId == local.id && nodes[j].isMaster;
  }

  /** When the flagged peer announces itself and stays the lowest Alive id, a listing shows no master. */
  lemma AnnounceShowsNoMaster(
      nodes: seq<NodeInfo>, m: Table, local: Local, peer: u16,
      hostname: Text, addr: SocketAddr, incarnation: u32, at: nat, now: nat)
    requires KeysOk(m, local.id) && FlagsOnly(m, Some(peer)) && peer < local.id
    requires forall k :: k in m && m[k].state.Alive? ==> peer <= k
    requires IsListing(nodes, OnAnnounce(m, peer, hostname, addr, incarnation, at), local, now)
    ensures forall n :: n in nodes ==> !n.isMaster
  {
    var after := OnAnnounce(m, peer, hostname, addr, incarnation, at);
    AliveKeys(after, local.id);
    assert peer in AliveIds(after);
  }

  lemma LonePeerTicked(self: u16, peer: u16, th: Thresholds, from: SocketAddr)
    requires peer < self
    ensures var t := Tick(OnHeartbeat(map[], peer, 1, from, 0), self, 0, th);
      KeysOk(t, self) && peer in t && t[peer].state.Alive? && forall k :: k in t ==> k == peer
  {
    var m := OnHeartbeat(map[], peer, 1, from, 0);
    TickEntry(m, self, 0, th, peer);
    TickKeepsInv(m, self, 0, th);
  }

  lemma LonePeerElected(self: u16, peer: u16, th: Thresholds, from: SocketAddr)
    requires peer < self
    ensures var t := Tick(OnHeartbeat(map[], peer, 1, from, 0), self, 0, th);
      KeysOk(t, self) && FlagsOnly(t, Some(peer)) && forall k :: k in t ==> k == peer
  {
    var t := Tick(OnHeartbeat(map[], peer, 1, from, 0), self, 0, th);
    LonePeerTicked(self, peer, th, from);
    TickFlagsMaster(OnHeartbeat(map[], peer, 1, from, 0), self, 0, th);
    AliveKeys(t, self);
    assert peer in AliveIds(t);
  }

  lemma LoneListing(m: Table, local: Local, peer: u16, now: nat) returns (nodes: seq<NodeInfo>)
    requires KeysOk(m, local.id) && peer in m && peer < local.id && forall k :: k in m ==> k == peer
    ensures nodes == [m[peer], SelfEntry(m, local, now)] && IsListing(nodes, m, local, now)
  {
    nodes := [m[peer], SelfEntry(m, local, now)];
    assert nodes[0] == m[peer] && nodes[1] == SelfEntry(m, local, now);
  }

  /** A run that gets there: a peer is heard, elected by a tick, and leaves.  The listing is then the peer
      and the node itself, both flagged. */
  lemma TwoMastersListed(local: Local, peer: u16, th: Thresholds, from: SocketAddr) returns (nodes: seq<NodeInfo>)
    requires peer < local.id
    ensures var m := Run(map[], local.id, th, [Heartbeat(peer, 1, from, 0), Event.DetectorTick(0), Leave(peer)]);
      IsListing(nodes, m, local, 0)
    ensures |nodes| == 2 && nodes[0].nodeId == peer && nodes[0].isMaster
    ensures nodes[1].nodeId == local.id && nodes[1].isMaster
  {
    LonePeerElected(local.id, peer, th, from);
    RunThree(local.id, th, Heartbeat(peer, 1, from, 0), Event.DetectorTick(0), Leave(peer));
    var left := OnLeave(Tick(OnHeartbeat(map[], peer, 1, from, 0), local.id, 0, th), peer);
    assert AliveIds(left) == {};
    nodes := LoneListing(left, local, peer, 0);
  }

  /** ... or announces itself instead.  Then neither is flagged. */
  lemma NoMasterListed(local: Local, peer: u16, th: Thresholds, from: SocketAddr, hostname: Text)
    returns (nodes: seq<NodeInfo>)
    requires peer < local.id
    ensures var m := Run(map[], local.id, th,
                         [Heartbeat(peer, 1, from, 0), Event.DetectorTick(0), Announce(peer, hostname, from, 1, 0)]);
      IsListing(nodes, m, local, 0)
    ensures |nodes| == 2 && !nodes[0].isMaster && !nodes[1].isMaster
  {
    LonePeerElected(local.id, peer, th, from);
    RunThree(local.id, th, Heartbeat(peer, 1, from, 0), Event.DetectorTick(0), Announce(peer, hostname, from, 1, 0));
    var t := Tick(OnHeartbeat(map[], peer, 1, from, 0), local.id, 0, th);
    nodes := LoneListing(OnAnnounce(t, peer, hostname, from, 1, 0), local, peer, 0);
    AnnounceShowsNoMaster(nodes, t, local, peer, hostname, from, 1, 0, 0);
    assert nodes[0] in nodes && nodes[1] in nodes;
  }

  lemma RunThree(self: u16, th: Thresholds, a: Event, b: Event, c: Event)
    ensures Run(map[], self, th, [a, b, c]) == Apply(Apply(Apply(map[], self, th, a), self, th, b), self, th, c)
  {
    assert [a, b, c][..2] == [a, b] && [a, b][..1] == [a] && [a][..0] == [];
    assert Run(map[], self, th, [a]) == Apply(map[], self, th, a);
    assert Run(map[], self, th, [a, b]) == Apply(Run(map[], self, th, [a]), self, th, b);
  }

  /** The listing does not depend on the table's iteration order: there is only one. */
  lemma {:induction false} ListingUnique(a: seq<NodeInfo>, b: seq<NodeInfo>)
    requires Ascending(a) && Ascending(b)
    requires forall n :: n in a <==> n in b
    ensures a == b
  {
    assert a != [] ==> a[0] in b;
    assert b != [] ==> b[0] in a;
    if a != [] {
      assert a[0] == b[0];
      var a', b' := a[1..], b[1..];
      assert a == [a[0]] + a' && b == [b[0]] + b';
      forall n ensures n in a' <==> n in b' {
        if n in a' { assert n in b && n != b[0]; }
        if n in b' { assert n in a && n != a[0]; }
      }
      ListingUnique(a', b');
    }
  }
}
