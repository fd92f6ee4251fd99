/** N hivebus nodes and the messages between them: when the live nodes agree on the master.

    Every node runs the same code.  Nodes start and crash; frames are broadcast, and each may be lost,
    delayed, reordered, or received any number of times.  A node's clock is its own: the time of each
    tick and of each receive comes with the step. */
module Cluster {
  import opened Bytes
  import opened Membership
  import opened Detector
  import HivebusNode

  /** A frame in flight; a receiver adds the address that it came from, and its own time. */
  datatype Frame =
    | HeartbeatFrame(nid: u16, incarnation: u32)
    | AnnounceFrame(nid: u16, hostname: Text, addr: SocketAddr, incarnation: u32)
    | LeaveFrame(nid: u16)
    | GossipFrame(nid: u16, entries: seq<GossipEntry>)

  function Received(f: Frame, from: SocketAddr, now: nat): Event {
    match f
    case HeartbeatFrame(nid, inc) => Heartbeat(nid, inc, from, now)
    case AnnounceFrame(nid, host, addr, inc) => Announce(nid, host, addr, inc, now)
    case LeaveFrame(nid) => Leave(nid)
    case GossipFrame(nid, entries) => Gossip(nid, entries, from, now)
  }

  /** A running node.  `settled` is the time of its last tick if it has received nothing since. */
  datatype Peer = Peer(members: Table, th: Thresholds, settled: Option<nat>)

  datatype Net = Net(nodes: map<u16, Peer>, flight: set<Frame>)

  datatype Action =
    | Start(id: u16, th: Thresholds)
    | Crash(id: u16)
    | SendHeartbeat(id: u16, incarnation: u32)
    | SendAnnounce(id: u16, hostname: Text, addr: SocketAddr, incarnation: u32)
    | SendLeave(id: u16)
    | SendGossip(id: u16, entries: seq<GossipEntry>, epochMs: nat)
    | Receive(id: u16, frame: Frame, from: SocketAddr, now: nat)
    | Tick(id: u16, now: nat)
    | Lose(frame: Frame)

  /** Entries that a node may gossip: a snapshot of its table, or as much of it as fits a frame. */
  ghost predicate IsSnapshot(m: Table, entries: seq<GossipEntry>, epochMs: nat) {
    forall g :: g in entries ==> HivebusNode.SnapshotAmong(m, m.Keys, epochMs, g)
  }

  /** A step that is not enabled changes nothing. */
  ghost function Step(c: Net, a: Action): Net {
    match a
    case Start(id, th) => if id in c.nodes then c else c.(nodes := c.nodes[id := Peer(map[], th, None)])
    case Crash(id) => c.(nodes := c.nodes - {id})
    case SendHeartbeat(id, inc) =>
      if id in c.nodes then c.(flight := c.flight + {HeartbeatFrame(id, inc)}) else c
    case SendAnnounce(id, host, addr, inc) =>
      if id in c.nodes then c.(flight := c.flight + {AnnounceFrame(id, host, addr, inc)}) else c
    case SendLeave(id) =>
      if id in c.nodes then c.(flight := c.flight + {LeaveFrame(id)}) else c
    case SendGossip(id, entries, epochMs) =>
      if id in c.nodes && IsSnapshot(c.nodes[id].members, entries, epochMs)
      then c.(flight := c.flight + {GossipFrame(id, entries)}) else c
    case Receive(id, frame, from, now) =>
      if id in c.nodes && frame in c.flight then
        var p := c.nodes[id];
        var heard := Apply(p.members, id, p.th, Received(frame, from, now));
        c.(nodes := c.nodes[id := p.(members := heard, settled := None)])
      else c
    case Tick(id, now) =>
      if id in c.nodes then
        var p := c.nodes[id];
        var ticked := Membership.Tick(p.members, id, now, p.th);
        c.(nodes := c.nodes[id := p.(members := ticked, settled := Some(now))])
      else c
    case Lose(frame) => c.(flight := c.flight - {frame})
  }

  ghost function Exec(c: Net, actions: seq<Action>): Net
    decreases |actions|
  {
    if actions == [] then c else Exec(Step(c, actions[0]), actions[1..])
  }

  const INIT: Net := Net(map[], {})

  // ---------------------------------------------------------------------------
  // The hypothesis on a run
  // ---------------------------------------------------------------------------

  /** No node of `live` leaves, and whenever some node ticks, each live peer in its view was last heard
      of within its thresholds. */
  ghost predicate Timely(c: Net, actions: seq<Action>, live: set<u16>)
    decreases |actions|
  {
    actions == [] || (TimelyStep(c, actions[0], live) && Timely(Step(c, actions[0]), actions[1..], live))
  }

  ghost predicate TimelyStep(c: Net, a: Action, live: set<u16>) {
    match a
    case SendLeave(id) => id !in live
    case Tick(id, now) => id in c.nodes ==> AllHeard(c.nodes[id], live, now)
    case _ => true
  }

  ghost predicate AllHeard(p: Peer, live: set<u16>, now: nat) {
    forall k :: k in p.members && k in live ==> Within(p.th, Age(now, p.members[k].lastSeen))
  }

  predicate Within(th: Thresholds, age: nat) {
    age <= th.suspect && age <= th.dead
  }

  // ---------------------------------------------------------------------------
  // The invariant
  // ---------------------------------------------------------------------------

  /** Live nodes are Alive in this view. */
  ghost predicate ViewOk(m: Table, live: set<u16>) {
    forall k :: k in m && k in live ==> m[k].state.Alive?
  }

  /** This frame says nothing but Alive of live nodes. */
  ghost predicate FrameOk(f: Frame, live: set<u16>) {
    match f
    case LeaveFrame(nid) => nid !in live
    case GossipFrame(_, entries) => EntriesOk(entries, live)
    case _ => true
  }

  ghost predicate EntriesOk(entries: seq<GossipEntry>, live: set<u16>) {
    forall g :: g in entries && g.nodeId in live ==> g.state.Alive?
  }

  /** In a settled view, whoever is Alive was recent at the tick. */
  ghost predicate SettledOk(p: Peer) {
    p.settled.Some? ==>
      forall k :: k in p.members && p.members[k].state.Alive? ==>
        Within(p.th, Age(p.settled.value, p.members[k].lastSeen))
  }

  ghost predicate PeerOk(p: Peer, id: u16, live: set<u16>) {
    KeysOk(p.members, id) && ViewOk(p.members, live) && SettledOk(p)
  }

  ghost predicate Inv(c: Net, live: set<u16>) {
    && (forall id :: id in c.nodes ==> PeerOk(c.nodes[id], id, live))
    && (forall f :: f in c.flight ==> FrameOk(f, live))
  }

  lemma {:induction false} GossipKeepsView(
      m: Table, self: u16, entries: seq<GossipEntry>, from: SocketAddr, now: nat, live: set<u16>)
    requires KeysOk(m, self) && ViewOk(m, live) && EntriesOk(entries, live)
    ensures var t := OnGossip(m, self, entries, from, now); KeysOk(t, self) && ViewOk(t, live)
    decreases |entries|
  {
    if entries != [] {
      var n := |entries| - 1;
      assert forall g :: g in entries[..n] ==> g in entries;
      GossipKeepsView(m, self, entries[..n], from, now, live);
      assert entries[n] in entries;
    }
  }

  lemma ReceiveKeepsView(m: Table, self: u16, th: Thresholds, f: Frame, from: SocketAddr, now: nat, live: set<u16>)
    requires KeysOk(m, self) && ViewOk(m, live) && FrameOk(f, live)
    ensures var t := Apply(m, self, th, Received(f, from, now)); KeysOk(t, self) && ViewOk(t, live)
  {
    match f
    case GossipFrame(nid, entries) => GossipKeepsView(m, self, entries, from, now, live);
    case _ =>
  }

  lemma TickKeepsPeer(p: Peer, id: u16, now: nat, live: set<u16>)
    requires PeerOk(p, id, live) && AllHeard(p, live, now)
    ensures PeerOk(p.(members := Membership.Tick(p.members, id, now, p.th), settled := Some(now)), id, live)
  {
    var t := Membership.Tick(p.members, id, now, p.th);
    TickKeepsInv(p.members, id, now, p.th);
    forall k | k in t
      ensures k in live ==> t[k].state.Alive?
      ensures t[k].state.Alive? ==> Within(p.th, Age(now, t[k].lastSeen))
    {
      TickEntry(p.members, id, now, p.th, k);
    }
  }

  lemma SnapshotOk(m: Table, id: u16, entries: seq<GossipEntry>, epochMs: nat, live: set<u16>)
    requires KeysOk(m, id) && ViewOk(m, live) && IsSnapshot(m, entries, epochMs)
    ensures EntriesOk(entries, live)
  {
  }

  lemma StepKeepsInv(c: Net, a: Action, live: set<u16>)
    requires Inv(c, live) && TimelyStep(c, a, live)
    ensures Inv(Step(c, a), live)
  {
    match a
    case Receive(id, frame, from, now) =>
      if id in c.nodes && frame in c.flight {
        assert PeerOk(c.nodes[id], id, live);
        ReceiveKeepsView(c.nodes[id].members, id, c.nodes[id].th, frame, from, now, live);
      }
    case Tick(id, now) =>
      if id in c.nodes { TickKeepsPeer(c.nodes[id], id, now, live); }
    case SendGossip(id, entries, epochMs) =>
      if id in c.nodes && IsSnapshot(c.nodes[id].members, entries, epochMs) {
        assert PeerOk(c.nodes[id], id, live);
        SnapshotOk(c.nodes[id].members, id, entries, epochMs, live);
      }
    case _ =>
  }

  lemma {:induction false} RunKeepsInv(c: Net, actions: seq<Action>, live: set<u16>)
    requires Inv(c, live) && Timely(c, actions, live)
    ensures Inv(Exec(c, actions), live)
    decreases |actions|
  {
    if actions != [] {
      StepKeepsInv(c, actions[0], live);
      RunKeepsInv(Step(c, actions[0]), actions[1..], live);
    }
  }

  /** On every timely run, every view entry and every gossiped entry in flight that is about a live node
      says Alive. */
  lemma LiveStayAlive(actions: seq<Action>, live: set<u16>)
    requires Timely(INIT, actions, live)
    ensures var c := Exec(INIT, actions);
      && (forall id, k :: id in c.nodes && k in live && k in c.nodes[id].members ==>
            c.nodes[id].members[k].state.Alive?)
      && (forall f, g :: f in c.flight && f.GossipFrame? && g in f.entries && g.nodeId in live ==> g.state.Alive?)
  {
    RunKeepsInv(INIT, actions, live);
    var c := Exec(INIT, actions);
    forall id, k | id in c.nodes && k in live && k in c.nodes[id].members ensures c.nodes[id].members[k].state.Alive? {
      assert PeerOk(c.nodes[id], id, live);
    }
    forall f, g | f in c.flight && f.GossipFrame? && g in f.entries && g.nodeId in live ensures g.state.Alive? {
      assert FrameOk(f, live);
    }
  }

  // ---------------------------------------------------------------------------
  // Agreement
  // ---------------------------------------------------------------------------

  /** A live node's view is up to date: it knows all the other live nodes, it has ticked since it last
      received anything, and every other id that it still lists had by then aged past suspicion. */
  ghost predicate UpToDate(p: Peer, id: u16, live: set<u16>) {
    && (forall k :: k in live && k != id ==> k in p.members)
    && p.settled.Some?
    && (forall k :: k in p.members && k !in live ==> Age(p.settled.value, p.members[k].lastSeen) > p.th.suspect)
  }

  /** An up-to-date node elects the lowest live id exactly when that is its own or it holds it Alive. */
  lemma ElectsLeastExactly(p: Peer, id: u16, live: set<u16>)
    requires KeysOk(p.members, id) && SettledOk(p) && id in live && UpToDate(p, id, live)
    ensures MasterFrom(p.members, id) == Least(live)
      <==> Least(live) == id || p.members[Least(live)].state.Alive?
  {
    AliveKeys(p.members, id);
    forall k: u16 | k in AliveIds(p.members) ensures k in live {
      assert k in p.members && Within(p.th, Age(p.settled.value, p.members[k].lastSeen));
    }
  }

  /** On every timely run: a live node whose view is up to date elects the lowest live id, whatever the
      other nodes' views are, and answers `GetMaster` with it. */
  lemma ElectsLeast(actions: seq<Action>, live: set<u16>, id: u16, local: HivebusNode.Local, now: nat)
    requires Timely(INIT, actions, live)
    requires id in live && id in Exec(INIT, actions).nodes
    requires UpToDate(Exec(INIT, actions).nodes[id], id, live)
    requires local.id == id
    ensures var m := Exec(INIT, actions).nodes[id].members;
      && MasterFrom(m, id) == Least(live)
      && HivebusNode.MasterReply(m, local, now).Some?
      && HivebusNode.MasterReply(m, local, now).value.nodeId == Least(live)
  {
    RunKeepsInv(INIT, actions, live);
    var p := Exec(INIT, actions).nodes[id];
    assert PeerOk(p, id, live);
    ElectsLeastExactly(p, id, live);
  }

  /** On every timely run, for any number of nodes: once all live nodes' views are up to date, all live
      nodes choose the same master, the lowest live id. */
  lemma Agreement(actions: seq<Action>, live: set<u16>)
    requires Timely(INIT, actions, live)
    requires forall id :: id in live ==>
      id in Exec(INIT, actions).nodes && UpToDate(Exec(INIT, actions).nodes[id], id, live)
    ensures forall id :: id in live ==> MasterFrom(Exec(INIT, actions).nodes[id].members, id) == Least(live)
  {
    forall id | id in live ensures MasterFrom(Exec(INIT, actions).nodes[id].members, id) == Least(live) {
      ElectsLeast(actions, live, id, HivebusNode.Local(id, [], SocketAddr(0, 0), 0), 0);
    }
  }

  /** Timeliness is needed: one heartbeat that is too old at the next tick makes an otherwise up-to-date
      node elect itself over a lower live id. */
  lemma LateTickSplits(low: u16, high: u16, th: Thresholds, from: SocketAddr) returns (actions: seq<Action>)
    requires low < high && th.suspect + 1 < CLEANUP
    ensures var c, live := Exec(INIT, actions), {low, high};
      && high in c.nodes && UpToDate(c.nodes[high], high, live)
      && MasterFrom(c.nodes[high].members, high) == high != Least(live)
  {
    var beat, late := HeartbeatFrame(low, 1), th.suspect + 1;
    var a0, a1, a2 := Start(low, th), Start(high, th), SendHeartbeat(low, 1);
    var a3, a4 := Receive(high, beat, from, 0), Tick(high, late);
    actions := [a0, a1, a2, a3, a4];
    ExecFive(a0, a1, a2, a3, a4);
    var c3 := Step(Step(Step(INIT, a0), a1), a2);
    assert beat in c3.flight && c3.nodes[high] == Peer(map[], th, None);
    assert Step(c3, a3).nodes[high].members == OnHeartbeat(map[], low, 1, from, 0);
    LateTickDemotes(low, high, th, from);
    assert low in {low, high};
  }

  lemma LateTickDemotes(low: u16, high: u16, th: Thresholds, from: SocketAddr)
    requires low < high && th.suspect + 1 < CLEANUP
    ensures var t := Membership.Tick(OnHeartbeat(map[], low, 1, from, 0), high, th.suspect + 1, th);
      && low in t && t[low].lastSeen == 0
      && (forall k :: k in t ==> k == low)
      && MasterFrom(t, high) == high
  {
    var m := OnHeartbeat(map[], low, 1, from, 0);
    var t := Membership.Tick(m, high, th.suspect + 1, th);
    TickKeepsInv(m, high, th.suspect + 1, th);
    TickEntry(m, high, th.suspect + 1, th, low);
    AliveKeys(t, high);
  }

  lemma ExecFive(a: Action, b: Action, c: Action, d: Action, e: Action)
    ensures Exec(INIT, [a, b, c, d, e]) == Step(Step(Step(Step(Step(INIT, a), b), c), d), e)
  {
    var s1 := Step(INIT, a);
    var s2 := Step(s1, b);
    var s3 := Step(s2, c);
    var s4 := Step(s3, d);
    assert [a, b, c, d, e][1..] == [b, c, d, e] && [b, c, d, e][1..] == [c, d, e];
    assert [c, d, e][1..] == [d, e] && [d, e][1..] == [e] && [e][1..] == [];
    assert Exec(s4, [e]) == Step(s4, e);
    assert Exec(s3, [d, e]) == Exec(s4, [e]);
    assert Exec(s2, [c, d, e]) == Exec(s3, [d, e]);
    assert Exec(s1, [b, c, d, e]) == Exec(s2, [c, d, e]);
  }

  // ---------------------------------------------------------------------------
  // Convergence
  // ---------------------------------------------------------------------------

  /** `p` after it has heard the beats of `peers` at `now`: they are Alive as of then, and what it knew of
      others is untouched. */
  ghost predicate HasHeard(p: Peer, q: Peer, peers: set<u16>, now: nat) {
    && q.th == p.th
    && (forall k :: k in peers ==> k in q.members && q.members[k].state.Alive? && q.members[k].lastSeen == now)
    && (forall k :: k in q.members && k !in peers ==> k in p.members && q.members[k] == p.members[k])
    && (forall k :: k in q.members && k in peers ==> q.members[k].nodeId == k)
  }

  lemma {:induction false} ExecConcat(c: Net, a: seq<Action>, b: seq<Action>, live: set<u16>)
    requires Timely(c, a, live) && Timely(Exec(c, a), b, live)
    ensures Exec(c, a + b) == Exec(Exec(c, a), b) && Timely(c, a + b, live)
    decreases |a|
  {
    if a == [] {
      assert a + b == b;
    } else {
      assert (a + b)[1..] == a[1..] + b;
      ExecConcat(Step(c, a[0]), a[1..], b, live);
    }
  }

  lemma ExecOne(c: Net, a: Action, live: set<u16>)
    requires TimelyStep(c, a, live)
    ensures Exec(c, [a]) == Step(c, a) && Timely(c, [a], live)
  {
    assert [a][1..] == [];
    assert Exec(Step(c, a), []) == Step(c, a);
  }

  /** Every node of `peers` sends a heartbeat. */
  lemma {:induction false} SendBeats(c: Net, peers: set<u16>, live: set<u16>) returns (actions: seq<Action>)
    requires forall k :: k in peers ==> k in c.nodes
    ensures Timely(c, actions, live)
    ensures Exec(c, actions).nodes == c.nodes
    ensures forall k :: k in peers ==> HeartbeatFrame(k, 0) in Exec(c, actions).flight
    decreases peers
  {
    if peers == {} {
      actions := [];
    } else {
      var k :| k in peers;
      var before := SendBeats(c, peers - {k}, live);
      ExecOne(Exec(c, before), SendHeartbeat(k, 0), live);
      ExecConcat(c, before, [SendHeartbeat(k, 0)], live);
      actions := before + [SendHeartbeat(k, 0)];
    }
  }

  lemma HearOne(p: Peer, q: Peer, id: u16, peers: set<u16>, k: u16, from: SocketAddr, now: nat)
    requires HasHeard(p, q, peers, now) && k != id && (k in q.members ==> q.members[k].nodeId == k)
    ensures var heard := Apply(q.members, id, q.th, Received(HeartbeatFrame(k, 0), from, now));
      HasHeard(p, q.(members := heard, settled := None), peers + {k}, now)
  {
  }

  /** Node `id` receives the beats of `peers`. */
  lemma {:induction false} HearBeats(c: Net, id: u16, peers: set<u16>, live: set<u16>, from: SocketAddr, now: nat)
    returns (actions: seq<Action>)
    requires id in c.nodes && id !in peers && KeysOk(c.nodes[id].members, id)
    requires forall k :: k in peers ==> HeartbeatFrame(k, 0) in c.flight
    ensures Timely(c, actions, live)
    ensures var d := Exec(c, actions);
      && d.flight == c.flight && id in d.nodes && HasHeard(c.nodes[id], d.nodes[id], peers, now)
      && d.nodes == c.nodes[id := d.nodes[id]]
    decreases peers
  {
    if peers == {} {
      actions := [];
      assert c.nodes[id := c.nodes[id]] == c.nodes;
    } else {
      var k :| k in peers;
      var before := HearBeats(c, id, peers - {k}, live, from, now);
      var d := Exec(c, before);
      var hear := Receive(id, HeartbeatFrame(k, 0), from, now);
      HearOne(c.nodes[id], d.nodes[id], id, peers - {k}, k, from, now);
      assert peers - {k} + {k} == peers;
      ExecOne(d, hear, live);
      ExecConcat(c, before, [hear], live);
      actions := before + [hear];
    }
  }

  /** A time at which everybody in the table is past suspicion. */
  lemma {:induction false} PastSuspicion(m: Table, keys: set<u16>, suspect: nat) returns (now: nat)
    requires keys <= m.Keys
    ensures forall k :: k in keys ==> m[k].lastSeen + suspect < now
    decreases keys
  {
    if keys == {} {
      now := 0;
    } else {
      var k :| k in keys;
      var rest := PastSuspicion(m, keys - {k}, suspect);
      now := if m[k].lastSeen + suspect < rest then rest else m[k].lastSeen + suspect + 1;
    }
  }

  /** What the tick finds of each entry: the live ones just heard of, the others past suspicion. */
  ghost predicate JustHeard(p: Peer, live: set<u16>, now: nat) {
    forall k :: k in p.members ==>
      if k in live then p.members[k].lastSeen == now else p.members[k].lastSeen + p.th.suspect < now
  }

  lemma HeardIsJustHeard(p: Peer, q: Peer, id: u16, live: set<u16>, now: nat)
    requires KeysOk(p.members, id) && HasHeard(p, q, live - {id}, now)
    requires forall k :: k in p.members && k !in live ==> p.members[k].lastSeen + p.th.suspect < now
    ensures JustHeard(q, live, now) && forall k :: k in live && k != id ==> k in q.members
  {
    forall k | k in q.members
      ensures if k in live then q.members[k].lastSeen == now else q.members[k].lastSeen + q.th.suspect < now
    {
      assert k in live - {id} <==> k in live && k != id;
    }
  }

  /** A node that has just heard all the other live nodes, and last heard of the crashed ones too long ago,
      is up to date once it ticks. */
  lemma HeardThenUpToDate(p: Peer, id: u16, live: set<u16>, now: nat)
    requires JustHeard(p, live, now) && forall k :: k in live && k != id ==> k in p.members
    ensures AllHeard(p, live, now)
    ensures UpToDate(p.(members := Membership.Tick(p.members, id, now, p.th), settled := Some(now)), id, live)
  {
    var t := Membership.Tick(p.members, id, now, p.th);
    forall k: u16
      ensures k in live && k != id ==> k in t
      ensures k in t && k !in live ==> Age(now, t[k].lastSeen) > p.th.suspect
    {
      TickEntry(p.members, id, now, p.th, k);
    }
  }

  /** One live node's part of a round: it hears all the other live nodes and ticks. */
  lemma HearAndTick(c: Net, id: u16, live: set<u16>) returns (actions: seq<Action>)
    requires Inv(c, live) && id in live && id in c.nodes
    requires forall k :: k in live ==> HeartbeatFrame(k, 0) in c.flight
    ensures Timely(c, actions, live)
    ensures var d := Exec(c, actions);
      && d.flight == c.flight && id in d.nodes && UpToDate(d.nodes[id], id, live)
      && d.nodes == c.nodes[id := d.nodes[id]]
  {
    var p := c.nodes[id];
    assert PeerOk(p, id, live);
    var now := PastSuspicion(p.members, p.members.Keys, p.th.suspect);
    var hear := HearBeats(c, id, live - {id}, live, SocketAddr(0, 0), now);
    var d := Exec(c, hear);
    HeardIsJustHeard(p, d.nodes[id], id, live, now);
    HeardThenUpToDate(d.nodes[id], id, live, now);
    ExecOne(d, Tick(id, now), live);
    ExecConcat(c, hear, [Tick(id, now)], live);
    actions := hear + [Tick(id, now)];
  }

  lemma {:induction false} Round(c: Net, ids: set<u16>, live: set<u16>) returns (actions: seq<Action>)
    requires Inv(c, live) && ids <= live && forall k :: k in live ==> k in c.nodes
    requires forall k :: k in live ==> HeartbeatFrame(k, 0) in c.flight
    ensures Timely(c, actions, live)
    ensures var d := Exec(c, actions);
      && d.flight == c.flight && (forall k :: k in live ==> k in d.nodes)
      && forall id :: id in ids ==> UpToDate(d.nodes[id], id, live)
    decreases ids
  {
    if ids == {} {
      actions := [];
    } else {
      var id :| id in ids;
      var before := Round(c, ids - {id}, live);
      var d := Exec(c, before);
      RunKeepsInv(c, before, live);
      var last := HearAndTick(d, id, live);
      ExecConcat(c, before, last, live);
      actions := before + last;
    }
  }

  /** Agreement can always be reached: after any timely run that leaves all live nodes running, one round
      of heartbeats and ticks, timely itself, makes every live node choose the lowest live id. */
  lemma Converges(actions: seq<Action>, live: set<u16>) returns (round: seq<Action>)
    requires Timely(INIT, actions, live)
    requires forall id :: id in live ==> id in Exec(INIT, actions).nodes
    ensures Timely(INIT, actions + round, live)
    ensures var d := Exec(INIT, actions + round);
      forall id :: id in live ==>
        id in d.nodes && UpToDate(d.nodes[id], id, live) && MasterFrom(d.nodes[id].members, id) == Least(live)
  {
    var c := Exec(INIT, actions);
    RunKeepsInv(INIT, actions, live);
    var beats := SendBeats(c, live, live);
    RunKeepsInv(c, beats, live);
    var rest := Round(Exec(c, beats), live, live);
    ExecConcat(c, beats, rest, live);
    round := beats + rest;
    ExecConcat(INIT, actions, round, live);
    Agreement(actions + round, live);
  }
}
