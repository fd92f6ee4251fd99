/** The membership table of one hivebus node: what each message and each detector tick does to it, and
    the master chosen from it. */
module Membership {
  import opened Bytes
  import opened MacText

  datatype NodeState = Alive | Suspect | Dead

  datatype SocketAddr = SocketAddr(ip: u32, port: u16)

  datatype NodeInfo = NodeInfo(
    nodeId: u16, hostname: Text, controlAddr: SocketAddr, state: NodeState,
    incarnation: u32, lastSeen: nat, isMaster: bool)

  datatype GossipEntry = GossipEntry(nodeId: u16, incarnation: u32, state: NodeState, epochMs: nat)

  type Table = map<u16, NodeInfo>

  /** `format!("node-{nid:#06x}")` */
  function DefaultHostname(nid: u16): Text {
    var b := U16Bytes(nid);
    Ascii("node-0x") + FmtHex2(b[0]) + FmtHex2(b[1])
  }

  function NewPeer(nid: u16, from: SocketAddr, state: NodeState, incarnation: u32, now: nat): NodeInfo {
    NodeInfo(nid, DefaultHostname(nid), from, state, incarnation, now, false)
  }

  // ---------------------------------------------------------------------------
  // Messages
  // ---------------------------------------------------------------------------

  /** A heartbeat overwrites state, incarnation and time, whatever they were. */
  function OnHeartbeat(m: Table, nid: u16, incarnation: u32, from: SocketAddr, now: nat): Table {
    var e := if nid in m then m[nid] else NewPeer(nid, from, Alive, incarnation, now);
    m[nid := e.(state := Alive, incarnation := incarnation, lastSeen := now)]
  }

  function OnAnnounce(m: Table, nid: u16, hostname: Text, addr: SocketAddr, incarnation: u32, now: nat): Table {
    m[nid := NodeInfo(nid, hostname, addr, Alive, incarnation, now, false)]
  }

  function OnLeave(m: Table, nid: u16): Table {
    if nid in m then m[nid := m[nid].(state := Dead)] else m
  }

  /** One gossiped entry; only here are incarnations compared. */
  function MergeEntry(m: Table, self: u16, g: GossipEntry, from: SocketAddr, now: nat): Table {
    if g.nodeId == self then m
    else
      var e := if g.nodeId in m then m[g.nodeId] else NewPeer(g.nodeId, from, g.state, g.incarnation, now);
      m[g.nodeId := if g.incarnation >= e.incarnation then e.(state := g.state, incarnation := g.incarnation) else e]
  }

  function OnGossip(m: Table, self: u16, entries: seq<GossipEntry>, from: SocketAddr, now: nat): Table
    decreases |entries|
  {
    if entries == [] then m
    else
      var n := |entries| - 1;
      MergeEntry(OnGossip(m, self, entries[..n], from, now), self, entries[n], from, now)
  }

  // ---------------------------------------------------------------------------
  // The master
  // ---------------------------------------------------------------------------

  function AliveIds(m: Table): set<u16> {
    set k | k in m && m[k].state.Alive? :: m[k].nodeId
  }

  /** The least element of `s` from `from` on. */
  function LeastFrom(s: set<u16>, from: nat): (r: u16)
    requires exists x :: x in s && from <= x
    ensures r in s && from <= r && forall x :: x in s && from <= x ==> r <= x
    decreases 0x1_0000 - from
  {
    if from < 0x1_0000 && from in s then from else LeastFrom(s, from + 1)
  }

  function Least(s: set<u16>): (r: u16)
    requires s != {}
    ensures r in s && forall x :: x in s ==> r <= x
  {
    LeastFrom(s, 0)
  }

  /** Bully election: the lowest id that is Alive in this view, the node itself included. */
  function MasterFrom(m: Table, self: u16): u16 {
    Least(AliveIds(m) + {self})
  }

  // ---------------------------------------------------------------------------
  // The failure detector
  // ---------------------------------------------------------------------------

  /** Times are in nanoseconds.  A `last_seen` in the future has age `Duration::MAX`. */
  const CLEANUP: nat := 300_000_000_000
  const MAX_AGE: nat := 18446744073709551615_999999999

  datatype Thresholds = Thresholds(suspect: nat, dead: nat)

  function Age(now: nat, lastSeen: nat): nat {
    if lastSeen <= now then now - lastSeen else MAX_AGE
  }

  function Retain(m: Table, now: nat): Table {
    map k | k in m && Age(now, m[k].lastSeen) < CLEANUP :: m[k]
  }

  function JudgeState(state: NodeState, age: nat, th: Thresholds): NodeState {
    if age > th.dead then Dead
    else if age > th.suspect && state == Alive then Suspect
    else state
  }

  function Judge(n: NodeInfo, now: nat, th: Thresholds): NodeInfo {
    n.(state := JudgeState(n.state, Age(now, n.lastSeen), th))
  }

  function JudgeAll(m: Table, now: nat, th: Thresholds): Table {
    map k | k in m :: Judge(m[k], now, th)
  }

  function FlagMaster(m: Table, master: u16): Table {
    map k | k in m :: m[k].(isMaster := m[k].nodeId == master)
  }

  /** One detector tick: drop the stale, judge the rest, flag the master. */
  function Tick(m: Table, self: u16, now: nat, th: Thresholds): Table {
    var judged := JudgeAll(Retain(m, now), now, th);
    FlagMaster(judged, MasterFrom(judged, self))
  }

  // ---------------------------------------------------------------------------
  // Events
  // ---------------------------------------------------------------------------

  /** What changes a node's table: a frame from `nid`, or a tick. */
  datatype Event =
    | Heartbeat(nid: u16, incarnation: u32, from: SocketAddr, now: nat)
    | Announce(nid: u16, hostname: Text, addr: SocketAddr, incarnation: u32, now: nat)
    | Leave(nid: u16)
    | Gossip(nid: u16, entries: seq<GossipEntry>, from: SocketAddr, now: nat)
    | DetectorTick(now: nat)

  /** The listener drops its own frames before anything else. */
  function Apply(m: Table, self: u16, th: Thresholds, e: Event): Table {
    match e
    case DetectorTick(now) => Tick(m, self, now, th)
    case Heartbeat(nid, inc, from, now) => if nid == self then m else OnHeartbeat(m, nid, inc, from, now)
    case Announce(nid, host, addr, inc, now) => if nid == self then m else OnAnnounce(m, nid, host, addr, inc, now)
    case Leave(nid) => if nid == self then m else OnLeave(m, nid)
    case Gossip(nid, entries, from, now) => if nid == self then m else OnGossip(m, self, entries, from, now)
  }

  function Run(m: Table, self: u16, th: Thresholds, events: seq<Event>): Table
    decreases |events|
  {
    if events == [] then m
    else
      var n := |events| - 1;
      Apply(Run(m, self, th, events[..n]), self, th, events[n])
  }

  // ---------------------------------------------------------------------------
  // The table invariant
  // ---------------------------------------------------------------------------

  ghost predicate KeysOk(m: Table, self: u16) {
    self !in m && forall k :: k in m ==> m[k].nodeId == k
  }

  ghost predicate FlagsOk(m: Table, self: u16) {
    && (forall k :: k in m && m[k].isMaster ==> k < self)
    && (forall k, k' :: k in m && k' in m && m[k].isMaster && m[k'].isMaster ==> k == k')
  }

  /** The node's own id is never a key, every key is its entry's id, and at most one entry is flagged
      master, with an id below the node's own. */
  ghost predicate TableInv(m: Table, self: u16) {
    KeysOk(m, self) && FlagsOk(m, self)
  }

  lemma {:induction false} GossipKeepsInv(m: Table, self: u16, entries: seq<GossipEntry>, from: SocketAddr, now: nat)
    requires TableInv(m, self)
    ensures TableInv(OnGossip(m, self, entries, from, now), self)
    decreases |entries|
  {
    if entries != [] {
      GossipKeepsInv(m, self, entries[..|entries| - 1], from, now);
    }
  }

  lemma TickKeepsInv(m: Table, self: u16, now: nat, th: Thresholds)
    requires KeysOk(m, self)
    ensures TableInv(Tick(m, self, now, th), self)
  {
    var judged := JudgeAll(Retain(m, now), now, th);
    var master := MasterFrom(judged, self);
    assert master <= self;
  }

  lemma ApplyKeepsInv(m: Table, self: u16, th: Thresholds, e: Event)
    requires TableInv(m, self)
    ensures TableInv(Apply(m, self, th, e), self)
  {
    match e
    case DetectorTick(now) => TickKeepsInv(m, self, now, th);
    case Gossip(nid, entries, from, now) => GossipKeepsInv(m, self, entries, from, now);
    case _ =>
  }

  /** Every reachable table, over all interleavings of messages and ticks. */
  lemma {:induction false} ReachableInv(self: u16, th: Thresholds, events: seq<Event>)
    ensures TableInv(Run(map[], self, th, events), self)
    decreases |events|
  {
    if events != [] {
      var n := |events| - 1;
      ReachableInv(self, th, events[..n]);
      ApplyKeepsInv(Run(map[], self, th, events[..n]), self, th, events[n]);
    }
  }

  /** For the key half of the invariant, alive ids are exactly the keys of Alive entries. */
  lemma AliveKeys(m: Table, self: u16)
    requires KeysOk(m, self)
    ensures forall k :: k in AliveIds(m) <==> k in m && m[k].state.Alive?
  {
  }
}
