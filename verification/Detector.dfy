/** Laws of the failure detector: ticks absorb one another, states only decay, and what an election
    right after a tick rests on. */
module Detector {
  import opened Bytes
  import opened Membership

  function Rank(s: NodeState): nat {
    match s
    case Alive => 0
    case Suspect => 1
    case Dead => 2
  }

  /** What a tick leaves of one entry, its flag aside. */
  lemma TickEntry(m: Table, self: u16, now: nat, th: Thresholds, k: u16)
    ensures k in Tick(m, self, now, th) <==> k in m && Age(now, m[k].lastSeen) < CLEANUP
    ensures k in Tick(m, self, now, th) ==>
      Tick(m, self, now, th)[k] == Judge(m[k], now, th).(isMaster := Tick(m, self, now, th)[k].isMaster)
  {
  }

  /** A tick neither adds a node nor touches anything but states and flags, and a node's state only
      moves from Alive to Suspect to Dead; a node is removed only at five minutes, or when its
      `last_seen` lies in the future. */
  lemma TickOnlyDecays(m: Table, self: u16, now: nat, th: Thresholds, k: u16)
    ensures var t := Tick(m, self, now, th);
      && (k in t ==> k in m && t[k] == m[k].(state := t[k].state, isMaster := t[k].isMaster))
      && (k in t ==> Rank(m[k].state) <= Rank(t[k].state))
      && (k in t ==> (t[k].state.Dead? <==> m[k].state.Dead? || now - m[k].lastSeen > th.dead))
      && (k in t ==>
            (t[k].state.Alive? <==>
               m[k].state.Alive? && now - m[k].lastSeen <= th.suspect && now - m[k].lastSeen <= th.dead))
      && (k in m ==> (k !in t <==> m[k].lastSeen > now || now - m[k].lastSeen >= 300_000_000_000))
  {
    TickEntry(m, self, now, th, k);
  }

  /** A later judgement swallows an earlier one. */
  lemma JudgeTwice(n: NodeInfo, now: nat, later: nat, th: Thresholds)
    requires n.lastSeen <= now <= later
    ensures Judge(Judge(n, now, th), later, th) == Judge(n, later, th)
  {
  }

  /** Judging does not look at the flags. */
  lemma JudgeIgnoresFlags(m: Table, m': Table, now: nat, th: Thresholds, master: u16)
    requires m' == FlagMaster(m, master)
    ensures AliveIds(m') == AliveIds(m)
    ensures JudgeAll(Retain(m', now), now, th) == FlagMaster(JudgeAll(Retain(m, now), now, th), master)
  {
    forall id | id in AliveIds(m) ensures id in AliveIds(m') {
      var k :| k in m && m[k].state.Alive? && m[k].nodeId == id;
      assert k in m' && m'[k].state.Alive? && m'[k].nodeId == id;
    }
    forall id | id in AliveIds(m') ensures id in AliveIds(m) {
      var k :| k in m' && m'[k].state.Alive? && m'[k].nodeId == id;
      assert k in m && m[k].state.Alive? && m[k].nodeId == id;
    }
  }

  /** The table a tick works on, before it sets the flags. */
  function Judged(m: Table, now: nat, th: Thresholds): Table {
    JudgeAll(Retain(m, now), now, th)
  }

  /** No node that the first tick drops for a `last_seen` in its future is kept by the second. */
  ghost predicate NoneRevived(m: Table, now: nat, later: nat) {
    forall k :: k in m && m[k].lastSeen > now ==> Age(later, m[k].lastSeen) >= CLEANUP
  }

  lemma JudgedTwice(m: Table, now: nat, later: nat, th: Thresholds)
    requires now <= later && NoneRevived(m, now, later)
    ensures Judged(Judged(m, now, th), later, th) == Judged(m, later, th)
  {
    var once := Judged(m, now, th);
    var twice, direct := Judged(once, later, th), Judged(m, later, th);
    forall k ensures k in twice <==> k in direct {
      assert k in once ==> once[k].lastSeen == m[k].lastSeen;
    }
    forall k | k in direct ensures twice[k] == direct[k] {
      JudgeTwice(m[k], now, later, th);
    }
  }

  lemma FlagTwice(m: Table, a: u16, b: u16)
    ensures FlagMaster(FlagMaster(m, a), b) == FlagMaster(m, b)
  {
  }

  lemma TwoTicksAbsorb(m: Table, self: u16, now: nat, later: nat, th: Thresholds)
    requires now <= later && NoneRevived(m, now, later)
    ensures Tick(Tick(m, self, now, th), self, later, th) == Tick(m, self, later, th)
  {
    var once := Judged(m, now, th);
    var a := MasterFrom(once, self);
    JudgeIgnoresFlags(once, FlagMaster(once, a), later, th, a);
    JudgedTwice(m, now, later, th);
    var direct := Judged(m, later, th);
    JudgeIgnoresFlags(direct, FlagMaster(direct, a), later, th, a);
    FlagTwice(direct, a, MasterFrom(direct, self));
  }

  /** Under a clock that does not run backwards between them, two ticks with no message in between
      leave exactly the table that the second alone leaves, membership, states and flags, if and only if
      the first drops no node, for a `last_seen` in its future, that the second would keep. */
  lemma TwoTicksAbsorbExactly(m: Table, self: u16, now: nat, later: nat, th: Thresholds)
    requires now <= later
    ensures Tick(Tick(m, self, now, th), self, later, th) == Tick(m, self, later, th)
      <==> NoneRevived(m, now, later)
  {
    if NoneRevived(m, now, later) {
      TwoTicksAbsorb(m, self, now, later, th);
    } else {
      var k :| k in m && m[k].lastSeen > now && Age(later, m[k].lastSeen) < CLEANUP;
      TickEntry(m, self, now, th, k);
      TickEntry(Tick(m, self, now, th), self, later, th, k);
      TickEntry(m, self, later, th, k);
      assert k in Tick(m, self, later, th) && k !in Tick(Tick(m, self, now, th), self, later, th);
    }
  }

  /** No entry was last seen after `now`. */
  ghost predicate HeardBy(m: Table, now: nat) {
    forall k :: k in m ==> m[k].lastSeen <= now
  }

  function TickAll(m: Table, self: u16, times: seq<nat>, th: Thresholds): Table
    decreases |times|
  {
    if times == [] then m
    else
      var n := |times| - 1;
      Tick(TickAll(m, self, times[..n], th), self, times[n], th)
  }

  /** Such an entry: heard of a nanosecond after the first tick. */
  lemma FutureEntryLost(self: u16, peer: u16, th: Thresholds, from: SocketAddr, now: nat)
    requires peer != self
    ensures var m := OnHeartbeat(map[], peer, 1, from, now + 1);
      Tick(Tick(m, self, now, th), self, now + 1, th) != Tick(m, self, now + 1, th)
  {
    var m := OnHeartbeat(map[], peer, 1, from, now + 1);
    assert peer in m && m[peer].lastSeen > now && Age(now + 1, m[peer].lastSeen) < CLEANUP;
    TwoTicksAbsorbExactly(m, self, now, now + 1, th);
  }

  ghost predicate Ascending(times: seq<nat>) {
    forall i, j :: 0 <= i < j < |times| ==> times[i] <= times[j]
  }

  lemma AbsorbNext(m: Table, ticked: Table, self: u16, now: nat, later: nat, th: Thresholds)
    requires now <= later && ticked == Tick(m, self, now, th) && HeardBy(m, now)
    ensures Tick(ticked, self, later, th) == Tick(m, self, later, th)
  {
    TwoTicksAbsorb(m, self, now, later, th);
  }

  lemma AscendingFront(times: seq<nat>)
    requires |times| > 1 && Ascending(times)
    ensures var front := times[..|times| - 1];
      Ascending(front) && front[0] == times[0] <= front[|front| - 1] == times[|times| - 2] <= times[|times| - 1]
  {
  }

  /** Once nothing lies in the future, any sequence of ticks is as good as its last one. */
  lemma {:induction false} HeardTicksAbsorb(m: Table, self: u16, times: seq<nat>, th: Thresholds)
    requires times != [] && Ascending(times) && HeardBy(m, times[0])
    ensures TickAll(m, self, times, th) == Tick(m, self, times[|times| - 1], th)
    decreases |times|
  {
    var n := |times| - 1;
    var front := times[..n];
    if n == 0 {
      assert TickAll(m, self, front, th) == m;
    } else {
      AscendingFront(times);
      HeardTicksAbsorb(m, self, front, th);
      AbsorbNext(m, TickAll(m, self, front, th), self, times[n - 1], times[n], th);
    }
  }

  lemma {:induction false} FirstTickFirst(m: Table, self: u16, times: seq<nat>, th: Thresholds)
    requires times != []
    ensures TickAll(m, self, times, th) == TickAll(Tick(m, self, times[0], th), self, times[1..], th)
    decreases |times|
  {
    var n := |times| - 1;
    if n == 0 {
      assert times[..0] == [] && times[1..] == [];
      assert TickAll(m, self, [], th) == m;
    } else {
      assert times[..n][1..] == times[1..][..n - 1];
      FirstTickFirst(m, self, times[..n], th);
    }
  }

  lemma TickHeard(m: Table, self: u16, now: nat, th: Thresholds)
    ensures HeardBy(Tick(m, self, now, th), now)
  {
    forall k | k in Tick(m, self, now, th) ensures Tick(m, self, now, th)[k].lastSeen <= now {
      TickEntry(m, self, now, th, k);
    }
  }

  /** A sequence of ticks with no message in between, under a clock that never runs backwards, leaves
      exactly the table that its last tick alone would leave, if and only if the first drops no entry,
      for a `last_seen` in its future, that the last would keep. */
  lemma TicksAbsorb(m: Table, self: u16, times: seq<nat>, th: Thresholds)
    requires times != [] && Ascending(times)
    ensures TickAll(m, self, times, th) == Tick(m, self, times[|times| - 1], th)
      <==> NoneRevived(m, times[0], times[|times| - 1])
  {
    var first, last, rest := times[0], times[|times| - 1], times[1..];
    var ticked := Tick(m, self, first, th);
    FirstTickFirst(m, self, times, th);
    TickHeard(m, self, first, th);
    TwoTicksAbsorbExactly(m, self, first, last, th);
    if rest == [] {
      assert TickAll(ticked, self, rest, th) == ticked;
    } else {
      HeardTicksAbsorb(ticked, self, rest, th);
    }
  }

  /** Right after a tick, an Alive entry was last heard of within both thresholds; no assumption on the
      clock is needed, since an entry from the future is dropped. */
  lemma AliveAfterTickIsRecent(m: Table, self: u16, now: nat, th: Thresholds, k: u16)
    requires k in Tick(m, self, now, th) && Tick(m, self, now, th)[k].state.Alive?
    ensures k in m && m[k].lastSeen <= now
    ensures now - m[k].lastSeen <= th.suspect && now - m[k].lastSeen <= th.dead
  {
    TickEntry(m, self, now, th, k);
  }

  /** Hearing from a node, by heartbeat or announcement, makes it Alive whatever it was, and it stays so
      through a tick that comes within the thresholds. */
  lemma HeardStaysAlive(m: Table, self: u16, th: Thresholds, e: Event, tickAt: nat)
    requires (e.Heartbeat? || e.Announce?) && e.nid != self
    requires e.now <= tickAt && tickAt - e.now < CLEANUP
    requires tickAt - e.now <= th.suspect && tickAt - e.now <= th.dead
    ensures var t := Tick(Apply(m, self, th, e), self, tickAt, th);
      && e.nid in t && t[e.nid].state.Alive?
      && t[e.nid].incarnation == e.incarnation && t[e.nid].lastSeen == e.now
  {
    TickEntry(Apply(m, self, th, e), self, tickAt, th, e.nid);
  }

  /** A tick flags exactly the entry of the master that it elects, in the table that it leaves. */
  lemma TickFlagsMaster(m: Table, self: u16, now: nat, th: Thresholds)
    requires KeysOk(m, self)
    ensures var t := Tick(m, self, now, th);
      forall k :: k in t ==> (t[k].isMaster <==> k == MasterFrom(t, self))
  {
    var judged := Judged(m, now, th);
    var master := MasterFrom(judged, self);
    JudgeIgnoresFlags(judged, FlagMaster(judged, master), now, th, master);
  }
}
