/** What the lease allocator guarantees over every run and every interleaving: unique pool addresses,
    stable addresses, and a pool that fills up in order. */
module PoolProofs {
  import opened Bytes
  import opened MacText
  import opened BootScript
  import opened PxeSystem
  import DhcpWire

  lemma ExecOne(cfg: Config, s: State, a: Action)
    ensures Exec(cfg, s, [a]) == Step(cfg, s, a)
  {
    assert Exec(cfg, Step(cfg, s, a), [a][1..]) == Step(cfg, s, a);
  }

  lemma ExecTwo(cfg: Config, s: State, a: Action, b: Action)
    ensures Exec(cfg, s, [a, b]) == Step(cfg, Step(cfg, s, a), b)
  {
    assert [a, b][1..] == [b];
    ExecOne(cfg, Step(cfg, s, a), b);
  }

  lemma {:induction false} ExecConcat(cfg: Config, s: State, a: seq<Action>, b: seq<Action>)
    ensures Exec(cfg, s, a + b) == Exec(cfg, Exec(cfg, s, a), b)
    decreases |a|
  {
    if a == [] {
      assert a + b == b;
    } else {
      assert (a + b)[1..] == a[1..] + b;
      ExecConcat(cfg, Step(cfg, s, a[0]), a[1..], b);
    }
  }

  // ---------------------------------------------------------------------------
  // Unique pool addresses
  // ---------------------------------------------------------------------------

  /** No two MACs hold the same pool address. */
  ghost predicate UniqueInPool(cfg: Config, leases: LeaseTable) {
    forall m, m' :: m in leases && m' in leases && m != m' && InPool(cfg, leases[m].ip)
      ==> leases[m].ip != leases[m'].ip
  }

  predicate StaticOutside(cfg: Config, entry: BootEntry) {
    entry.ip.Some? ==> !InPool(cfg, entry.ip.value)
  }

  /** Every static address that the run registers lies outside the pool. */
  ghost predicate StaticsOutside(cfg: Config, actions: seq<Action>) {
    forall a :: a in actions && a.BootRegister? ==> StaticOutside(cfg, a.entry)
  }

  /** An address about to be stored: outside the pool, the MAC's own, or nobody's. */
  ghost predicate SafeToStore(cfg: Config, leases: LeaseTable, mac: Mac, ip: u32) {
    || !InPool(cfg, ip)
    || (mac in leases && leases[mac].ip == ip)
    || forall m :: m in leases ==> leases[m].ip != ip
  }

  ghost predicate UniqueInv(cfg: Config, s: State) {
    && UniqueInPool(cfg, s.leases)
    && (forall m :: m in s.boot ==> StaticOutside(cfg, s.boot[m]))
    && (s.task.Storing? ==> SafeToStore(cfg, s.leases, s.task.req.mac, s.task.ip))
  }

  /** Storing keeps pool addresses unique exactly when no other MAC holds the address, or it lies
      outside the pool. */
  lemma StoreKeepsUniqueExactly(cfg: Config, leases: LeaseTable, mac: Mac, ip: u32, now: nat)
    requires UniqueInPool(cfg, leases)
    ensures UniqueInPool(cfg, StoreLease(cfg, leases, mac, ip, now))
      <==> !InPool(cfg, ip) || forall m :: m in leases && m != mac ==> leases[m].ip != ip
  {
    var after := StoreLease(cfg, leases, mac, ip, now);
    assert forall m :: m in leases && m != mac ==> m in after && after[m].ip == leases[m].ip;
    assert mac in after && after[mac].ip == ip;
  }

  lemma FreshIsNobodys(cfg: Config, leases: LeaseTable)
    ensures FreshIp(cfg, leases).Some? ==> forall m :: m in leases ==> leases[m].ip != FreshIp(cfg, leases).value
  {
    assert forall m :: m in leases ==> leases[m].ip in InUse(leases);
  }

  /** The steps that write the lease table. */
  lemma StoringKeepsUnique(cfg: Config, s: State, now: nat, io: bool)
    requires UniqueInv(cfg, s) && (s.task.CheckingLease? || s.task.Storing?)
    ensures UniqueInv(cfg, Advance(cfg, s, now, io))
  {
    var mac := s.task.req.mac;
    if s.task.Storing? {
      StoreKeepsUniqueExactly(cfg, s.leases, mac, s.task.ip, now);
    } else if mac in s.leases {
      StoreKeepsUniqueExactly(cfg, s.leases, mac, s.leases[mac].ip, now);
    }
  }

  /** The steps that pick an address to store. */
  lemma PickingKeepsUnique(cfg: Config, s: State, now: nat, io: bool)
    requires UniqueInv(cfg, s) && (s.task.CheckingStatic? || s.task.Scanning?)
    ensures UniqueInv(cfg, Advance(cfg, s, now, io))
  {
    FreshIsNobodys(cfg, s.leases);
  }

  lemma AdvanceKeepsUnique(cfg: Config, s: State, now: nat, io: bool)
    requires UniqueInv(cfg, s)
    ensures UniqueInv(cfg, Advance(cfg, s, now, io))
  {
    if s.task.CheckingLease? || s.task.Storing? {
      StoringKeepsUnique(cfg, s, now, io);
    } else if s.task.CheckingStatic? || s.task.Scanning? {
      PickingKeepsUnique(cfg, s, now, io);
    }
  }

  lemma {:induction false} RunKeepsUnique(cfg: Config, s: State, actions: seq<Action>)
    requires UniqueInv(cfg, s) && StaticsOutside(cfg, actions)
    ensures UniqueInv(cfg, Exec(cfg, s, actions))
    decreases |actions|
  {
    if actions != [] {
      var a := actions[0];
      if a.Proceed? { AdvanceKeepsUnique(cfg, s, a.now, a.io); }
      assert forall b :: b in actions[1..] ==> b in actions;
      RunKeepsUnique(cfg, Step(cfg, s, a), actions[1..]);
    }
  }

  /** In every reachable state, whatever registrations come between the steps of the DHCP task, no two
      MACs hold the same pool address, provided static addresses stay out of the pool. */
  lemma UniqueAddresses(cfg: Config, actions: seq<Action>)
    requires StaticsOutside(cfg, actions)
    ensures UniqueInPool(cfg, Exec(cfg, INIT, actions).leases)
  {
    RunKeepsUnique(cfg, INIT, actions);
  }

  /** Every static address that the run registers is one of `addresses`. */
  ghost predicate StaticsAmong(actions: seq<Action>, addresses: set<u32>) {
    forall a :: a in actions && a.BootRegister? && a.entry.ip.Some? ==> a.entry.ip.value in addresses
  }

  /** One undisturbed request as a run. */
  lemma RequestRun(cfg: Config, s: State, req: Request) returns (actions: seq<Action>)
    requires s.task.Idle? && Answers(req)
    ensures Exec(cfg, s, actions) == Complete(cfg, Step(cfg, s, Receive(req)), 0, true)
    ensures forall a :: a in actions ==> !a.BootRegister?
  {
    var rest := CompleteIsRun(cfg, Step(cfg, s, Receive(req)), 0, true);
    actions := [Receive(req)] + rest;
    assert actions[1..] == rest;
  }

  /** ... which stores the MAC's static address, if it has one. */
  lemma StaticStored(cfg: Config, s: State, req: Request, ip: u32)
    requires s.task.Idle? && Answers(req) && StaticIp(s.boot, req.mac) == Some(ip)
    ensures var t := Complete(cfg, Step(cfg, s, Receive(req)), 0, true);
      t.boot == s.boot && t.leases == StoreLease(cfg, s.leases, req.mac, ip, 0)
  {
    RequestEffect(cfg, s, req, 0, true);
    assert s.boot[req.mac := s.boot[req.mac]] == s.boot;
  }

  /** Any static address inside the pool can be handed to two MACs. */
  lemma StaticInsideCollides(cfg: Config, ip: u32, req: Request, req': Request) returns (actions: seq<Action>)
    requires InPool(cfg, ip) && req.mac != req'.mac && Answers(req) && Answers(req')
    ensures StaticsAmong(actions, {ip})
    ensures !UniqueInPool(cfg, Exec(cfg, INIT, actions).leases)
  {
    var m, m', clash := req.mac, req'.mac, BootEntry([], Some(ip), None, map[]);
    var front := [BootRegister(m, clash), BootRegister(m', clash)];
    ExecTwo(cfg, INIT, BootRegister(m, clash), BootRegister(m', clash));
    var s := Exec(cfg, INIT, front);
    var first := RequestRun(cfg, s, req);
    StaticStored(cfg, s, req, ip);
    var t := Exec(cfg, s, first);
    var second := RequestRun(cfg, t, req');
    StaticStored(cfg, t, req', ip);
    actions := front + (first + second);
    ExecConcat(cfg, s, first, second);
    ExecConcat(cfg, INIT, front, first + second);
    var leases := Exec(cfg, INIT, actions).leases;
    assert m in leases && m' in leases && leases[m].ip == ip == leases[m'].ip;
  }

  lemma TwoRequests() returns (req: Request, req': Request)
    ensures req.mac != req'.mac && Answers(req) && Answers(req')
  {
    var m: Mac, m': Mac := [0, 0, 0, 0, 0, 0], [0, 0, 0, 0, 0, 1];
    assert m[5] != m'[5];
    req := DhcpWire.Request(m, [], 0, false, DhcpWire.DHCPDISCOVER);
    req' := DhcpWire.Request(m', [], 0, false, DhcpWire.DHCPDISCOVER);
  }

  /** The exact condition: all runs whose static addresses are among `addresses` keep pool addresses
      unique if and only if none of these addresses is in the pool. */
  lemma UniqueExactly(cfg: Config, addresses: set<u32>)
    ensures (forall actions ::
               StaticsAmong(actions, addresses) ==> UniqueInPool(cfg, Exec(cfg, INIT, actions).leases))
      <==> forall ip :: ip in addresses ==> !InPool(cfg, ip)
  {
    if ip :| ip in addresses && InPool(cfg, ip) {
      var req, req' := TwoRequests();
      var actions := StaticInsideCollides(cfg, ip, req, req');
      assert StaticsAmong(actions, addresses);
    } else {
      forall actions | StaticsAmong(actions, addresses)
        ensures UniqueInPool(cfg, Exec(cfg, INIT, actions).leases)
      {
        UniqueAddresses(cfg, actions);
      }
    }
  }

  // ---------------------------------------------------------------------------
  // Stable addresses
  // ---------------------------------------------------------------------------

  /** No registration in the run gives `mac` a static address. */
  ghost predicate NeverStatic(actions: seq<Action>, mac: Mac) {
    forall a :: a in actions && a.BootRegister? && a.mac == mac ==> a.entry.ip.None?
  }

  ghost predicate StableInv(cfg: Config, s: State, mac: Mac) {
    && StaticIp(s.boot, mac).None?
    && (mac in s.leases ==> InPool(cfg, s.leases[mac].ip))
    && (forall r :: r in s.replies && r.mac == mac ==>
          mac in s.leases && r.reply.yiaddr == s.leases[mac].ip)
    && (Current(s.task).Some? && Current(s.task).value.mac == mac ==>
          match s.task
          case Scanning(_) => mac !in s.leases
          case Storing(_, ip) => InPool(cfg, ip) && (mac in s.leases ==> s.leases[mac].ip == ip)
          case Picking(_, ip) => mac in s.leases && s.leases[mac].ip == ip
          case Replying(_, ip, _) => mac in s.leases && s.leases[mac].ip == ip
          case _ => true)
  }

  lemma StepKeepsStable(cfg: Config, s: State, a: Action, mac: Mac)
    requires StableInv(cfg, s, mac) && NeverStatic([a], mac)
    ensures StableInv(cfg, Step(cfg, s, a), mac)
    ensures mac in s.leases ==>
      mac in Step(cfg, s, a).leases && Step(cfg, s, a).leases[mac].ip == s.leases[mac].ip
  {
    assert a in [a];
  }

  lemma {:induction false} RunKeepsStable(cfg: Config, s: State, actions: seq<Action>, mac: Mac)
    requires StableInv(cfg, s, mac) && NeverStatic(actions, mac)
    ensures StableInv(cfg, Exec(cfg, s, actions), mac)
    decreases |actions|
  {
    if actions != [] {
      assert forall b :: b in [actions[0]] || b in actions[1..] ==> b in actions;
      StepKeepsStable(cfg, s, actions[0], mac);
      RunKeepsStable(cfg, Step(cfg, s, actions[0]), actions[1..], mac);
    }
  }

  /** All OFFERs and ACKs to a MAC without a static address carry one and the same address, which is
      in the pool, whatever other MACs and the control plane do (RFC 2131, section 4.3.1). */
  lemma StableAddress(cfg: Config, actions: seq<Action>, mac: Mac, r: Sent, r': Sent)
    requires NeverStatic(actions, mac)
    requires r in Exec(cfg, INIT, actions).replies && r' in Exec(cfg, INIT, actions).replies
    requires r.mac == r'.mac == mac
    ensures r.reply.yiaddr == r'.reply.yiaddr && InPool(cfg, r.reply.yiaddr)
  {
    RunKeepsStable(cfg, INIT, actions, mac);
  }

  /** Two such MACs are never told the same address, in any of their replies over the whole run. */
  lemma OffersDistinct(cfg: Config, actions: seq<Action>, r: Sent, r': Sent)
    requires StaticsOutside(cfg, actions)
    requires NeverStatic(actions, r.mac) && NeverStatic(actions, r'.mac) && r.mac != r'.mac
    requires r in Exec(cfg, INIT, actions).replies && r' in Exec(cfg, INIT, actions).replies
    ensures r.reply.yiaddr != r'.reply.yiaddr
  {
    RunKeepsStable(cfg, INIT, actions, r.mac);
    RunKeepsStable(cfg, INIT, actions, r'.mac);
    UniqueAddresses(cfg, actions);
  }

  // ---------------------------------------------------------------------------
  // Leases never expire
  // ---------------------------------------------------------------------------

  /** The leases without their expiry times. */
  function Addresses(leases: LeaseTable): map<Mac, u32> {
    map m | m in leases :: leases[m].ip
  }

  predicate SameButExpiry(s: State, t: State) {
    Addresses(s.leases) == Addresses(t.leases) && s == t.(leases := s.leases)
  }

  /** The same step, perhaps at another time. */
  predicate SameStep(a: Action, b: Action) {
    a == b || (a.Proceed? && b.Proceed? && a.io == b.io)
  }

  lemma SameInUse(l: LeaseTable, l': LeaseTable)
    requires Addresses(l) == Addresses(l')
    ensures InUse(l) == InUse(l')
    ensures forall m :: m in l <==> m in l'
    ensures forall m :: m in l ==> l[m].ip == l'[m].ip
  {
    assert forall m :: m in l <==> m in Addresses(l);
    assert forall m :: m in l' <==> m in Addresses(l');
    assert forall m :: m in l ==> l[m].ip == Addresses(l)[m];
    assert forall m :: m in l' ==> l'[m].ip == Addresses(l')[m];
  }

  lemma SameStore(cfg: Config, l: LeaseTable, l': LeaseTable, mac: Mac, ip: u32, now: nat, now': nat)
    requires Addresses(l) == Addresses(l')
    ensures Addresses(StoreLease(cfg, l, mac, ip, now)) == Addresses(StoreLease(cfg, l', mac, ip, now'))
  {
    SameInUse(l, l');
    var a, b := Addresses(StoreLease(cfg, l, mac, ip, now)), Addresses(StoreLease(cfg, l', mac, ip, now'));
    assert forall m :: m in a <==> m in l || m == mac;
    assert forall m :: m in b <==> m in l' || m == mac;
  }

  lemma StoringIgnoresClock(cfg: Config, s: State, t: State, now: nat, now': nat, io: bool)
    requires SameButExpiry(s, t) && (s.task.CheckingLease? || s.task.Storing?)
    ensures SameButExpiry(Advance(cfg, s, now, io), Advance(cfg, t, now', io))
  {
    var mac := s.task.req.mac;
    SameInUse(s.leases, t.leases);
    if s.task.Storing? {
      SameStore(cfg, s.leases, t.leases, mac, s.task.ip, now, now');
    } else if mac in s.leases {
      SameStore(cfg, s.leases, t.leases, mac, s.leases[mac].ip, now, now');
    }
  }

  lemma ScanIgnoresClock(cfg: Config, s: State, t: State, now: nat, now': nat, io: bool)
    requires SameButExpiry(s, t) && s.task.Scanning?
    ensures SameButExpiry(Advance(cfg, s, now, io), Advance(cfg, t, now', io))
  {
    SameInUse(s.leases, t.leases);
    assert FreshIp(cfg, s.leases) == FreshIp(cfg, t.leases);
  }

  lemma BootIgnoresClock(cfg: Config, s: State, t: State, now: nat, now': nat, io: bool)
    requires SameButExpiry(s, t)
    requires s.task.Registering? || s.task.Writing? || s.task.CheckingStatic?
    ensures SameButExpiry(Advance(cfg, s, now, io), Advance(cfg, t, now', io))
  {
  }

  lemma AnswerIgnoresClock(cfg: Config, s: State, t: State, now: nat, now': nat, io: bool)
    requires SameButExpiry(s, t)
    requires s.task.Idle? || s.task.Picking? || s.task.Replying?
    ensures SameButExpiry(Advance(cfg, s, now, io), Advance(cfg, t, now', io))
  {
  }

  lemma AdvanceIgnoresClock(cfg: Config, s: State, t: State, now: nat, now': nat, io: bool)
    requires SameButExpiry(s, t)
    ensures SameButExpiry(Advance(cfg, s, now, io), Advance(cfg, t, now', io))
  {
    if s.task.CheckingLease? || s.task.Storing? {
      StoringIgnoresClock(cfg, s, t, now, now', io);
    } else if s.task.Scanning? {
      ScanIgnoresClock(cfg, s, t, now, now', io);
    } else if s.task.Registering? || s.task.Writing? || s.task.CheckingStatic? {
      BootIgnoresClock(cfg, s, t, now, now', io);
    } else {
      AnswerIgnoresClock(cfg, s, t, now, now', io);
    }
  }

  /** The times of the steps influence nothing but the recorded expiry times: two runs that differ only
      in their clocks send the same replies and lease the same addresses.  So no lease ever expires. */
  lemma {:induction false} ClockIrrelevant(cfg: Config, s: State, t: State, a: seq<Action>, b: seq<Action>)
    requires SameButExpiry(s, t)
    requires |a| == |b| && forall i :: 0 <= i < |a| ==> SameStep(a[i], b[i])
    ensures SameButExpiry(Exec(cfg, s, a), Exec(cfg, t, b))
    decreases |a|
  {
    if a != [] {
      if a[0].Proceed? {
        AdvanceIgnoresClock(cfg, s, t, a[0].now, b[0].now, a[0].io);
      }
      ClockIrrelevant(cfg, Step(cfg, s, a[0]), Step(cfg, t, b[0]), a[1..], b[1..]);
    }
  }

  // ---------------------------------------------------------------------------
  // Progress and exhaustion
  // ---------------------------------------------------------------------------

  lemma {:induction false} ImageSize(leases: LeaseTable)
    ensures |InUse(leases)| <= |leases|
  {
    if leases.Keys != {} {
      var m :| m in leases;
      var rest := map k | k in leases && k != m :: leases[k];
      assert rest.Keys == leases.Keys - {m};
      ImageSize(rest);
      forall ip | ip in InUse(leases) ensures ip in InUse(rest) + {leases[m].ip} {
        var k :| k in leases && leases[k].ip == ip;
        assert k != m ==> k in rest && rest[k].ip == ip;
      }
      assert InUse(leases) == InUse(rest) + {leases[m].ip};
    }
  }

  function Interval(from: nat, size: nat): (r: set<int>)
    ensures forall i :: i in r <==> from <= i < from + size
    ensures |r| == size
  {
    if size == 0 then {} else Interval(from, size - 1) + {from + size - 1}
  }

  lemma SubsetSize(a: set<int>, b: set<int>)
    requires a <= b
    ensures |a| <= |b|
  {
    assert b == a + (b - a);
  }

  /** The scan succeeds whenever there are fewer leases than pool addresses. */
  lemma FreshWhileRoom(cfg: Config, leases: LeaseTable)
    requires |leases| < PoolSize(cfg)
    ensures FreshIp(cfg, leases).Some?
  {
    if FreshIp(cfg, leases).None? {
      var pool := Interval(cfg.poolStart, PoolSize(cfg));
      forall i | i in pool ensures i in InUse(leases) {
        var ip: u32 := i;
      }
      var inUse: set<int> := InUse(leases);
      SubsetSize(pool, inUse);
      ImageSize(leases);
    }
  }

  /** No registration in the run carries a static address. */
  ghost predicate NoStatics(actions: seq<Action>) {
    forall a :: a in actions && a.BootRegister? ==> a.entry.ip.None?
  }

  ghost predicate Leased(cfg: Config, order: seq<Mac>, leases: LeaseTable, k: nat)
    requires k < |order|
  {
    order[k] in leases && leases[order[k]].ip == cfg.poolStart + k
  }

  /** The k-th MAC in `order` holds `pool_start + k`, and no others hold anything. */
  ghost predicate Filled(cfg: Config, order: seq<Mac>, leases: LeaseTable) {
    && (forall m :: m in leases <==> m in order)
    && (forall i, j :: 0 <= i < j < |order| ==> order[i] != order[j])
    && |order| <= PoolSize(cfg)
    && forall k :: 0 <= k < |order| ==> Leased(cfg, order, leases, k)
  }

  ghost predicate FillInv(cfg: Config, s: State) {
    && (forall m :: m in s.boot ==> s.boot[m].ip.None?)
    && Filled(cfg, s.order, s.leases)
    && match s.task
       case Scanning(req) => req.mac !in s.leases
       case Storing(req, ip) =>
         if req.mac in s.leases then s.leases[req.mac].ip == ip
         else ip == cfg.poolStart + |s.order| && |s.order| < PoolSize(cfg)
       case _ => true
  }

  lemma InitialSegmentInUse(cfg: Config, s: State)
    requires FillInv(cfg, s)
    ensures forall ip :: ip in InUse(s.leases) <==> cfg.poolStart <= ip < cfg.poolStart + |s.order|
  {
    forall ip: u32 | ip in InUse(s.leases) ensures cfg.poolStart <= ip < cfg.poolStart + |s.order| {
      var m :| m in s.leases && s.leases[m].ip == ip;
      var k :| 0 <= k < |s.order| && s.order[k] == m;
      assert Leased(cfg, s.order, s.leases, k);
    }
    forall ip: u32 | cfg.poolStart <= ip < cfg.poolStart + |s.order| ensures ip in InUse(s.leases) {
      assert Leased(cfg, s.order, s.leases, ip - cfg.poolStart);
    }
  }

  /** The scan's answer in a state whose leases are an initial segment. */
  lemma FreshIsNext(cfg: Config, s: State)
    requires FillInv(cfg, s)
    ensures FreshIp(cfg, s.leases)
      == if |s.order| < PoolSize(cfg) then Some(cfg.poolStart + |s.order|) else None
  {
    InitialSegmentInUse(cfg, s);
    if |s.order| < PoolSize(cfg) {
      var next: u32 := cfg.poolStart + |s.order|;
      assert next !in InUse(s.leases);
    } else {
      assert forall ip: u32 :: InPool(cfg, ip) ==> ip in InUse(s.leases);
    }
  }

  lemma RenewKeepsFill(cfg: Config, order: seq<Mac>, leases: LeaseTable, mac: Mac, now: nat)
    requires Filled(cfg, order, leases) && mac in leases
    ensures Filled(cfg, order, StoreLease(cfg, leases, mac, leases[mac].ip, now))
  {
    var after := StoreLease(cfg, leases, mac, leases[mac].ip, now);
    forall k | 0 <= k < |order| ensures Leased(cfg, order, after, k) {
      assert Leased(cfg, order, leases, k);
    }
  }

  lemma GrantKeepsFill(cfg: Config, order: seq<Mac>, leases: LeaseTable, mac: Mac, now: nat)
    requires Filled(cfg, order, leases) && mac !in leases && |order| < PoolSize(cfg)
    ensures Filled(cfg, order + [mac], StoreLease(cfg, leases, mac, cfg.poolStart + |order|, now))
  {
    var after, longer := StoreLease(cfg, leases, mac, cfg.poolStart + |order|, now), order + [mac];
    forall k | 0 <= k < |longer| ensures Leased(cfg, longer, after, k) {
      if k < |order| { assert Leased(cfg, order, leases, k); }
    }
  }

  lemma StoringKeepsFill(cfg: Config, s: State, now: nat, io: bool)
    requires FillInv(cfg, s) && s.task.Storing?
    ensures FillInv(cfg, Advance(cfg, s, now, io))
  {
    var t, mac := Advance(cfg, s, now, io), s.task.req.mac;
    assert Filled(cfg, t.order, t.leases) by {
      if mac in s.leases {
        RenewKeepsFill(cfg, s.order, s.leases, mac, now);
      } else {
        GrantKeepsFill(cfg, s.order, s.leases, mac, now);
      }
    }
  }

  lemma CheckingKeepsFill(cfg: Config, s: State, now: nat, io: bool)
    requires FillInv(cfg, s) && s.task.CheckingLease?
    ensures FillInv(cfg, Advance(cfg, s, now, io))
  {
    if s.task.req.mac in s.leases {
      RenewKeepsFill(cfg, s.order, s.leases, s.task.req.mac, now);
    }
  }

  lemma AdvanceKeepsFill(cfg: Config, s: State, now: nat, io: bool)
    requires FillInv(cfg, s)
    ensures FillInv(cfg, Advance(cfg, s, now, io))
  {
    if s.task.Storing? {
      StoringKeepsFill(cfg, s, now, io);
    } else if s.task.CheckingLease? {
      CheckingKeepsFill(cfg, s, now, io);
    } else if s.task.Scanning? {
      FreshIsNext(cfg, s);
    }
  }

  lemma {:induction false} RunKeepsFill(cfg: Config, s: State, actions: seq<Action>)
    requires FillInv(cfg, s) && NoStatics(actions)
    ensures FillInv(cfg, Exec(cfg, s, actions))
    decreases |actions|
  {
    if actions != [] {
      var a := actions[0];
      var t := Step(cfg, s, a);
      assert forall b :: b in actions[1..] ==> b in actions;
      if a.Proceed? {
        AdvanceKeepsFill(cfg, s, a.now, a.io);
      } else {
        assert a in actions;
      }
      RunKeepsFill(cfg, t, actions[1..]);
    }
  }

  /** Without static addresses: the k-th distinct MAC to get a lease, from 0, holds `pool_start + k`;
      the leased addresses are an initial segment of the pool; and the scan, which only MACs without a
      lease reach, refuses exactly when every pool address is leased. */
  lemma PoolFillsInOrder(cfg: Config, actions: seq<Action>)
    requires NoStatics(actions)
    ensures var s := Exec(cfg, INIT, actions);
      && (forall m :: m in s.leases <==> m in s.order)
      && (forall i, j :: 0 <= i < j < |s.order| ==> s.order[i] != s.order[j])
      && (forall k :: 0 <= k < |s.order| ==> Leased(cfg, s.order, s.leases, k))
      && (forall ip :: ip in InUse(s.leases) <==> cfg.poolStart <= ip < cfg.poolStart + |s.leases|)
      && (s.task.Scanning? ==> s.task.req.mac !in s.leases)
      && (FreshIp(cfg, s.leases).None? <==> |s.leases| == PoolSize(cfg))
  {
    var s := Exec(cfg, INIT, actions);
    RunKeepsFill(cfg, INIT, actions);
    InitialSegmentInUse(cfg, s);
    FreshIsNext(cfg, s);
    OrderSize(s.order, s.leases);
  }

  lemma {:induction false} OrderSize(order: seq<Mac>, leases: LeaseTable)
    requires forall i, j :: 0 <= i < j < |order| ==> order[i] != order[j]
    requires forall m :: m in leases <==> m in order
    ensures |leases| == |order|
  {
    DistinctSize(order);
    assert leases.Keys == set m | m in order;
  }

  lemma {:induction false} DistinctSize(order: seq<Mac>)
    requires forall i, j :: 0 <= i < j < |order| ==> order[i] != order[j]
    ensures |set m | m in order| == |order|
  {
    if order == [] {
      assert (set m | m in order) == {};
    } else {
      var n := |order| - 1;
      var front := order[..n];
      DistinctSize(front);
      assert order[n] !in front;
      assert (set m | m in order) == (set m | m in front) + {order[n]};
    }
  }
}
