/** The DHCP task and the boot-table control plane as one step system.

    A DHCP request is handled in atomic steps, one per lock that the source takes and drops;
    `boot.register` requests run on their own tasks and may come between any two of them.  There is one
    DHCP task, so a second request starts only when the first is through. */
module PxeSystem {
  import opened Bytes
  import opened MacText
  import opened BootScript
  import DhcpWire

  datatype Lease = Lease(ip: u32, expires: nat)

  type BootTable = map<Mac, BootEntry>
  type LeaseTable = map<Mac, Lease>

  type Request = DhcpWire.Request

  /** Where the DHCP task stands: what it has fetched, and the lock it takes next. */
  datatype Task =
    | Idle
    | Registering(req: Request)
    | Writing(req: Request, entry: BootEntry)
    | CheckingStatic(req: Request)
    | CheckingLease(req: Request)
    | Scanning(req: Request)
    | Storing(req: Request, ip: u32)
    | Picking(req: Request, ip: u32)
    | Replying(req: Request, ip: u32, bootFile: Text)

  /** A reply on its way to `target`. */
  datatype Sent = Sent(mac: Mac, target: u32, reply: DhcpWire.Reply)

  /** `pending` holds registrations whose script is not written yet; `replies` and `order`, the MACs in
      the order of their first lease, only record what happened. */
  datatype State = State(
    boot: BootTable, leases: LeaseTable, files: Files, task: Task,
    pending: multiset<(Mac, BootEntry)>, replies: seq<Sent>, order: seq<Mac>)

  datatype Action =
    | Receive(req: Request)
    | Proceed(now: nat, io: bool)
    | BootRegister(mac: Mac, entry: BootEntry)
    | BootWrite(mac: Mac, entry: BootEntry, io: bool)

  // ---------------------------------------------------------------------------
  // The pool
  // ---------------------------------------------------------------------------

  predicate InPool(cfg: Config, ip: u32) {
    cfg.poolStart <= ip <= cfg.poolEnd
  }

  function PoolSize(cfg: Config): nat {
    if cfg.poolStart <= cfg.poolEnd then cfg.poolEnd - cfg.poolStart + 1 else 0
  }

  function InUse(leases: LeaseTable): set<u32> {
    set m | m in leases :: leases[m].ip
  }

  /** `(from..=end).find(|ip| !in_use.contains(ip))` */
  function FirstFree(inUse: set<u32>, from: nat, end: u32): (r: Option<u32>)
    ensures r.Some? ==> from <= r.value <= end && r.value !in inUse
    ensures forall ip: u32 :: from <= ip <= end && (r.Some? ==> ip < r.value) ==> ip in inUse
    decreases end + 1 - from
  {
    if from > end then None
    else if from !in inUse then Some(from)
    else FirstFree(inUse, from + 1, end)
  }

  function FreshIp(cfg: Config, leases: LeaseTable): Option<u32> {
    FirstFree(InUse(leases), cfg.poolStart, cfg.poolEnd)
  }

  // ---------------------------------------------------------------------------
  // Steps
  // ---------------------------------------------------------------------------

  function EntryOf(boot: BootTable, mac: Mac): BootEntry {
    if mac in boot then boot[mac] else DiscoveryEntry(mac)
  }

  function StaticIp(boot: BootTable, mac: Mac): Option<u32> {
    if mac in boot then boot[mac].ip else None
  }

  function BootFileFor(cfg: Config, boot: BootTable, mac: Mac): Text {
    if mac in boot && boot[mac].ipxeScript.Some? then boot[mac].ipxeScript.value else cfg.bootFile
  }

  function StoreLease(cfg: Config, leases: LeaseTable, mac: Mac, ip: u32, now: nat): LeaseTable {
    leases[mac := Lease(ip, now + cfg.leaseSecs)]
  }

  function ReplyTo(cfg: Config, req: Request, ip: u32, bootFile: Text): Sent {
    Sent(req.mac,
         if req.broadcast then 0xFFFF_FFFF else ip,
         DhcpWire.Reply(
           if req.msgType == DhcpWire.DHCPDISCOVER then DhcpWire.DHCPOFFER else DhcpWire.DHCPACK,
           req.xid, req.chaddr, ip, cfg.serverIp, cfg.subnetMask, cfg.gateway, cfg.leaseSecs, bootFile))
  }

  /** The DHCP task's next atomic step. */
  function Advance(cfg: Config, s: State, now: nat, io: bool): State {
    match s.task
    case Idle => s
    case Registering(req) =>
      var entry := EntryOf(s.boot, req.mac);
      s.(boot := s.boot[req.mac := entry], task := Writing(req, entry))
    case Writing(req, entry) =>
      s.(files := WriteIpxeScript(cfg, s.files, req.mac, entry, io).files, task := CheckingStatic(req))
    case CheckingStatic(req) =>
      var ip := StaticIp(s.boot, req.mac);
      s.(task := if ip.Some? then Storing(req, ip.value) else CheckingLease(req))
    case CheckingLease(req) =>
      if req.mac in s.leases then
        var ip := s.leases[req.mac].ip;
        s.(leases := StoreLease(cfg, s.leases, req.mac, ip, now), task := Storing(req, ip))
      else s.(task := Scanning(req))
    case Scanning(req) =>
      var ip := FreshIp(cfg, s.leases);
      s.(task := if ip.Some? then Storing(req, ip.value) else Idle)
    case Storing(req, ip) =>
      s.(leases := StoreLease(cfg, s.leases, req.mac, ip, now),
         order := if req.mac in s.leases then s.order else s.order + [req.mac],
         task := Picking(req, ip))
    case Picking(req, ip) =>
      s.(task := Replying(req, ip, BootFileFor(cfg, s.boot, req.mac)))
    case Replying(req, ip, bootFile) =>
      s.(replies := s.replies + [ReplyTo(cfg, req, ip, bootFile)], task := Idle)
  }

  predicate Answers(req: Request) {
    req.msgType == DhcpWire.DHCPDISCOVER || req.msgType == DhcpWire.DHCPREQUEST
  }

  function Step(cfg: Config, s: State, a: Action): State {
    match a
    case Receive(req) => if s.task.Idle? && Answers(req) then s.(task := Registering(req)) else s
    case Proceed(now, io) => Advance(cfg, s, now, io)
    case BootRegister(mac, entry) =>
      s.(boot := s.boot[mac := entry], pending := s.pending + multiset{(mac, entry)})
    case BootWrite(mac, entry, io) =>
      if (mac, entry) in s.pending then
        s.(files := WriteIpxeScript(cfg, s.files, mac, entry, io).files, pending := s.pending - multiset{(mac, entry)})
      else s
  }

  function Exec(cfg: Config, s: State, actions: seq<Action>): State
    decreases |actions|
  {
    if actions == [] then s else Exec(cfg, Step(cfg, s, actions[0]), actions[1..])
  }

  const INIT: State := State(map[], map[], map[], Idle, multiset{}, [], [])

  /** The request that the DHCP task is working on. */
  function Current(task: Task): Option<Request> {
    if task.Idle? then None else Some(task.req)
  }

  // ---------------------------------------------------------------------------
  // One undisturbed request
  // ---------------------------------------------------------------------------

  function StepsLeft(task: Task): nat {
    match task
    case Idle => 0
    case Replying(_, _, _) => 1
    case Picking(_, _) => 2
    case Storing(_, _) => 3
    case Scanning(_) => 4
    case CheckingLease(_) => 5
    case CheckingStatic(_) => 6
    case Writing(_, _) => 7
    case Registering(_) => 8
  }

  /** The DHCP task's request run to its end with nothing in between. */
  function Complete(cfg: Config, s: State, now: nat, io: bool): (t: State)
    ensures t.task.Idle?
    decreases StepsLeft(s.task)
  {
    if s.task.Idle? then s else Complete(cfg, Advance(cfg, s, now, io), now, io)
  }

  /** Running a request to its end is a run of the step system. */
  lemma {:induction false} CompleteIsRun(cfg: Config, s: State, now: nat, io: bool) returns (actions: seq<Action>)
    ensures Exec(cfg, s, actions) == Complete(cfg, s, now, io)
    ensures forall a :: a in actions ==> a == Proceed(now, io)
    decreases StepsLeft(s.task)
  {
    if s.task.Idle? {
      actions := [];
    } else {
      var rest := CompleteIsRun(cfg, Advance(cfg, s, now, io), now, io);
      actions := [Proceed(now, io)] + rest;
      assert actions[1..] == rest;
    }
  }

  /** What `allocate_ip` answers: the static address, else the MAC's lease, else the first free one. */
  function Allocation(cfg: Config, boot: BootTable, leases: LeaseTable, mac: Mac): Option<u32> {
    if StaticIp(boot, mac).Some? then StaticIp(boot, mac)
    else if mac in leases then Some(leases[mac].ip)
    else FreshIp(cfg, leases)
  }

  /** The state behind an allocation that answered `ip`. */
  function Granted(cfg: Config, s: State, req: Request, ip: u32, now: nat): State {
    s.(leases := StoreLease(cfg, s.leases, req.mac, ip, now),
       order := if req.mac in s.leases then s.order else s.order + [req.mac],
       replies := s.replies + [ReplyTo(cfg, req, ip, BootFileFor(cfg, s.boot, req.mac))],
       task := Idle)
  }

  lemma StoringSteps(cfg: Config, s: State, now: nat, io: bool)
    requires s.task.Storing?
    ensures Complete(cfg, s, now, io) == Granted(cfg, s, s.task.req, s.task.ip, now)
  {
    var s1 := Advance(cfg, s, now, io);
    var s2 := Advance(cfg, s1, now, io);
    var s3 := Advance(cfg, s2, now, io);
    assert Complete(cfg, s2, now, io) == Complete(cfg, s3, now, io) == s3;
    assert Complete(cfg, s, now, io) == Complete(cfg, s1, now, io) == Complete(cfg, s2, now, io);
  }

  lemma LeaseSteps(cfg: Config, s: State, req: Request, now: nat, io: bool)
    requires s.task == CheckingLease(req) && StaticIp(s.boot, req.mac).None?
    ensures var ip := Allocation(cfg, s.boot, s.leases, req.mac);
      Complete(cfg, s, now, io) == if ip.None? then s.(task := Idle) else Granted(cfg, s, req, ip.value, now)
  {
    var s1 := Advance(cfg, s, now, io);
    assert Complete(cfg, s, now, io) == Complete(cfg, s1, now, io);
    if req.mac in s.leases {
      StoringSteps(cfg, s1, now, io);
      var ip := s.leases[req.mac].ip;
      assert StoreLease(cfg, s1.leases, req.mac, ip, now) == StoreLease(cfg, s.leases, req.mac, ip, now);
    } else {
      var s2 := Advance(cfg, s1, now, io);
      assert Complete(cfg, s1, now, io) == Complete(cfg, s2, now, io);
      if s2.task.Storing? {
        StoringSteps(cfg, s2, now, io);
      } else {
        assert Complete(cfg, s2, now, io) == s2;
      }
    }
  }

  /** The state behind the registration of a request's MAC. */
  function Registered(cfg: Config, s: State, mac: Mac, io: bool): State {
    var entry := EntryOf(s.boot, mac);
    s.(boot := s.boot[mac := entry], files := WriteIpxeScript(cfg, s.files, mac, entry, io).files)
  }

  lemma DiscoverySteps(cfg: Config, s: State, req: Request, now: nat, io: bool)
    requires s.task.Idle? && Answers(req)
    ensures Complete(cfg, Step(cfg, s, Receive(req)), now, io) ==
      Complete(cfg, Registered(cfg, s, req.mac, io).(task := CheckingStatic(req)), now, io)
  {
    var s0 := Step(cfg, s, Receive(req));
    var s1 := Advance(cfg, s0, now, io);
    var s2 := Advance(cfg, s1, now, io);
    assert Complete(cfg, s0, now, io) == Complete(cfg, s1, now, io) == Complete(cfg, s2, now, io);
  }

  lemma AllocationSteps(cfg: Config, s: State, req: Request, now: nat, io: bool)
    requires s.task == CheckingStatic(req)
    ensures var ip := Allocation(cfg, s.boot, s.leases, req.mac);
      Complete(cfg, s, now, io) == if ip.None? then s.(task := Idle) else Granted(cfg, s, req, ip.value, now)
  {
    var t := Advance(cfg, s, now, io);
    assert Complete(cfg, s, now, io) == Complete(cfg, t, now, io);
    if t.task.Storing? {
      StoringSteps(cfg, t, now, io);
    } else {
      LeaseSteps(cfg, t, req, now, io);
    }
  }

  /** What one undisturbed request does to the state. */
  lemma RequestEffect(cfg: Config, s: State, req: Request, now: nat, io: bool)
    requires s.task.Idle? && Answers(req)
    ensures var t, ip := Registered(cfg, s, req.mac, io), Allocation(cfg, s.boot, s.leases, req.mac);
      && ip == Allocation(cfg, t.boot, t.leases, req.mac)
      && Complete(cfg, Step(cfg, s, Receive(req)), now, io) ==
           if ip.None? then t else Granted(cfg, t, req, ip.value, now)
  {
    DiscoverySteps(cfg, s, req, now, io);
    AllocationSteps(cfg, Registered(cfg, s, req.mac, io).(task := CheckingStatic(req)), req, now, io);
  }
}
