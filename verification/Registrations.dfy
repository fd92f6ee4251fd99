/** What a registered boot entry makes the DHCP task answer, over every run. */
module Registrations {
  import opened Bytes
  import opened MacText
  import opened BootScript
  import opened PxeSystem

  /** The run registers nothing for `mac`. */
  ghost predicate NotRegistered(actions: seq<Action>, mac: Mac) {
    forall a :: a in actions && a.BootRegister? ==> a.mac != mac
  }

  /** The run after a first part and a registration. */
  function Registering(cfg: Config, before: seq<Action>, mac: Mac, entry: BootEntry): State {
    Step(cfg, Exec(cfg, INIT, before), BootRegister(mac, entry))
  }

  // ---------------------------------------------------------------------------
  // The boot file
  // ---------------------------------------------------------------------------

  predicate Carries(cfg: Config, entry: BootEntry, bootFile: Text) {
    && (entry.ipxeScript.Some? ==> bootFile == entry.ipxeScript.value)
    && (entry.ipxeScript.None? ==> bootFile == cfg.bootFile)
  }

  /** From the reply with index `first` on, `mac` is told the entry's boot file. */
  ghost predicate BootFileInv(cfg: Config, s: State, mac: Mac, entry: BootEntry, first: nat) {
    && mac in s.boot && s.boot[mac] == entry
    && (s.task.Replying? && s.task.req.mac == mac && |s.replies| >= first ==> Carries(cfg, entry, s.task.bootFile))
    && forall i :: first <= i < |s.replies| && s.replies[i].mac == mac ==>
         Carries(cfg, entry, s.replies[i].reply.bootFile)
  }

  lemma StepKeepsBootFile(cfg: Config, s: State, a: Action, mac: Mac, entry: BootEntry, first: nat)
    requires BootFileInv(cfg, s, mac, entry, first)
    requires a.BootRegister? ==> a.mac != mac
    ensures var t := Step(cfg, s, a);
      BootFileInv(cfg, t, mac, entry, first)
  {
  }

  lemma {:induction false} RunKeepsBootFile(
      cfg: Config, s: State, actions: seq<Action>, mac: Mac, entry: BootEntry, first: nat)
    requires BootFileInv(cfg, s, mac, entry, first)
    requires NotRegistered(actions, mac)
    ensures BootFileInv(cfg, Exec(cfg, s, actions), mac, entry, first)
    decreases |actions|
  {
    if actions != [] {
      assert actions[0] in actions && forall a :: a in actions[1..] ==> a in actions;
      StepKeepsBootFile(cfg, s, actions[0], mac, entry, first);
      RunKeepsBootFile(cfg, Step(cfg, s, actions[0]), actions[1..], mac, entry, first);
    }
  }

  /** Once an entry is registered for a MAC, and until the next registration for it, every reply whose boot
      file is picked from then on carries the entry's script, or the configured boot file if it has none.
      Only a reply that was picked before, and is the next to go out, may differ. */
  lemma RegisteredBootFile(cfg: Config, before: seq<Action>, mac: Mac, entry: BootEntry, after: seq<Action>)
    requires NotRegistered(after, mac)
    ensures var s := Exec(cfg, INIT, before);
      var t := Exec(cfg, Registering(cfg, before, mac, entry), after);
      var picked := if s.task.Replying? && s.task.req.mac == mac then 1 else 0;
      forall i :: |s.replies| + picked <= i < |t.replies| && t.replies[i].mac == mac ==>
        && (entry.ipxeScript.Some? ==> t.replies[i].reply.bootFile == entry.ipxeScript.value)
        && (entry.ipxeScript.None? ==> t.replies[i].reply.bootFile == cfg.bootFile)
  {
    var s := Exec(cfg, INIT, before);
    var first := |s.replies| + (if s.task.Replying? && s.task.req.mac == mac then 1 else 0);
    RunKeepsBootFile(cfg, Registering(cfg, before, mac, entry), after, mac, entry, first);
  }

  // ---------------------------------------------------------------------------
  // The static address
  // ---------------------------------------------------------------------------

  /** The task has looked for a static address already. */
  predicate PastStatic(task: Task) {
    !task.Idle? && !task.Registering? && !task.Writing? && !task.CheckingStatic?
  }

  /** The task is bound to answer with `ip`. */
  predicate BoundTo(task: Task, ip: u32) {
    match task
    case Storing(_, a) => a == ip
    case Picking(_, a) => a == ip
    case Replying(_, a, _) => a == ip
    case _ => !PastStatic(task)
  }

  /** From the reply with index `first` on, `mac` is told `ip`. */
  ghost predicate AddressInv(s: State, mac: Mac, ip: u32, first: nat) {
    && mac in s.boot && s.boot[mac].ip == Some(ip)
    && (!s.task.Idle? && s.task.req.mac == mac && |s.replies| >= first ==> BoundTo(s.task, ip))
    && forall i :: first <= i < |s.replies| && s.replies[i].mac == mac ==> s.replies[i].reply.yiaddr == ip
  }

  lemma AllocationKeepsAddress(cfg: Config, s: State, now: nat, io: bool, mac: Mac, ip: u32, first: nat)
    requires AddressInv(s, mac, ip, first)
    requires s.task.CheckingStatic? || s.task.CheckingLease? || s.task.Scanning? || s.task.Storing?
    ensures AddressInv(Advance(cfg, s, now, io), mac, ip, first)
  {
  }

  lemma StepKeepsAddress(cfg: Config, s: State, a: Action, mac: Mac, ip: u32, first: nat)
    requires AddressInv(s, mac, ip, first)
    requires a.BootRegister? ==> a.mac != mac
    ensures AddressInv(Step(cfg, s, a), mac, ip, first)
  {
    if a.Proceed? && PastStatic(s.task) && !s.task.Picking? && !s.task.Replying? {
      AllocationKeepsAddress(cfg, s, a.now, a.io, mac, ip, first);
    }
  }

  lemma {:induction false} RunKeepsAddress(
      cfg: Config, s: State, actions: seq<Action>, mac: Mac, ip: u32, first: nat)
    requires AddressInv(s, mac, ip, first) && NotRegistered(actions, mac)
    ensures AddressInv(Exec(cfg, s, actions), mac, ip, first)
    decreases |actions|
  {
    if actions != [] {
      assert actions[0] in actions && forall a :: a in actions[1..] ==> a in actions;
      StepKeepsAddress(cfg, s, actions[0], mac, ip, first);
      RunKeepsAddress(cfg, Step(cfg, s, actions[0]), actions[1..], mac, ip, first);
    }
  }

  /** Once an entry with a static address is registered for a MAC, and until the next registration for it,
      every reply whose address is picked from then on carries that address, in the pool or not, leased
      to others or not. */
  lemma RegisteredAddress(cfg: Config, before: seq<Action>, mac: Mac, entry: BootEntry, after: seq<Action>)
    requires NotRegistered(after, mac) && entry.ip.Some?
    ensures var s := Exec(cfg, INIT, before);
      var t := Exec(cfg, Registering(cfg, before, mac, entry), after);
      var picked := if PastStatic(s.task) && s.task.req.mac == mac then 1 else 0;
      forall i :: |s.replies| + picked <= i < |t.replies| && t.replies[i].mac == mac ==>
        t.replies[i].reply.yiaddr == entry.ip.value
  {
    var s := Exec(cfg, INIT, before);
    var first := |s.replies| + (if PastStatic(s.task) && s.task.req.mac == mac then 1 else 0);
    RunKeepsAddress(cfg, Registering(cfg, before, mac, entry), after, mac, entry.ip.value, first);
  }
}
