/** The boot hand-off over every run: the boot file that a DHCP reply names is, under the TFTP root, the
    script rendered for that MAC, and stays so. */
module HandOff {
  import opened Bytes
  import opened MacText
  import opened TftpPath
  import opened BootScript
  import opened PxeSystem

  /** A script to follow through a run: whose it is, the entry behind it, its file and its text. */
  datatype Script = Script(mac: Mac, entry: BootEntry, path: Text, text: Text)

  function ScriptOf(cfg: Config, mac: Mac): Script {
    Script(mac, DiscoveryEntry(mac), ScriptFile(cfg.tftpRoot, mac), RenderIpxeScript(cfg, mac, DiscoveryEntry(mac)))
  }

  /** Writing this entry's script cannot touch the file of `t`. */
  predicate Elsewhere(cfg: Config, t: Script, entry: BootEntry) {
    entry.ipxeScript.Some? ==> SanitizePath(cfg.tftpRoot, entry.ipxeScript.value) != Some(t.path)
  }

  /** An entry that may stand for `m`, as far as `t` is concerned. */
  predicate EntryOk(cfg: Config, t: Script, m: Mac, entry: BootEntry) {
    if m == t.mac then entry == t.entry else Elsewhere(cfg, t, entry)
  }

  /** Along the run, the MAC of `t` is not registered otherwise and no other MAC over its file, and the file
      system lets the script be written. */
  predicate Undisturbed(cfg: Config, s: State, actions: seq<Action>, t: Script)
    decreases |actions|
  {
    actions == []
    || (UndisturbedStep(cfg, s, actions[0], t) && Undisturbed(cfg, Step(cfg, s, actions[0]), actions[1..], t))
  }

  predicate UndisturbedStep(cfg: Config, s: State, a: Action, t: Script) {
    match a
    case BootRegister(m, entry) => EntryOk(cfg, t, m, entry)
    case Proceed(_, io) => s.task.Writing? && s.task.req.mac == t.mac ==> io
    case _ => true
  }

  predicate HasScript(files: Files, t: Script) {
    t.path in files && files[t.path] == t.text
  }

  predicate IsHandOff(files: Files, t: Script, bootFile: Text) {
    HasScript(files, t) && t.entry.ipxeScript == Some(bootFile)
  }

  /** What the DHCP task has achieved for the MAC of `t` by the step it is at. */
  predicate TaskOk(cfg: Config, s: State, t: Script) {
    match s.task
    case Idle => true
    case Registering(_) => true
    case Writing(req, entry) => EntryOk(cfg, t, req.mac, entry) && (req.mac == t.mac ==> t.mac in s.boot)
    case Replying(req, _, bootFile) => req.mac == t.mac ==> IsHandOff(s.files, t, bootFile)
    case _ => s.task.req.mac == t.mac ==> t.mac in s.boot && HasScript(s.files, t)
  }

  ghost predicate TablesOk(cfg: Config, s: State, t: Script) {
    && (t.mac in s.boot || t.entry == DiscoveryEntry(t.mac))
    && (forall m :: m in s.boot ==> EntryOk(cfg, t, m, s.boot[m]))
    && (forall p :: p in s.pending ==> EntryOk(cfg, t, p.0, p.1))
  }

  ghost predicate RepliesOk(files: Files, replies: seq<Sent>, t: Script, first: nat) {
    forall i :: first <= i < |replies| && replies[i].mac == t.mac ==> IsHandOff(files, t, replies[i].reply.bootFile)
  }

  /** What holds from the reply with index `first` on. */
  ghost predicate HandOffInv(cfg: Config, s: State, t: Script, first: nat) {
    TablesOk(cfg, s, t) && TaskOk(cfg, s, t) && RepliesOk(s.files, s.replies, t, first)
  }

  /** What makes `t` a script to follow: its entry's path is its file, its text is rendered from that entry,
      and no other MAC's discovery entry leads to the same file. */
  ghost predicate Followed(cfg: Config, t: Script) {
    && t.entry.ipxeScript.Some?
    && SanitizePath(cfg.tftpRoot, t.entry.ipxeScript.value) == Some(t.path)
    && t.text == RenderIpxeScript(cfg, t.mac, t.entry)
    && forall m :: m != t.mac ==> Elsewhere(cfg, t, DiscoveryEntry(m))
  }

  lemma ScriptOfIsFollowed(cfg: Config, mac: Mac)
    ensures Followed(cfg, ScriptOf(cfg, mac))
  {
    var t := ScriptOf(cfg, mac);
    DefaultScriptPathIsSafe(cfg.tftpRoot, mac);
    forall m: Mac | m != mac ensures Elsewhere(cfg, t, DiscoveryEntry(m)) {
      DefaultScriptPathIsSafe(cfg.tftpRoot, m);
      if ScriptFile(cfg.tftpRoot, m) == t.path {
        ScriptFileInjective(cfg.tftpRoot, m, mac);
      }
    }
  }

  /** Writing a harmless entry keeps the script; writing the MAC's own entry creates it. */
  lemma WriteKeepsScript(cfg: Config, files: Files, t: Script, m: Mac, entry: BootEntry, io: bool)
    requires Followed(cfg, t) && EntryOk(cfg, t, m, entry)
    ensures HasScript(files, t) || (m == t.mac && io) ==> HasScript(WriteIpxeScript(cfg, files, m, entry, io).files, t)
  {
  }

  lemma RegisterKeepsHandOff(cfg: Config, s: State, now: nat, io: bool, t: Script, first: nat)
    requires Followed(cfg, t) && HandOffInv(cfg, s, t, first) && s.task.Registering?
    ensures HandOffInv(cfg, Advance(cfg, s, now, io), t, first)
  {
    assert EntryOk(cfg, t, s.task.req.mac, EntryOf(s.boot, s.task.req.mac));
  }

  lemma WriteKeepsHandOff(cfg: Config, s: State, now: nat, io: bool, t: Script, first: nat)
    requires Followed(cfg, t) && HandOffInv(cfg, s, t, first) && s.task.Writing? && (s.task.req.mac == t.mac ==> io)
    ensures HandOffInv(cfg, Advance(cfg, s, now, io), t, first)
  {
    WriteKeepsScript(cfg, s.files, t, s.task.req.mac, s.task.entry, io);
  }

  lemma ReplyKeepsHandOff(cfg: Config, s: State, now: nat, io: bool, t: Script, first: nat)
    requires HandOffInv(cfg, s, t, first) && s.task.Replying?
    ensures HandOffInv(cfg, Advance(cfg, s, now, io), t, first)
  {
  }

  lemma LeaseKeepsHandOff(cfg: Config, s: State, now: nat, io: bool, t: Script, first: nat)
    requires HandOffInv(cfg, s, t, first)
    requires s.task.CheckingStatic? || s.task.CheckingLease? || s.task.Storing?
    ensures HandOffInv(cfg, Advance(cfg, s, now, io), t, first)
  {
  }

  lemma ScanKeepsHandOff(cfg: Config, s: State, now: nat, io: bool, t: Script, first: nat)
    requires HandOffInv(cfg, s, t, first) && s.task.Scanning?
    ensures HandOffInv(cfg, Advance(cfg, s, now, io), t, first)
  {
  }

  lemma PickKeepsHandOff(cfg: Config, s: State, now: nat, io: bool, t: Script, first: nat)
    requires Followed(cfg, t) && HandOffInv(cfg, s, t, first) && s.task.Picking?
    ensures HandOffInv(cfg, Advance(cfg, s, now, io), t, first)
  {
  }

  lemma AdvanceKeepsHandOff(cfg: Config, s: State, now: nat, io: bool, t: Script, first: nat)
    requires Followed(cfg, t) && HandOffInv(cfg, s, t, first) && UndisturbedStep(cfg, s, Proceed(now, io), t)
    ensures HandOffInv(cfg, Advance(cfg, s, now, io), t, first)
  {
    match s.task
    case Idle =>
    case Registering(_) => RegisterKeepsHandOff(cfg, s, now, io, t, first);
    case Writing(_, _) => WriteKeepsHandOff(cfg, s, now, io, t, first);
    case Scanning(_) => ScanKeepsHandOff(cfg, s, now, io, t, first);
    case Picking(_, _) => PickKeepsHandOff(cfg, s, now, io, t, first);
    case Replying(_, _, _) => ReplyKeepsHandOff(cfg, s, now, io, t, first);
    case _ => LeaseKeepsHandOff(cfg, s, now, io, t, first);
  }

  lemma StepKeepsHandOff(cfg: Config, s: State, a: Action, t: Script, first: nat)
    requires Followed(cfg, t) && HandOffInv(cfg, s, t, first) && UndisturbedStep(cfg, s, a, t)
    ensures HandOffInv(cfg, Step(cfg, s, a), t, first)
  {
    match a
    case Proceed(now, io) => AdvanceKeepsHandOff(cfg, s, now, io, t, first);
    case BootWrite(m, entry, io) =>
      if (m, entry) in s.pending {
        WriteKeepsScript(cfg, s.files, t, m, entry, io);
      }
    case _ =>
  }

  lemma {:induction false} RunKeepsHandOff(cfg: Config, s: State, actions: seq<Action>, t: Script, first: nat)
    requires Followed(cfg, t) && HandOffInv(cfg, s, t, first) && Undisturbed(cfg, s, actions, t)
    ensures HandOffInv(cfg, Exec(cfg, s, actions), t, first)
    decreases |actions|
  {
    if actions != [] {
      StepKeepsHandOff(cfg, s, actions[0], t, first);
      RunKeepsHandOff(cfg, Step(cfg, s, actions[0]), actions[1..], t, first);
    }
  }

  /** This boot file sanitizes to a path under the TFTP root that holds the script rendered for `mac` from `entry`. */
  predicate NamesScript(cfg: Config, files: Files, mac: Mac, entry: BootEntry, bootFile: Text) {
    && entry.ipxeScript == Some(bootFile)
    && SanitizePath(cfg.tftpRoot, bootFile).Some?
    && var path := SanitizePath(cfg.tftpRoot, bootFile).value;
       cfg.tftpRoot <= path && path in files && files[path] == RenderIpxeScript(cfg, mac, entry)
  }

  /** In every state of an undisturbed run, and so also after any later requests from other MACs: each
      reply ever sent to `mac` names its discovery script. */
  lemma HandOffHolds(cfg: Config, actions: seq<Action>, mac: Mac)
    requires Undisturbed(cfg, INIT, actions, ScriptOf(cfg, mac))
    ensures var s := Exec(cfg, INIT, actions);
      forall r :: r in s.replies && r.mac == mac ==>
        && r.reply.bootFile == DefaultScriptPath(mac)
        && NamesScript(cfg, s.files, mac, DiscoveryEntry(mac), r.reply.bootFile)
  {
    var s, t := Exec(cfg, INIT, actions), ScriptOf(cfg, mac);
    ScriptOfIsFollowed(cfg, mac);
    RunKeepsHandOff(cfg, INIT, actions, t, 0);
    SanitizeContains(cfg.tftpRoot, DefaultScriptPath(mac));
    forall r | r in s.replies && r.mac == mac
      ensures r.reply.bootFile == DefaultScriptPath(mac)
      ensures NamesScript(cfg, s.files, mac, DiscoveryEntry(mac), r.reply.bootFile)
    {
      var i :| 0 <= i < |s.replies| && s.replies[i] == r;
      assert IsHandOff(s.files, t, r.reply.bootFile);
    }
  }

  /** A state in which `t` may be registered: the task is not at a request of that MAC, and neither it nor
      any other entry is about to write the same file. */
  ghost predicate Ready(cfg: Config, s: State, t: Script) {
    && (!s.task.Idle? ==> s.task.req.mac != t.mac)
    && (s.task.Writing? ==> Elsewhere(cfg, t, s.task.entry))
    && (forall m :: m in s.boot && m != t.mac ==> Elsewhere(cfg, t, s.boot[m]))
    && (forall p :: p in s.pending ==> EntryOk(cfg, t, p.0, p.1))
  }

  /** The same for a registered entry: from its registration on, in an undisturbed run, each reply to its
      MAC names the registered script, and that file holds what was rendered from the entry. */
  lemma RegisteredHandOff(cfg: Config, s: State, t: Script, actions: seq<Action>)
    requires Followed(cfg, t) && Ready(cfg, s, t)
    requires Undisturbed(cfg, Step(cfg, s, BootRegister(t.mac, t.entry)), actions, t)
    ensures var u := Exec(cfg, Step(cfg, s, BootRegister(t.mac, t.entry)), actions);
      forall i :: |s.replies| <= i < |u.replies| && u.replies[i].mac == t.mac ==>
        NamesScript(cfg, u.files, t.mac, t.entry, u.replies[i].reply.bootFile)
  {
    RunKeepsHandOff(cfg, Step(cfg, s, BootRegister(t.mac, t.entry)), actions, t, |s.replies|);
    SanitizeContains(cfg.tftpRoot, t.entry.ipxeScript.value);
  }

  /** No registrations at all, and every write let through, is the simplest undisturbed run. */
  lemma {:induction false} NoRegistrationsUndisturbed(cfg: Config, s: State, actions: seq<Action>, t: Script)
    requires forall a :: a in actions ==> !a.BootRegister? && (a.Proceed? ==> a.io)
    ensures Undisturbed(cfg, s, actions, t)
    decreases |actions|
  {
    if actions != [] {
      assert actions[0] in actions && forall a :: a in actions[1..] ==> a in actions;
      NoRegistrationsUndisturbed(cfg, Step(cfg, s, actions[0]), actions[1..], t);
    }
  }
}
