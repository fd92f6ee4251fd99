/** The boot hand-off from end to end: what a machine that boots through pxeboot ends up with. */
module BootChain {
  import opened Bytes
  import opened MacText
  import opened BootScript
  import opened PxeSystem
  import opened HandOff
  import DhcpWire
  import TftpWire
  import TftpServer
  import TftpDaemon
  import TftpTransfer

  lemma DiscoveryHostnameIsOneLine(mac: Mac)
    ensures NEWLINE !in DiscoveryEntry(mac).hostname
  {
    FmtMacShape(mac);
    var prefix := Ascii("node-");
    assert NEWLINE !in prefix;
  }

  /** A machine gets a DHCP reply in an undisturbed run, walks its options for the boot file, and asks for
      that file over TFTP in either transfer mode, in any letter case.  Then the daemon serves the script
      rendered for that MAC; and once the transfer completes, that script is what the machine has
      received, and the agent reads its seed URL out of it exactly when that URL has no blank.  The
      network may do anything to the transfer's packets, as long as the script has at most 65536 blocks
      or no packet arrives 65535 or more blocks late. */
  lemma BootsEndToEnd(
      cfg: Config, actions: seq<Action>, mac: Mac, r: Sent, spelling: Text, transfer: seq<TftpTransfer.Action>)
    requires Undisturbed(cfg, INIT, actions, ScriptOf(cfg, mac))
    requires r in Exec(cfg, INIT, actions).replies && r.mac == mac
    requires TftpDaemon.ServesMode(TftpWire.Lower(spelling))
    requires var script := RenderIpxeScript(cfg, mac, DiscoveryEntry(mac));
      TftpServer.Blocks(script) <= TftpTransfer.WRAP || TftpTransfer.Fresh(script, TftpTransfer.START, transfer, 65535)
    requires var script := RenderIpxeScript(cfg, mac, DiscoveryEntry(mac));
      TftpTransfer.Exec(script, TftpTransfer.START, transfer).server.phase.Complete?
    ensures var files := Exec(cfg, INIT, actions).files;
      var name := DhcpWire.Lookup(DhcpWire.Walk(DhcpWire.ReplyBytes(r.reply)[240..], 0).options, 67);
      && name.Some?
      && var answer := TftpDaemon.AnswerRrq(cfg.tftpRoot, files, TftpWire.RrqBytes(name.value, spelling));
      && answer.Serve?
      && var received := TftpTransfer.Exec(answer.file, TftpTransfer.START, transfer).reader.data;
      && received == RenderIpxeScript(cfg, mac, DiscoveryEntry(mac))
      && var url := SeedUrl(cfg, DiscoveryEntry(mac));
      (AgentSeedUrl(received) == Some(url) <==> NoBlanks(url))
  {
    var script := RenderIpxeScript(cfg, mac, DiscoveryEntry(mac));
    HandOffHolds(cfg, actions, mac);
    assert NamesScript(cfg, Exec(cfg, INIT, actions).files, mac, DiscoveryEntry(mac), r.reply.bootFile);
    DefaultScriptPathShape(mac);
    DhcpWire.BootFileRoundTrip(r.reply);
    TftpDaemon.WrittenRequestParses(DefaultScriptPath(mac), spelling);
    if TftpServer.Blocks(script) <= TftpTransfer.WRAP {
      TftpTransfer.SafeWithoutWrap(script, transfer);
    } else {
      TftpTransfer.SafeWithFreshPackets(script, transfer, 65535);
    }
    DiscoveryHostnameIsOneLine(mac);
    OneLineHostname(mac, DiscoveryEntry(mac));
    AgentReadsSeedUrl(cfg, mac, DiscoveryEntry(mac));
  }

  /** Such runs exist: for every request with an empty lease table and a pool, and for the script's transfer. */
  lemma SomeMachineBoots(cfg: Config, req: Request)
    returns (actions: seq<Action>, r: Sent, transfer: seq<TftpTransfer.Action>)
    requires Answers(req) && cfg.poolStart <= cfg.poolEnd
    ensures Undisturbed(cfg, INIT, actions, ScriptOf(cfg, req.mac))
    ensures r in Exec(cfg, INIT, actions).replies && r.mac == req.mac
    ensures var script := RenderIpxeScript(cfg, req.mac, DiscoveryEntry(req.mac));
      && TftpTransfer.Fresh(script, TftpTransfer.START, transfer, 65535)
      && TftpTransfer.Exec(script, TftpTransfer.START, transfer).server.phase.Complete?
  {
    transfer := TftpTransfer.SomeRunCompletes(RenderIpxeScript(cfg, req.mac, DiscoveryEntry(req.mac)), 65535);
    var s := Step(cfg, INIT, Receive(req));
    var run := CompleteIsRun(cfg, s, 0, true);
    actions := [Receive(req)] + run;
    assert actions[1..] == run;
    NoRegistrationsUndisturbed(cfg, INIT, actions, ScriptOf(cfg, req.mac));
    RequestEffect(cfg, INIT, req, 0, true);
    assert InUse(INIT.leases) == {};
    var replies := Exec(cfg, INIT, actions).replies;
    assert |replies| == 1;
    r := replies[0];
  }
}
