/** The DHCP server as an object: its tables, `allocate_ip`, the handling of one request and
    `boot.register`, each tied to the step system. */
module PxeServer {
  import opened Bytes
  import opened MacText
  import opened TftpPath
  import opened BootScript
  import opened PxeSystem
  import DhcpWire

  /** The datagram `pkt`, sent to `target`, answers the client's datagram `data`, byte for byte: it repeats
      transaction id and hardware address, offers on a DISCOVER (1) and acknowledges a REQUEST (3), and
      goes to everyone if the client's broadcast bit is set, else to the address that it carries. */
  ghost predicate RepliesTo(cfg: Config, data: seq<byte>, target: u32, pkt: seq<byte>)
    requires |data| >= 240
  {
    && |pkt| > 240
    && pkt[4..8] == data[4..8] && pkt[28..44] == data[28..44]
    && U32Of(pkt[20..24]) == cfg.serverIp
    && (data[10] >= 0x80 ==> target == 0xFFFF_FFFF)
    && (data[10] < 0x80 ==> target == U32Of(pkt[16..20]))
    && DhcpWire.Lookup(DhcpWire.Walk(pkt[240..], 0).options, 53) ==
         Some([if AskedType(data) == 1 then 2 else 5])
  }

  /** The value of the datagram's last message-type option. */
  function AskedType(data: seq<byte>): byte
    requires |data| >= 240
  {
    DhcpWire.LastType(DhcpWire.Walk(data[240..], 0).options, 0)
  }

  lemma ReplyOnWire(cfg: Config, data: seq<byte>, ip: u32, bootFile: Text)
    requires DhcpWire.IsDhcp(data) && Answers(DhcpWire.RequestOf(data))
    ensures var sent := ReplyTo(cfg, DhcpWire.RequestOf(data), ip, bootFile);
      RepliesTo(cfg, data, sent.target, DhcpWire.ReplyBytes(sent.reply))
  {
    var sent := ReplyTo(cfg, DhcpWire.RequestOf(data), ip, bootFile);
    var pkt := DhcpWire.ReplyBytes(sent.reply);
    DhcpWire.ReplyRoundTrip(sent.reply);
    DhcpWire.ReplyFields(sent.reply);
    DhcpWire.ReplyOptionValues(sent.reply);
    U32Injective(pkt[4..8], data[4..8]);
    assert data[28..44][..16] == data[28..44];
  }

  /** Broadcast replies go out for the client's bit, and for a leased broadcast address. */
  lemma BroadcastExactly(cfg: Config, data: seq<byte>, target: u32, pkt: seq<byte>)
    requires |data| >= 240 && RepliesTo(cfg, data, target, pkt)
    ensures target == 0xFFFF_FFFF <==> data[10] >= 0x80 || pkt[16..20] == [255, 255, 255, 255]
  {
    if target == 0xFFFF_FFFF && data[10] < 0x80 {
      U32Injective(pkt[16..20], [255, 255, 255, 255]);
    }
  }

  class Server {
    const cfg: Config
    var boot: BootTable
    var leases: LeaseTable
    var files: Files
    /** Datagrams handed to the socket. */
    var replies: seq<Sent>
    ghost var order: seq<Mac>

    constructor (cfg: Config)
      ensures this.cfg == cfg && Between() == INIT
    {
      this.cfg := cfg;
      boot, leases, files, replies, order := map[], map[], map[], [], [];
    }

    /** The server between two requests, as a state of the step system. */
    ghost function Between(): State
      reads this
    {
      State(boot, leases, files, Idle, multiset{}, replies, order)
    }

    /** The reply names the script registered for the MAC, and the configured boot file if it has none. */
    ghost predicate NamesBootFile(r: Sent, mac: Mac)
      reads this
    {
      && (mac in boot && boot[mac].ipxeScript.Some? ==> Some(r.reply.bootFile) == boot[mac].ipxeScript)
      && (mac !in boot || boot[mac].ipxeScript.None? ==> r.reply.bootFile == cfg.bootFile)
    }

    method Register(mac: Mac) returns (entry: BootEntry)
      modifies this`boot
      ensures entry == EntryOf(old(boot), mac) && boot == old(boot)[mac := entry]
    {
      if mac !in boot {
        boot := boot[mac := DiscoveryEntry(mac)];
      }
      entry := boot[mac];
      assert boot == old(boot)[mac := entry];
    }

    method WriteScript(mac: Mac, entry: BootEntry, io: bool) returns (ok: bool)
      modifies this`files
      ensures Written(files, ok) == WriteIpxeScript(cfg, old(files), mac, entry, io)
    {
      if entry.ipxeScript.None? {
        return true;
      }
      var path := SanitizeTftpPath(cfg.tftpRoot, entry.ipxeScript.value);
      if path.None? || !io {
        return false;
      }
      files := files[path.value := RenderIpxeScript(cfg, mac, entry)];
      ok := true;
    }

    /** `allocate_ip`: reusing a lease refreshes its expiry, the scan leaves the table alone. */
    method AllocateIp(mac: Mac, now: nat) returns (r: Option<u32>)
      modifies this`leases
      ensures r == Allocation(cfg, boot, old(leases), mac)
      ensures mac in boot && boot[mac].ip.Some? ==> r == boot[mac].ip
      ensures leases ==
        if StaticIp(boot, mac).None? && mac in old(leases)
        then old(leases)[mac := Lease(old(leases)[mac].ip, now + cfg.leaseSecs)] else old(leases)
    {
      if mac in boot && boot[mac].ip.Some? {
        return boot[mac].ip;
      }
      if mac in leases {
        var ip := leases[mac].ip;
        leases := leases[mac := Lease(ip, now + cfg.leaseSecs)];
        return Some(ip);
      }
      var inUse := set m | m in leases :: leases[m].ip;
      var ip: nat := cfg.poolStart;
      while ip <= cfg.poolEnd
        invariant cfg.poolStart <= ip
        invariant ip <= cfg.poolEnd ==> FirstFree(inUse, ip, cfg.poolEnd) == FreshIp(cfg, leases)
        invariant ip > cfg.poolEnd ==> FreshIp(cfg, leases).None?
      {
        if ip !in inUse {
          return Some(ip);
        }
        ip := ip + 1;
      }
      r := None;
    }

    /** The end of a request: store the lease, pick the boot file, reply. */
    method Grant(req: Request, ip: u32, now: nat)
      modifies this`leases, this`order, this`replies
      ensures Between() == Granted(cfg, old(Between()), req, ip, now)
      ensures leases == old(leases)[req.mac := Lease(ip, now + cfg.leaseSecs)]
      ensures |replies| == |old(replies)| + 1 && NamesBootFile(replies[|replies| - 1], req.mac)
      ensures replies[|replies| - 1].mac == req.mac && replies[|replies| - 1].reply.yiaddr == ip
    {
      order := if req.mac in leases then order else order + [req.mac];
      leases := leases[req.mac := Lease(ip, now + cfg.leaseSecs)];
      var bootFile := cfg.bootFile;
      if req.mac in boot && boot[req.mac].ipxeScript.Some? {
        bootFile := boot[req.mac].ipxeScript.value;
      }
      replies := replies + [ReplyTo(cfg, req, ip, bootFile)];
    }

    /** One DISCOVER or REQUEST with nothing in between: the same as the steps of the DHCP task run to
        their end.  It goes unanswered exactly when the MAC has neither a static address nor a lease
        and every pool address is in use. */
    method HandleRequest(req: Request, allocNow: nat, now: nat, io: bool) returns (answered: bool)
      requires Answers(req)
      modifies this
      ensures Between() == Complete(cfg, Step(cfg, old(Between()), Receive(req)), now, io)
      ensures answered <==> Allocation(cfg, old(boot), old(leases), req.mac).Some?
      ensures answered ==> |replies| == |old(replies)| + 1 && NamesBootFile(replies[|replies| - 1], req.mac)
      ensures answered ==>
        && replies[|replies| - 1].mac == req.mac
        && Some(replies[|replies| - 1].reply.yiaddr) == Allocation(cfg, old(boot), old(leases), req.mac)
      ensures boot == old(boot)[req.mac := EntryOf(old(boot), req.mac)]
      ensures !answered ==> replies == old(replies) && leases == old(leases)
    {
      ghost var start := Between();
      var entry := Register(req.mac);
      var _ := WriteScript(req.mac, entry, io);
      ghost var before := Between();
      assert before == Registered(cfg, start, req.mac, io);
      var offered := AllocateIp(req.mac, allocNow);
      RequestEffect(cfg, start, req, now, io);
      if offered.None? {
        return false;
      }
      Grant(req, offered.value, now);
      assert Between() == Granted(cfg, before, req, offered.value, now);
      answered := true;
    }

    /** `boot.register`: insert the entry, then write its script. */
    method BootRegister(mac: Mac, entry: BootEntry, io: bool)
      modifies this
      ensures Between() ==
        Step(cfg, Step(cfg, old(Between()), Action.BootRegister(mac, entry)), BootWrite(mac, entry, io))
    {
      boot := boot[mac := entry];
      var _ := WriteScript(mac, entry, io);
      assert multiset{(mac, entry)} - multiset{(mac, entry)} == multiset{};
    }

    /** One pass of the receive loop: what is sent for one datagram, and where to. */
    method HandleDatagram(data: seq<byte>, allocNow: nat, now: nat, io: bool) returns (out: Option<(u32, seq<byte>)>)
      requires DhcpWire.IsDhcp(data) ==> DhcpWire.TypesInBounds(data[240..], 0)
      modifies this
      ensures Between() ==
        if DhcpWire.IsDhcp(data) && Answers(DhcpWire.RequestOf(data))
        then Complete(cfg, Step(cfg, old(Between()), Receive(DhcpWire.RequestOf(data))), now, io)
        else old(Between())
      ensures out.Some? <==>
        && |data| >= 240 && data[236..240] == [99, 130, 83, 99] && AskedType(data) in {1, 3}
        && Allocation(cfg, old(boot), old(leases), data[28..34]).Some?
      ensures out.Some? ==> RepliesTo(cfg, data, out.value.0, out.value.1)
      ensures out.Some? ==>
        && |replies| == |old(replies)| + 1
        && var sent := replies[|replies| - 1];
           out.value == (sent.target, DhcpWire.ReplyBytes(sent.reply)) && sent.mac == data[28..34]
      ensures out.None? ==> replies == old(replies) && leases == old(leases)
    {
      var parsed := DhcpWire.ParseRequest(data);
      if parsed.None? || !Answers(parsed.value) {
        return None;
      }
      var req := parsed.value;
      ghost var count := |replies|;
      var answered := HandleRequest(req, allocNow, now, io);
      if !answered {
        return None;
      }
      var sent := replies[|replies| - 1];
      RequestEffect(cfg, old(Between()), req, now, io);
      ReplyOnWire(cfg, data, sent.reply.yiaddr, sent.reply.bootFile);
      var pkt := DhcpWire.BuildDhcpReply(sent.reply);
      out := Some((sent.target, pkt));
    }
  }
}
