/** Boot entries, the iPXE script rendered from one, and where the script lives under the TFTP root. */
module BootScript {
  import opened Bytes
  import opened Words
  import opened MacText
  import opened TftpPath
  import TftpWire

  const NEWLINE: byte := 10
  const SPACE: byte := 32
  const TAB: byte := 9

  datatype Config = Config(
    serverIp: u32, poolStart: u32, poolEnd: u32, subnetMask: u32, gateway: Option<u32>,
    tftpRoot: Text, bootFile: Text, seedUrl: Option<Text>, leaseSecs: u32)

  datatype BootEntry = BootEntry(hostname: Text, ip: Option<u32>, ipxeScript: Option<Text>, tags: map<Text, Text>)

  const SCRIPTS: Text := Ascii("scripts")
  const IPXE: Text := Ascii(".ipxe")

  function ScriptName(mac: Mac): Text {
    FmtMac(mac) + IPXE
  }

  /** `format!("scripts/{}.ipxe", fmt_mac(mac))` */
  function DefaultScriptPath(mac: Mac): Text {
    SCRIPTS + [SLASH] + ScriptName(mac)
  }

  /** The entry that the DHCP server makes up for hardware it has never seen. */
  function DiscoveryEntry(mac: Mac): BootEntry {
    BootEntry(Ascii("node-") + FmtMac(mac), None, Some(DefaultScriptPath(mac)), map[])
  }

  function FmtU8(b: byte): Text {
    var n: int := b;
    (if n >= 100 then [48 + n / 100] else []) + (if n >= 10 then [48 + n / 10 % 10] else []) + [48 + n % 10]
  }

  function FmtIp(ip: u32): Text {
    var o := U32Bytes(ip);
    FmtU8(o[0]) + [46] + FmtU8(o[1]) + [46] + FmtU8(o[2]) + [46] + FmtU8(o[3])
  }

  function SeedUrl(cfg: Config, entry: BootEntry): Text {
    var key := Ascii("seed_url");
    if key in entry.tags then entry.tags[key]
    else if cfg.seedUrl.Some? then cfg.seedUrl.value
    else FallbackUrl(cfg)
  }

  function FallbackUrl(cfg: Config): Text {
    Ascii("http://") + FmtIp(cfg.serverIp) + Ascii(":7780/seed.tar.gz")
  }

  function EchoLine(mac: Mac, entry: BootEntry): Text {
    Ascii("echo hivebus bootstrap for ") + entry.hostname + Ascii(" (") + FmtMac(mac) + Ascii(")")
  }

  /** `render_ipxe_script`: four lines, each ended by a newline. */
  function RenderIpxeScript(cfg: Config, mac: Mac, entry: BootEntry): Text {
    var url := SeedUrl(cfg, entry);
    Ascii("#!ipxe") + [NEWLINE]
    + (EchoLine(mac, entry) + [NEWLINE]
       + (Ascii("set seed-url ") + url + [NEWLINE]
          + (CHAIN + url + [NEWLINE])))
  }

  const CHAIN: Text := Ascii("chain ")

  /** The file system below the TFTP root: contents by path. */
  type Files = map<Text, seq<byte>>

  datatype Written = Written(files: Files, ok: bool)

  /** `write_ipxe_script`; `io` says whether the file system lets the write through. */
  function WriteIpxeScript(cfg: Config, files: Files, mac: Mac, entry: BootEntry, io: bool): Written {
    match entry.ipxeScript
    case None => Written(files, true)
    case Some(relPath) =>
      match SanitizePath(cfg.tftpRoot, relPath)
      case None => Written(files, false)
      case Some(path) =>
        if io then Written(files[path := RenderIpxeScript(cfg, mac, entry)], true) else Written(files, false)
  }

  // ---------------------------------------------------------------------------
  // Where the default script lives
  // ---------------------------------------------------------------------------

  function ScriptFile(root: Text, mac: Mac): Text {
    Under(root, [SCRIPTS, ScriptName(mac)])
  }

  lemma DefaultScriptPathIsSafe(root: Text, mac: Mac)
    ensures SanitizePath(root, DefaultScriptPath(mac)) == Some(ScriptFile(root, mac))
  {
    var name, segments := ScriptName(mac), [SCRIPTS, ScriptName(mac)];
    FmtMacShape(mac);
    assert |name| == 22 && |DOT| == 1 && |DOT_DOT| == 2;
    assert SLASH !in name && SLASH !in SCRIPTS;
    assert IsNormal(SCRIPTS) && IsNormal(name);
    assert segments[1..] == [name];
    assert Join(segments, SLASH) == DefaultScriptPath(mac);
    SanitizeNormal(root, segments);
  }

  /** A default script path fits the reply's 127 bytes, and is a file name that a read request can
      carry: NUL-free and valid UTF-8. */
  lemma DefaultScriptPathShape(mac: Mac)
    ensures |DefaultScriptPath(mac)| == 30
    ensures 0 !in DefaultScriptPath(mac) && TftpWire.ValidUtf8(DefaultScriptPath(mac))
  {
    FmtMacShape(mac);
    var path := DefaultScriptPath(mac);
    assert forall c :: c in path ==> c in SCRIPTS || c == SLASH || c in FmtMac(mac) || c in IPXE;
    assert forall c :: c in path ==> 0 < c < 0x80;
    TftpWire.AsciiIsUtf8(path);
  }

  lemma DefaultScriptPathText(mac: Mac)
    ensures DefaultScriptPath(mac) == Ascii("scripts/") + FmtMac(mac) + Ascii(".ipxe")
  {
    assert Ascii("scripts/") == SCRIPTS + [SLASH];
  }

  lemma DefaultScriptPathInjective(m: Mac, m': Mac)
    requires DefaultScriptPath(m) == DefaultScriptPath(m')
    ensures m == m'
  {
    FmtMacShape(m);
    FmtMacShape(m');
    assert DefaultScriptPath(m)[8..25] == FmtMac(m);
    assert DefaultScriptPath(m')[8..25] == FmtMac(m');
    FmtMacInjective(m, m');
  }

  /** Different MACs have their scripts in different files. */
  lemma ScriptFileInjective(root: Text, m: Mac, m': Mac)
    requires ScriptFile(root, m) == ScriptFile(root, m')
    ensures m == m'
  {
    var dir := Push(root, SCRIPTS);
    ScriptFileSplit(root, m);
    ScriptFileSplit(root, m');
    var n := |dir + [SLASH]|;
    FmtMacShape(m);
    FmtMacShape(m');
    assert ScriptFile(root, m)[n..n + 17] == FmtMac(m);
    assert ScriptFile(root, m')[n..n + 17] == FmtMac(m');
    FmtMacInjective(m, m');
  }

  lemma ScriptFileSplit(root: Text, m: Mac)
    ensures ScriptFile(root, m) == Push(root, SCRIPTS) + [SLASH] + FmtMac(m) + IPXE
  {
    var dir := Push(root, SCRIPTS);
    var segments: seq<Text> := [SCRIPTS, ScriptName(m)];
    assert segments[1..] == [ScriptName(m)];
    assert Under(dir, [ScriptName(m)]) == Push(dir, ScriptName(m));
    assert dir[|dir| - 1] == SCRIPTS[6] != SLASH;
    assert ScriptFile(root, m) == Push(dir, ScriptName(m));
  }

  // ---------------------------------------------------------------------------
  // What the agent makes of the script
  // ---------------------------------------------------------------------------

  predicate IsBlank(c: byte) {
    c == SPACE || c == TAB || c == NEWLINE
  }

  function SkipBlanks(s: Text): Text {
    if s != [] && IsBlank(s[0]) then SkipBlanks(s[1..]) else s
  }

  function Word(s: Text): (w: Text)
    ensures |w| <= |s|
  {
    if s == [] || IsBlank(s[0]) then [] else [s[0]] + Word(s[1..])
  }

  /** awk's `$2`: the second blank-separated field of a line. */
  function SecondField(line: Text): Text {
    var first := SkipBlanks(line);
    Word(SkipBlanks(first[|Word(first)|..]))
  }

  /** `awk '/^chain / { print $2; exit }'` over the lines of a file. */
  function ChainUrl(lines: seq<Text>): Option<Text> {
    if lines == [] then None
    else if CHAIN <= lines[0] then Some(SecondField(lines[0]))
    else ChainUrl(lines[1..])
  }

  function AgentSeedUrl(script: Text): Option<Text> {
    ChainUrl(Split(script, NEWLINE))
  }

  predicate NoBlanks(s: Text) {
    forall c :: c in s ==> !IsBlank(c)
  }

  /** Whatever awk prints, there is no blank in it. */
  lemma {:induction false} WordNoBlanks(s: Text)
    ensures NoBlanks(Word(s))
  {
    if s != [] { WordNoBlanks(s[1..]); }
  }

  lemma {:induction false} ChainUrlNoBlanks(lines: seq<Text>)
    ensures ChainUrl(lines).Some? ==> NoBlanks(ChainUrl(lines).value)
  {
    if lines != [] {
      if CHAIN <= lines[0] {
        var first := SkipBlanks(lines[0]);
        WordNoBlanks(SkipBlanks(first[|Word(first)|..]));
      } else {
        ChainUrlNoBlanks(lines[1..]);
      }
    }
  }

  /** A word stops at the first blank. */
  lemma {:induction false} WordBefore(w: Text, rest: Text)
    requires NoBlanks(w) && (rest == [] || IsBlank(rest[0]))
    ensures Word(w + rest) == w
  {
    if w == [] {
      assert w + rest == rest;
    } else {
      assert (w + rest)[1..] == w[1..] + rest;
      assert w[0] in w && forall c :: c in w[1..] ==> c in w;
      WordBefore(w[1..], rest);
    }
  }

  /** The second field of a chain line is what stands between the command and the next blank. */
  lemma ChainSecondField(url: Text, rest: Text)
    requires NoBlanks(url) && (rest == [] || (url != [] && IsBlank(rest[0])))
    ensures SecondField(CHAIN + url + rest) == url
  {
    var command, behind := CHAIN[..5], [SPACE] + (url + rest);
    assert CHAIN[5] == SPACE && forall i :: 0 <= i < 5 ==> 97 <= CHAIN[i];
    assert NoBlanks(command);
    assert CHAIN + url + rest == command + behind;
    WordBefore(command, behind);
    assert (command + behind)[5..] == behind;
    assert behind[1..] == url + rest && (url != [] ==> url[0] in url);
    assert SkipBlanks(behind) == url + rest;
    WordBefore(url, rest);
  }

  lemma {:induction false} ChainUrlConcat(a: seq<Text>, b: seq<Text>)
    ensures ChainUrl(a + b) == if ChainUrl(a).Some? then ChainUrl(a) else ChainUrl(b)
  {
    if a == [] {
      assert a + b == b;
    } else {
      assert (a + b)[1..] == a[1..] + b;
      ChainUrlConcat(a[1..], b);
    }
  }

  /** What the agent finds in two stretches of lines. */
  lemma AgentConcat(a: Text, b: Text)
    ensures AgentSeedUrl(a + [NEWLINE] + b)
      == if AgentSeedUrl(a).Some? then AgentSeedUrl(a) else AgentSeedUrl(b)
  {
    SplitConcat(a, b, NEWLINE);
    ChainUrlConcat(Split(a, NEWLINE), Split(b, NEWLINE));
  }

  lemma AgentLine(line: Text)
    requires NEWLINE !in line
    ensures AgentSeedUrl(line) == if CHAIN <= line then Some(SecondField(line)) else None
  {
    SplitLine(line, NEWLINE);
    var lines: seq<Text> := [line];
    assert lines[1..] == [] && ChainUrl(lines[1..]).None?;
    assert ChainUrl(lines) == if CHAIN <= line then Some(SecondField(line)) else None;
  }

  lemma EchoLineShape(mac: Mac, entry: BootEntry)
    requires NEWLINE !in entry.hostname
    ensures NEWLINE !in EchoLine(mac, entry) && !(CHAIN <= EchoLine(mac, entry))
  {
    FmtMacShape(mac);
    var head, tail := Ascii("echo hivebus bootstrap for "), Ascii(" (") + FmtMac(mac) + Ascii(")");
    assert NEWLINE !in head && NEWLINE !in tail;
    assert EchoLine(mac, entry) == head + entry.hostname + tail;
    assert head[0] == 101 && CHAIN[0] == 99;
  }

  lemma ChainLine(url: Text)
    requires NoBlanks(url)
    ensures AgentSeedUrl(CHAIN + url + [NEWLINE]) == Some(url)
  {
    var line := CHAIN + url;
    assert NEWLINE !in url by { assert IsBlank(NEWLINE); }
    AgentLine(line);
    AgentConcat(line, []);
    assert line + [NEWLINE] + [] == line + [NEWLINE] && line + [] == line;
    ChainSecondField(url, []);
  }

  lemma SetLine(url: Text)
    requires NEWLINE !in url
    ensures AgentSeedUrl(Ascii("set seed-url ") + url).None?
  {
    var line := Ascii("set seed-url ") + url;
    assert line[0] == 115 && CHAIN[0] == 99;
    AgentLine(line);
  }

  /** The lines that follow the host name: nothing in them but the URL itself. */
  lemma UrlLines(url: Text)
    ensures var lines := Ascii("set seed-url ") + url + [NEWLINE] + (CHAIN + url + [NEWLINE]);
      AgentSeedUrl(lines) == Some(url) <==> NoBlanks(url)
  {
    var setLine, behind := Ascii("set seed-url ") + url, CHAIN + url + [NEWLINE];
    ChainUrlNoBlanks(Split(setLine + [NEWLINE] + behind, NEWLINE));
    if NoBlanks(url) {
      assert NEWLINE !in url by { assert IsBlank(NEWLINE); }
      SetLine(url);
      AgentConcat(setLine, behind);
      ChainLine(url);
    }
  }

  /** Provisioning an agent finds the URL that was rendered if and only if the line with the host name,
      which may hold line breaks of its own, brings up that very URL, or brings up none and the URL has
      no blank in it. */
  lemma AgentReadsSeedUrl(cfg: Config, mac: Mac, entry: BootEntry)
    ensures AgentSeedUrl(RenderIpxeScript(cfg, mac, entry)) == Some(SeedUrl(cfg, entry))
      <==> match AgentSeedUrl(EchoLine(mac, entry))
           case Some(u) => u == SeedUrl(cfg, entry)
           case None => NoBlanks(SeedUrl(cfg, entry))
  {
    var url, echo, magic := SeedUrl(cfg, entry), EchoLine(mac, entry), Ascii("#!ipxe");
    var lines := Ascii("set seed-url ") + url + [NEWLINE] + (CHAIN + url + [NEWLINE]);
    assert magic[0] == 35;
    AgentLine(magic);
    AgentConcat(magic, echo + [NEWLINE] + lines);
    AgentConcat(echo, lines);
    UrlLines(url);
  }

  /** The everyday case: a host name without line breaks brings up no URL. */
  lemma OneLineHostname(mac: Mac, entry: BootEntry)
    requires NEWLINE !in entry.hostname
    ensures AgentSeedUrl(EchoLine(mac, entry)).None?
  {
    EchoLineShape(mac, entry);
    AgentLine(EchoLine(mac, entry));
  }

  function EchoTail(mac: Mac): Text {
    Ascii(" (") + FmtMac(mac) + Ascii(")")
  }

  lemma EchoTailShape(mac: Mac)
    ensures NEWLINE !in EchoTail(mac) && EchoTail(mac) != [] && EchoTail(mac)[0] == SPACE
  {
    FmtMacShape(mac);
    assert forall c :: c in Ascii(" (") || c in Ascii(")") ==> c != NEWLINE;
  }

  lemma EchoLineSplits(mac: Mac, entry: BootEntry, first: Text, second: Text)
    requires entry.hostname == first + [NEWLINE] + second
    ensures EchoLine(mac, entry)
      == Ascii("echo hivebus bootstrap for ") + first + [NEWLINE] + (second + EchoTail(mac))
  {
  }

  lemma EchoHead(first: Text)
    requires NEWLINE !in first
    ensures AgentSeedUrl(Ascii("echo hivebus bootstrap for ") + first).None?
  {
    var head := Ascii("echo hivebus bootstrap for ") + first;
    assert NEWLINE !in head && head[0] == 101 && CHAIN[0] == 99;
    AgentLine(head);
  }

  /** A host name with a chain line of its own: the agent takes the URL from there, and so misses every
      other rendered one. */
  lemma HostnameChainLine(cfg: Config, mac: Mac, entry: BootEntry, first: Text, other: Text)
    requires NEWLINE !in first && NoBlanks(other) && other != []
    requires entry.hostname == first + [NEWLINE] + (CHAIN + other)
    ensures AgentSeedUrl(EchoLine(mac, entry)) == Some(other)
    ensures AgentSeedUrl(RenderIpxeScript(cfg, mac, entry)) == Some(SeedUrl(cfg, entry))
      <==> other == SeedUrl(cfg, entry)
  {
    var line := CHAIN + other + EchoTail(mac);
    EchoTailShape(mac);
    assert NEWLINE !in line by { assert IsBlank(NEWLINE); }
    EchoLineSplits(mac, entry, first, CHAIN + other);
    AgentConcat(Ascii("echo hivebus bootstrap for ") + first, line);
    EchoHead(first);
    AgentLine(line);
    ChainSecondField(other, EchoTail(mac));
    AgentReadsSeedUrl(cfg, mac, entry);
  }

  // ---------------------------------------------------------------------------
  // Where the URL comes from
  // ---------------------------------------------------------------------------

  lemma NoBlanksConcat(a: Text, b: Text)
    requires NoBlanks(a) && NoBlanks(b)
    ensures NoBlanks(a + b)
  {
  }

  lemma SchemeHasNoBlanks()
    ensures NoBlanks(Ascii("http://"))
  {
  }

  lemma SeedPathHasNoBlanks()
    ensures NoBlanks(Ascii(":7780/seed.tar.gz"))
  {
  }

  lemma FmtU8Shape(b: byte)
    ensures forall c :: c in FmtU8(b) ==> 48 <= c < 58
  {
  }

  lemma FmtIpHasNoBlanks(ip: u32)
    ensures NoBlanks(FmtIp(ip))
  {
    forall b: byte ensures forall c :: c in FmtU8(b) ==> 48 <= c < 58 {
      FmtU8Shape(b);
    }
  }

  /** The URL built from the server's own address never holds a blank. */
  lemma FallbackHasNoBlanks(cfg: Config)
    ensures NoBlanks(FallbackUrl(cfg))
  {
    SchemeHasNoBlanks();
    FmtIpHasNoBlanks(cfg.serverIp);
    SeedPathHasNoBlanks();
    NoBlanksConcat(Ascii("http://"), FmtIp(cfg.serverIp));
    NoBlanksConcat(Ascii("http://") + FmtIp(cfg.serverIp), Ascii(":7780/seed.tar.gz"));
  }

  /** What the agent finds for a one-line host name: the URL in the entry's own tag, before all others. */
  lemma TaggedUrlFound(cfg: Config, mac: Mac, entry: BootEntry)
    requires NEWLINE !in entry.hostname
    requires Ascii("seed_url") in entry.tags && NoBlanks(entry.tags[Ascii("seed_url")])
    ensures AgentSeedUrl(RenderIpxeScript(cfg, mac, entry)) == Some(entry.tags[Ascii("seed_url")])
  {
    OneLineHostname(mac, entry);
    AgentReadsSeedUrl(cfg, mac, entry);
  }

  /** ... then the configured one, or else the one built from the server's address. */
  lemma UntaggedUrlFound(cfg: Config, mac: Mac, entry: BootEntry)
    requires NEWLINE !in entry.hostname && Ascii("seed_url") !in entry.tags
    ensures var found := AgentSeedUrl(RenderIpxeScript(cfg, mac, entry));
      && (cfg.seedUrl.Some? && NoBlanks(cfg.seedUrl.value) ==> found == cfg.seedUrl)
      && (cfg.seedUrl.None? ==> found == Some(FallbackUrl(cfg)))
  {
    OneLineHostname(mac, entry);
    AgentReadsSeedUrl(cfg, mac, entry);
    FallbackHasNoBlanks(cfg);
  }

  function Decimal(s: Text): int {
    if s == [] then 0 else 10 * Decimal(s[..|s| - 1]) + s[|s| - 1] as int - 48
  }

  lemma FmtU8Value(b: byte)
    ensures Decimal(FmtU8(b)) == b
  {
    var s, n := FmtU8(b), |FmtU8(b)|;
    assert Decimal(s[..0]) == 0;
    if n == 1 {
      assert s[..0] == [];
    } else if n == 2 {
      assert s[..1][..0] == [] && Decimal(s[..1]) == s[0] as int - 48;
    } else {
      assert s[..2][..1] == s[..1] && s[..1][..0] == [] && Decimal(s[..1]) == s[0] as int - 48;
      assert Decimal(s[..2]) == 10 * Decimal(s[..1]) + s[1] as int - 48;
    }
  }

  /** A formatted address reads back as its four octets, most significant first. */
  lemma FmtIpReadsBack(ip: u32)
    ensures var parts, octets := Split(FmtIp(ip), 46), U32Bytes(ip);
      |parts| == 4 && forall i :: 0 <= i < 4 ==> Decimal(parts[i]) == octets[i]
  {
    var o := U32Bytes(ip);
    var parts: seq<Text> := [FmtU8(o[0]), FmtU8(o[1]), FmtU8(o[2]), FmtU8(o[3])];
    forall i | 0 <= i < 4 ensures 46 !in parts[i] && Decimal(parts[i]) == o[i] {
      FmtU8Shape(o[i]);
      FmtU8Value(o[i]);
    }
    JoinFour(parts[0], parts[1], parts[2], parts[3], 46);
    SplitJoin(parts, 46);
  }

  /** The URL built from the server's address: that address between scheme, port and path. */
  lemma FallbackReadsBack(cfg: Config)
    ensures var url, n := FallbackUrl(cfg), |FallbackUrl(cfg)| - 17;
      && 7 <= n && url[..7] == Ascii("http://") && url[n..] == Ascii(":7780/seed.tar.gz")
      && var parts, octets := Split(url[7..n], 46), U32Bytes(cfg.serverIp);
      |parts| == 4 && forall i :: 0 <= i < 4 ==> Decimal(parts[i]) == octets[i]
  {
    FmtIpReadsBack(cfg.serverIp);
    var url := FallbackUrl(cfg);
    assert url[7..|url| - 17] == FmtIp(cfg.serverIp);
  }

  lemma JoinFour(a: Text, b: Text, c: Text, d: Text, sep: byte)
    ensures Join([a, b, c, d], sep) == a + [sep] + b + [sep] + c + [sep] + d
  {
    assert [a, b, c, d][1..] == [b, c, d] && [b, c, d][1..] == [c, d] && [c, d][1..] == [d];
    assert Join([c, d], sep) == c + [sep] + d;
    assert Join([b, c, d], sep) == b + [sep] + (c + [sep] + d);
  }

  // ---------------------------------------------------------------------------
  // The script and its file
  // ---------------------------------------------------------------------------

  /** A script with a one-line host name and URL is these four lines. */
  lemma ScriptLines(cfg: Config, mac: Mac, entry: BootEntry)
    requires NEWLINE !in entry.hostname && NEWLINE !in SeedUrl(cfg, entry)
    ensures var url := SeedUrl(cfg, entry);
      Split(RenderIpxeScript(cfg, mac, entry), NEWLINE) ==
        [Ascii("#!ipxe"),
         Ascii("echo hivebus bootstrap for ") + entry.hostname + Ascii(" (") + FmtMac(mac) + Ascii(")"),
         Ascii("set seed-url ") + url, Ascii("chain ") + url, []]
  {
    var l0, l1 := Ascii("#!ipxe"), EchoLine(mac, entry);
    var l2, l3 := Ascii("set seed-url ") + SeedUrl(cfg, entry), Ascii("chain ") + SeedUrl(cfg, entry);
    EchoLineShape(mac, entry);
    assert l0[0] == 35 && NEWLINE !in l0 && NEWLINE !in l2 && NEWLINE !in l3;
    SplitFour(l0, l1, l2, l3);
  }

  lemma SplitFour(l0: Text, l1: Text, l2: Text, l3: Text)
    requires NEWLINE !in l0 && NEWLINE !in l1 && NEWLINE !in l2 && NEWLINE !in l3
    ensures Split(l0 + [NEWLINE] + (l1 + [NEWLINE] + (l2 + [NEWLINE] + (l3 + [NEWLINE]))), NEWLINE)
      == [l0, l1, l2, l3, []]
  {
    SplitLine([], NEWLINE);
    assert l3 + [NEWLINE] + [] == l3 + [NEWLINE];
    SplitFirst(l3, [], NEWLINE);
    SplitFirst(l2, l3 + [NEWLINE], NEWLINE);
    SplitFirst(l1, l2 + [NEWLINE] + (l3 + [NEWLINE]), NEWLINE);
    SplitFirst(l0, l1 + [NEWLINE] + (l2 + [NEWLINE] + (l3 + [NEWLINE])), NEWLINE);
  }

  /** The discovery entry's host name tells its MAC; it has the default script, and no address or tag. */
  lemma DiscoveryHostname(mac: Mac)
    ensures DiscoveryEntry(mac).(hostname := []) == BootEntry([], None, Some(DefaultScriptPath(mac)), map[])
    ensures var name := DiscoveryEntry(mac).hostname;
      |name| == 22 && name[..5] == Ascii("node-") && ParseMac(name[5..]) == Some(mac)
  {
    FmtMacShape(mac);
    MacTextRoundTrip(mac, [], []);
    assert [] + FmtMac(mac) + [] == FmtMac(mac);
    assert DiscoveryEntry(mac).hostname[5..] == FmtMac(mac);
  }

  /** What a write does to any path: the entry's own file gets the entry's script if its path is accepted
      and the file system lets it through, every other file stays, and failures are reported. */
  lemma WriteEffect(cfg: Config, files: Files, mac: Mac, entry: BootEntry, io: bool, p: Text)
    ensures var w := WriteIpxeScript(cfg, files, mac, entry, io);
      var own := entry.ipxeScript.Some? && SanitizePath(cfg.tftpRoot, entry.ipxeScript.value) == Some(p);
      && (own && io ==> p in w.files && w.files[p] == RenderIpxeScript(cfg, mac, entry) && w.ok)
      && (!own || !io ==> (p in w.files <==> p in files) && (p in files ==> w.files[p] == files[p]))
      && (own && !io ==> !w.ok)
      && (entry.ipxeScript.None? ==> w.ok)
      && (entry.ipxeScript.Some? && SanitizePath(cfg.tftpRoot, entry.ipxeScript.value).None? ==> !w.ok)
  {
  }
}
