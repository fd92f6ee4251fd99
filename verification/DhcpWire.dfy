/** DHCP messages on the wire: the reply builder, the request's fields, and the option scan
    (RFC 2131, section 2; RFC 2132, sections 2 and 9). */
module DhcpWire {
  import opened Bytes
  import opened MacText

  const DHCP_MAGIC: seq<byte> := [99, 130, 83, 99]

  const OPT_PAD: byte := 0
  const OPT_SUBNET_MASK: byte := 1
  const OPT_ROUTER: byte := 3
  const OPT_LEASE_TIME: byte := 51
  const OPT_MESSAGE_TYPE: byte := 53
  const OPT_SERVER_ID: byte := 54
  const OPT_TFTP_SERVER: byte := 66
  const OPT_BOOT_FILE: byte := 67
  const OPT_END: byte := 255

  const DHCPDISCOVER: byte := 1
  const DHCPOFFER: byte := 2
  const DHCPREQUEST: byte := 3
  const DHCPACK: byte := 5

  const BOOTP_HEADER: nat := 236

  // ---------------------------------------------------------------------------
  // Options
  // ---------------------------------------------------------------------------

  datatype Opt = Opt(code: byte, data: seq<byte>)

  predicate Encodable(o: Opt) {
    o.code != OPT_PAD && o.code != OPT_END && |o.data| < 256
  }

  function EncodeOption(o: Opt): seq<byte>
    requires Encodable(o)
  {
    [o.code, |o.data|] + o.data
  }

  function EncodeOptions(opts: seq<Opt>): seq<byte>
    requires forall o :: o in opts ==> Encodable(o)
  {
    if opts == [] then [] else EncodeOption(opts[0]) + EncodeOptions(opts[1..])
  }

  lemma {:induction false} EncodeAppend(opts: seq<Opt>, o: Opt)
    requires Encodable(o) && forall o :: o in opts ==> Encodable(o)
    ensures EncodeOptions(opts + [o]) == EncodeOptions(opts) + EncodeOption(o)
  {
    if opts == [] {
      assert [o][1..] == [];
    } else {
      assert (opts + [o])[1..] == opts[1..] + [o];
      EncodeAppend(opts[1..], o);
    }
  }

  /** A reader's walk over an option field: the options met, in order, and where it stopped. */
  datatype Walked = Walked(options: seq<Opt>, atEnd: bool, stop: nat)

  function Walk(b: seq<byte>, i: nat): Walked
    decreases |b| - i
  {
    if i >= |b| then Walked([], false, i)
    else if b[i] == OPT_END then Walked([], true, i)
    else if b[i] == OPT_PAD then Walk(b, i + 1)
    else if i + 1 >= |b| then Walked([], false, i)
    else
      var next := i + 2 + b[i + 1] as int;
      var o := Opt(b[i], b[i + 2..Min(next, |b|)]);
      var rest := Walk(b, next);
      rest.(options := [o] + rest.options)
  }

  /** Every message-type option that the walk meets and that claims a value has its first byte. */
  predicate TypesInBounds(b: seq<byte>, i: nat)
    decreases |b| - i
  {
    if i >= |b| || b[i] == OPT_END then true
    else if b[i] == OPT_PAD then TypesInBounds(b, i + 1)
    else if i + 1 >= |b| then true
    else
      && (b[i] == OPT_MESSAGE_TYPE && b[i + 1] >= 1 ==> i + 2 < |b|)
      && TypesInBounds(b, i + 2 + b[i + 1] as int)
  }

  predicate IsTypeOption(o: Opt) {
    o.code == OPT_MESSAGE_TYPE && |o.data| >= 1
  }

  /** The value of the last message-type option, `fallback` when there is none. */
  function LastType(opts: seq<Opt>, fallback: byte): byte {
    if opts == [] then fallback
    else
      var o := opts[|opts| - 1];
      if IsTypeOption(o) then o.data[0] else LastType(opts[..|opts| - 1], fallback)
  }

  lemma {:induction false} LastTypeFront(o: Opt, rest: seq<Opt>, fallback: byte)
    ensures LastType([o] + rest, fallback) == LastType(rest, if IsTypeOption(o) then o.data[0] else fallback)
  {
    if rest == [] {
      assert [o] + rest == [o];
    } else {
      assert ([o] + rest)[..|rest|] == [o] + rest[..|rest| - 1];
      LastTypeFront(o, rest[..|rest| - 1], fallback);
    }
  }

  /** The server's scan loop.  Its precondition is what keeps the loop's indexing in range. */
  method ScanMessageType(opts: seq<byte>) returns (msgType: byte)
    requires TypesInBounds(opts, 0)
    ensures msgType == LastType(Walk(opts, 0).options, 0)
  {
    msgType := 0;
    var i := 0;
    while i < |opts|
      invariant TypesInBounds(opts, i)
      invariant LastType(Walk(opts, i).options, msgType) == LastType(Walk(opts, 0).options, 0)
      decreases |opts| - i
    {
      var opt := opts[i];
      if opt == OPT_END {
        break;
      }
      if opt == OPT_PAD {
        i := i + 1;
        continue;
      }
      if i + 1 >= |opts| {
        break;
      }
      var len: int := opts[i + 1];
      LastTypeFront(Opt(opt, opts[i + 2..Min(i + 2 + len, |opts|)]), Walk(opts, i + 2 + len).options, msgType);
      if opt == OPT_MESSAGE_TYPE && len >= 1 {
        msgType := opts[i + 2];
      }
      i := i + 2 + len;
    }
  }

  /** A walk that reaches END has met complete options only, so the scan is in range. */
  lemma {:induction false} EndedIsInBounds(b: seq<byte>, i: nat)
    requires Walk(b, i).atEnd
    ensures TypesInBounds(b, i)
    decreases |b| - i
  {
    if i < |b| && b[i] != OPT_END {
      if b[i] == OPT_PAD {
        EndedIsInBounds(b, i + 1);
      } else if i + 1 < |b| {
        EndedIsInBounds(b, i + 2 + b[i + 1] as int);
      }
    }
  }

  lemma WalkOne(b: seq<byte>, i: nat, o: Opt, behind: seq<byte>) returns (next: nat)
    requires i <= |b| && Encodable(o) && b[i..] == EncodeOption(o) + behind
    ensures next == i + |EncodeOption(o)| <= |b| && b[next..] == behind
    ensures Walk(b, i) == Walk(b, next).(options := [o] + Walk(b, next).options)
  {
    var rest := b[i..];
    next := i + 2 + |o.data|;
    assert rest[0] == o.code && rest[1] == |o.data| && rest[2..2 + |o.data|] == o.data;
    assert b[i] == rest[0] && b[i + 1] == rest[1] && b[i + 2..next] == rest[2..2 + |o.data|];
    assert b[next..] == rest[2 + |o.data|..] == behind;
  }

  lemma EncodeSplits(opts: seq<Opt>, tail: seq<byte>)
    requires opts != [] && forall o :: o in opts ==> Encodable(o)
    ensures EncodeOptions(opts) + [OPT_END] + tail
         == EncodeOption(opts[0]) + (EncodeOptions(opts[1..]) + [OPT_END] + tail)
  {
  }

  /** Walking an encoded option list, wherever it stands, recovers it in order and stops at its END. */
  lemma {:induction false} WalkEncoded(b: seq<byte>, i: nat, opts: seq<Opt>, tail: seq<byte>)
    requires forall o :: o in opts ==> Encodable(o)
    requires i <= |b| && b[i..] == EncodeOptions(opts) + [OPT_END] + tail
    ensures Walk(b, i) == Walked(opts, true, i + |EncodeOptions(opts)|)
    decreases |opts|
  {
    if opts == [] {
      assert b[i] == b[i..][0] == OPT_END;
    } else {
      var o, behind := opts[0], EncodeOptions(opts[1..]) + [OPT_END] + tail;
      assert b[i..] == EncodeOption(o) + behind by { EncodeSplits(opts, tail); }
      var next := WalkOne(b, i, o, behind);
      WalkEncoded(b, next, opts[1..], tail);
      assert opts == [o] + opts[1..];
    }
  }

  // ---------------------------------------------------------------------------
  // The reply
  // ---------------------------------------------------------------------------

  datatype Reply = Reply(
    op: byte, xid: u32, chaddr: seq<byte>, yiaddr: u32, siaddr: u32, subnet: u32,
    gateway: Option<u32>, leaseSecs: u32, bootFile: Text)

  /** The boot file as both places carry it: at most 127 bytes. */
  function SentBootFile(r: Reply): (f: Text)
    ensures |f| < 128 && f <= r.bootFile
  {
    r.bootFile[..Min(|r.bootFile|, 127)]
  }

  function ReplyOptions(r: Reply): (opts: seq<Opt>)
    ensures forall o :: o in opts ==> Encodable(o)
  {
    [Opt(OPT_MESSAGE_TYPE, [r.op]), Opt(OPT_SERVER_ID, U32Bytes(r.siaddr)), Opt(OPT_SUBNET_MASK, U32Bytes(r.subnet))]
    + (match r.gateway case Some(gw) => [Opt(OPT_ROUTER, U32Bytes(gw))] case None => [])
    + [Opt(OPT_LEASE_TIME, U32Bytes(r.leaseSecs)), Opt(OPT_TFTP_SERVER, U32Bytes(r.siaddr)),
       Opt(OPT_BOOT_FILE, SentBootFile(r))]
  }

  /** Byte `i` of the fixed header, field by field. */
  function HeaderByte(r: Reply, i: nat): byte
    requires i < BOOTP_HEADER
  {
    if i == 0 then 2
    else if i == 1 then 1
    else if i == 2 then 6
    else if 4 <= i < 8 then U32Bytes(r.xid)[i - 4]
    else if 16 <= i < 20 then U32Bytes(r.yiaddr)[i - 16]
    else if 20 <= i < 24 then U32Bytes(r.siaddr)[i - 20]
    else if 28 <= i < 28 + Min(|r.chaddr|, 16) then r.chaddr[i - 28]
    else if 108 <= i < 108 + |SentBootFile(r)| then SentBootFile(r)[i - 108]
    else 0
  }

  function ReplyHeader(r: Reply): (h: seq<byte>)
    ensures |h| == BOOTP_HEADER && forall i :: 0 <= i < BOOTP_HEADER ==> h[i] == HeaderByte(r, i)
  {
    seq(BOOTP_HEADER, i requires 0 <= i < BOOTP_HEADER => HeaderByte(r, i))
  }

  function ReplyBytes(r: Reply): seq<byte> {
    ReplyHeader(r) + DHCP_MAGIC + EncodeOptions(ReplyOptions(r)) + [OPT_END]
  }

  /** `dst[at..at + src.len()].copy_from_slice(src)` */
  function CopyInto(dst: seq<byte>, at: nat, src: seq<byte>): (r: seq<byte>)
    requires at + |src| <= |dst|
    ensures |r| == |dst|
    ensures forall i :: 0 <= i < |dst| ==> r[i] == if at <= i < at + |src| then src[i - at] else dst[i]
  {
    dst[..at] + src + dst[at + |src|..]
  }

  /** The header part of `build_dhcp_reply`. */
  method BuildHeader(r: Reply) returns (pkt: seq<byte>)
    ensures pkt == ReplyHeader(r)
  {
    pkt := Zeros(BOOTP_HEADER);
    pkt := pkt[0 := 2];
    pkt := pkt[1 := 1];
    pkt := pkt[2 := 6];
    pkt := pkt[3 := 0];
    pkt := CopyInto(pkt, 4, U32Bytes(r.xid));
    pkt := CopyInto(pkt, 16, U32Bytes(r.yiaddr));
    pkt := CopyInto(pkt, 20, U32Bytes(r.siaddr));
    var copyLen := Min(|r.chaddr|, 16);
    pkt := CopyInto(pkt, 28, r.chaddr[..copyLen]);
    pkt := CopyInto(pkt, 108, SentBootFile(r));
  }

  /** Append one option to a packet that holds `opts` behind `front`. */
  method PushOption(ghost front: seq<byte>, ghost opts: seq<Opt>, pkt: seq<byte>, o: Opt)
    returns (ghost opts': seq<Opt>, pkt': seq<byte>)
    requires Encodable(o) && forall o :: o in opts ==> Encodable(o)
    requires pkt == front + EncodeOptions(opts)
    ensures opts' == opts + [o] && forall o :: o in opts' ==> Encodable(o)
    ensures pkt' == front + EncodeOptions(opts')
  {
    pkt' := pkt + [o.code, |o.data|];
    pkt' := pkt' + o.data;
    opts' := opts + [o];
    EncodeAppend(opts, o);
    assert pkt' == front + (EncodeOptions(opts) + EncodeOption(o));
  }

  /** `build_dhcp_reply` */
  method BuildDhcpReply(r: Reply) returns (pkt: seq<byte>)
    ensures pkt == ReplyBytes(r)
  {
    pkt := BuildHeader(r);
    pkt := pkt + DHCP_MAGIC;
    ghost var front := pkt;
    ghost var opts: seq<Opt> := [];
    opts, pkt := PushOption(front, opts, pkt, Opt(OPT_MESSAGE_TYPE, [r.op]));
    opts, pkt := PushOption(front, opts, pkt, Opt(OPT_SERVER_ID, U32Bytes(r.siaddr)));
    opts, pkt := PushOption(front, opts, pkt, Opt(OPT_SUBNET_MASK, U32Bytes(r.subnet)));
    if r.gateway.Some? {
      opts, pkt := PushOption(front, opts, pkt, Opt(OPT_ROUTER, U32Bytes(r.gateway.value)));
    }
    opts, pkt := PushOption(front, opts, pkt, Opt(OPT_LEASE_TIME, U32Bytes(r.leaseSecs)));
    opts, pkt := PushOption(front, opts, pkt, Opt(OPT_TFTP_SERVER, U32Bytes(r.siaddr)));
    opts, pkt := PushOption(front, opts, pkt, Opt(OPT_BOOT_FILE, SentBootFile(r)));
    assert opts == ReplyOptions(r);
    pkt := pkt + [OPT_END];
  }

  /** The last message-type option decides, whatever stands before it. */
  lemma {:induction false} LastTypeDecides(before: seq<Opt>, o: Opt, after: seq<Opt>, fallback: byte)
    requires IsTypeOption(o) && forall p :: p in after ==> !IsTypeOption(p)
    ensures LastType(before + [o] + after, fallback) == o.data[0]
  {
    var opts, n := before + [o] + after, |after|;
    if n == 0 {
      assert opts[|opts| - 1] == o;
    } else {
      assert opts[|opts| - 1] == after[n - 1] && opts[..|opts| - 1] == before + [o] + after[..n - 1];
      LastTypeDecides(before, o, after[..n - 1], fallback);
    }
  }

  lemma ReplyType(r: Reply)
    ensures LastType(ReplyOptions(r), 0) == r.op
  {
    var opts := ReplyOptions(r);
    assert opts == [] + [opts[0]] + opts[1..];
    LastTypeDecides([], opts[0], opts[1..], 0);
  }

  /** The option field behind header and cookie. */
  lemma FieldOf(header: seq<byte>, options: seq<byte>)
    requires |header| == BOOTP_HEADER
    ensures var pkt := header + DHCP_MAGIC + options + [OPT_END];
      |pkt| == 241 + |options| && pkt[BOOTP_HEADER..240] == DHCP_MAGIC && pkt[240..] == options + [OPT_END]
  {
  }

  lemma WalkField(opts: seq<Opt>)
    requires forall o :: o in opts ==> Encodable(o)
    ensures var field := EncodeOptions(opts) + [OPT_END];
      Walk(field, 0) == Walked(opts, true, |field| - 1) && TypesInBounds(field, 0)
  {
    var field := EncodeOptions(opts) + [OPT_END];
    assert field[0..] == EncodeOptions(opts) + [OPT_END] + [];
    WalkEncoded(field, 0, opts, []);
    EndedIsInBounds(field, 0);
  }

  /** For all arguments: the walk over a built reply stops at END on its very last byte, having met
      every written option in order, and the server's own scan finds the message type. */
  lemma ReplyRoundTrip(r: Reply)
    ensures var pkt := ReplyBytes(r);
      && |pkt| > 240 && pkt[BOOTP_HEADER..240] == DHCP_MAGIC
      && Walk(pkt[240..], 0) == Walked(ReplyOptions(r), true, |pkt| - 241)
      && TypesInBounds(pkt[240..], 0)
      && LastType(ReplyOptions(r), 0) == r.op
  {
    FieldOf(ReplyHeader(r), EncodeOptions(ReplyOptions(r)));
    WalkField(ReplyOptions(r));
    ReplyType(r);
  }

  /** What a BOOTP client reads at the fixed offsets (RFC 2131, section 2, figure 1). */
  lemma ReplyFields(r: Reply)
    ensures var pkt, copied := ReplyBytes(r), Min(|r.chaddr|, 16);
      && pkt[..4] == [2, 1, 6, 0]
      && U32Of(pkt[4..8]) == r.xid
      && pkt[8..16] == Zeros(8)
      && U32Of(pkt[16..20]) == r.yiaddr
      && U32Of(pkt[20..24]) == r.siaddr
      && pkt[24..28] == Zeros(4)
      && pkt[28..44] == r.chaddr[..copied] + Zeros(16 - copied)
      && pkt[44..108] == Zeros(64)
      && pkt[108..236] == SentBootFile(r) + Zeros(128 - |SentBootFile(r)|)
  {
    var pkt := ReplyBytes(r);
    assert forall i :: 0 <= i < BOOTP_HEADER ==> pkt[i] == HeaderByte(r, i);
    assert pkt[4..8] == U32Bytes(r.xid);
    assert pkt[16..20] == U32Bytes(r.yiaddr);
    assert pkt[20..24] == U32Bytes(r.siaddr);
  }

  /** The value of an option as a client finds it, in the last one with this code. */
  function Lookup(opts: seq<Opt>, code: byte): Option<seq<byte>>
    decreases |opts|
  {
    if opts == [] then None
    else
      var o := opts[|opts| - 1];
      if o.code == code then Some(o.data) else Lookup(opts[..|opts| - 1], code)
  }

  predicate DistinctCodes(opts: seq<Opt>) {
    forall i, j :: 0 <= i < j < |opts| ==> opts[i].code != opts[j].code
  }

  lemma {:induction false} LookupAt(opts: seq<Opt>, i: nat)
    requires DistinctCodes(opts) && i < |opts|
    ensures Lookup(opts, opts[i].code) == Some(opts[i].data)
    decreases |opts|
  {
    if i < |opts| - 1 { LookupAt(opts[..|opts| - 1], i); }
  }

  lemma {:induction false} LookupAbsent(opts: seq<Opt>, code: byte)
    requires forall o :: o in opts ==> o.code != code
    ensures Lookup(opts, code) == None
    decreases |opts|
  {
    if opts != [] { LookupAbsent(opts[..|opts| - 1], code); }
  }

  /** The codes of a reply's options, in the order of writing. */
  lemma ReplyCodes(r: Reply)
    ensures var opts := ReplyOptions(r);
      && DistinctCodes(opts)
      && (forall o :: o in opts ==> o.code in {1, 3, 51, 53, 54, 66, 67})
      && (r.gateway.None? ==> |opts| == 6 && forall o :: o in opts ==> o.code != 3)
      && (r.gateway.Some? ==> |opts| == 7)
  {
  }

  /** What a client reads out of the options, by code (RFC 2132, sections 3.3, 3.5 and 9): message type,
      server identifier, subnet mask, router if there is one, lease time and TFTP server.  Each code
      occurs at most once, and no other occurs. */
  lemma ReplyOptionValues(r: Reply)
    ensures var opts := Walk(ReplyBytes(r)[240..], 0).options;
      && Lookup(opts, 53) == Some([r.op])
      && Lookup(opts, 54) == Some(U32Bytes(r.siaddr))
      && Lookup(opts, 1) == Some(U32Bytes(r.subnet))
      && Lookup(opts, 3) == (if r.gateway.Some? then Some(U32Bytes(r.gateway.value)) else None)
      && Lookup(opts, 51) == Some(U32Bytes(r.leaseSecs))
      && Lookup(opts, 66) == Some(U32Bytes(r.siaddr))
      && Lookup(opts, 67) == Some(SentBootFile(r))
      && DistinctCodes(opts)
      && forall o :: o in opts ==> o.code in {1, 3, 51, 53, 54, 66, 67}
  {
    ReplyRoundTrip(r);
    ReplyCodes(r);
    var opts := ReplyOptions(r);
    var n := |opts|;
    LookupAt(opts, 0);
    LookupAt(opts, 1);
    LookupAt(opts, 2);
    LookupAt(opts, n - 3);
    LookupAt(opts, n - 2);
    LookupAt(opts, n - 1);
    if r.gateway.Some? { LookupAt(opts, 3); } else { LookupAbsent(opts, 3); }
  }

  /** The client gets the whole name exactly when it is shorter than 128 bytes. */
  lemma BootFileRoundTrip(r: Reply)
    ensures Lookup(Walk(ReplyBytes(r)[240..], 0).options, 67) == Some(r.bootFile) <==> |r.bootFile| < 128
  {
    ReplyOptionValues(r);
    assert r.bootFile[..|r.bootFile|] == r.bootFile;
  }

  // ---------------------------------------------------------------------------
  // The request
  // ---------------------------------------------------------------------------

  datatype Request = Request(mac: Mac, chaddr: seq<byte>, xid: u32, broadcast: bool, msgType: byte)

  predicate IsDhcp(data: seq<byte>) {
    |data| >= 240 && data[BOOTP_HEADER..240] == DHCP_MAGIC
  }

  /** The fields of a client's message (RFC 2131, section 2); the top bit of the flags asks for a
      broadcast reply. */
  function RequestOf(data: seq<byte>): Request
    requires IsDhcp(data)
  {
    Request(data[28..34], data[28..44], U32Of(data[4..8]), data[10] >= 0x80,
            LastType(Walk(data[240..], 0).options, 0))
  }

  /** A client's header (RFC 2131, section 2): `front` is op to hops, `addresses` ciaddr to giaddr, `names`
      sname and file. */
  function ClientHeader(
      front: seq<byte>, xid: u32, secs: seq<byte>, flags: u16, addresses: seq<byte>, chaddr: seq<byte>,
      names: seq<byte>): (h: seq<byte>)
  {
    front + U32Bytes(xid) + secs + U16Bytes(flags) + addresses + chaddr + names
  }

  lemma ClientHeaderFields(
      front: seq<byte>, xid: u32, secs: seq<byte>, flags: u16, addresses: seq<byte>, chaddr: seq<byte>,
      names: seq<byte>)
    requires |front| == 4 && |secs| == 2 && |addresses| == 16 && |chaddr| == 16 && |names| == 192
    ensures var h := ClientHeader(front, xid, secs, flags, addresses, chaddr, names);
      && |h| == 236 && h[4..8] == U32Bytes(xid) && h[10..12] == U16Bytes(flags) && h[28..44] == chaddr
  {
  }

  /** What the server reads in a message that starts with this header. */
  lemma RequestBehind(header: seq<byte>, field: seq<byte>)
    requires |header| == 236
    ensures var data := header + [99, 130, 83, 99] + field;
      && IsDhcp(data) && data[240..] == field
      && RequestOf(data) == Request(header[28..44][..6], header[28..44], U32Of(header[4..8]), header[10] >= 0x80,
                                    LastType(Walk(field, 0).options, 0))
  {
    var data := header + [99, 130, 83, 99] + field;
    assert data[236..240] == [99, 130, 83, 99] && data[240..] == field;
    assert data[4..8] == header[4..8] && data[28..44] == header[28..44];
    assert data[28..34] == header[28..44][..6];
  }

  lemma TopBit(flags: u16)
    ensures U16Bytes(flags)[0] >= 0x80 <==> flags >= 0x8000
  {
  }

  /** The server reads back every message that a client writes: its xid, its broadcast flag, its hardware
      address, and the message type in option 53, wherever that stands among the options. */
  lemma ClientRoundTrip(
      front: seq<byte>, xid: u32, secs: seq<byte>, flags: u16, addresses: seq<byte>, chaddr: seq<byte>,
      names: seq<byte>, before: seq<Opt>, value: seq<byte>, after: seq<Opt>, padding: seq<byte>)
    requires |front| == 4 && |secs| == 2 && |addresses| == 16 && |chaddr| == 16 && |names| == 192
    requires 1 <= |value| < 256
    requires forall o :: o in before + after ==> Encodable(o) && o.code != 53
    requires forall o :: o in before + [Opt(53, value)] + after ==> Encodable(o)
    ensures var data := ClientHeader(front, xid, secs, flags, addresses, chaddr, names)
                        + [99, 130, 83, 99] + (EncodeOptions(before + [Opt(53, value)] + after) + [255] + padding);
      && IsDhcp(data) && TypesInBounds(data[240..], 0)
      && RequestOf(data) == Request(chaddr[..6], chaddr, xid, flags >= 0x8000, value[0])
  {
    var header := ClientHeader(front, xid, secs, flags, addresses, chaddr, names);
    var opts := before + [Opt(53, value)] + after;
    var field := EncodeOptions(opts) + [255] + padding;
    ClientHeaderFields(front, xid, secs, flags, addresses, chaddr, names);
    RequestBehind(header, field);
    TopBit(flags);
    assert header[10] == header[10..12][0];
    assert field[0..] == EncodeOptions(opts) + [OPT_END] + padding;
    WalkEncoded(field, 0, opts, padding);
    EndedIsInBounds(field, 0);
    assert forall o :: o in after ==> o in before + after;
    LastTypeDecides(before, Opt(53, value), after, 0);
  }

  /** Field by field, what comes of a datagram: nothing unless it carries the cookie. */
  method ParseRequest(data: seq<byte>) returns (r: Option<Request>)
    requires IsDhcp(data) ==> TypesInBounds(data[240..], 0)
    ensures r.Some? <==> |data| >= 240 && data[236..240] == [99, 130, 83, 99]
    ensures r.Some? ==>
      && U32Bytes(r.value.xid) == data[4..8]
      && r.value.chaddr == data[28..44] && r.value.mac == data[28..34]
      && (r.value.broadcast <==> data[10] >= 0x80)
      && r.value.msgType == LastType(Walk(data[240..], 0).options, 0)
    ensures r == if IsDhcp(data) then Some(RequestOf(data)) else None
  {
    if |data| < 240 || data[BOOTP_HEADER..240] != DHCP_MAGIC {
      return None;
    }
    var flags := U16Of(data[10], data[11]);
    var msgType := ScanMessageType(data[240..]);
    var xid := U16Of(data[4], data[5]) * 0x1_0000 + U16Of(data[6], data[7]);
    var chaddr := data[28..44];
    assert chaddr[..6] == data[28..34];
    U32Rebuilt(data[4..8]);
    r := Some(Request(chaddr[..6], chaddr, xid, flags >= 0x8000, msgType));
  }
}
