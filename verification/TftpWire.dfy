/** TFTP packets: the read request the server parses, and the DATA, ACK and ERROR packets of the
    transfer (RFC 1350, section 5). */
module TftpWire {
  import opened Bytes

  const OP_RRQ: u16 := 1
  const OP_DATA: u16 := 3
  const OP_ACK: u16 := 4
  const OP_ERROR: u16 := 5

  // ---------------------------------------------------------------------------
  // UTF-8, as `std::str::from_utf8` checks it
  // ---------------------------------------------------------------------------

  predicate Tail(b: byte) {
    0x80 <= b < 0xC0
  }

  /** Length of the well-formed UTF-8 character at the start of `s`, 0 when there is none. */
  function CharLen(s: Text): (n: nat)
    requires s != []
    ensures n <= |s|
  {
    var b := s[0];
    if b < 0x80 then 1
    else if 0xC2 <= b < 0xE0 then
      if |s| >= 2 && Tail(s[1]) then 2 else 0
    else if 0xE0 <= b < 0xF0 then
      if |s| >= 3 && Tail(s[1]) && Tail(s[2])
         && (b == 0xE0 ==> s[1] >= 0xA0) && (b == 0xED ==> s[1] < 0xA0) then 3 else 0
    else if 0xF0 <= b < 0xF5 then
      if |s| >= 4 && Tail(s[1]) && Tail(s[2]) && Tail(s[3])
         && (b == 0xF0 ==> s[1] >= 0x90) && (b == 0xF4 ==> s[1] < 0x90) then 4 else 0
    else 0
  }

  predicate ValidUtf8(s: Text) {
    s == [] || (CharLen(s) > 0 && ValidUtf8(s[CharLen(s)..]))
  }

  /** The number in a lead byte of the form that starts at `from`, and in the bytes that continue it. */
  function Bits(b: seq<byte>, from: byte): int
    requires b != []
    decreases |b|
  {
    if |b| == 1 then b[0] as int - from as int
    else 64 * Bits(b[..|b| - 1], from) + (b[|b| - 1] as int - 0x80)
  }

  /** `b` is the UTF-8 form of the character `c` (RFC 3629, section 3): the shortest of the four forms, of a
      number up to 0x10FFFF that is no surrogate. */
  predicate Encodes(b: seq<byte>, c: nat) {
    && 1 <= |b| <= 4 && (forall i :: 1 <= i < |b| ==> Tail(b[i]))
    && match |b|
       case 1 => c == b[0] as int && c < 0x80
       case 2 => c == Bits(b, 0xC0) && 0x80 <= c < 0x800 && 0xC0 <= b[0]
       case 3 => c == Bits(b, 0xE0) && 0x800 <= c < 0x1_0000 && 0xE0 <= b[0] && !(0xD800 <= c < 0xE000)
       case _ => c == Bits(b, 0xF0) && 0x1_0000 <= c < 0x11_0000 && 0xF0 <= b[0]
  }

  lemma BitsTwo(b: seq<byte>, from: byte)
    requires |b| == 2
    ensures Bits(b, from) == 64 * (b[0] as int - from as int) + (b[1] as int - 0x80)
  {
    assert Bits(b[..1], from) == b[0] as int - from as int;
  }

  lemma BitsThree(b: seq<byte>, from: byte)
    requires |b| == 3
    ensures Bits(b, from) == 4096 * (b[0] as int - from as int) + 64 * (b[1] as int - 0x80) + (b[2] as int - 0x80)
  {
    BitsTwo(b[..2], from);
  }

  lemma BitsFour(b: seq<byte>, from: byte)
    requires |b| == 4
    ensures Bits(b, from) == 262144 * (b[0] as int - from as int) + 4096 * (b[1] as int - 0x80)
                             + 64 * (b[2] as int - 0x80) + (b[3] as int - 0x80)
  {
    BitsThree(b[..3], from);
  }

  /** The check accepts a first character of `n` bytes exactly when these bytes are the form of one. */
  lemma CharLenExactly(s: Text, n: nat)
    requires 1 <= n <= 4 && n <= |s|
    ensures CharLen(s) == n <==> exists c: nat :: Encodes(s[..n], c)
  {
    var b := s[..n];
    assert forall i :: 0 <= i < n ==> b[i] == s[i];
    if n == 1 {
      assert CharLen(s) == 1 ==> Encodes(b, s[0] as int);
    } else if n == 2 {
      BitsTwo(b, 0xC0);
      assert CharLen(s) == 2 ==> Encodes(b, Bits(b, 0xC0));
    } else if n == 3 {
      BitsThree(b, 0xE0);
      assert CharLen(s) == 3 ==> Encodes(b, Bits(b, 0xE0));
    } else {
      BitsFour(b, 0xF0);
      assert CharLen(s) == 4 ==> Encodes(b, Bits(b, 0xF0));
    }
  }

  function Concat(chars: seq<Text>): Text {
    if chars == [] then [] else chars[0] + Concat(chars[1..])
  }

  ghost predicate AllEncoded(chars: seq<Text>) {
    forall b :: b in chars ==> exists c: nat :: Encodes(b, c)
  }

  /** A text is valid exactly when it is a sequence of encoded characters. */
  lemma {:induction false} ValidUtf8Exactly(s: Text)
    ensures ValidUtf8(s) <==> exists chars :: AllEncoded(chars) && Concat(chars) == s
  {
    if ValidUtf8(s) {
      var chars := Characters(s);
    }
    forall chars | AllEncoded(chars) && Concat(chars) == s ensures ValidUtf8(s) {
      ConcatIsValid(chars);
    }
  }

  lemma {:induction false} Characters(s: Text) returns (chars: seq<Text>)
    requires ValidUtf8(s)
    ensures AllEncoded(chars) && Concat(chars) == s
  {
    if s == [] {
      chars := [];
    } else {
      var n := CharLen(s);
      CharLenExactly(s, n);
      var rest := Characters(s[n..]);
      chars := [s[..n]] + rest;
      assert chars[1..] == rest && s == s[..n] + s[n..];
    }
  }

  lemma {:induction false} ConcatIsValid(chars: seq<Text>)
    requires AllEncoded(chars)
    ensures ValidUtf8(Concat(chars))
  {
    if chars != [] {
      var s, n := Concat(chars), |chars[0]|;
      assert chars[0] in chars && forall b :: b in chars[1..] ==> b in chars;
      ConcatIsValid(chars[1..]);
      assert s[..n] == chars[0] && s[n..] == Concat(chars[1..]);
      CharLenExactly(s, n);
    }
  }

  predicate IsAscii(s: Text) {
    forall c :: c in s ==> c < 0x80
  }

  lemma {:induction false} AsciiIsUtf8(s: Text)
    requires IsAscii(s)
    ensures ValidUtf8(s)
  {
    if s != [] {
      assert s[0] in s;
      assert forall c :: c in s[1..] ==> c in s;
      AsciiIsUtf8(s[1..]);
    }
  }

  function LowerByte(c: byte): byte {
    var n: int := c;
    if 65 <= n < 91 then n + 32 else n
  }

  /** `to_ascii_lowercase` */
  function Lower(s: Text): (r: Text)
    ensures |r| == |s| && forall i :: 0 <= i < |s| ==> r[i] == LowerByte(s[i])
  {
    seq(|s|, i requires 0 <= i < |s| => LowerByte(s[i]))
  }

  // ---------------------------------------------------------------------------
  // Read requests
  // ---------------------------------------------------------------------------

  datatype ReadRequest = ReadRequest(filename: Text, mode: Text)

  /** The two NUL-terminated strings behind the opcode, before any decoding. */
  function RrqFields(packet: seq<byte>): Option<(seq<byte>, seq<byte>)> {
    if |packet| < 4 || U16Of(packet[0], packet[1]) != OP_RRQ then None
    else
      var payload := packet[2..];
      var fileEnd := Find(payload, 0);
      if fileEnd == |payload| then None
      else
        var fromMode := payload[fileEnd + 1..];
        var modeLen := Find(fromMode, 0);
        if modeLen == |fromMode| then None else Some((payload[..fileEnd], fromMode[..modeLen]))
  }

  function ParseRrq(packet: seq<byte>): Option<ReadRequest> {
    match RrqFields(packet)
    case None => None
    case Some((name, spelling)) =>
      if ValidUtf8(name) && ValidUtf8(spelling) then Some(ReadRequest(name, Lower(spelling))) else None
  }

  /** The request a client writes: opcode, name, NUL, mode, NUL. */
  function RrqBytes(name: Text, mode: Text): seq<byte> {
    U16Bytes(OP_RRQ) + name + [0] + mode + [0]
  }

  /** `packet` is a read request for `name` whose mode was spelt `spelling`, with any bytes behind. */
  ghost predicate IsRrq(packet: seq<byte>, name: Text, spelling: Text, rest: seq<byte>) {
    && packet == RrqBytes(name, spelling) + rest
    && 0 !in name && ValidUtf8(name)
    && 0 !in spelling && ValidUtf8(spelling)
  }

  lemma RrqLayout(name: Text, mode: Text, rest: seq<byte>)
    ensures RrqBytes(name, mode) + rest == U16Bytes(OP_RRQ) + (name + [0] + (mode + [0] + rest))
  {
  }

  lemma FieldsWritten(name: Text, spelling: Text, rest: seq<byte>)
    requires 0 !in name && 0 !in spelling
    ensures RrqFields(RrqBytes(name, spelling) + rest) == Some((name, spelling))
  {
    var packet, behind := RrqBytes(name, spelling) + rest, spelling + [0] + rest;
    RrqLayout(name, spelling, rest);
    var payload := packet[2..];
    assert payload == name + [0] + behind;
    FindAt(name, 0, behind);
    FindAt(spelling, 0, rest);
    assert payload[..|name|] == name && payload[|name| + 1..] == behind;
    assert behind[..|spelling|] == spelling;
  }

  lemma CutAt(s: seq<byte>, i: nat)
    requires i < |s|
    ensures s == s[..i] + [s[i]] + s[i + 1..]
  {
  }

  /** A NUL-terminated string at the front of `s`. */
  lemma NulString(s: seq<byte>)
    requires Find(s, 0) < |s|
    ensures var i := Find(s, 0); s == s[..i] + [0] + s[i + 1..] && 0 !in s[..i]
  {
    CutAt(s, Find(s, 0));
  }

  lemma OpcodeRrq(packet: seq<byte>)
    requires |packet| >= 4 && U16Of(packet[0], packet[1]) == OP_RRQ
    ensures packet == U16Bytes(OP_RRQ) + packet[2..]
  {
    assert packet[0] == 0 && packet[1] == 1;
  }

  lemma FieldsRead(packet: seq<byte>) returns (rest: seq<byte>)
    requires RrqFields(packet).Some?
    ensures var (name, spelling) := RrqFields(packet).value;
      packet == RrqBytes(name, spelling) + rest && 0 !in name && 0 !in spelling
  {
    var payload := packet[2..];
    var i := Find(payload, 0);
    var behind := payload[i + 1..];
    var k := Find(behind, 0);
    rest := behind[k + 1..];
    OpcodeRrq(packet);
    NulString(payload);
    NulString(behind);
    RrqLayout(payload[..i], behind[..k], rest);
  }

  /** The parser answers a request exactly when the packet is one, and then with its name and its
      mode in lower case. */
  lemma RrqExact(packet: seq<byte>, req: ReadRequest)
    ensures ParseRrq(packet) == Some(req)
      <==> exists spelling, rest :: IsRrq(packet, req.filename, spelling, rest) && Lower(spelling) == req.mode
  {
    if ParseRrq(packet) == Some(req) {
      var rest := FieldsRead(packet);
      var spelling := RrqFields(packet).value.1;
      assert IsRrq(packet, req.filename, spelling, rest);
    }
    forall spelling, rest | IsRrq(packet, req.filename, spelling, rest) && Lower(spelling) == req.mode
      ensures ParseRrq(packet) == Some(req)
    {
      FieldsWritten(req.filename, spelling, rest);
    }
  }

  // ---------------------------------------------------------------------------
  // DATA, ACK and ERROR
  // ---------------------------------------------------------------------------

  function DataBytes(block: u16, data: seq<byte>): seq<byte> {
    U16Bytes(OP_DATA) + U16Bytes(block) + data
  }

  function AckBytes(block: u16): seq<byte> {
    U16Bytes(OP_ACK) + U16Bytes(block)
  }

  function ErrorBytes(code: u16, message: Text): seq<byte> {
    U16Bytes(OP_ERROR) + U16Bytes(code) + message + [0]
  }

  /** What a reader makes of a packet from the server; an error text comes with its NUL. */
  datatype FromServer = Data(block: u16, data: seq<byte>) | Error(code: u16, text: seq<byte>) | Unknown

  function ParseFromServer(packet: seq<byte>): FromServer {
    if |packet| < 4 then Unknown
    else
      var op, n := U16Of(packet[0], packet[1]), U16Of(packet[2], packet[3]);
      if op == OP_DATA then Data(n, packet[4..])
      else if op == OP_ERROR then Error(n, packet[4..])
      else Unknown
  }

  /** The server's acceptance test for one received datagram.  It receives into four bytes, so a
      longer datagram arrives cut to four. */
  predicate IsMatchingAck(datagram: seq<byte>, block: u16) {
    && |datagram| >= 4
    && U16Of(datagram[0], datagram[1]) == OP_ACK
    && U16Of(datagram[2], datagram[3]) == block
  }

  /** A reader recovers what the server packed, and never takes one kind of packet for the other. */
  lemma DataRoundTrip(block: u16, data: seq<byte>)
    ensures ParseFromServer(DataBytes(block, data)) == Data(block, data)
  {
    var packet := DataBytes(block, data);
    assert packet[..2] == U16Bytes(OP_DATA) && packet[2..4] == U16Bytes(block) && packet[4..] == data;
    assert packet[0] == packet[..2][0] && packet[1] == packet[..2][1];
    assert packet[2] == packet[2..4][0] && packet[3] == packet[2..4][1];
  }

  lemma ErrorRoundTrip(code: u16, message: Text)
    ensures ParseFromServer(ErrorBytes(code, message)) == Error(code, message + [0])
  {
    var packet := ErrorBytes(code, message);
    assert packet[..2] == U16Bytes(OP_ERROR) && packet[2..4] == U16Bytes(code) && packet[4..] == message + [0];
    assert packet[0] == packet[..2][0] && packet[1] == packet[..2][1];
    assert packet[2] == packet[2..4][0] && packet[3] == packet[2..4][1];
  }

  /** Only one packet reads as this block. */
  lemma DataUnique(packet: seq<byte>, block: u16, data: seq<byte>)
    requires ParseFromServer(packet) == Data(block, data)
    ensures packet == DataBytes(block, data)
  {
    assert packet == packet[..4] + packet[4..];
    assert packet[..4] == U16Bytes(OP_DATA) + U16Bytes(block);
  }

  lemma ErrorUnique(packet: seq<byte>, code: u16, message: Text)
    requires ParseFromServer(packet) == Error(code, message + [0])
    ensures packet == ErrorBytes(code, message)
  {
    assert packet == packet[..4] + packet[4..];
    assert packet[..4] == U16Bytes(OP_ERROR) + U16Bytes(code);
  }

  method BuildTftpData(block: u16, data: seq<byte>) returns (packet: seq<byte>)
    ensures ParseFromServer(packet) == Data(block, data) && |packet| == 4 + |data|
  {
    packet := [];
    packet := packet + U16Bytes(OP_DATA);
    packet := packet + U16Bytes(block);
    packet := packet + data;
    assert packet == DataBytes(block, data);
    DataRoundTrip(block, data);
  }

  method BuildTftpError(code: u16, message: Text) returns (packet: seq<byte>)
    ensures ParseFromServer(packet) == Error(code, message + [0])
  {
    packet := [];
    packet := packet + U16Bytes(OP_ERROR);
    packet := packet + U16Bytes(code);
    packet := packet + message;
    packet := packet + [0];
    assert packet == ErrorBytes(code, message);
    ErrorRoundTrip(code, message);
  }

  /** An ACK matches exactly the block that it names. */
  lemma AckMatches(block: u16, expected: u16)
    ensures IsMatchingAck(AckBytes(block), expected) <==> block == expected
  {
    var a := AckBytes(block);
    assert a[..2] == U16Bytes(OP_ACK) && a[2..4] == U16Bytes(block);
    assert a[0] == a[..2][0] && a[1] == a[..2][1] && a[2] == a[2..4][0] && a[3] == a[2..4][1];
  }

  /** The bytes themselves (RFC 1350, section 5 and appendix I): opcodes 1, 3, 4 and 5, and the number that
      follows, most significant byte first. */
  lemma PacketBytes(hi: byte, lo: byte, data: seq<byte>, name: Text, mode: Text)
    ensures var n := U16Of(hi, lo);
      && DataBytes(n, data) == [0, 3, hi, lo] + data
      && AckBytes(n) == [0, 4, hi, lo]
      && ErrorBytes(n, data) == [0, 5, hi, lo] + data + [0]
      && RrqBytes(name, mode) == [0, 1] + name + [0] + mode + [0]
      && (IsMatchingAck([0, 4, hi, lo], n))
      && n == hi as int * 256 + lo as int
  {
    U16Rebuilt(hi, lo);
  }
}
