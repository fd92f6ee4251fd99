/** MAC addresses as text, and the 16-bit node id folded from them. */
module MacText {
  import opened Bytes
  import opened BitOps
  import opened Words

  const COLON: byte := 58
  const PLUS: byte := 43

  /** `[u8; 6]` */
  type Mac = m: seq<byte> | |m| == 6 witness [0, 0, 0, 0, 0, 0]

  type Nibble = x: int | 0 <= x < 16

  function HexDigit(n: Nibble): byte {
    var d: int := n;
    if d < 10 then 48 + d else 87 + d
  }

  /** `char::to_digit(16)`: either letter case is a digit. */
  function DigitValue(c: byte): Option<Nibble> {
    var d: int := c;
    if 48 <= d < 58 then Some(d - 48)
    else if 65 <= d < 71 then Some(d - 55)
    else if 97 <= d < 103 then Some(d - 87)
    else None
  }

  /** `format!("{b:02x}")` */
  function FmtHex2(b: byte): (s: Text)
    ensures |s| == 2
  {
    [HexDigit(b / 16), HexDigit(b % 16)]
  }

  /** The pieces that `fmt_mac` joins. */
  function MacParts(m: Mac): (parts: seq<Text>)
    ensures |parts| == 6 && forall i :: 0 <= i < 6 ==> parts[i] == FmtHex2(m[i])
  {
    [FmtHex2(m[0]), FmtHex2(m[1]), FmtHex2(m[2]), FmtHex2(m[3]), FmtHex2(m[4]), FmtHex2(m[5])]
  }

  function FmtMac(m: Mac): Text {
    Join(MacParts(m), COLON)
  }

  /** The digit loop of `u8::from_str_radix(_, 16)`, failing on overflow. */
  function ParseDigits(s: Text, acc: byte): Option<byte> {
    if s == [] then Some(acc)
    else
      match DigitValue(s[0])
      case None => None
      case Some(d) =>
        var next: int := acc as int * 16 + d as int;
        if next > 255 then None else ParseDigits(s[1..], next)
  }

  /** `u8::from_str_radix(s, 16)`: one leading plus sign is allowed, a lone sign is not. */
  function ParseHexU8(s: Text): Option<byte> {
    if s == [] || s == [PLUS] then None
    else if s[0] == PLUS then ParseDigits(s[1..], 0)
    else ParseDigits(s, 0)
  }

  function ParseOctets(parts: seq<Text>): Option<seq<byte>> {
    if parts == [] then Some([])
    else
      match (ParseHexU8(parts[0]), ParseOctets(parts[1..]))
      case (Some(b), Some(rest)) => Some([b] + rest)
      case _ => None
  }

  predicate IsSpace(c: byte) {
    c == 32 || 9 <= c <= 13
  }

  function TrimStart(s: Text): Text {
    if s != [] && IsSpace(s[0]) then TrimStart(s[1..]) else s
  }

  function TrimEnd(s: Text): Text {
    if s != [] && IsSpace(s[|s| - 1]) then TrimEnd(s[..|s| - 1]) else s
  }

  function Trim(s: Text): Text {
    TrimEnd(TrimStart(s))
  }

  /** The MAC that `derive_node_id` reads out of the sysfs text, `None` being its error return. */
  function ParseMac(text: Text): Option<Mac> {
    match ParseOctets(Split(Trim(text), COLON))
    case None => None
    case Some(octets) => if |octets| == 6 then Some(octets) else None
  }

  /** `proto::node_id_from_mac` */
  function NodeIdFromMac(m: Mac): u16 {
    U16Of(Xor8(Xor8(m[0], m[2]), m[4]), Xor8(Xor8(m[1], m[3]), m[5]))
  }

  function DeriveNodeId(text: Text): Option<u16> {
    match ParseMac(text)
    case None => None
    case Some(m) => Some(NodeIdFromMac(m))
  }

  /** The agent script's arithmetic: `(((m0^m2^m4) & 0xFF) << 8) | ((m1^m3^m5) & 0xFF)`. */
  function AgentNodeId(m: Mac): nat {
    var hi := And(Xor(Xor(m[0], m[2]), m[4]), 0xFF);
    var lo := And(Xor(Xor(m[1], m[3]), m[5]), 0xFF);
    Or(Shl(hi, 8), lo)
  }

  lemma ParseFmtHex2(b: byte)
    ensures ParseHexU8(FmtHex2(b)) == Some(b)
    ensures forall c :: c in FmtHex2(b) ==> c != COLON && !IsSpace(c)
  {
    var s := FmtHex2(b);
    var hi, lo := b / 16, b % 16;
    assert DigitValue(s[0]) == Some(hi) && DigitValue(s[1]) == Some(lo);
    assert s[1..] == [s[1]] && s[1..][1..] == [];
    assert ParseDigits([s[1]], hi) == Some(b);
  }

  lemma {:induction false} ParseParts(m: seq<byte>, parts: seq<Text>)
    requires |m| == |parts| && forall i :: 0 <= i < |m| ==> parts[i] == FmtHex2(m[i])
    ensures ParseOctets(parts) == Some(m)
  {
    if m != [] {
      ParseFmtHex2(m[0]);
      ParseParts(m[1..], parts[1..]);
      assert m == [m[0]] + m[1..];
    }
  }

  lemma {:induction false} TrimStartPad(pad: Text, s: Text)
    requires forall c :: c in pad ==> IsSpace(c)
    requires s != [] && !IsSpace(s[0])
    ensures TrimStart(pad + s) == s
  {
    if pad == [] {
      assert pad + s == s;
    } else {
      assert (pad + s)[1..] == pad[1..] + s;
      TrimStartPad(pad[1..], s);
    }
  }

  lemma {:induction false} TrimEndPad(s: Text, pad: Text)
    requires forall c :: c in pad ==> IsSpace(c)
    requires s != [] && !IsSpace(s[|s| - 1])
    ensures TrimEnd(s + pad) == s
  {
    if pad == [] {
      assert s + pad == s;
    } else {
      var shorter := pad[..|pad| - 1];
      assert (s + pad)[..|s + pad| - 1] == s + shorter;
      TrimEndPad(s, shorter);
    }
  }

  lemma {:induction false} JoinPairs(parts: seq<Text>, sep: byte, c: byte)
    requires parts != [] && forall p :: p in parts ==> |p| == 2
    ensures |Join(parts, sep)| == 3 * |parts| - 1
    ensures c in Join(parts, sep) ==> c == sep || exists i :: 0 <= i < |parts| && c in parts[i]
  {
    assert parts[0] in parts;
    if |parts| > 1 {
      JoinPairs(parts[1..], sep, c);
    }
  }

  lemma Hex2Char(b: byte, c: byte)
    requires c in FmtHex2(b)
    ensures 48 <= c < 58 || 97 <= c < 103
  {
  }

  lemma FmtMacChar(m: Mac, c: byte)
    requires c in FmtMac(m)
    ensures 48 <= c <= 58 || 97 <= c < 103
  {
    JoinPairs(MacParts(m), COLON, c);
    if c != COLON {
      var i :| 0 <= i < 6 && c in MacParts(m)[i];
      Hex2Char(m[i], c);
    }
  }

  /** A formatted MAC is seventeen characters, each of them a hexadecimal digit or a colon. */
  lemma FmtMacShape(m: Mac)
    ensures |FmtMac(m)| == 17
    ensures forall c :: c in FmtMac(m) ==> 48 <= c <= 58 || 97 <= c < 103
  {
    JoinPairs(MacParts(m), COLON, 0);
    forall c | c in FmtMac(m) ensures 48 <= c <= 58 || 97 <= c < 103 {
      FmtMacChar(m, c);
    }
  }

  /** `derive_node_id` reads back the MAC that `fmt_mac` wrote, whatever white space surrounds it. */
  lemma MacTextRoundTrip(m: Mac, before: Text, after: Text)
    requires forall c :: c in before + after ==> IsSpace(c)
    ensures ParseMac(before + FmtMac(m) + after) == Some(m)
    ensures DeriveNodeId(before + FmtMac(m) + after) == Some(NodeIdFromMac(m))
  {
    var parts, text := MacParts(m), FmtMac(m);
    FmtMacShape(m);
    assert before + text + after == before + (text + after);
    assert text[0] in text && text[16] in text && (text + after)[0] == text[0];
    assert forall c :: c in before ==> c in before + after;
    assert forall c :: c in after ==> c in before + after;
    TrimStartPad(before, text + after);
    TrimEndPad(text, after);
    forall p | p in parts ensures COLON !in p {
      var i :| 0 <= i < 6 && p == parts[i];
      ParseFmtHex2(m[i]);
    }
    SplitJoin(parts, COLON);
    ParseParts(m, parts);
  }

  /** Different MACs are written differently. */
  lemma FmtMacInjective(m: Mac, m': Mac)
    requires FmtMac(m) == FmtMac(m')
    ensures m == m'
  {
    MacTextRoundTrip(m, [], []);
    MacTextRoundTrip(m', [], []);
    assert [] + FmtMac(m) + [] == FmtMac(m);
  }

  /** Each pair of octets goes into the id as it stands, the first octet on top. */
  lemma NodeIdFolds(hi: byte, lo: byte)
    ensures NodeIdFromMac([hi, lo, 0, 0, 0, 0]) == hi as int * 256 + lo as int
    ensures NodeIdFromMac([0, 0, hi, lo, 0, 0]) == hi as int * 256 + lo as int
    ensures NodeIdFromMac([0, 0, 0, 0, hi, lo]) == hi as int * 256 + lo as int
  {
    XorZero(hi);
    XorZero(lo);
    XorZero(0);
  }

  lemma MaskOctet(b: byte)
    ensures And(b, 0xFF) == b
  {
    LowOctet(b);
  }

  lemma OctetPair(hi: byte, lo: byte)
    ensures Or(Shl(hi, 8), lo) == U16Of(hi, lo)
  {
    MaskValues();
    ShlValues(hi);
    OrIsSum(hi, lo, 8);
  }

  /** The daemon's fold and the agent script's shell arithmetic give the same id. */
  lemma AgentAgrees(m: Mac)
    ensures NodeIdFromMac(m) == AgentNodeId(m)
  {
    var hi := Xor8(Xor8(m[0], m[2]), m[4]);
    var lo := Xor8(Xor8(m[1], m[3]), m[5]);
    MaskOctet(hi);
    MaskOctet(lo);
    OctetPair(hi, lo);
  }
}
