/** The discovery frame and the control envelope of the `proto` crate.  bincode itself is not
    modelled: a payload is the byte string that it produced. */
module Framing {
  import opened Bytes
  import opened BitOps

  const FRAME_MAGIC: byte := 0xCA
  const CONTROL_FRAME_MARKER: byte := 1
  const MAX_CONTROL_PAYLOAD: nat := 60 * 1024
  const MAX_FRAME: nat := 508
  const RECV_BUFFER: nat := 576

  datatype MsgType = Heartbeat | Announce | Leave | Ack | Gossip | VoteRequest | VoteGrant

  /** The `#[repr(u8)]` discriminant. */
  function TypeCode(t: MsgType): byte {
    match t
    case Heartbeat => 0
    case Announce => 1
    case Leave => 2
    case Ack => 3
    case Gossip => 4
    case VoteRequest => 5
    case VoteGrant => 6
  }

  function MsgTypeFromU8(v: byte): Option<MsgType> {
    match v as int
    case 0 => Some(Heartbeat)
    case 1 => Some(Announce)
    case 2 => Some(Leave)
    case 3 => Some(Ack)
    case 4 => Some(Gossip)
    case 5 => Some(VoteRequest)
    case 6 => Some(VoteGrant)
    case _ => None
  }

  datatype FrameHeader = FrameHeader(magic: byte, typeSeq: byte, nodeHi: byte, nodeLo: byte) {
    function Type(): Option<MsgType> {
      MsgTypeFromU8(Shr4(typeSeq))
    }

    function Seq(): nat {
      And(typeSeq, 0x0F)
    }

    function NodeId(): u16 {
      U16Of(nodeHi, nodeLo)
    }

    function ToBytes(): seq<byte> {
      [magic, typeSeq, nodeHi, nodeLo]
    }
  }

  /** `(msg_type << 4) | (seq & 0x0F)` */
  function PackTypeSeq(t: MsgType, seqNo: byte): (r: byte)
    ensures r == 16 * TypeCode(t) + seqNo % 16
  {
    PackIsSum(TypeCode(t), seqNo);
    Or(Shl(TypeCode(t), 4), And(seqNo, 0x0F))
  }

  lemma PackIsSum(t: byte, seqNo: byte)
    ensures And(seqNo, 0x0F) == seqNo % 16
    ensures Or(Shl(t, 4), And(seqNo, 0x0F)) == 16 * t + seqNo % 16
  {
    LowNibble(seqNo);
    MaskValues();
    ShlValues(t);
    OrIsSum(t, seqNo % 16, 4);
  }

  function NewHeader(t: MsgType, seqNo: byte, nodeId: u16): FrameHeader {
    var id := U16Bytes(nodeId);
    FrameHeader(FRAME_MAGIC, PackTypeSeq(t, seqNo), id[0], id[1])
  }

  function HeaderFromBytes(b: seq<byte>): Option<FrameHeader> {
    if |b| < 4 || b[0] != FRAME_MAGIC then None
    else Some(FrameHeader(b[0], b[1], b[2], b[3]))
  }

  /** What the listener gets out of one datagram: the sender, the type and the payload bytes. */
  datatype Frame = Frame(nodeId: u16, msgType: MsgType, seqNo: nat, payload: seq<byte>)

  /** The listener's checks up to the payload decode; `None` means that it skips the datagram. */
  function ReceiveFrame(datagram: seq<byte>, selfId: u16): Option<Frame> {
    var data := datagram[..Min(|datagram|, RECV_BUFFER)];
    match HeaderFromBytes(data)
    case None => None
    case Some(h) =>
      if h.NodeId() == selfId then None
      else
        match h.Type()
        case None => None
        case Some(t) => Some(Frame(h.NodeId(), t, h.Seq(), data[4..]))
  }

  function FrameBytes(header: FrameHeader, encoded: seq<byte>): Option<seq<byte>> {
    if 4 + |encoded| > MAX_FRAME then None else Some(header.ToBytes() + encoded)
  }

  /** `encode_frame`, given the bincode bytes; `None` is the "frame too large" error. */
  method EncodeFrame(header: FrameHeader, encoded: seq<byte>) returns (r: Option<seq<byte>>)
    ensures r.Some? <==> |encoded| <= 504
    ensures r.Some? ==>
      && 4 <= |r.value| <= MAX_FRAME && r.value[4..] == encoded
      && (header.magic == FRAME_MAGIC ==> HeaderFromBytes(r.value) == Some(header))
    ensures r == FrameBytes(header, encoded)
  {
    var buf: seq<byte> := [];
    buf := buf + header.ToBytes();
    buf := buf + encoded;
    if |buf| > MAX_FRAME {
      return None;
    }
    assert buf == header.ToBytes() + encoded;
    r := Some(buf);
  }

  /** A frame that `encode_frame` accepts fits the receive buffer, and every other node's listener
      reads back exactly what was packed; the sender's own listener drops it. */
  lemma FrameRoundTrip(t: MsgType, seqNo: byte, nodeId: u16, encoded: seq<byte>, selfId: u16)
    ensures FrameBytes(NewHeader(t, seqNo, nodeId), encoded).None? <==> |encoded| > 504
    ensures |encoded| <= 504 ==>
      var wire := FrameBytes(NewHeader(t, seqNo, nodeId), encoded).value;
      && |wire| <= MAX_FRAME <= RECV_BUFFER
      && ReceiveFrame(wire, selfId)
         == if nodeId == selfId then None else Some(Frame(nodeId, t, seqNo % 16, encoded))
  {
    if |encoded| <= 504 {
      var h := NewHeader(t, seqNo, nodeId);
      var wire := h.ToBytes() + encoded;
      UnpackHeader(t, seqNo, nodeId);
      assert wire[..Min(|wire|, RECV_BUFFER)] == wire;
      assert wire[4..] == encoded;
      assert HeaderFromBytes(wire) == Some(h);
    }
  }

  lemma UnpackHeader(t: MsgType, seqNo: byte, nodeId: u16)
    ensures NewHeader(t, seqNo, nodeId).Type() == Some(t)
    ensures NewHeader(t, seqNo, nodeId).Seq() == seqNo % 16
    ensures NewHeader(t, seqNo, nodeId).NodeId() == nodeId
  {
    LowNibble(PackTypeSeq(t, seqNo));
  }

  function ControlBytes(payload: seq<byte>): Option<seq<byte>> {
    if |payload| >= 0x1_0000 then None
    else Some([CONTROL_FRAME_MARKER] + U16Bytes(|payload|) + payload)
  }

  /** A daemon reading one request off its socket, whose remaining bytes are `stream`. */
  datatype ControlRead =
    | Received(payload: seq<byte>, consumed: nat)
    | BadMarker(marker: byte)
    | TooLarge(length: nat)
    | Closed

  function ReadControl(stream: seq<byte>): ControlRead {
    if |stream| < 3 then Closed
    else if stream[0] != CONTROL_FRAME_MARKER then BadMarker(stream[0])
    else
      var n := U16Of(stream[1], stream[2]);
      if n > MAX_CONTROL_PAYLOAD then TooLarge(n)
      else if |stream| < 3 + n then Closed
      else Received(stream[3..3 + n], 3 + n)
  }

  /** Whatever follows on the stream, a reader recovers a payload of at most 60 KiB exactly and stops
      right behind it; it refuses every longer one that can be written at all. */
  lemma ControlRoundTrip(payload: seq<byte>, rest: seq<byte>)
    requires |payload| < 0x1_0000
    ensures ReadControl(ControlBytes(payload).value + rest)
      == if |payload| <= MAX_CONTROL_PAYLOAD then Received(payload, 3 + |payload|) else TooLarge(|payload|)
  {
    var len := U16Bytes(|payload|);
    var stream := ControlBytes(payload).value + rest;
    assert stream[0] == CONTROL_FRAME_MARKER && stream[1] == len[0] && stream[2] == len[1];
    assert stream[3..3 + |payload|] == payload;
  }

  /** `encode_control`; `None` is its panic on a payload that overflows the length field.  A reader takes
      the envelope for exactly this payload, or for one that it refuses. */
  method EncodeControl(payload: seq<byte>) returns (r: Option<seq<byte>>)
    ensures r.Some? <==> |payload| < 0x1_0000
    ensures r.Some? && |payload| <= MAX_CONTROL_PAYLOAD ==> ReadControl(r.value) == Received(payload, |r.value|)
    ensures r.Some? && |payload| > MAX_CONTROL_PAYLOAD ==> ReadControl(r.value) == TooLarge(|payload|)
    ensures r == ControlBytes(payload)
  {
    if |payload| >= 0x1_0000 {
      return None;
    }
    var out: seq<byte> := [];
    out := out + [CONTROL_FRAME_MARKER];
    out := out + U16Bytes(|payload|);
    out := out + payload;
    assert out == ControlBytes(payload).value == out + [];
    ControlRoundTrip(payload, []);
    r := Some(out);
  }

  /** Back-to-back envelopes: reading one leaves the stream positioned on the next. */
  lemma ControlFramesDelimit(p: seq<byte>, q: seq<byte>, rest: seq<byte>)
    requires |p| <= MAX_CONTROL_PAYLOAD && |q| <= MAX_CONTROL_PAYLOAD
    ensures
      var stream := ControlBytes(p).value + ControlBytes(q).value + rest;
      var first := ReadControl(stream);
      && first == Received(p, 3 + |p|)
      && ReadControl(stream[first.consumed..]) == Received(q, 3 + |q|)
  {
    var tail := ControlBytes(q).value + rest;
    var stream := ControlBytes(p).value + ControlBytes(q).value + rest;
    assert stream == ControlBytes(p).value + tail;
    ControlRoundTrip(p, tail);
    assert stream[3 + |p|..] == tail;
    ControlRoundTrip(q, rest);
  }

  /** The bytes of a frame: magic, type code and low nibble, id, payload. */
  lemma FrameLayout(t: MsgType, seqNo: byte, hi: byte, lo: byte, encoded: seq<byte>)
    requires |encoded| <= 504
    ensures var wire := FrameBytes(NewHeader(t, seqNo, U16Of(hi, lo)), encoded);
      && wire.Some? && |wire.value| == 4 + |encoded|
      && wire.value[0] == 0xCA && wire.value[2] == hi && wire.value[3] == lo && wire.value[4..] == encoded
      && wire.value[1] % 16 == seqNo % 16
      && wire.value[1] / 16 ==
           (match t
            case Heartbeat => 0 case Announce => 1 case Leave => 2 case Ack => 3 case Gossip => 4
            case VoteRequest => 5 case VoteGrant => 6)
  {
    U16Rebuilt(hi, lo);
  }

  /** The bytes of a control envelope: marker 1, length, payload; a reader accepts up to 61440 bytes. */
  lemma EnvelopeLayout(hi: byte, lo: byte, payload: seq<byte>)
    requires |payload| == U16Of(hi, lo)
    ensures ControlBytes(payload) == Some([1, hi, lo] + payload)
    ensures ReadControl([1, hi, lo] + payload) ==
      if |payload| <= 61440 then Received(payload, 3 + |payload|) else TooLarge(|payload|)
  {
    U16Rebuilt(hi, lo);
    assert U16Bytes(|payload|) == [hi, lo];
    assert [CONTROL_FRAME_MARKER] + [hi, lo] + payload == [1, hi, lo] + payload;
    ControlRoundTrip(payload, []);
    assert ControlBytes(payload).value + [] == [1, hi, lo] + payload;
  }

  /** The listener takes exactly the datagrams with a whole header, the magic, another node's id and a type
      code up to 6. */
  lemma ReceivesExactly(datagram: seq<byte>, selfId: u16)
    ensures ReceiveFrame(datagram, selfId).Some? <==>
      && |datagram| >= 4 && datagram[0] == 0xCA && datagram[1] as int / 16 <= 6
      && U16Of(datagram[2], datagram[3]) != selfId
  {
    var data := datagram[..Min(|datagram|, RECV_BUFFER)];
    assert |datagram| >= 4 ==> data[0] == datagram[0] && data[1] == datagram[1];
    assert |datagram| >= 4 ==> data[2] == datagram[2] && data[3] == datagram[3];
  }

  /** A daemon takes exactly the streams that start with marker 1, a length up to 61440 and that many bytes. */
  lemma ReadsExactly(stream: seq<byte>)
    ensures ReadControl(stream).Received? <==>
      |stream| >= 3 && stream[0] == 1 && U16Of(stream[1], stream[2]) <= 61440
      && |stream| >= 3 + U16Of(stream[1], stream[2])
    ensures ReadControl(stream).BadMarker? <==> |stream| >= 3 && stream[0] != 1
    ensures ReadControl(stream).TooLarge? <==>
      |stream| >= 3 && stream[0] == 1 && U16Of(stream[1], stream[2]) > 61440
  {
  }
}
