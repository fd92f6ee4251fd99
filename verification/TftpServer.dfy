/** `serve_tftp_read` once its file is open: the two nested loops as a method, the small machine that
    they drive, and what a transfer amounts to for any sequence of socket events.

    `file.read` is taken to fill the 512-byte buffer unless the file ends, which is what the source's
    test for the last block relies on. */
module TftpServer {
  import opened Bytes
  import opened TftpWire

  const BLOCK_SIZE: nat := 512
  const MAX_RETRIES: nat := 5

  /** Result of one timed receive on the transfer socket. */
  datatype Receive = Datagram(bytes: seq<byte>, fromClient: bool) | RecvError | TimedOut

  /** One turn of the inner loop: the send fails, or it succeeds and a receive follows. */
  datatype Attempt = SendError | Sent(rx: Receive)

  predicate Accepts(rx: Receive, block: u16) {
    rx.Datagram? && rx.fromClient && IsMatchingAck(rx.bytes, block)
  }

  /** Event `i` of a sequence that goes on with time-outs for ever. */
  function Nth(attempts: seq<Attempt>, i: nat): Attempt {
    if i < |attempts| then attempts[i] else Sent(TimedOut)
  }

  // ---------------------------------------------------------------------------
  // The file as blocks
  // ---------------------------------------------------------------------------

  /** Number of blocks of a file; the last one is always short, and possibly empty. */
  function Blocks(file: seq<byte>): (n: nat)
    ensures n >= 1
  {
    |file| / BLOCK_SIZE + 1
  }

  /** File offset behind block `k`. */
  function Upto(file: seq<byte>, k: nat): (n: nat)
    ensures n <= |file| && n <= BLOCK_SIZE * k
  {
    Min(BLOCK_SIZE * k, |file|)
  }

  /** Block `k` of the file, counting from 1. */
  function Chunk(file: seq<byte>, k: nat): seq<byte>
    requires k >= 1
  {
    file[Upto(file, k - 1)..Upto(file, k)]
  }

  /** `u16::wrapping_add` */
  function WrappingAdd(a: u16, b: u16): u16 {
    var sum: int := a as int + b as int;
    if sum < 0x1_0000 then sum else sum - 0x1_0000
  }

  /** The 16-bit number that block `k` travels under. */
  function Wire(k: nat): u16 {
    k % 0x1_0000
  }

  lemma WireNext(k: nat)
    ensures WrappingAdd(Wire(k), 1) == Wire(k + 1)
  {
  }

  function BlockPacket(file: seq<byte>, k: nat): seq<byte>
    requires k >= 1
  {
    DataBytes(Wire(k), Chunk(file, k))
  }

  lemma ChunkLength(file: seq<byte>, k: nat)
    requires 1 <= k <= Blocks(file)
    ensures Chunk(file, k) == file[512 * (k - 1)..Min(512 * k, |file|)]
    ensures |Chunk(file, k)| <= 512
    ensures |Chunk(file, k)| < 512 <==> k == |file| / 512 + 1
  {
  }

  /** The blocks up to `k` make a prefix of the file, and all of them make the file. */
  lemma ChunksAppend(file: seq<byte>, k: nat)
    requires 1 <= k <= Blocks(file)
    ensures file[..Upto(file, k - 1)] + Chunk(file, k) == file[..Upto(file, k)]
    ensures k == Blocks(file) ==> file[..Upto(file, k)] == file
  {
  }

  /** `file.read` at offset `pos` into the 512-byte buffer. */
  function ReadAt(file: seq<byte>, pos: nat): seq<byte> {
    if pos <= |file| then file[pos..Min(pos + BLOCK_SIZE, |file|)] else []
  }

  /** Reading on from behind block `k - 1` yields block `k`. */
  lemma ReadIsChunk(file: seq<byte>, k: nat, pos: nat)
    requires k >= 1 && pos == Upto(file, k - 1)
    ensures ReadAt(file, pos) == Chunk(file, k)
    ensures pos + |Chunk(file, k)| == Upto(file, k)
  {
  }

  // ---------------------------------------------------------------------------
  // The machine
  // ---------------------------------------------------------------------------

  datatype Phase = Reading | Sending | Waiting | Complete | Failed

  /** The loop's variables.  `index` counts the blocks without wrapping; the code has only `block`. */
  datatype Server = Server(phase: Phase, index: nat, block: u16, pos: nat, chunk: seq<byte>, retries: nat)

  const INIT: Server := Server(Reading, 1, 1, 0, [], 0)

  function ReadStep(file: seq<byte>, s: Server, ok: bool): Server {
    if s.phase != Reading then s
    else if !ok then s.(phase := Failed)
    else
      var chunk := ReadAt(file, s.pos);
      s.(phase := Sending, pos := s.pos + |chunk|, chunk := chunk, retries := 0)
  }

  function SendStep(s: Server, ok: bool): Server {
    if s.phase != Sending then s else s.(phase := if ok then Waiting else Failed)
  }

  function ReceiveStep(s: Server, rx: Receive): Server {
    if s.phase != Waiting then s
    else if Accepts(rx, s.block) then
      if |s.chunk| < BLOCK_SIZE then s.(phase := Complete)
      else s.(phase := Reading, index := s.index + 1, block := WrappingAdd(s.block, 1))
    else if s.retries + 1 >= MAX_RETRIES then s.(phase := Failed, retries := s.retries + 1)
    else s.(phase := Sending, retries := s.retries + 1)
  }

  /** One turn of the inner loop, and the read of the next block if that turn was its last. */
  function Turn(file: seq<byte>, unreadable: set<nat>, s: Server, a: Attempt): Server {
    var t := match a
      case SendError => SendStep(s, false)
      case Sent(rx) => ReceiveStep(SendStep(s, true), rx);
    ReadStep(file, t, t.index !in unreadable)
  }

  /** The machine after `n` turns; reading fails at the `unreadable` blocks. */
  function Drive(file: seq<byte>, unreadable: set<nat>, attempts: seq<Attempt>, n: nat): Server {
    if n == 0 then ReadStep(file, INIT, 1 !in unreadable)
    else Turn(file, unreadable, Drive(file, unreadable, attempts, n - 1), Nth(attempts, n - 1))
  }

  // ---------------------------------------------------------------------------
  // What a transfer amounts to
  // ---------------------------------------------------------------------------

  /** How the server fares with one block, and how many times it put the block on the wire. */
  datatype Fate = Acked(sends: nat) | Exhausted(sends: nat) | Broken(sends: nat)

  /** The block's first attempt is `start`; the server is about to make attempt `i`. */
  function FateFrom(attempts: seq<Attempt>, start: nat, block: u16, i: nat): (f: Fate)
    requires start <= i < start + MAX_RETRIES
    ensures i - start <= f.sends <= MAX_RETRIES
    ensures !f.Broken? ==> f.sends > i - start
    decreases start + MAX_RETRIES - i
  {
    match Nth(attempts, i)
    case SendError => Broken(i - start)
    case Sent(rx) =>
      if Accepts(rx, block) then Acked(i + 1 - start)
      else if i + 1 == start + MAX_RETRIES then Exhausted(MAX_RETRIES)
      else FateFrom(attempts, start, block, i + 1)
  }

  /** Number of attempts used up before block `k`. */
  function StartOf(attempts: seq<Attempt>, k: nat): nat
    requires k >= 1
    decreases k, 0
  {
    if k == 1 then 0
    else StartOf(attempts, k - 1) + BlockFate(attempts, k - 1).sends
  }

  function BlockFate(attempts: seq<Attempt>, k: nat): Fate
    requires k >= 1
    decreases k, 1
  {
    var start := StartOf(attempts, k);
    FateFrom(attempts, start, Wire(k), start)
  }

  function Repeat(packet: seq<byte>, n: nat): (r: seq<seq<byte>>)
    ensures |r| == n && forall p :: p in r ==> p == packet
  {
    seq(n, _ => packet)
  }

  /** All datagrams sent for blocks 1 to `k`. */
  function Transcript(file: seq<byte>, attempts: seq<Attempt>, k: nat): seq<seq<byte>> {
    if k == 0 then []
    else Transcript(file, attempts, k - 1) + Repeat(BlockPacket(file, k), BlockFate(attempts, k).sends)
  }

  predicate Delivered(unreadable: set<nat>, attempts: seq<Attempt>, k: nat)
    requires k >= 1
  {
    k !in unreadable && BlockFate(attempts, k).Acked?
  }

  /** How the call returns; the block numbers are the ones that it logs. */
  datatype Outcome = TransferComplete(blocks: u16) | GaveUp(block: u16) | ReadFailed | SendFailed

  /** The block at which the transfer ends is the first one not delivered, or the last one. */
  predicate EndsAt(file: seq<byte>, unreadable: set<nat>, attempts: seq<Attempt>, last: nat) {
    && 1 <= last <= Blocks(file)
    && (forall k :: 1 <= k < last ==> Delivered(unreadable, attempts, k))
    && (last < Blocks(file) ==> !Delivered(unreadable, attempts, last))
  }

  function OutcomeAt(unreadable: set<nat>, attempts: seq<Attempt>, last: nat): Outcome
    requires last >= 1
  {
    if last in unreadable then ReadFailed
    else
      match BlockFate(attempts, last)
      case Acked(_) => TransferComplete(Wire(last))
      case Exhausted(_) => GaveUp(Wire(last))
      case Broken(_) => SendFailed
  }

  /** The inner loop: send until the matching ACK arrives or five attempts are used. */
  method SendBlock(block: u16, chunk: seq<byte>, attempts: seq<Attempt>, start: nat)
    returns (fate: Fate, packets: seq<seq<byte>>)
    ensures fate == FateFrom(attempts, start, block, start)
    ensures packets == Repeat(DataBytes(block, chunk), fate.sends)
  {
    var packet := BuildTftpData(block, chunk);
    DataUnique(packet, block, chunk);
    packets := [];
    var retries := 0;
    while true
      invariant retries < MAX_RETRIES
      invariant FateFrom(attempts, start, block, start) == FateFrom(attempts, start, block, start + retries)
      invariant packets == Repeat(packet, retries)
      decreases MAX_RETRIES - retries
    {
      var attempt := Nth(attempts, start + retries);
      if attempt.SendError? {
        return Broken(retries), packets;
      }
      packets := packets + [packet];
      if Accepts(attempt.rx, block) {
        return Acked(retries + 1), packets;
      }
      retries := retries + 1;
      if retries >= MAX_RETRIES {
        return Exhausted(retries), packets;
      }
    }
  }

  const READ_FAILED: Text := Ascii("read failed")

  method SendReadFailed(sent: seq<seq<byte>>) returns (sent': seq<seq<byte>>)
    ensures sent' == sent + [ErrorBytes(0, READ_FAILED)]
  {
    var error := BuildTftpError(0, READ_FAILED);
    ErrorUnique(error, 0, READ_FAILED);
    sent' := sent + [error];
  }

  /** The loop's variables at the top of the outer loop. */
  ghost predicate AtBlock(
      file: seq<byte>, unreadable: set<nat>, attempts: seq<Attempt>, last: nat,
      block: u16, pos: nat, turns: nat, sent: seq<seq<byte>>)
  {
    && 1 <= last <= Blocks(file) && block == Wire(last)
    && pos == Upto(file, last - 1)
    && turns == StartOf(attempts, last)
    && sent == Transcript(file, attempts, last - 1)
    && forall k :: 1 <= k < last ==> Delivered(unreadable, attempts, k)
  }

  lemma StartsAtBlock(file: seq<byte>, unreadable: set<nat>, attempts: seq<Attempt>)
    ensures AtBlock(file, unreadable, attempts, 1, 1, 0, 0, [])
  {
  }

  /** How the loops are left once a block's fate is known, if they are. */
  function WayOut(fate: Fate, block: u16, chunk: seq<byte>): Option<Outcome> {
    match fate
    case Acked(_) => if |chunk| < BLOCK_SIZE then Some(TransferComplete(block)) else None
    case Exhausted(_) => Some(GaveUp(block))
    case Broken(_) => Some(SendFailed)
  }

  /** The loops are left at the block where the transfer ends, and with its outcome. */
  lemma LeavesAtEnd(file: seq<byte>, unreadable: set<nat>, attempts: seq<Attempt>, last: nat)
    requires 1 <= last <= Blocks(file) && last !in unreadable
    requires forall k :: 1 <= k < last ==> Delivered(unreadable, attempts, k)
    ensures var out := WayOut(BlockFate(attempts, last), Wire(last), Chunk(file, last));
      && (out.Some? ==>
            EndsAt(file, unreadable, attempts, last) && out.value == OutcomeAt(unreadable, attempts, last))
      && (out.None? ==> last < Blocks(file) && Delivered(unreadable, attempts, last))
  {
    ChunkLength(file, last);
  }

  /** One readable block: what it adds, and where it leads. */
  lemma BlockServed(
      file: seq<byte>, unreadable: set<nat>, attempts: seq<Attempt>, last: nat,
      block: u16, pos: nat, turns: nat, sent: seq<seq<byte>>)
    requires AtBlock(file, unreadable, attempts, last, block, pos, turns, sent) && last !in unreadable
    ensures var chunk, fate := ReadAt(file, pos), FateFrom(attempts, turns, block, turns);
      var out, after := WayOut(fate, block, chunk), sent + Repeat(DataBytes(block, chunk), fate.sends);
      && (out.Some? ==>
            && EndsAt(file, unreadable, attempts, last)
            && out.value == OutcomeAt(unreadable, attempts, last)
            && after == Transcript(file, attempts, last))
      && (out.None? ==>
            AtBlock(file, unreadable, attempts, last + 1, WrappingAdd(block, 1), pos + |chunk|,
                    turns + fate.sends, after))
  {
    ReadIsChunk(file, last, pos);
    WireNext(last);
    LeavesAtEnd(file, unreadable, attempts, last);
  }

  /** A block that cannot be read ends the transfer. */
  lemma UnreadableEnds(
      file: seq<byte>, unreadable: set<nat>, attempts: seq<Attempt>, last: nat,
      block: u16, pos: nat, turns: nat, sent: seq<seq<byte>>)
    requires AtBlock(file, unreadable, attempts, last, block, pos, turns, sent) && last in unreadable
    ensures EndsAt(file, unreadable, attempts, last)
    ensures OutcomeAt(unreadable, attempts, last) == ReadFailed && sent == Transcript(file, attempts, last - 1)
  {
  }

  /** One turn of the outer loop, for a block that can be read. */
  method ServeBlock(
      file: seq<byte>, ghost unreadable: set<nat>, attempts: seq<Attempt>, ghost last: nat,
      block: u16, pos: nat, turns: nat, sent: seq<seq<byte>>)
    returns (out: Option<Outcome>, pos': nat, turns': nat, sent': seq<seq<byte>>)
    requires AtBlock(file, unreadable, attempts, last, block, pos, turns, sent) && last !in unreadable
    ensures out.Some? ==>
      && EndsAt(file, unreadable, attempts, last)
      && out.value == OutcomeAt(unreadable, attempts, last)
      && sent' == Transcript(file, attempts, last)
    ensures out.None? ==> AtBlock(file, unreadable, attempts, last + 1, WrappingAdd(block, 1), pos', turns', sent')
  {
    BlockServed(file, unreadable, attempts, last, block, pos, turns, sent);
    var chunk := ReadAt(file, pos);
    pos' := pos + |chunk|;
    var fate, packets := SendBlock(block, chunk, attempts, turns);
    sent' := sent + packets;
    turns' := turns + fate.sends;
    out := WayOut(fate, block, chunk);
  }

  /** The nested loops of `serve_tftp_read`, fed by an arbitrary sequence of socket events. */
  method ServeTftpRead(file: seq<byte>, unreadable: set<nat>, attempts: seq<Attempt>)
    returns (sent: seq<seq<byte>>, outcome: Outcome, last: nat)
    ensures EndsAt(file, unreadable, attempts, last)
    ensures outcome == OutcomeAt(unreadable, attempts, last)
    ensures sent ==
      if last !in unreadable then Transcript(file, attempts, last)
      else Transcript(file, attempts, last - 1) + [ErrorBytes(0, READ_FAILED)]
  {
    var block: u16 := 1;
    var pos: nat, turns: nat := 0, 0;
    sent, last := [], 1;
    StartsAtBlock(file, unreadable, attempts);
    while true
      invariant AtBlock(file, unreadable, attempts, last, block, pos, turns, sent)
      decreases Blocks(file) - last
    {
      if last in unreadable {
        UnreadableEnds(file, unreadable, attempts, last, block, pos, turns, sent);
        sent := SendReadFailed(sent);
        return sent, ReadFailed, last;
      }
      var out;
      out, pos, turns, sent := ServeBlock(file, unreadable, attempts, last, block, pos, turns, sent);
      if out.Some? {
        return sent, out.value, last;
      }
      block := WrappingAdd(block, 1);
      last := last + 1;
    }
  }

  // ---------------------------------------------------------------------------
  // Consequences, for every event sequence
  // ---------------------------------------------------------------------------

  /** Attempt `i` sends, and then receives the matching ACK. */
  predicate AckAt(attempts: seq<Attempt>, i: nat, block: u16) {
    Nth(attempts, i).Sent? && Accepts(Nth(attempts, i).rx, block)
  }

  /** No attempt fails to send. */
  ghost predicate SendsSucceed(attempts: seq<Attempt>) {
    forall i :: Nth(attempts, i).Sent?
  }

  /** When no send fails, a block is acknowledged exactly if one of its first five receives is the
      matching ACK. */
  lemma {:induction false} AckedExactly(attempts: seq<Attempt>, start: nat, block: u16, i: nat)
    requires start <= i < start + MAX_RETRIES
    requires SendsSucceed(attempts)
    ensures FateFrom(attempts, start, block, i).Acked?
      <==> exists j: nat :: i <= j < start + MAX_RETRIES && AckAt(attempts, j, block)
    ensures !FateFrom(attempts, start, block, i).Broken?
    decreases start + MAX_RETRIES - i
  {
    if !AckAt(attempts, i, block) && i + 1 < start + MAX_RETRIES {
      AckedExactly(attempts, start, block, i + 1);
    }
  }

  /** What a block's fate says of its attempts, failing sends included: acknowledged at the first matching ACK
      and not before, given up after five sends without one, or broken off at a send that fails. */
  lemma {:induction false} FateExactly(attempts: seq<Attempt>, start: nat, block: u16, i: nat)
    requires start <= i < start + 5
    ensures var f := FateFrom(attempts, start, block, i);
      var end := start + f.sends;
      && (forall j :: i <= j < (if f.Acked? then end - 1 else end) ==>
            Nth(attempts, j).Sent? && !AckAt(attempts, j, block))
      && (f.Acked? ==> AckAt(attempts, end - 1, block))
      && (f.Exhausted? ==> f.sends == 5)
      && (f.Broken? ==> f.sends < 5 && Nth(attempts, end).SendError?)
    decreases start + 5 - i
  {
    if Nth(attempts, i).Sent? && !AckAt(attempts, i, block) && i + 1 < start + 5 {
      FateExactly(attempts, start, block, i + 1);
    }
  }

  lemma {:induction false} TranscriptSize(file: seq<byte>, attempts: seq<Attempt>, k: nat)
    ensures |Transcript(file, attempts, k)| <= MAX_RETRIES * k
    ensures SendsSucceed(attempts) ==> |Transcript(file, attempts, k)| >= k
  {
    if k > 0 {
      TranscriptSize(file, attempts, k - 1);
      if SendsSucceed(attempts) {
        AckedExactly(attempts, StartOf(attempts, k), Wire(k), StartOf(attempts, k));
      }
    }
  }

  /** Every datagram of a transfer is one of the file's numbered blocks. */
  lemma {:induction false} TranscriptHoldsBlocks(file: seq<byte>, attempts: seq<Attempt>, k: nat, p: seq<byte>)
    ensures p in Transcript(file, attempts, k) ==> exists i :: 1 <= i <= k && p == BlockPacket(file, i)
  {
    if k > 0 {
      TranscriptHoldsBlocks(file, attempts, k - 1, p);
      assert p in Repeat(BlockPacket(file, k), BlockFate(attempts, k).sends) ==> p == BlockPacket(file, k);
    }
  }

  /** One of block `k`'s first five receives is the ACK that carries its number. */
  ghost predicate AckInTime(attempts: seq<Attempt>, k: nat)
    requires k >= 1
  {
    exists i: nat :: StartOf(attempts, k) <= i < StartOf(attempts, k) + 5 && AckAt(attempts, i, k % 65536)
  }

  lemma DeliveredExactly(unreadable: set<nat>, attempts: seq<Attempt>, k: nat)
    requires k >= 1 && k !in unreadable && SendsSucceed(attempts)
    ensures Delivered(unreadable, attempts, k) <==> AckInTime(attempts, k)
    ensures 1 <= BlockFate(attempts, k).sends <= MAX_RETRIES
  {
    AckedExactly(attempts, StartOf(attempts, k), Wire(k), StartOf(attempts, k));
  }

  /** What the outcome of a transfer says: which block it logs, and why it ended there. */
  lemma OutcomeMeans(file: seq<byte>, unreadable: set<nat>, attempts: seq<Attempt>, last: nat)
    requires EndsAt(file, unreadable, attempts, last)
    ensures var o, start := OutcomeAt(unreadable, attempts, last), StartOf(attempts, last);
      && (o.ReadFailed? <==> last in unreadable)
      && (o.TransferComplete? ==> last == |file| / 512 + 1 && o.blocks == last % 65536)
      && (o.GaveUp? ==>
            && o.block == last % 65536
            && forall i :: start <= i < start + 5 ==> Nth(attempts, i).Sent? && !AckAt(attempts, i, last % 65536))
      && (o.SendFailed? ==>
            exists i :: start <= i < start + 5 && Nth(attempts, i).SendError?
              && forall j :: start <= j < i ==> Nth(attempts, j).Sent? && !AckAt(attempts, j, last % 65536))
  {
    FateExactly(attempts, StartOf(attempts, last), Wire(last), StartOf(attempts, last));
  }

  /** With reads and sends succeeding, each attempted block is sent one to five times, and at most
      five datagrams per block of the file leave in all. */
  lemma LoopBounds(file: seq<byte>, attempts: seq<Attempt>, last: nat)
    requires SendsSucceed(attempts) && last <= Blocks(file)
    ensures forall k :: 1 <= k <= last ==> 1 <= BlockFate(attempts, k).sends <= 5
    ensures last <= |Transcript(file, attempts, last)| <= 5 * (|file| / 512 + 1)
  {
    TranscriptSize(file, attempts, last);
    forall k | 1 <= k ensures 1 <= BlockFate(attempts, k).sends <= MAX_RETRIES {
      DeliveredExactly({}, attempts, k);
    }
  }

  /** With reads and sends succeeding, the transfer completes exactly when every block up to the short
      last one has its matching ACK among its first five receives. */
  lemma CompletesExactly(file: seq<byte>, attempts: seq<Attempt>, last: nat)
    requires SendsSucceed(attempts)
    requires EndsAt(file, {}, attempts, last)
    ensures OutcomeAt({}, attempts, last).TransferComplete?
      <==> forall k :: 1 <= k <= |file| / 512 + 1 ==> AckInTime(attempts, k)
    ensures OutcomeAt({}, attempts, last).TransferComplete?
      ==> last == |file| / 512 + 1 && |Chunk(file, last)| < 512
  {
    ChunkLength(file, last);
    assert OutcomeAt({}, attempts, last).TransferComplete? <==> Delivered({}, attempts, last);
    forall k | 1 <= k ensures AckInTime(attempts, k) <==> Delivered({}, attempts, k) {
      DeliveredExactly({}, attempts, k);
    }
  }

  // ---------------------------------------------------------------------------
  // The machine does what the loops do
  // ---------------------------------------------------------------------------

  /** The machine about to send block `k` for the `retries + 1`-st time. */
  function SendingBlock(file: seq<byte>, k: nat, retries: nat): Server
    requires k >= 1
  {
    Server(Sending, k, Wire(k), Upto(file, k), Chunk(file, k), retries)
  }

  lemma ReadBlock(file: seq<byte>, s: Server, ok: bool, k: nat)
    requires k >= 1
    requires s.phase == Reading && s.index == k && s.block == Wire(k) && s.pos == Upto(file, k - 1)
    ensures ReadStep(file, s, ok) == if ok then SendingBlock(file, k, 0) else s.(phase := Failed)
  {
    ReadIsChunk(file, k, s.pos);
  }

  /** Where the machine stands once it is through with block `k`. */
  predicate Landed(file: seq<byte>, unreadable: set<nat>, k: nat, acked: bool, s: Server)
    requires k >= 1
  {
    if !acked then s.phase == Failed && s.index == k
    else if k == Blocks(file) then s.phase == Complete && s.index == k
    else if k + 1 !in unreadable then s == SendingBlock(file, k + 1, 0)
    else s.phase == Failed && s.index == k + 1
  }

  lemma TurnBlock(file: seq<byte>, unreadable: set<nat>, a: Attempt, k: nat, retries: nat)
    requires 1 <= k <= Blocks(file) && retries < MAX_RETRIES
    ensures var next := Turn(file, unreadable, SendingBlock(file, k, retries), a);
      if a.SendError? then Landed(file, unreadable, k, false, next)
      else if Accepts(a.rx, Wire(k)) then Landed(file, unreadable, k, true, next)
      else if retries + 1 < MAX_RETRIES then next == SendingBlock(file, k, retries + 1)
      else Landed(file, unreadable, k, false, next)
  {
    ChunkLength(file, k);
    WireNext(k);
    if a.Sent? {
      var t := ReceiveStep(SendStep(SendingBlock(file, k, retries), true), a.rx);
      if t.phase == Reading {
        ReadBlock(file, t, k + 1 !in unreadable, k + 1);
      }
    }
  }

  /** Sending block `k` from attempt `start` on, the machine is through with it at turn `end`. */
  lemma {:induction false} DriveBlock(
      file: seq<byte>, unreadable: set<nat>, attempts: seq<Attempt>, start: nat, k: nat, i: nat)
    returns (end: nat)
    requires 1 <= k <= Blocks(file) && start <= i < start + MAX_RETRIES
    requires Drive(file, unreadable, attempts, i) == SendingBlock(file, k, i - start)
    ensures var f := FateFrom(attempts, start, Wire(k), i);
      && end == start + f.sends + (if f.Broken? then 1 else 0)
      && Landed(file, unreadable, k, f.Acked?, Drive(file, unreadable, attempts, end))
    decreases start + MAX_RETRIES - i
  {
    var a := Nth(attempts, i);
    TurnBlock(file, unreadable, a, k, i - start);
    assert Drive(file, unreadable, attempts, i + 1) == Turn(file, unreadable, SendingBlock(file, k, i - start), a);
    if a.Sent? && !Accepts(a.rx, Wire(k)) && i + 1 < start + MAX_RETRIES {
      end := DriveBlock(file, unreadable, attempts, start, k, i + 1);
    } else {
      end := i + 1;
    }
  }

  lemma {:induction false} DriveReaches(file: seq<byte>, unreadable: set<nat>, attempts: seq<Attempt>, k: nat)
    requires 1 <= k <= Blocks(file) && k !in unreadable
    requires forall j :: 1 <= j < k ==> Delivered(unreadable, attempts, j)
    ensures Drive(file, unreadable, attempts, StartOf(attempts, k)) == SendingBlock(file, k, 0)
    decreases k, 0
  {
    if k == 1 {
      ReadBlock(file, INIT, true, 1);
    } else {
      assert Delivered(unreadable, attempts, k - 1);
      var _ := DriveThrough(file, unreadable, attempts, k - 1);
    }
  }

  lemma {:induction false} DriveThrough(file: seq<byte>, unreadable: set<nat>, attempts: seq<Attempt>, k: nat)
    returns (end: nat)
    requires 1 <= k <= Blocks(file) && k !in unreadable
    requires forall j :: 1 <= j < k ==> Delivered(unreadable, attempts, j)
    ensures var f := BlockFate(attempts, k);
      && Landed(file, unreadable, k, f.Acked?, Drive(file, unreadable, attempts, end))
      && end == StartOf(attempts, k) + f.sends + (if f.Broken? then 1 else 0)
    decreases k, 1
  {
    DriveReaches(file, unreadable, attempts, k);
    var start := StartOf(attempts, k);
    end := DriveBlock(file, unreadable, attempts, start, k, start);
  }

  /** The machine ends at the block where the loops end, complete exactly when they report so. */
  lemma MachineAgrees(file: seq<byte>, unreadable: set<nat>, attempts: seq<Attempt>, last: nat)
    returns (turns: nat)
    requires EndsAt(file, unreadable, attempts, last)
    ensures var s := Drive(file, unreadable, attempts, turns);
      && s.index == last
      && s.phase == if OutcomeAt(unreadable, attempts, last).TransferComplete? then Complete else Failed
  {
    if last !in unreadable {
      turns := DriveThrough(file, unreadable, attempts, last);
    } else if last == 1 {
      turns := 0;
    } else {
      assert Delivered(unreadable, attempts, last - 1);
      turns := DriveThrough(file, unreadable, attempts, last - 1);
    }
  }
}
