/** The whole transfer: the server's machine, an RFC 1350 reader, and between them a network that may
    lose, duplicate, reorder and delay both kinds of packet (RFC 1350, sections 2 and 6).

    Block numbers are 16 bits on the wire.  Every packet in flight also carries the unwrapped number of
    the block it is about; neither side ever looks at that. */
module TftpTransfer {
  import opened Bytes
  import opened TftpWire
  import opened TftpServer

  const WRAP: nat := 0x1_0000

  datatype InFlight = InFlight(index: nat, bytes: seq<byte>)

  datatype Reader = Reader(expected: u16, data: seq<byte>, done: bool)

  /** `got` counts the blocks that the reader has taken, without wrapping. */
  datatype System = System(server: Server, data: set<InFlight>, acks: set<InFlight>, reader: Reader, got: nat)

  const START: System := System(INIT, {}, {}, Reader(1, [], false), 0)

  /** One atomic step of any party.  Packets stay in flight when they arrive, so they may arrive again;
      they leave only by being lost. */
  datatype Action =
    | ReadFile(ok: bool)
    | SendData(ok: bool)
    | AckArrives(p: InFlight)
    | NoAck(rx: Receive)
    | DataArrives(p: InFlight, reack: bool)
    | LoseData(p: InFlight)
    | LoseAck(p: InFlight)

  /** The reader takes the block that it expects and nothing else. */
  predicate Takes(r: Reader, packet: FromServer) {
    !r.done && packet.Data? && packet.block == r.expected
  }

  function Take(r: Reader, data: seq<byte>): Reader {
    Reader(WrappingAdd(r.expected, 1), r.data + data, |data| < BLOCK_SIZE)
  }

  /** A received datagram that no reader of this transfer sent as an ACK. */
  predicate Stray(rx: Receive) {
    rx.Datagram? && rx.fromClient ==> |rx.bytes| < 4 || U16Of(rx.bytes[0], rx.bytes[1]) != OP_ACK
  }

  /** A step that is not enabled changes nothing. */
  function Step(file: seq<byte>, s: System, a: Action): System {
    match a
    case ReadFile(ok) => s.(server := ReadStep(file, s.server, ok))
    case SendData(ok) =>
      if s.server.phase == Sending && ok then
        var packet := DataBytes(s.server.block, s.server.chunk);
        s.(server := SendStep(s.server, true), data := s.data + {InFlight(s.server.index, packet)})
      else s.(server := SendStep(s.server, ok))
    case AckArrives(p) =>
      if p in s.acks then s.(server := ReceiveStep(s.server, Datagram(p.bytes, true))) else s
    case NoAck(rx) => if Stray(rx) then s.(server := ReceiveStep(s.server, rx)) else s
    case DataArrives(p, reack) => if p in s.data then Arrive(s, p, reack) else s
    case LoseData(p) => s.(data := s.data - {p})
    case LoseAck(p) => s.(acks := s.acks - {p})
  }

  /** The reader acknowledges the block that it takes; any other block it may acknowledge again. */
  function Arrive(s: System, p: InFlight, reack: bool): System {
    var packet := ParseFromServer(p.bytes);
    if Takes(s.reader, packet) then
      s.(reader := Take(s.reader, packet.data), got := s.got + 1,
         acks := s.acks + {InFlight(s.got + 1, AckBytes(packet.block))})
    else if packet.Data? && reack then
      s.(acks := s.acks + {InFlight(p.index, AckBytes(packet.block))})
    else s
  }

  function Exec(file: seq<byte>, s: System, actions: seq<Action>): System
    decreases |actions|
  {
    if actions == [] then s else Exec(file, Step(file, s, actions[0]), actions[1..])
  }

  // ---------------------------------------------------------------------------
  // The invariant
  // ---------------------------------------------------------------------------

  predicate ServerInv(file: seq<byte>, s: Server) {
    && 1 <= s.index <= Blocks(file)
    && s.block == Wire(s.index)
    && (s.phase == Reading ==> s.pos == Upto(file, s.index - 1))
    && (s.phase == Sending || s.phase == Waiting || s.phase == Complete ==>
          s.pos == Upto(file, s.index) && s.chunk == Chunk(file, s.index))
    && (s.phase == Sending || s.phase == Waiting ==> s.retries < MAX_RETRIES)
    && (s.phase == Complete ==> s.index == Blocks(file))
  }

  predicate ReaderInv(file: seq<byte>, r: Reader, got: nat) {
    && got <= Blocks(file)
    && r.expected == Wire(got + 1)
    && r.data == file[..Upto(file, got)]
    && (r.done <==> got == Blocks(file))
  }

  ghost predicate NetInv(file: seq<byte>, s: System) {
    && (forall p :: p in s.data ==> 1 <= p.index <= s.server.index && p.bytes == BlockPacket(file, p.index))
    && (s.server.phase == Reading ==> forall p :: p in s.data ==> p.index < s.server.index)
    && (forall p :: p in s.acks ==> 1 <= p.index <= s.got && p.bytes == AckBytes(Wire(p.index)))
  }

  /** Lock-step: the reader holds every block before the server's current one, and perhaps that one. */
  predicate Lockstep(s: System) {
    && s.server.index - 1 <= s.got <= s.server.index
    && (s.server.phase == Reading ==> s.got == s.server.index - 1)
    && (s.server.phase == Complete ==> s.got == s.server.index)
  }

  ghost predicate Inv(file: seq<byte>, s: System) {
    ServerInv(file, s.server) && ReaderInv(file, s.reader, s.got) && NetInv(file, s) && Lockstep(s)
  }

  /** Delivering this packet cannot be confused across a wrap of the block number. */
  predicate Unambiguous(s: System, a: Action) {
    match a
    case DataArrives(p, _) => p in s.data ==> s.reader.done || s.got + 1 < p.index + WRAP
    case AckArrives(p) => p in s.acks ==> s.server.index < p.index + WRAP
    case _ => true
  }

  lemma SameNumber(i: nat, j: nat)
    requires Wire(i) == Wire(j) && i <= j < i + WRAP
    ensures i == j
  {
  }

  /** A block that the reader takes is its next one: the number cannot have wrapped. */
  lemma TakenIsNext(file: seq<byte>, s: System, p: InFlight)
    requires Inv(file, s) && p in s.data && Unambiguous(s, DataArrives(p, false))
    requires Takes(s.reader, ParseFromServer(p.bytes))
    ensures p.index == s.got + 1 <= Blocks(file)
    ensures ParseFromServer(p.bytes) == Data(Wire(s.got + 1), Chunk(file, s.got + 1))
  {
    DataRoundTrip(Wire(p.index), Chunk(file, p.index));
    SameNumber(p.index, s.got + 1);
  }

  lemma TakeKeepsReader(file: seq<byte>, r: Reader, got: nat)
    requires ReaderInv(file, r, got) && got + 1 <= Blocks(file)
    ensures ReaderInv(file, Take(r, Chunk(file, got + 1)), got + 1)
  {
    ChunkLength(file, got + 1);
    ChunksAppend(file, got + 1);
    WireNext(got + 1);
  }

  lemma DataStep(file: seq<byte>, s: System, p: InFlight, reack: bool)
    requires Inv(file, s) && p in s.data && Unambiguous(s, DataArrives(p, reack))
    ensures Inv(file, Arrive(s, p, reack))
  {
    var packet := ParseFromServer(p.bytes);
    if Takes(s.reader, packet) {
      TakenIsNext(file, s, p);
      TakeKeepsReader(file, s.reader, s.got);
    } else {
      DataRoundTrip(Wire(p.index), Chunk(file, p.index));
    }
  }

  lemma AckStep(file: seq<byte>, s: System, p: InFlight)
    requires Inv(file, s) && p in s.acks && Unambiguous(s, AckArrives(p))
    ensures Inv(file, Step(file, s, AckArrives(p)))
  {
    AckMatches(Wire(p.index), s.server.block);
    if s.server.phase == Waiting && Accepts(Datagram(p.bytes, true), s.server.block) {
      SameNumber(p.index, s.server.index);
      ChunkLength(file, s.server.index);
      WireNext(s.server.index);
    }
  }

  lemma ReadFileStep(file: seq<byte>, s: System, ok: bool)
    requires Inv(file, s)
    ensures Inv(file, Step(file, s, ReadFile(ok)))
  {
    if s.server.phase == Reading {
      ReadIsChunk(file, s.server.index, s.server.pos);
    }
  }

  lemma SendDataStep(file: seq<byte>, s: System, ok: bool)
    requires Inv(file, s)
    ensures Inv(file, Step(file, s, SendData(ok)))
  {
  }

  lemma StepKeepsInv(file: seq<byte>, s: System, a: Action)
    requires Inv(file, s) && Unambiguous(s, a)
    ensures Inv(file, Step(file, s, a))
  {
    match a
    case ReadFile(ok) => ReadFileStep(file, s, ok);
    case SendData(ok) => SendDataStep(file, s, ok);
    case AckArrives(p) => if p in s.acks { AckStep(file, s, p); }
    case NoAck(_) =>
    case DataArrives(p, reack) => if p in s.data { DataStep(file, s, p, reack); }
    case LoseData(_) =>
    case LoseAck(_) =>
  }

  lemma StartInv(file: seq<byte>)
    ensures Inv(file, START)
  {
  }

  // ---------------------------------------------------------------------------
  // Safety over all runs
  // ---------------------------------------------------------------------------

  /** The reader holds a prefix of the file, and the whole of it once either side thinks so. */
  predicate Safe(file: seq<byte>, s: System) {
    && s.reader.data <= file
    && (s.server.phase == Complete ==> s.reader.done)
    && (s.reader.done ==> s.reader.data == file)
  }

  lemma InvIsSafe(file: seq<byte>, s: System)
    requires Inv(file, s)
    ensures Safe(file, s)
  {
    ChunksAppend(file, Blocks(file));
  }

  /** At every delivery of the run, the packet is fewer than `age` blocks behind the server. */
  predicate Fresh(file: seq<byte>, s: System, actions: seq<Action>, age: nat)
    decreases |actions|
  {
    actions == [] || (FreshStep(s, actions[0], age) && Fresh(file, Step(file, s, actions[0]), actions[1..], age))
  }

  predicate FreshStep(s: System, a: Action, age: nat) {
    match a
    case DataArrives(p, _) => p in s.data ==> s.server.index < p.index + age
    case AckArrives(p) => p in s.acks ==> s.server.index < p.index + age
    case _ => true
  }

  lemma {:induction false} FreshRunInv(file: seq<byte>, s: System, actions: seq<Action>, age: nat)
    requires Inv(file, s) && Fresh(file, s, actions, age) && age < WRAP
    ensures Inv(file, Exec(file, s, actions))
    decreases |actions|
  {
    if actions != [] {
      StepKeepsInv(file, s, actions[0]);
      FreshRunInv(file, Step(file, s, actions[0]), actions[1..], age);
    }
  }

  /** Files of any length, across every wrap of the block number: while no packet is delivered that is
      65535 or more blocks old, the reader's bytes are a prefix of the file. */
  lemma SafeWithFreshPackets(file: seq<byte>, actions: seq<Action>, age: nat)
    requires Fresh(file, START, actions, age) && age <= 65535
    ensures Safe(file, Exec(file, START, actions))
  {
    StartInv(file);
    FreshRunInv(file, START, actions, age);
    InvIsSafe(file, Exec(file, START, actions));
  }

  lemma {:induction false} ShortRunInv(file: seq<byte>, s: System, actions: seq<Action>)
    requires Inv(file, s) && Blocks(file) <= WRAP
    ensures Inv(file, Exec(file, s, actions))
    decreases |actions|
  {
    if actions != [] {
      StepKeepsInv(file, s, actions[0]);
      ShortRunInv(file, Step(file, s, actions[0]), actions[1..]);
    }
  }

  /** Files of at most 65536 blocks: however old the packets, whatever the network does. */
  lemma SafeWithoutWrap(file: seq<byte>, actions: seq<Action>)
    requires Blocks(file) <= WRAP
    ensures Safe(file, Exec(file, START, actions))
  {
    StartInv(file);
    ShortRunInv(file, START, actions);
    InvIsSafe(file, Exec(file, START, actions));
  }

  // ---------------------------------------------------------------------------
  // Both bounds are tight
  // ---------------------------------------------------------------------------

  /** The system after an undisturbed exchange of the first `k - 1` blocks, with every packet still in
      flight. */
  ghost predicate Exchanged(file: seq<byte>, s: System, k: nat) {
    && 1 <= k <= Blocks(file)
    && s.server == Server(Reading, k, Wire(k), Upto(file, k - 1), s.server.chunk, s.server.retries)
    && s.got == k - 1
    && s.reader == Reader(Wire(k), file[..Upto(file, k - 1)], false)
    && forall j :: 1 <= j < k ==> InFlight(j, BlockPacket(file, j)) in s.data
  }

  /** ... and then the reader has taken block `k`, and its ACK is on the way. */
  ghost predicate Taken(file: seq<byte>, s: System, k: nat) {
    && 1 <= k <= Blocks(file)
    && s.server == Server(Waiting, k, Wire(k), Upto(file, k), Chunk(file, k), 0)
    && s.got == k
    && s.reader == Reader(Wire(k + 1), file[..Upto(file, k)], k == Blocks(file))
    && InFlight(k, AckBytes(Wire(k))) in s.acks
    && forall j :: 1 <= j <= k ==> InFlight(j, BlockPacket(file, j)) in s.data
  }

  function SendAndTake(file: seq<byte>, k: nat): seq<Action>
    requires k >= 1
  {
    [ReadFile(true), SendData(true), DataArrives(InFlight(k, BlockPacket(file, k)), false)]
  }

  lemma ExecOne(file: seq<byte>, s: System, a: Action, age: nat)
    requires FreshStep(s, a, age)
    ensures Exec(file, s, [a]) == Step(file, s, a) && Fresh(file, s, [a], age)
  {
    assert [a][1..] == [];
    assert Exec(file, Step(file, s, a), []) == Step(file, s, a);
  }

  lemma {:induction false} ExecConcat(file: seq<byte>, s: System, a: seq<Action>, b: seq<Action>, age: nat)
    requires Fresh(file, s, a, age) && Fresh(file, Exec(file, s, a), b, age)
    ensures Exec(file, s, a + b) == Exec(file, Exec(file, s, a), b) && Fresh(file, s, a + b, age)
    decreases |a|
  {
    if a == [] {
      assert a + b == b;
    } else {
      assert (a + b)[1..] == a[1..] + b;
      ExecConcat(file, Step(file, s, a[0]), a[1..], b, age);
    }
  }

  /** Block `k` is read and on the way. */
  lemma SendExchanges(file: seq<byte>, s: System, k: nat)
    requires Exchanged(file, s, k)
    ensures Step(file, Step(file, s, ReadFile(true)), SendData(true)) ==
      s.(server := SendingBlock(file, k, 0).(phase := Waiting), data := s.data + {InFlight(k, BlockPacket(file, k))})
  {
    ReadBlock(file, s.server, true, k);
  }

  lemma DeliverExchanges(file: seq<byte>, s: System, t: System, k: nat)
    requires Exchanged(file, s, k)
    requires t ==
      s.(server := SendingBlock(file, k, 0).(phase := Waiting), data := s.data + {InFlight(k, BlockPacket(file, k))})
    ensures Taken(file, Arrive(t, InFlight(k, BlockPacket(file, k)), false), k)
  {
    DataRoundTrip(Wire(k), Chunk(file, k));
    ChunkLength(file, k);
    ChunksAppend(file, k);
    WireNext(k);
  }

  lemma TakeExchanges(file: seq<byte>, s: System, k: nat, age: nat)
    requires Exchanged(file, s, k) && age >= 1
    ensures Taken(file, Exec(file, s, SendAndTake(file, k)), k) && Fresh(file, s, SendAndTake(file, k), age)
  {
    var a0, a1, a2 := ReadFile(true), SendData(true), DataArrives(InFlight(k, BlockPacket(file, k)), false);
    var s1 := Step(file, s, a0);
    var s2 := Step(file, s1, a1);
    SendExchanges(file, s, k);
    DeliverExchanges(file, s, s2, k);
    ExecThree(file, s, a0, a1, a2, age);
  }

  lemma ExecThree(file: seq<byte>, s: System, a: Action, b: Action, c: Action, age: nat)
    requires FreshStep(s, a, age) && FreshStep(Step(file, s, a), b, age)
    requires FreshStep(Step(file, Step(file, s, a), b), c, age)
    ensures Exec(file, s, [a, b, c]) == Step(file, Step(file, Step(file, s, a), b), c)
    ensures Fresh(file, s, [a, b, c], age)
  {
    var s1 := Step(file, s, a);
    var s2 := Step(file, s1, b);
    ExecOne(file, s, a, age);
    ExecOne(file, s1, b, age);
    ExecOne(file, s2, c, age);
    ExecConcat(file, s, [a], [b], age);
    ExecConcat(file, s, [a] + [b], [c], age);
    assert [a, b, c] == [a] + [b] + [c];
  }

  lemma AckExchanges(file: seq<byte>, s: System, k: nat, age: nat)
    requires Taken(file, s, k) && age >= 1
    ensures var a := AckArrives(InFlight(k, AckBytes(Wire(k))));
      && Fresh(file, s, [a], age)
      && (k < Blocks(file) ==> Exchanged(file, Exec(file, s, [a]), k + 1))
      && (k == Blocks(file) ==> Exec(file, s, [a]).server.phase.Complete?)
  {
    ExecOne(file, s, AckArrives(InFlight(k, AckBytes(Wire(k)))), age);
    ChunkLength(file, k);
    WireNext(k);
    AckMatches(Wire(k), Wire(k));
  }

  lemma {:induction false} ExchangeUpTo(file: seq<byte>, k: nat, age: nat) returns (actions: seq<Action>)
    requires 1 <= k <= Blocks(file) && age >= 1
    ensures Exchanged(file, Exec(file, START, actions), k) && Fresh(file, START, actions, age)
    decreases k, 0
  {
    if k == 1 {
      actions := [];
    } else {
      var before := TakeUpTo(file, k - 1, age);
      var ack := AckArrives(InFlight(k - 1, AckBytes(Wire(k - 1))));
      AckExchanges(file, Exec(file, START, before), k - 1, age);
      ExecConcat(file, START, before, [ack], age);
      actions := before + [ack];
    }
  }

  lemma {:induction false} TakeUpTo(file: seq<byte>, k: nat, age: nat) returns (actions: seq<Action>)
    requires 1 <= k <= Blocks(file) && age >= 1
    ensures Taken(file, Exec(file, START, actions), k) && Fresh(file, START, actions, age)
    decreases k, 1
  {
    var before := ExchangeUpTo(file, k, age);
    TakeExchanges(file, Exec(file, START, before), k, age);
    ExecConcat(file, START, before, SendAndTake(file, k), age);
    actions := before + SendAndTake(file, k);
  }

  /** A file of more than 65536 blocks has a run that corrupts it, with a packet just 65535 blocks old:
      when the reader waits for the last, short block, a copy of the full block that went out under the
      same number arrives, and passes for it. */
  lemma WrapCorrupts(file: seq<byte>, age: nat) returns (actions: seq<Action>)
    requires Blocks(file) > WRAP && age > 65535
    ensures Fresh(file, START, actions, age) && !Safe(file, Exec(file, START, actions))
  {
    var n := Blocks(file);
    var before := TakeUpTo(file, n - 1, age);
    var s := Exec(file, START, before);
    var stale := InFlight(n - WRAP, BlockPacket(file, n - WRAP));
    ExecOne(file, s, DataArrives(stale, false), age);
    ExecConcat(file, START, before, [DataArrives(stale, false)], age);
    actions := before + [DataArrives(stale, false)];
    StaleCorrupts(file, s);
  }

  lemma StaleCorrupts(file: seq<byte>, s: System)
    requires Blocks(file) > WRAP && Taken(file, s, Blocks(file) - 1)
    ensures var k := Blocks(file) - WRAP;
      !Safe(file, Arrive(s, InFlight(k, BlockPacket(file, k)), false))
  {
    var n := Blocks(file);
    DataRoundTrip(Wire(n - WRAP), Chunk(file, n - WRAP));
    ChunkLength(file, n - WRAP);
    ChunkLength(file, n);
    WireShift(n - WRAP);
    var t := Arrive(s, InFlight(n - WRAP, BlockPacket(file, n - WRAP)), false);
    assert |t.reader.data| > |file|;
  }

  lemma WireShift(k: nat)
    ensures Wire(k) == Wire(k + WRAP)
  {
  }

  /** The exact condition: all runs that deliver no packet of `age` blocks or more are safe if and only
      if that age is at most 65535, or the file has at most 65536 blocks. */
  lemma SafeExactly(file: seq<byte>, age: nat)
    ensures (forall actions :: Fresh(file, START, actions, age) ==> Safe(file, Exec(file, START, actions)))
      <==> age <= 65535 || |file| / 512 + 1 <= 65536
  {
    if age <= 65535 || Blocks(file) <= WRAP {
      forall actions | Fresh(file, START, actions, age) ensures Safe(file, Exec(file, START, actions)) {
        if age <= 65535 {
          SafeWithFreshPackets(file, actions, age);
        } else {
          SafeWithoutWrap(file, actions);
        }
      }
    } else {
      var actions := WrapCorrupts(file, age);
    }
  }

  /** With no bound on the age of packets, a file is safe on every run exactly when it has at most
      65536 blocks. */
  lemma SafeOnAnyNetworkExactly(file: seq<byte>)
    ensures (forall actions :: Safe(file, Exec(file, START, actions))) <==> |file| / 512 + 1 <= 65536
  {
    if Blocks(file) <= WRAP {
      forall actions ensures Safe(file, Exec(file, START, actions)) {
        SafeWithoutWrap(file, actions);
      }
    } else {
      var actions := WrapCorrupts(file, WRAP);
    }
  }

  // ---------------------------------------------------------------------------
  // Which transfers can still complete
  // ---------------------------------------------------------------------------

  function CurrentData(file: seq<byte>, s: System): InFlight
    requires s.server.index >= 1
  {
    InFlight(s.server.index, BlockPacket(file, s.server.index))
  }

  function CurrentAck(s: System): InFlight {
    InFlight(s.server.index, AckBytes(Wire(s.server.index)))
  }

  /** The server has not given up, and if this was its last attempt at the block, the block or its ACK is
      still in flight. */
  predicate CanComplete(file: seq<byte>, s: System)
    requires s.server.index >= 1
  {
    && !s.server.phase.Failed?
    && (s.server.phase.Waiting? && s.server.retries + 1 == MAX_RETRIES ==>
          CurrentAck(s) in s.acks || CurrentData(file, s) in s.data)
  }

  /** A step towards completion. */
  function Next(file: seq<byte>, s: System): Action
    requires s.server.index >= 1
  {
    if s.server.phase.Reading? then ReadFile(true)
    else if s.server.phase.Sending? then SendData(true)
    else if CurrentAck(s) in s.acks then AckArrives(CurrentAck(s))
    else if CurrentData(file, s) in s.data then DataArrives(CurrentData(file, s), true)
    else NoAck(TimedOut)
  }

  function Rank(file: seq<byte>, s: System): nat
    requires s.server.index >= 1
  {
    if s.server.phase.Reading? then 5
    else if s.server.phase.Sending? then 3
    else if s.server.phase.Complete? then 0
    else if CurrentAck(s) in s.acks then 1
    else if CurrentData(file, s) in s.data then 2
    else 4
  }

  /** Some progress, and completion stays possible. */
  predicate Progress(file: seq<byte>, s: System, t: System)
    requires s.server.index >= 1
  {
    && t.server.index >= s.server.index && CanComplete(file, t)
    && (t.server.index == s.server.index ==> Rank(file, t) < Rank(file, s))
  }

  lemma SendProgress(file: seq<byte>, s: System)
    requires Inv(file, s) && (s.server.phase.Reading? || s.server.phase.Sending?)
    ensures Progress(file, s, Step(file, s, Next(file, s)))
  {
    if s.server.phase.Sending? {
      assert CurrentData(file, s) in Step(file, s, Next(file, s)).data;
    }
  }

  /** A reader that acknowledges again answers every delivery of the current block. */
  lemma ArrivalAcks(s: System, p: InFlight, data: seq<byte>)
    requires ParseFromServer(p.bytes) == Data(Wire(p.index), data)
    requires Takes(s.reader, ParseFromServer(p.bytes)) ==> p.index == s.got + 1
    ensures InFlight(p.index, AckBytes(Wire(p.index))) in Arrive(s, p, true).acks
    ensures Arrive(s, p, true).server == s.server
  {
  }

  lemma TakenCurrent(file: seq<byte>, s: System)
    requires ServerInv(file, s.server) && ReaderInv(file, s.reader, s.got) && Lockstep(s)
    requires s.reader.expected == Wire(s.server.index)
    ensures s.got + 1 == s.server.index
  {
    SameNumber(s.server.index, s.got + 1);
  }

  lemma DataProgress(file: seq<byte>, s: System)
    requires Inv(file, s) && s.server.phase.Waiting? && Next(file, s).DataArrives?
    ensures Progress(file, s, Step(file, s, Next(file, s)))
  {
    var p := CurrentData(file, s);
    DataRoundTrip(Wire(p.index), Chunk(file, p.index));
    if s.reader.expected == Wire(p.index) { TakenCurrent(file, s); }
    ArrivalAcks(s, p, Chunk(file, p.index));
    var t := Arrive(s, p, true);
    assert t == Step(file, s, Next(file, s)) && CurrentAck(t) in t.acks;
  }

  lemma AckProgress(file: seq<byte>, s: System)
    requires Inv(file, s) && CanComplete(file, s) && s.server.phase.Waiting? && !Next(file, s).DataArrives?
    ensures Progress(file, s, Step(file, s, Next(file, s)))
  {
    AckMatches(Wire(s.server.index), Wire(s.server.index));
  }

  lemma NextProgress(file: seq<byte>, s: System, age: nat)
    requires Inv(file, s) && CanComplete(file, s) && !s.server.phase.Complete? && age >= 1
    ensures var t := Step(file, s, Next(file, s));
      Inv(file, t) && Progress(file, s, t) && FreshStep(s, Next(file, s), age)
  {
    StepKeepsInv(file, s, Next(file, s));
    if !s.server.phase.Waiting? {
      SendProgress(file, s);
    } else if Next(file, s).DataArrives? {
      DataProgress(file, s);
    } else {
      AckProgress(file, s);
    }
  }

  lemma {:induction false} Finish(file: seq<byte>, s: System, age: nat) returns (actions: seq<Action>)
    requires Inv(file, s) && CanComplete(file, s) && age >= 1
    ensures Fresh(file, s, actions, age) && Exec(file, s, actions).server.phase.Complete?
    decreases Blocks(file) - s.server.index, Rank(file, s)
  {
    if s.server.phase.Complete? {
      actions := [];
    } else {
      var a := Next(file, s);
      NextProgress(file, s, age);
      var rest := Finish(file, Step(file, s, a), age);
      actions := [a] + rest;
      assert actions[1..] == rest;
    }
  }

  /** Past that point there is no way back: every fresh step keeps it so. */
  lemma StuckStep(file: seq<byte>, s: System, a: Action, age: nat)
    requires Inv(file, s) && !CanComplete(file, s) && FreshStep(s, a, age) && age < WRAP
    ensures var t := Step(file, s, a); t.server.index >= 1 && !CanComplete(file, t)
  {
    match a
    case DataArrives(p, reack) =>
      if p in s.data && s.server.phase.Waiting? {
        DataRoundTrip(Wire(p.index), Chunk(file, p.index));
        if Takes(s.reader, ParseFromServer(p.bytes)) {
          TakenIsNext(file, s, p);
        }
      }
    case AckArrives(p) =>
      if p in s.acks && s.server.phase.Waiting? {
        AckMatches(Wire(p.index), s.server.block);
        if Accepts(Datagram(p.bytes, true), s.server.block) {
          SameNumber(p.index, s.server.index);
        }
      }
    case _ =>
  }

  lemma {:induction false} StuckRun(file: seq<byte>, s: System, actions: seq<Action>, age: nat)
    requires Inv(file, s) && !CanComplete(file, s) && Fresh(file, s, actions, age) && age < WRAP
    ensures !Exec(file, s, actions).server.phase.Complete?
    decreases |actions|
  {
    if actions != [] {
      StepKeepsInv(file, s, actions[0]);
      StuckStep(file, s, actions[0], age);
      StuckRun(file, Step(file, s, actions[0]), actions[1..], age);
    }
  }

  /** From every state that a fresh run reaches, some fresh continuation completes the transfer if and
      only if the server has not given up and, on its last attempt at a block, that block or its ACK has
      not been lost. */
  lemma CompletesFromExactly(file: seq<byte>, before: seq<Action>, age: nat)
    requires Fresh(file, START, before, age) && 1 <= age <= 65535
    ensures var s := Exec(file, START, before);
      && s.server.index >= 1
      && ((exists after :: Fresh(file, s, after, age) && Exec(file, s, after).server.phase.Complete?)
          <==> CanComplete(file, s))
  {
    var s := Exec(file, START, before);
    StartInv(file);
    FreshRunInv(file, START, before, age);
    if CanComplete(file, s) {
      var after := Finish(file, s, age);
    } else {
      forall after | Fresh(file, s, after, age) ensures !Exec(file, s, after).server.phase.Complete? {
        StuckRun(file, s, after, age);
      }
    }
  }

  /** Every file, of any length, has a run that completes. */
  lemma SomeRunCompletes(file: seq<byte>, age: nat) returns (actions: seq<Action>)
    requires age >= 1
    ensures Fresh(file, START, actions, age) && Exec(file, START, actions).server.phase.Complete?
  {
    StartInv(file);
    actions := Finish(file, START, age);
  }
}
