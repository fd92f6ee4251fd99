# Verification of pxeboot and hivebus

This project models the two daemons of the repository that carry a protocol, and the wire formats they
share, and proves what these protocols are for.

**Network boot** (`pxeboot`). A machine asks for an address over DHCP, is told the name of an iPXE script,
and fetches that script over TFTP.

- `TftpTransfer` runs the server, an RFC 1350 reader and a network that loses, duplicates, reorders and
  delays packets as one step system. Block numbers are 16 bits on the wire, as in the source; the proofs
  carry unwrapped indices beside them. The result is exact: it says for which files and for which packet
  ages the transfer is safe on all runs, and exhibits a corrupting run otherwise.
- `TftpServer` holds the nested loops as a method fed by an arbitrary sequence of socket events, their
  bounds and outcome, and the proof that the step machine behaves as the loops do.
- `PxeSystem` splits a DHCP request into one step per lock that the source takes and drops, with
  `boot.register` free to come between any two. `PoolProofs` and `HandOff` prove, over all runs, that
  addresses are unique, stable and handed out in order, and that a reply's boot file holds the right
  script; `Registrations` what a registered entry makes the server answer, and `Replies` which requests are
  answered, and how. `PxeServer` is the same server as a class whose methods are tied to those steps.
- `BootChain` puts the parts together, from the DHCP reply to the seed URL that the agent extracts.

**Membership** (`hivebus`). Every node keeps a table of its peers, driven by heartbeats, announcements,
leaves, gossip and detector ticks, and elects the lowest id that it holds Alive.

- `Membership`, `Detector`, `GossipMerge` and `Identity` specify the table and prove its invariant over all
  interleavings, the laws of ticks, the merge in closed form, and what is known of a peer over a run.
- `HivebusNode` is the node as a class, with the source's loops, and the meaning of its query answers.
- `Cluster` runs any number of nodes and their frames in flight, and proves when they agree on a master
  and that they can always be brought to.

**Formats.** `Bytes`, `BitOps` and `Words` are the ground; `MacText`, `Framing`, `TftpWire`, `TftpPath`,
`TftpDaemon`, `DhcpWire` and `BootScript` hold the formats and their round trips. Integers carry the
source's widths as bounded types. A Rust `String` is the byte string of its UTF-8 encoding. Times are
natural numbers that come with each step.

`dafny verify dfyconfig.toml` checks everything.

## Results that differ from what one would expect

- The unconditional TFTP guarantee reaches 65536 blocks, one more than the 16-bit number suggests, and the
  age bound for longer files is exactly 65535 blocks (`TftpTransfer.SafeExactly`).
- Dropping `.` segments from a TFTP request can change its answer: `.//a` becomes the absolute `/a` and is
  then refused, and `/.` becomes relative and is then accepted. `TftpPath.DropDotsExact` has the
  condition; `TftpPath.DroppingADotMatters` and `TftpPath.DroppingTheLastDotMatters` have these requests.
- Between a message and the next tick, `GetNodes` can show two masters or none, since the flags of the table
  are computed at ticks and the node's own flag at the query (`HivebusNode.TwoMastersListed`,
  `HivebusNode.NoMasterListed`). `HivebusNode.ListingFlagsExactly` says after which messages it does not.
- A transfer whose server is on its last attempt cannot complete any more once that packet or its ACK is
  lost, even though the server still waits (`TftpTransfer.CompletesFromExactly`).
- A host name is rendered into the script as it is registered; one with line breaks can hide the seed URL
  from the agent (`BootScript.HostnameChainLine`; `BootScript.AgentReadsSeedUrl` has the condition).
- The order of gossiped entries matters exactly when two of them disagree at the incarnation that decides
  (`GossipMerge.OrderIrrelevantExactly`).
- Two detector ticks absorb one another only if no entry's time lies in the first tick's future and
  within the second's reach (`Detector.TwoTicksAbsorbExactly`, `Detector.FutureEntryLost`).
- `crates/proto/src/lib.rs:258` documents the first byte of a control frame as an operation code; the code
  writes the fixed marker 0x01 there, and so does the model.
- `crates/pxeboot/src/main.rs:158` says that an entry without a script is served `default.ipxe`; the code
  falls back to the configured boot file, and so does the model.

## Hypotheses

- Static addresses lie outside the pool, for uniqueness (`PoolProofs.UniqueExactly` shows that nothing less
  will do).
- A run is undisturbed for a MAC's script: the MAC is not registered with another entry, no other MAC with a
  script path that leads to its file, and the file system lets the script be written.
- A registered script is followed from a registration at which the DHCP task is not at a request of that MAC
  and no unwritten or other entry leads to the same file (`HandOff.Ready`).
- A cluster run is timely: no live node leaves, and at every tick each live peer in the view was last heard
  of within both thresholds (`Cluster.LateTickSplits` shows why). A view is up to date when it knows the
  other live nodes, has ticked since the last receive, and holds crashed ids only past suspicion.
- Every `file.read` fills the 512-byte buffer unless the file ends.

## Model

| member | source | states |
|---|---|---|
| TftpTransfer.SafeExactly | crates/pxeboot/src/main.rs:489-536 | For every file and every bound on packet age: all runs of server, reader and a losing, duplicating, reordering, delaying network that keep to the bound are safe (the reader's bytes are a prefix of the file, and the whole file once either side has finished) if and only if the bound is at most 65535 blocks or the file has at most 65536 blocks |
| TftpTransfer.SafeOnAnyNetworkExactly | crates/pxeboot/src/main.rs:489-536 | With no bound on packet age, a file is safe on all runs if and only if it has at most 65536 blocks |
| TftpTransfer.SafeWithFreshPackets | crates/pxeboot/src/main.rs:489-536 | Files of any length, across every wrap of the 16-bit block number: while no delivered packet is 65535 or more blocks old, the reader holds a prefix of the file |
| TftpTransfer.SafeWithoutWrap | crates/pxeboot/src/main.rs:489-536 | Files of at most 65536 blocks need no hypothesis on packet age at all |
| TftpTransfer.WrapCorrupts | crates/pxeboot/src/main.rs:489-536 | Above 65536 blocks, a run that delivers nothing older than 65535 blocks and hands the reader a stale block in place of the last one |
| TftpTransfer.SomeRunCompletes | crates/pxeboot/src/main.rs:489-536 | Every file, of any length, has a run of fresh packets on which the transfer completes |
| TftpTransfer.CompletesFromExactly | crates/pxeboot/src/main.rs:502-535 | From every state that a fresh run reaches, some fresh continuation completes the transfer if and only if the server has not given up and, on its last attempt at a block, that block or its ACK is still in flight |
| TftpTransfer.StepKeepsInv | crates/pxeboot/src/main.rs:489-536 | Every step of any party keeps the lock-step invariant: unwrapped indices behind all numbers, reader at most one block ahead, packets in flight hold what their index says |
| TftpTransfer.TakenIsNext | crates/pxeboot/src/main.rs:511-516 | A block whose 16-bit number the reader expects really is its next block, unless it is a whole wrap old |
| TftpTransfer.InvIsSafe | crates/pxeboot/src/main.rs:530-533 | The invariant implies safety: completion on the server's side means that the reader holds the whole file |
| TftpServer.ServeTftpRead | crates/pxeboot/src/main.rs:489-536 | The nested loops, for any sequence of socket events and any set of unreadable blocks: they terminate at the first block that is not delivered or at the last one, with that block's outcome and with exactly the transcript of datagrams of the specification |
| TftpServer.ServeBlock | crates/pxeboot/src/main.rs:492-535 | One turn of the outer loop: it ends the transfer with the specified outcome and transcript, or leaves the loop's variables at the next block |
| TftpServer.SendBlock | crates/pxeboot/src/main.rs:502-528 | The inner loop decides the block's fate as specified and puts the packet on the wire exactly as often as the fate says |
| TftpServer.LoopBounds | crates/pxeboot/src/main.rs:502-528 | With sends succeeding, each attempted block is sent one to five times, and at most 5 * (len / 512 + 1) datagrams leave in all |
| TftpServer.AckedExactly | crates/pxeboot/src/main.rs:510-528 | A block is acknowledged if and only if one of its first five receives is the matching ACK from the client |
| TftpServer.FateExactly | crates/pxeboot/src/main.rs:502-528 | A block's fate, failing sends included: acknowledged at the first matching ACK and not before, given up after five sends without one, or broken off at a send that fails |
| TftpServer.OutcomeMeans | crates/pxeboot/src/main.rs:489-536 | What an outcome says: the block number that it logs, and why the transfer ended at that block |
| TftpServer.CompletesExactly | crates/pxeboot/src/main.rs:530-533 | With reads and sends succeeding, the transfer completes if and only if each of the len / 512 + 1 blocks has its ACK among its first five receives; the last block is then short |
| TftpServer.TranscriptHoldsBlocks | crates/pxeboot/src/main.rs:501-507 | Every datagram of a transcript is a DATA packet holding one numbered block of the file |
| TftpServer.MachineAgrees | crates/pxeboot/src/main.rs:489-536 | The step machine of the transfer model, driven by the same events, ends at the same block and in the same way as the loops |
| TftpServer.DriveThrough | crates/pxeboot/src/main.rs:502-535 | Block by block, the machine uses as many turns as the loops' specification says, and lands where it says |
| TftpServer.ChunkLength | crates/pxeboot/src/main.rs:530 | Block k is the file from byte 512 * (k - 1) on, at most 512 bytes; exactly the block len / 512 + 1 is shorter |
| TftpServer.ChunksAppend | crates/pxeboot/src/main.rs:492-501 | Consecutive blocks rebuild the file |
| TftpWire.RrqExact | crates/pxeboot/src/main.rs:422-435 | The parser yields (name, mode) if and only if the packet is opcode 1, a NUL-free UTF-8 name, NUL, a NUL-free UTF-8 spelling of the mode, NUL, then anything |
| TftpWire.ValidUtf8Exactly | crates/pxeboot/src/main.rs:432-433 | A text passes the UTF-8 check if and only if it is a sequence of encoded characters of RFC 3629 |
| TftpWire.CharLenExactly | crates/pxeboot/src/main.rs:432-433 | A character of n bytes is accepted if and only if it is the shortest form of a number up to 0x10FFFF that is no surrogate |
| TftpWire.BuildTftpData | crates/pxeboot/src/main.rs:437-443 | A reader parses the appended buffer as a DATA packet with this block number and data, and there are no bytes besides |
| TftpWire.BuildTftpError | crates/pxeboot/src/main.rs:445-452 | A reader parses the appended buffer as an ERROR packet with this code and the NUL-terminated message |
| TftpWire.DataRoundTrip | crates/pxeboot/src/main.rs:437-443 | A reader recovers block number and data of a DATA packet (RFC 1350, section 5) |
| TftpWire.DataUnique | crates/pxeboot/src/main.rs:437-443 | Only one byte string parses as a given DATA packet |
| TftpWire.ErrorRoundTrip | crates/pxeboot/src/main.rs:445-452 | A reader recovers code and message of an ERROR packet |
| TftpWire.AckMatches | crates/pxeboot/src/main.rs:511-516 | An ACK is accepted for exactly the block that it names |
| TftpWire.PacketBytes | crates/pxeboot/src/main.rs:437-452 | The bytes themselves: opcodes 1, 3, 4 and 5, the number behind them most significant byte first, and the NULs |
| TftpPath.SanitizeTftpPath | crates/pxeboot/src/main.rs:106-116 | The component loop computes the specified path, or refuses |
| TftpPath.SanitizeContains | crates/pxeboot/src/main.rs:106-116 | A request is accepted if and only if it is relative and has no parent step; the path is then the root followed by normal names only |
| TftpPath.SanitizeExact | crates/pxeboot/src/main.rs:106-116 | The path of an accepted request is the root and all the request's naming pieces, in order |
| TftpPath.UnderJoins | crates/pxeboot/src/main.rs:110 | Pushed names stand behind the root with one slash between any two |
| TftpPath.SanitizeNormal | crates/pxeboot/src/main.rs:106-116 | A path of normal names keeps exactly those names |
| TftpPath.DropDotsExact | crates/pxeboot/src/main.rs:109-111 | Dropping `.` segments leaves the answer alone if and only if it does not change whether the request is absolute, or a parent step refuses both |
| TftpPath.DroppingADotMatters | crates/pxeboot/src/main.rs:109-111 | Requests of the form `.//name` are accepted, and refused without their dot |
| TftpPath.DroppingTheLastDotMatters | crates/pxeboot/src/main.rs:109-111 | The request `/.` is refused, and names the root itself without its dot |
| TftpPath.DropDotsRelative | crates/pxeboot/src/main.rs:109-111 | In particular for every request without empty segments |
| TftpPath.UnderExtends | crates/pxeboot/src/main.rs:107-110 | The root is a literal prefix of every accepted path |
| TftpDaemon.ServesExactly | crates/pxeboot/src/main.rs:549-569 | A file is served if and only if the datagram is a well-formed request, in a known mode, for a file at the sanitized path |
| TftpDaemon.RefusesExactly | crates/pxeboot/src/main.rs:454-475 | Every other datagram is refused with the code for its fault: 4 if it is not a read request, 0 for another transfer mode, 2 for a name that leaves the root, 1 for a missing file, each if and only if |
| TftpDaemon.ServedModes | crates/pxeboot/src/main.rs:563 | The served modes are `octet` and `netascii`, letter by letter |
| TftpDaemon.CaseInsensitive | crates/pxeboot/src/main.rs:433 | A spelling stands for a word if and only if each letter is the word's or its capital |
| TftpDaemon.AnswersAreContained | crates/pxeboot/src/main.rs:454-475 | Whatever the datagram, a file that is served lies below the TFTP root |
| TftpDaemon.WrittenRequestParses | crates/pxeboot/src/main.rs:558-567 | A request written for a valid name, with the mode in any letter case, parses to that name |
| DhcpWire.ScanMessageType | crates/pxeboot/src/main.rs:340-352 | The index loop finds the last message-type option before END |
| DhcpWire.WalkEncoded | crates/pxeboot/src/main.rs:277-298 | Walking an encoded option list recovers all options in order and stops at END |
| DhcpWire.EndedIsInBounds | crates/pxeboot/src/main.rs:344-352 | A field whose walk reaches END meets the scan's precondition |
| DhcpWire.BuildHeader | crates/pxeboot/src/main.rs:256-272 | The header filled by indexed copies has every byte of the fixed BOOTP layout |
| DhcpWire.BuildDhcpReply | crates/pxeboot/src/main.rs:245-299 | The reply built step by step is the byte string whose fields and options `DhcpWire.ReplyFields` and `DhcpWire.ReplyOptionValues` read back |
| DhcpWire.ReplyRoundTrip | crates/pxeboot/src/main.rs:245-299 | For all arguments, the walk over a built reply ends at END on the last byte, the cookie stands before the options, and the server's own scan recovers the message type |
| DhcpWire.ReplyOptionValues | crates/pxeboot/src/main.rs:277-297 | By code, as a client looks them up: 53 the message type, 54 the server, 1 the mask, 3 the gateway if and only if there is one, 51 the lease time, 66 the TFTP server, 67 the boot file; no other code occurs, and none twice |
| DhcpWire.ReplyFields | crates/pxeboot/src/main.rs:256-272 | A client reads back op, htype, hlen and hops, xid, yiaddr, siaddr, chaddr and the zero-padded boot file at their fixed offsets, and zeros elsewhere |
| DhcpWire.BootFileRoundTrip | crates/pxeboot/src/main.rs:293-297 | Option 67 carries the whole name if and only if it is shorter than 128 bytes |
| DhcpWire.ParseRequest | crates/pxeboot/src/main.rs:332-352 | Field by field from the datagram's bytes: xid from 4 to 8, broadcast from the top bit of byte 10, hardware address from 28 to 44, the last message type; silence exactly on what lacks the cookie |
| DhcpWire.ClientRoundTrip | crates/pxeboot/src/main.rs:332-352 | Every message that a client writes is read back: xid, flags, hardware address, and the message type wherever option 53 stands |
| PxeSystem.FirstFree | crates/pxeboot/src/main.rs:232-237 | The scan's answer is in range and free, and everything before it is in use |
| PoolProofs.UniqueAddresses | crates/pxeboot/src/main.rs:327-413 | In every reachable state, for every interleaving of the DHCP task's steps with `boot.register`, no two MACs hold the same pool address, given that static addresses lie outside the pool |
| PoolProofs.UniqueExactly | crates/pxeboot/src/main.rs:208-238 | For every set of addresses: all runs whose static addresses are among them keep pool addresses unique if and only if none of them is in the pool |
| PoolProofs.StaticInsideCollides | crates/pxeboot/src/main.rs:217-221 | For every pool address: a run that registers it for two MACs, which then both hold it |
| PoolProofs.StoreKeepsUniqueExactly | crates/pxeboot/src/main.rs:385-389 | Storing a lease keeps pool addresses unique if and only if no other MAC holds the address or it is outside the pool |
| PoolProofs.AdvanceKeepsUnique | crates/pxeboot/src/main.rs:359-404 | Each step of the DHCP task keeps uniqueness, including for the address it has picked but not stored |
| PoolProofs.StableAddress | crates/pxeboot/src/main.rs:222-231 | All OFFERs and ACKs to a MAC that never gets a static address carry the same pool address, whatever others do |
| PoolProofs.StepKeepsStable | crates/pxeboot/src/main.rs:359-404 | No step of any task changes or drops the address of such a MAC's lease |
| PoolProofs.OffersDistinct | crates/pxeboot/src/main.rs:391-404 | Two such MACs are never told the same address, in any replies of a run |
| PoolProofs.ClockIrrelevant | crates/pxeboot/src/main.rs:222-231 | Leases never expire: runs that differ only in their clocks send the same replies and lease the same addresses |
| PoolProofs.FreshWhileRoom | crates/pxeboot/src/main.rs:232-237 | The scan succeeds whenever there are fewer leases than pool addresses (pigeonhole) |
| PoolProofs.FreshIsNext | crates/pxeboot/src/main.rs:232-237 | With the leases an initial segment, the scan answers the next address, or nothing once the pool is full |
| PoolProofs.PoolFillsInOrder | crates/pxeboot/src/main.rs:376-389 | Without static addresses: the k-th distinct MAC holds pool_start + k, leased addresses are an initial segment of the pool, and the scan, reached by new MACs only, refuses if and only if every pool address is leased |
| PoolProofs.AdvanceKeepsFill | crates/pxeboot/src/main.rs:359-404 | Each step of the DHCP task keeps that order |
| PxeSystem.CompleteIsRun | crates/pxeboot/src/main.rs:327-413 | Handling a request without interruption is one of the runs of the step system |
| PxeServer.Server.constructor | crates/pxeboot/src/main.rs:667-668 | A server starts in the step system's initial state |
| PxeServer.Server.Register | crates/pxeboot/src/main.rs:359-370 | An unknown MAC gets the discovery entry, a known one keeps its own |
| PxeServer.Server.WriteScript | crates/pxeboot/src/main.rs:138-150 | Updates the file map as specified, reporting refused paths and failed writes |
| PxeServer.Server.AllocateIp | crates/pxeboot/src/main.rs:208-238 | A static address before all else; else the lease, whose expiry it sets; else the first free address; otherwise the table is unchanged |
| PxeServer.Server.Grant | crates/pxeboot/src/main.rs:384-404 | Stores the lease with its expiry and queues a reply with that address and with the MAC's registered script, or the configured boot file if it has none |
| PxeServer.Server.HandleRequest | crates/pxeboot/src/main.rs:354-413 | A whole request equals the step system's uninterrupted run; it goes unanswered if and only if nothing can be allocated, and the answer carries the allocated address and the registered script or configured boot file |
| PxeServer.Server.BootRegister | crates/pxeboot/src/main.rs:613-628 | Inserting the entry and writing its script equals the two control-plane steps |
| PxeServer.Server.HandleDatagram | crates/pxeboot/src/main.rs:327-413 | From received bytes to sent bytes: sent if and only if the datagram is a DISCOVER or REQUEST and an address is found; the reply repeats the datagram's xid and hardware address byte for byte, has the right type, and goes out broadcast or to the address that it carries |
| PxeServer.BroadcastExactly | crates/pxeboot/src/main.rs:406-410 | A reply goes to everyone if and only if the client's broadcast bit is set or the leased address is the broadcast address |
| PxeServer.ReplyOnWire | crates/pxeboot/src/main.rs:399-404 | The reply to a datagram answers it byte for byte |
| PxeSystem.RequestEffect | crates/pxeboot/src/main.rs:354-413 | The net effect of the eight steps of one request, in closed form |
| PxeSystem.LeaseSteps | crates/pxeboot/src/main.rs:222-238 | Lease reuse or fresh scan, store, pick and reply, in closed form |
| Replies.RepliesAnswerRequests | crates/pxeboot/src/main.rs:327-413 | In every run the replies answer, one to one and in order, a subsequence of the received requests: each repeats xid, hardware address and MAC, offers on DISCOVER and acknowledges REQUEST, and is broadcast exactly when asked for and else goes to the leased address |
| Replies.StepReplies | crates/pxeboot/src/main.rs:399-413 | Only the last step of a request adds a reply, one, to that very request |
| HandOff.HandOffHolds | crates/pxeboot/src/main.rs:359-404 | In every state of an undisturbed run, each reply ever sent to a MAC names a file that sanitizes to a path under the TFTP root holding the script rendered for that MAC; later requests never change it |
| HandOff.RegisteredHandOff | crates/pxeboot/src/main.rs:613-628 | The same for a registered entry, from its registration on: each reply names the registered script, and that file holds what was rendered from the entry |
| Registrations.RegisteredBootFile | crates/pxeboot/src/main.rs:393-397 | Over runs: once an entry is registered for a MAC, and until the next registration for it, every reply whose boot file is picked from then on carries the entry's script, or the configured boot file if it has none |
| Registrations.RegisteredAddress | crates/pxeboot/src/main.rs:216-221 | Over runs: in the same way, every reply whose address is picked from then on carries the entry's static address |
| HandOff.NoRegistrationsUndisturbed | crates/pxeboot/src/main.rs:613-628 | Runs without `boot.register` and with successful writes are undisturbed |
| HandOff.StepKeepsHandOff | crates/pxeboot/src/main.rs:359-404 | Every step of every task keeps the hand-off invariant |
| HandOff.WriteKeepsScript | crates/pxeboot/src/main.rs:138-150 | Writing another entry's script leaves the file alone, writing the MAC's own creates it |
| HandOff.ScriptOfIsFollowed | crates/pxeboot/src/main.rs:361-369 | The discovery entry leads to its own file, and no other MAC's discovery entry does |
| BootScript.DefaultScriptPathIsSafe | crates/pxeboot/src/main.rs:102-104 | The default script path is accepted and names the MAC's file in the scripts directory |
| BootScript.DefaultScriptPathShape | crates/pxeboot/src/main.rs:102-104 | It is 30 bytes, so never truncated, and can be carried by a read request |
| BootScript.DefaultScriptPathText | crates/pxeboot/src/main.rs:102-104 | It is the formatted MAC between `scripts/` and `.ipxe` |
| BootScript.DiscoveryHostname | crates/pxeboot/src/main.rs:363-368 | The discovery entry's host name tells its MAC; it has the default script and neither address nor tags |
| BootScript.WriteEffect | crates/pxeboot/src/main.rs:138-150 | Of all paths a write touches at most the entry's own, which then holds the entry's script; refused paths and failures are reported |
| BootScript.ScriptLines | crates/pxeboot/src/main.rs:126-136 | A script with a one-line host name and URL is these four lines |
| BootScript.DefaultScriptPathInjective | crates/pxeboot/src/main.rs:102-104 | Different MACs have different default paths |
| BootScript.ScriptFileInjective | crates/pxeboot/src/main.rs:106-116 | Different MACs have different files, whatever the root |
| BootScript.AgentReadsSeedUrl | crates/pxeboot/src/main.rs:118-136 | For every entry: the agent's line and field extraction finds the URL that the script was rendered with if and only if the line with the host name, which may hold line breaks, brings up that very URL, or brings up none and the URL has no blank in it |
| BootScript.TaggedUrlFound | crates/pxeboot/src/main.rs:119-124 | The URL in the entry's `seed_url` tag goes before all others |
| BootScript.UntaggedUrlFound | crates/pxeboot/src/main.rs:119-124 | Without the tag the agent finds the configured URL, or else the one built from the server's address |
| BootScript.FallbackReadsBack | crates/pxeboot/src/main.rs:124 | That one is the address's four octets in decimal between scheme, port and path |
| BootScript.OneLineHostname | crates/pxeboot/src/main.rs:126-136 | A host name without line breaks brings up no URL |
| BootScript.HostnameChainLine | crates/pxeboot/src/main.rs:126-136 | A host name with a chain line of its own makes the agent take the URL from there, and so miss every other rendered one |
| BootScript.ChainSecondField | vagrant/provision-agent.sh:118 | The second blank-separated field of a chain line is what stands between the command and the next blank |
| BootChain.BootsEndToEnd | crates/pxeboot/src/main.rs:359-404 | From DHCP reply through option 67, read request and block transfer: the machine ends up with the script rendered for its MAC, and the agent with its seed URL if and only if that URL has no blank in it |
| BootChain.SomeMachineBoots | crates/pxeboot/src/main.rs:327-413 | Runs that meet the hypotheses of the end-to-end result exist for every request and every configuration with a pool |
| BootScript.FallbackHasNoBlanks | crates/pxeboot/src/main.rs:124 | The seed URL built from the server's address has no blank in it |
| MacText.MacTextRoundTrip | crates/hivebus/src/main.rs:595-609 | Parsing a formatted MAC, with any white space around it, gives back its six octets and their node id |
| MacText.FmtMacInjective | crates/pxeboot/src/main.rs:98-100 | Different MACs are formatted differently |
| MacText.FmtMacShape | crates/pxeboot/src/main.rs:98-100 | Seventeen characters, each a lower-case hexadecimal digit or a colon |
| MacText.AgentAgrees | vagrant/provision-agent.sh:98-100 | The script's masked shell arithmetic and the daemon's fold give the same node id |
| MacText.NodeIdFolds | crates/proto/src/lib.rs:287-291 | Each pair of octets goes into the id as it stands, the first octet on top |
| Framing.EncodeFrame | crates/hivebus/src/main.rs:129-138 | Refuses exactly payloads above 504 bytes; otherwise the frame is at most 508 bytes, its header parses back and the payload follows it |
| Framing.FrameRoundTrip | crates/hivebus/src/main.rs:202-217 | An accepted frame fits the receive buffer and is read back by every other node with the same id, type, low-nibble sequence number and payload; the sender drops it; it is refused if and only if the payload exceeds 504 bytes |
| Framing.FrameLayout | crates/proto/src/lib.rs:63-87 | The bytes of a frame: magic 0xCA, type code 0 to 6 above the low nibble of the sequence number, id most significant byte first, payload |
| Framing.ReceivesExactly | crates/hivebus/src/main.rs:202-217 | The listener takes exactly the datagrams with a whole header, the magic, another node's id and a known type |
| Framing.PackTypeSeq | crates/proto/src/lib.rs:63-69 | The packed byte holds the type above and the low nibble of the sequence number below |
| Framing.UnpackHeader | crates/proto/src/lib.rs:71-81 | The accessors invert the packing |
| Framing.EncodeControl | crates/proto/src/lib.rs:259-267 | Panics exactly on payloads of 65536 bytes or more; a reader takes the whole envelope for that payload up to 60 KiB and refuses a longer one |
| Framing.ControlRoundTrip | crates/hivebus/src/main.rs:422-434 | Whatever follows, a reader recovers a payload of at most 60 KiB and consumes 3 + len bytes, and refuses every longer one |
| Framing.EnvelopeLayout | crates/proto/src/lib.rs:259-267 | The bytes of an envelope: marker 1, length most significant byte first, payload |
| Framing.ReadsExactly | crates/hivebus/src/main.rs:422-434 | A daemon takes exactly the streams with marker 1, a length up to 61440 and that many bytes, and says which of the first two was wrong |
| Framing.ControlFramesDelimit | crates/hivebus/src/main.rs:422-434 | Back-to-back envelopes are read one after the other |
| Membership.ReachableInv | crates/hivebus/src/main.rs:206-210 | In every reachable table, over all interleavings of messages and ticks: the node's own id is no key, every key is its entry's id, at most one entry is flagged master, and its id is below the node's own |
| Membership.ApplyKeepsInv | crates/hivebus/src/main.rs:219-302 | Every message and every tick keeps that invariant |
| Membership.GossipKeepsInv | crates/hivebus/src/main.rs:279-302 | So does a gossip message of any length |
| Membership.TickKeepsInv | crates/hivebus/src/main.rs:320-346 | A tick establishes the flag half from the key half alone |
| Membership.Least | crates/hivebus/src/main.rs:96-97 | The minimum of a set of ids, by which the election is specified; `Node.ElectMaster` reaches it through the sorted vector |
| Detector.TickEntry | crates/hivebus/src/main.rs:324-340 | What a tick leaves of each entry: retained if and only if younger than five minutes, and judged by its age |
| Detector.TickOnlyDecays | crates/hivebus/src/main.rs:324-340 | States only move from Alive to Suspect to Dead, becoming Dead exactly past the dead threshold and staying Alive exactly within both; nothing else of an entry changes, and removal happens exactly at five minutes or for a time in the future |
| Detector.TwoTicksAbsorbExactly | crates/hivebus/src/main.rs:320-346 | Two ticks leave what the second alone leaves, flags included, if and only if the first drops no entry from its future that the second would keep |
| Detector.FutureEntryLost | crates/hivebus/src/main.rs:324-327 | An entry heard of a nanosecond after the first tick is such an entry |
| Detector.TicksAbsorb | crates/hivebus/src/main.rs:320-346 | A sequence of ticks under a clock that does not run backwards leaves what its last tick alone leaves, if and only if the first drops no entry from its future that the last would keep |
| Detector.AliveAfterTickIsRecent | crates/hivebus/src/main.rs:329-340 | After a tick, Alive entries were heard of within both thresholds |
| Detector.HeardStaysAlive | crates/hivebus/src/main.rs:220-267 | A heartbeat or announcement revives a node, and a timely tick keeps it Alive |
| Detector.TickFlagsMaster | crates/hivebus/src/main.rs:342-346 | A tick flags exactly the master that its own result elects |
| GossipMerge.GossipClosedForm | crates/hivebus/src/main.rs:279-302 | Folding any entry list gives each other id the maximum incarnation of old entry and list, and the state of the last entry at that maximum when it reaches the old one; the node's own id is untouched |
| GossipMerge.GossipIdempotent | crates/hivebus/src/main.rs:279-302 | Merging the same list again changes nothing |
| GossipMerge.OrderKeepsIncarnations | crates/hivebus/src/main.rs:296-299 | Reordering or repeating entries never changes ids or incarnations |
| GossipMerge.OrderIrrelevantExactly | crates/hivebus/src/main.rs:279-302 | All permutations of a list merge to the same table if and only if, for each other id, its entries at the list's greatest incarnation agree on the state, where that incarnation reaches the old one |
| GossipMerge.OrderIrrelevant | crates/hivebus/src/main.rs:296-299 | In particular, when all entries of equal id and incarnation agree, permuting them changes nothing |
| GossipMerge.OrderMatters | crates/hivebus/src/main.rs:296-299 | Any two entries that disagree about a peer at an incarnation not below the old one leave different tables in their two orders |
| GossipMerge.GossipCannotRefresh | crates/hivebus/src/main.rs:285-299 | A stale node that gossip turns Alive is no longer Alive after the next tick |
| HivebusNode.Node.constructor | crates/hivebus/src/main.rs:529 | A node starts with an empty table |
| HivebusNode.Node.OnHeartbeat | crates/hivebus/src/main.rs:220-238 | Sets state, incarnation and time of one entry, creating it if unknown; `Identity.PeerIdentity` says what it leaves alone |
| HivebusNode.Node.OnAnnounce | crates/hivebus/src/main.rs:239-267 | Replaces one entry |
| Identity.PeerIdentity | crates/hivebus/src/main.rs:219-302 | Over every run: as long as a peer stays in the table, its host name and address are those of its last announcement since it was put there, or else the default name and the address of the frame that put it there; its time is that of the last it was heard of, or of that frame |
| Identity.InsertedBy | crates/hivebus/src/main.rs:223-293 | What puts a peer into the table, with which name, address and time, and with the flag down |
| Identity.EventKeepsIdentity | crates/hivebus/src/main.rs:219-346 | No other event changes a peer's name, address or time |
| Identity.DefaultHostnameReadsBack | crates/hivebus/src/main.rs:227 | The default name is `node-0x` and the id's two octets in hexadecimal |
| Identity.DefaultHostnameOfA5 | crates/hivebus/src/main.rs:227 | Id 0x00a5 is called `node-0x00a5` |
| HivebusNode.Node.OnLeave | crates/hivebus/src/main.rs:268-278 | Marks a known entry Dead |
| Identity.LeftStaysDead | crates/hivebus/src/main.rs:268-278 | A peer that leaves is Dead, through all ticks and all messages that do not concern it, until it is removed or heard or gossiped of again |
| HivebusNode.Node.OnGossip | crates/hivebus/src/main.rs:279-302 | The entry loop equals the fold of the specification |
| HivebusNode.Node.ElectMaster | crates/hivebus/src/main.rs:87-97 | Collect, push, sort, take first: the minimum of self and the Alive ids |
| HivebusNode.Node.DetectorTick | crates/hivebus/src/main.rs:320-346 | The three passes over the table equal one tick of the specification |
| HivebusNode.Node.RetainRecent | crates/hivebus/src/main.rs:324-327 | The retain pass keeps exactly the recent entries |
| HivebusNode.Node.JudgeMembers | crates/hivebus/src/main.rs:329-340 | The aging pass judges every entry once |
| HivebusNode.Node.FlagMembers | crates/hivebus/src/main.rs:342-346 | The flag pass sets every flag |
| HivebusNode.Node.GossipEntries | crates/hivebus/src/main.rs:362-372 | The entries tell of all the table's nodes and no others, each with its id, incarnation and state |
| HivebusNode.SnapshotExchange | crates/hivebus/src/main.rs:279-302 | A node that knows nobody and merges a whole snapshot ends with the sender's ids, incarnations and states, its own id aside |
| HivebusNode.Node.GetMaster | crates/hivebus/src/main.rs:452-469 | The elected node's information; the node's own, flagged, if it elects itself |
| HivebusNode.Node.GetNodes | crates/hivebus/src/main.rs:438-451 | The strictly ascending listing of table and self |
| HivebusNode.MasterAlwaysKnown | crates/hivebus/src/main.rs:452-469 | In every reachable state `GetMaster` answers, with the minimum of self and the Alive ids: the table's entry, or the node's own name, address and incarnation, flagged |
| HivebusNode.MasterRecentAfterTick | crates/hivebus/src/main.rs:320-346 | Right after a tick the answer is the node itself or was heard of within both thresholds |
| HivebusNode.ListsSelfOnce | crates/hivebus/src/main.rs:438-451 | A listing contains the node itself exactly once, with its own name, address and incarnation, and flagged if and only if it elects itself |
| HivebusNode.ListingFlagsExactly | crates/hivebus/src/main.rs:438-451 | After a tick and any messages, a listing flags exactly the elected master if and only if that is still the tick's master and has not announced itself, or is now the node itself and the tick's was too or has announced itself |
| HivebusNode.FlagsCurrentExactly | crates/hivebus/src/main.rs:219-302 | The same condition for the flags of the table, over every sequence of messages between two ticks |
| HivebusNode.FlagsBeforeFirstTick | crates/hivebus/src/main.rs:219-302 | Before the first tick the flags are current if and only if the node elects itself |
| HivebusNode.ListingAfterTick | crates/hivebus/src/main.rs:438-451 | Right after a tick it flags exactly one entry, the elected master |
| HivebusNode.TwoMastersListed | crates/hivebus/src/main.rs:268-278 | A run after which the listing is a peer and the node itself, both flagged |
| HivebusNode.LeaveShowsTwoMasters | crates/hivebus/src/main.rs:268-278 | When the flagged peer leaves and no other is Alive, every listing flags both the peer and the node itself |
| HivebusNode.NoMasterListed | crates/hivebus/src/main.rs:258-266 | A run after which the listing flags nobody: the flagged peer has announced itself |
| HivebusNode.AnnounceShowsNoMaster | crates/hivebus/src/main.rs:258-266 | When the flagged peer announces itself and stays the lowest Alive id, every listing flags nobody |
| HivebusNode.ListingUnique | crates/hivebus/src/main.rs:449 | The listing does not depend on the table's iteration order |
| Cluster.Agreement | crates/hivebus/src/main.rs:87-97 | For any number of nodes, on every timely run: once all live nodes' views are up to date, they all choose the minimum live id |
| Cluster.Converges | crates/hivebus/src/main.rs:87-97 | Agreement can always be reached: after any timely run, one timely round of heartbeats and ticks brings every live view up to date, and all live nodes choose the minimum live id |
| Cluster.HeardThenUpToDate | crates/hivebus/src/main.rs:320-346 | A node that has just heard all other live nodes, with the crashed ones past suspicion, is up to date once it ticks |
| Cluster.ElectsLeast | crates/hivebus/src/main.rs:87-97 | A single up-to-date live node already does, and answers `GetMaster` with that id |
| Cluster.ElectsLeastExactly | crates/hivebus/src/main.rs:87-97 | Such a node elects the minimum live id if and only if that is its own or it holds it Alive |
| Cluster.LiveStayAlive | crates/hivebus/src/main.rs:219-302 | On every timely run, every view entry and every gossiped entry in flight about a live node says Alive |
| Cluster.StepKeepsInv | crates/hivebus/src/main.rs:317-346 | Every start, crash, send, receive, tick and loss keeps that invariant |
| Cluster.ReceiveKeepsView | crates/hivebus/src/main.rs:219-302 | Receiving any frame that says only Alive of live nodes keeps the view so |
| Cluster.TickKeepsPeer | crates/hivebus/src/main.rs:320-346 | A timely tick keeps live nodes Alive, and leaves only recent nodes Alive |
| Cluster.LateTickSplits | crates/hivebus/src/main.rs:329-340 | Timeliness is needed: one late tick makes a node elect itself over a lower live id |

## Left out

- HivebusNode.Node.GossipEntries: one `epoch_ms` for all entries of a snapshot; the source reads the clock for
  each, and nothing uses the value.
- DhcpWire.ScanMessageType: requires that no option 53 claims a value beyond the packet; the source indexes
  past the slice there and panics, so there is no result to state.
- Sockets, multicast membership, task spawning, logging and configuration files: their events are steps or
  parameters of the model.
- bincode and serde: payloads are the byte strings that they produce, and only the framing around them is
  modelled. A control payload above 65535 bytes, on which the encoder panics, has no frame.
- Creation of parent directories, and readers that see a script half written; a failed write leaves the
  file map as it was.
- A datagram longer than the four-byte ACK buffer is cut to it, as Linux does.
- The clock is read once per gossip message here, and once per inserted entry in the source.
- IPv6 addresses, white space outside ASCII around a sysfs MAC, and Windows path prefixes.
- Iteration order of hash maps: the methods take keys in any order. The library's sorts are insertion sorts
  here.
- Reclaiming leases: nothing reads the expiry time (`PoolProofs.ClockIrrelevant`).
- Rolling sequence numbers of heartbeats and gossip: nothing reads them back.
- Incarnations across restarts: the value is a truncated timestamp; any incarnations are allowed here, and
  none is claimed to grow.
- Fairness of the network: completion of a transfer is characterised, not promised.
- Voting payloads, which have no behaviour, the `boot.list` reply, the terminal user interface, and the
  orchestrator, netop, netgate and imager daemons, whose control loops repeat the same framing.
