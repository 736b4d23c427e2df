# Swindle: a verified model

Swindle is a debug probe: a GDB stub written in Rust with wire drivers in C++ under it. This project models its
small stateful machines in Dafny and proves what the system relies on. Code that updates state in place is a class
whose methods are proved against functions on values; the theorems are lemmas about those functions.

| file | what it models |
|---|---|
| `Bytes`, `Hex`, `Bits` | machine integers, hexadecimal text, bit strings and parity |
| `Packet`, `Sessions` | the GDB remote packet automaton, the reactions of the drive loop, the framing; theorems over whole byte streams |
| `Decoder` | `gdb_stream::parse` and `run_parser` as they run, on a bounded buffer |
| `Encoder` | the packet encoder with its one shared 64-byte staging buffer |
| `Rtt`, `RttClock` | the RTT up-channel as a two-party transition system; the 16-bit poll clock |
| `Arena`, `SessionArena`, `Breakwatch` | two bump regions with one-level rewind in front of the heap; the linked list that allocates from them |
| `Breakpoints`, `FlashBreakpoints`, `RamBreakpoints` | code patching that must be undone exactly |
| `Cache`, `MemoryCommand` | the read-ahead line cache and the `m` command above it |
| `Crc` | a word-wise engine, a table-driven digest and a bit-serial definition |
| `Serialiser`, `Rvswd` | two serialisers of the two-wire RVSWD bus; its frames and parity |
| `Sdi` | the one-wire waveform transmitter and an independent decoder of it |
| `Xml`, `MemoryMap` | XML documents sent in windows; the memory map and a reader for it |

## How the code is read

- Arithmetic is that of the release profile: 32-bit sums wrap around where the model writes `% TWO32`. Exclusive or
  with 0x20, masks and shifts on single bytes are written arithmetically; the CRC uses bit vectors; the serial buses use
  bit strings.
- The packet code escapes `{`, `}`, `$` and `#`. A comment in `encoder.rs` names `*` instead of `{`; the model follows
  the code.
- The comment on `add_u32_no_padding` promises `00` for zero. The code writes the two digits at the left of its buffer
  and sends the right end, so two NUL characters go out. The model follows the code, says exactly when the text is
  hexadecimal, and proves that the stub's own parser still reads every value back.
- The end of a region whose CRC is asked for is a 32-bit sum as well. If it wraps, no byte is read and the initial value
  is answered with success (`Crc.AnswerRightIff`, `Crc.LastByteWrong`).
- `make_sdi_header` relies on its callers to reject addresses wider than seven bits. The model proves that this guard is
  exactly what the round trip needs.
- A poll clock with 16-bit ticks does not fire reliably when polls are merely less than 65536 ms apart. The exact limit
  is 65536 minus the period (`RttClock.SlackIff`), and for a single run it is `RttClock.FiresWhenDueIff`. A time base
  beyond the last 32-bit instant with the current tick makes the catch-up loop spin for ever (`RttClock.CatchUpEndsIff`,
  reached in `RttClock.SteadyRunHangsIff`);
  the model reports that as an outcome, for which the code has no branch.
- The end of an XML window is a 32-bit sum. `Xml.WindowRightIff` proves that the window is right if and only if the sum
  does not wrap. Otherwise a slice may have its bounds out of order, which stops the stub; the model reports that as an
  outcome, for which the code has no branch.
- I/O, clocks, the heap's own answers and the outcome of each target access are parameters. A failing write is taken to
  leave memory unchanged, a failing read to leave the buffer unchanged.

## Model

| member | source | states |
|---|---|---|
| Hex.HexRoundTrip | swindle/rs/rs_swindle/src/parsing_util.rs:30-63 | Decoding the hex of any byte string gives the byte string back |
| Hex.OctetRoundTrip | swindle/rs/rs_swindle/src/parsing_util.rs:52-63 | The two digits of a byte, high nibble first, decode to that byte |
| Hex.PutHex | swindle/rs/rs_swindle/src/parsing_util.rs:159-162 | Two digits are written at the given place and no other byte of the buffer changes |
| Packet.ScanThenFeed | swindle/rs/rs_swindle/src/swindle.rs:117-164 | One `parse` call followed by its reaction is a prefix of the byte-by-byte transducer |
| Packet.FeedConcat | swindle/rs/rs_swindle/src/swindle.rs:117-164 | Feeding two fragments gives the same events and the same final state as feeding their concatenation |
| Packet.FragmentationIndependence | swindle/rs/rs_swindle/src/swindle.rs:117-164 | The same for any number of fragments cut anywhere |
| Packet.FeedBounded | swindle/rs/rs_swindle/src/decoder.rs:163-272 | After any input the index fits the buffer; while a packet is open the checksum is at most a constant times the index, and in every state at most that constant times one more than the buffer size |
| Packet.UnescapeEscaped | swindle/rs/rs_swindle/src/encoder.rs:198-227 | Every escaped payload is inside the wire grammar and stands for exactly that payload |
| Packet.FrameAnswered | swindle/rs/rs_swindle/src/decoder.rs:212-272 | Any well-formed frame that fits, whoever sent it, is executed when its checksum is right and refused with a NACK when it is wrong |
| Packet.FrameDelivered | swindle/rs/rs_swindle/src/encoder.rs:154-240 | What `begin`, `add_u8`, `end` frame, the decoder executes, and it is idle again |
| Packet.EscapedForm | swindle/rs/rs_swindle/src/encoder.rs:202-215 | `{`, `}`, `$` and `#` travel behind a `}` with bit 5 flipped, every other byte as it is, in plain byte values |
| Packet.FrameForm | swindle/rs/rs_swindle/src/encoder.rs:154-240 | A packet is `$`, the escaped payload, `#` and the two digits of its checksum |
| Sessions.SessionDelivered | swindle/rs/rs_swindle/src/decoder.rs:163-272 | Any list of payloads that fit, framed, with acknowledgements or noise between them, is executed in order and nothing else is |
| Sessions.GoodPacketReply | swindle/rs/rs_swindle/src/swindle.rs:141-153 | A good non-empty packet is answered by an acknowledgement, a flush and its execution, an empty one by nothing |
| Sessions.StatusQuery | swindle/rs/rs_swindle/src/swindle.rs:141-153 | `$?#3f` is acknowledged and executed as `?` |
| Sessions.RepliesDisciplined | swindle/rs/rs_swindle/src/swindle.rs:126-160 | Over any input each execution directly follows an acknowledgement and a flush, nothing else is acknowledged, and each refusal is flushed |
| Sessions.NoiseIgnored | swindle/rs/rs_swindle/src/decoder.rs:169-182 | An idle decoder drops every byte that starts no packet, without an event |
| Sessions.Resync | swindle/rs/rs_swindle/src/decoder.rs:163-296 | From every resting state and buffer contents, one complete encoder packet of any size ends in idle |
| Sessions.SelfSynchronising | swindle/rs/rs_swindle/src/decoder.rs:163-296 | After any garbage and one packet, every later session is delivered exactly |
| Sessions.OversizedRefused | swindle/rs/rs_swindle/src/decoder.rs:230-262 | A packet larger than the buffer is answered with a NACK, nothing of it is executed and the decoder ends idle |
| Sessions.ExecutedIffFits | swindle/rs/rs_swindle/src/decoder.rs:212-272 | A non-empty framed payload is executed if and only if it fits the input buffer |
| Sessions.FirmwareExecutesIff | swindle/rs/rs_swindle/src/decoder.rs:212-272 | With the firmware's buffer a payload is executed if and only if it has at most 2112 bytes |
| Sessions.ExecSound | swindle/rs/rs_swindle/src/decoder.rs:163-272 | Every command ever executed stood on the wire as one complete frame with the right checksum |
| Sessions.NackSound | swindle/rs/rs_swindle/src/swindle.rs:154-157 | A refusal is only ever sent for a frame with a wrong checksum, or a packet or call that does not fit |
| Sessions.RpcDelivered | swindle/rs/rs_swindle/src/decoder.rs:190-211 | An RPC call between its markers dispatches exactly that call and leaves the GDB checksum alone |
| Sessions.RpcRestarts | swindle/rs/rs_swindle/src/decoder.rs:198-200 | A second start marker inside a call restarts it; only what follows is dispatched |
| Sessions.RpcOversized | swindle/rs/rs_swindle/src/decoder.rs:201-210 | A call that does not fit is refused and nothing of it is dispatched |
| Decoder.GdbStream.Initialise | swindle/rs/rs_swindle/src/decoder.rs:111-119 | The decoder is idle with an all-zero buffer |
| Decoder.GdbStream.GetResult | swindle/rs/rs_swindle/src/decoder.rs:127-130 | The packet is the filled part of the buffer and only the automaton changes |
| Decoder.GdbStream.Consume | swindle/rs/rs_swindle/src/decoder.rs:163-277 | One byte moves the object as the automaton does; the panicking arms are unreachable |
| Decoder.GdbStream.Parse | swindle/rs/rs_swindle/src/decoder.rs:140-298 | Bytes are consumed up to and including the one that ends a packet; the verdict and the state are those of the specification |
| Decoder.Stub.Dispatch | swindle/rs/rs_swindle/src/swindle.rs:126-160 | Each verdict leads to the ACK, NACK, flush, execution or RPC dispatch it calls for |
| Decoder.Stub.RunParser | swindle/rs/rs_swindle/src/swindle.rs:117-164 | The drive loop terminates, never panics, and equals the transducer on any slice of input |
| Decoder.ChecksumFits | swindle/rs/rs_swindle/src/decoder.rs:212-272 | With the firmware's buffer size no input brings the checksum near the 32-bit limit |
| Encoder.U8sStringToU32 | swindle/rs/rs_swindle/src/parsing_util.rs:134-140 | The loop computes the big-endian value of a hex text of any length, 32-bit truncation included |
| Encoder.ParseHexBytes | swindle/rs/rs_swindle/src/parsing_util.rs:134-140 | The hex of a byte string is read back as its big-endian value modulo 2^32 |
| Encoder.NoPaddingIsHexIff | swindle/rs/rs_swindle/src/encoder.rs:106-129 | The text sent without padding consists of hex digits if and only if the value is not zero |
| Encoder.NoPaddingRoundTrip | swindle/rs/rs_swindle/src/encoder.rs:106-129 | The stub's own parser reads back every value sent without padding, zero included |
| Encoder.U32RoundTrip | swindle/rs/rs_swindle/src/encoder.rs:90-144 | The big-endian and the little-endian eight-digit forms both give the word back |
| Encoder.ReadyMadeReplies | swindle/rs/rs_swindle/src/encoder.rs:80-88 | The literal replies are the frames of their texts, with the right checksums |
| Encoder.PacketEncoder.Begin | swindle/rs/rs_swindle/src/encoder.rs:154-158 | The start marker goes out and the checksum starts at zero |
| Encoder.PacketEncoder.Stage | swindle/rs/rs_swindle/src/encoder.rs:202-219 | One byte, escaped if need be, joins the staged bytes; the rest of the buffer is untouched and the checksum follows |
| Encoder.PacketEncoder.AddU8 | swindle/rs/rs_swindle/src/encoder.rs:198-228 | The wire receives the escaped slice and the checksum its sum, even when the slice lies in the staging buffer that is overwritten meanwhile |
| Encoder.PacketEncoder.HexAndAddU8 | swindle/rs/rs_swindle/src/encoder.rs:180-190 | For every input length the wire receives the upper-case hex of the input, although the digits are staged in the buffer they are sent through |
| Encoder.PacketEncoder.AddU32 | swindle/rs/rs_swindle/src/encoder.rs:90-102 | Eight digits, most significant first |
| Encoder.PacketEncoder.AddU32Le | swindle/rs/rs_swindle/src/encoder.rs:131-144 | Eight digits, least significant byte first |
| Encoder.PacketEncoder.AddU32NoPadding | swindle/rs/rs_swindle/src/encoder.rs:106-129 | The digits of the significant bytes, or two NUL characters for zero |
| Encoder.PacketEncoder.End | swindle/rs/rs_swindle/src/encoder.rs:234-240 | The end marker and the two checksum digits go out and everything is flushed |
| Encoder.PacketEncoder.ReplyOk | swindle/rs/rs_swindle/src/encoder.rs:80-83 | The literal reply is one complete frame of `OK` |
| Encoder.PacketEncoder.SimpleSend | swindle/rs/rs_swindle/src/encoder.rs:253-258 | The wire receives one complete frame of the text |
| Rtt.TransferFits | swindle/rs/rs_swindle/src/rtt.rs:464-484 | Whatever a 32-bit descriptor holds, a planned transfer covers its chunk, is word aligned, keeps to the room available and fits the 516-byte buffer |
| Rtt.Decide | swindle/rs/rs_swindle/src/rtt.rs:464-500 | The head of a call plans what the specification does, for any descriptor |
| Rtt.PlanIsGood | swindle/rs/rs_swindle/src/rtt.rs:458-513 | On a well-formed ring every planned transfer also stays in memory and reads published bytes alone |
| Rtt.PlanIsMaximal | swindle/rs/rs_swindle/src/rtt.rs:467-481 | A transfer takes all contiguous published bytes, but no more than 512 and the room available; none is made exactly when that is nothing |
| Rtt.ScribbleKeepsInv | swindle/rs/rs_swindle/src/rtt.rs:458-513 | The target may rewrite any memory except published, unread bytes without breaking a transfer in progress |
| Rtt.PublishKeepsInv | swindle/rs/rs_swindle/src/rtt.rs:458-513 | The target may publish more bytes between any two steps of the probe |
| Rtt.FetchKeepsInv | swindle/rs/rs_swindle/src/rtt.rs:482-496 | Every word read carries the published bytes of the chunk |
| Rtt.WriteBackKeepsInv | swindle/rs/rs_swindle/src/rtt.rs:497-513 | Writing the read offset back moves exactly the fetched bytes from the ring to the host |
| Rtt.NextKeepsInv | swindle/rs/rs_swindle/src/rtt.rs:458-513 | Every step of either party keeps delivered + in flight + unread equal to produced |
| Rtt.RunIsFifo | swindle/rs/rs_swindle/src/rtt.rs:458-513 | Over every interleaving nothing is lost, duplicated, reordered or invented; the read offset stays in range and the over-read in its buffer |
| Rtt.DeliveredIsPrefix | swindle/rs/rs_swindle/src/rtt.rs:458-513 | What the host has received is always a prefix of what the target produced |
| Rtt.UpChannel.Transfer | swindle/rs/rs_swindle/src/rtt.rs:482-513 | For every outcome of the ring read and the offset write: what is sent, what stays unread and where the offset points |
| Rtt.UpChannel.ReadChannel | swindle/rs/rs_swindle/src/rtt.rs:458-513 | A call moves bytes exactly when there are bytes and room and the target halts, and then as many as buffer, room and ring allow; the bytes moved are the oldest unread ones, or stale ones when the unchecked read failed |
| Rtt.UpChannel.BalanceIff | swindle/rs/rs_swindle/src/rtt.rs:485-513 | A call loses, duplicates and invents nothing if and only if the offset was written and the bytes passed on are the oldest unread ones |
| RttClock.CatchUpEndsIff | swindle/rs/rs_swindle/src/rtt.rs:519-535 | The catch-up loop reaches its exit in 32-bit arithmetic if and only if the last time is at most 2^32 - 65536 plus the tick |
| RttClock.ElapsedModuloWrap | swindle/rs/rs_swindle/src/rtt.rs:127-135 | Where the 32-bit loop ends, the computed distance is the true elapsed time modulo 65536; where it does not end, no iterate reaches the last time |
| RttClock.Engine.PollGate | swindle/rs/rs_swindle/src/rtt.rs:519-535 | For every last time and period: quiet, fired with the new last time, or hung, as the 32-bit loop has it |
| RttClock.FiresWhenDueIff | swindle/rs/rs_swindle/src/rtt.rs:519-535 | For any ordered run, period and 32-bit time base: every poll answers as the true clock does if and only if none hangs and no due poll comes so late that its elapsed time has wrapped below the period |
| RttClock.FiresWhenDue | swindle/rs/rs_swindle/src/rtt.rs:519-535 | Over any run of polls at most 65536 minus the period apart whose time base stays a 32-bit number, every poll fires exactly when the period has elapsed |
| RttClock.SlackIff | swindle/rs/rs_swindle/src/rtt.rs:519-535 | For every period below 65536: all admissible runs with polls at most `slack` apart are right if and only if `slack` is at most 65536 minus the period |
| RttClock.LatePollMissed | swindle/rs/rs_swindle/src/rtt.rs:519-535 | One wrap after the last poll that fired, for every period, the period has elapsed and the gate stays shut |
| RttClock.LongPeriodNeverFires | swindle/rs/rs_swindle/src/rtt.rs:530-534 | With a period of 65536 ms or more the gate never opens |
| RttClock.FirstPoll | swindle/rs/rs_swindle/src/rtt.rs:520-535 | After enabling, at any instant, the period counts from the last wrap of the tick, and the run goes on from there |
| RttClock.SteadyRunHangsIff | swindle/rs/rs_swindle/src/rtt.rs:519-535 | Polled every 32768 ms from a zero time base, with a period of at most that, the engine hangs if and only if the run reaches the poll at 2^32 ms |
| Arena.AllocSound | swindle/rs/rs_swindle/src/session_arena.rs:237-257 | A block is aligned, all zero, inside the region, disjoint from every live block, whose contents it leaves alone |
| Arena.StaysInsideIff | swindle/rs/rs_swindle/src/session_arena.rs:244-248 | With the end taken on 32 bits, the capacity test lets no block out of the region if and only if the end is representable |
| Arena.FreeSound | swindle/rs/rs_swindle/src/session_arena.rs:271-285 | A release keeps every other live block intact |
| Arena.ReclaimsIff | swindle/rs/rs_swindle/src/session_arena.rs:277-283 | A release gives memory back if and only if the block is the latest one and not yet rewound |
| Arena.OneLevelRewind | swindle/rs/rs_swindle/src/session_arena.rs:277-283 | Releasing two blocks newest first reclaims just the newer one |
| Arena.PairsCostNothing | swindle/rs/rs_swindle/src/session_arena.rs:237-285 | Any number of one-at-a-time allocations and releases costs at most the padding of the first |
| Arena.AllocKeepsInv | swindle/rs/rs_swindle/src/session_arena.rs:304-340 | A served allocation returns a fresh zeroed block, from arena or heap |
| Arena.ServeRefines | swindle/rs/rs_swindle/src/session_arena.rs:304-406 | Every request is answered as an allocator of independent blocks would answer it, an allocation with a block that is not live, aligned in the arena |
| Arena.RunRefines | swindle/rs/rs_swindle/src/session_arena.rs:184-406 | So is every run of legal requests, across arming and re-opening: every allocation of the run is fresh, and contents are kept to its end |
| Arena.LiveBlocksDisjoint | swindle/rs/rs_swindle/src/session_arena.rs:184-406 | After any legal run from boot, live blocks in the arena are 8-aligned and pairwise disjoint, and each peak dominates its use |
| Arena.FreeGoesHome | swindle/rs/rs_swindle/src/session_arena.rs:370-384 | A release reaches the heap if and only if the heap served the block, armed since or not |
| Arena.BootInv | swindle/rs/rs_swindle/src/session_arena.rs:132-145 | The state at boot satisfies the invariant |
| Arena.OpenArms | swindle/rs/rs_swindle/src/session_arena.rs:287-298 | An open leaves an armed session with both regions empty and all zero, the counters at zero and the heap as it was |
| Arena.OpenedRunInside | swindle/rs/rs_swindle/src/session_arena.rs:304-340 | Over any run after an open, target objects lie in the pool and transport objects in the transport region, each directly behind what is used, and the heap does not grow |
| Arena.UnarmedUsesHeap | swindle/rs/rs_swindle/src/session_arena.rs:304-312 | Before any open, blocks come from the heap and the regions stay untouched |
| Arena.NothingAsked | swindle/rs/rs_swindle/src/session_arena.rs:304-307 | Releasing null and asking for no bytes change nothing |
| Arena.PeakIsHighWater | swindle/rs/rs_swindle/src/session_arena.rs:251-255 | The recorded peak is the largest use over the run since the open |
| Arena.CountersCount | swindle/rs/rs_swindle/src/session_arena.rs:276-283 | Every release of an arena block is counted, and counted as a rewind exactly when it gave memory back |
| SessionArena.BumpRegion.Alloc | swindle/rs/rs_swindle/src/session_arena.rs:237-257 | The in-place allocation equals the specification; nothing changes when the region is full |
| SessionArena.BumpRegion.FreeOffset | swindle/rs/rs_swindle/src/session_arena.rs:271-285 | The in-place rewind equals the specification |
| SessionArena.BumpRegion.Wipe | swindle/rs/rs_swindle/src/session_arena.rs:288-297 | All bytes are zero and the bump cells are reset |
| SessionArena.Allocator.SessionMalloc | swindle/rs/rs_swindle/src/session_arena.rs:304-320 | Zero size, unarmed and armed service as specified, exhaustion included |
| SessionArena.Allocator.SessionTransportAlloc | swindle/rs/rs_swindle/src/session_arena.rs:324-340 | The same for the transport region |
| SessionArena.Allocator.SessionCalloc | swindle/rs/rs_swindle/src/session_arena.rs:360-365 | A product that does not fit is answered with null, everything else is an allocation |
| SessionArena.Allocator.SessionFree | swindle/rs/rs_swindle/src/session_arena.rs:370-384 | Null is ignored; the release goes to the region or heap that holds the address, with the counters |
| SessionArena.Allocator.SessionOpen | swindle/rs/rs_swindle/src/session_arena.rs:403-406 | Both regions are wiped, the counters cleared and the allocator armed |
| Breakwatch.Target.Set | swindle/src/bmp_helpers.cpp:652-675 | The list grows by one entry at its head exactly when the backend accepts and memory is served; otherwise list and arena are unchanged |
| Breakwatch.Target.Find | swindle/src/bmp_helpers.cpp:677-690 | The search stops at the first match and knows the node before it |
| Breakwatch.Target.Clear | swindle/src/bmp_helpers.cpp:677-703 | Exactly the first match leaves the list when the backend agrees, the others keep their order, the list stays acyclic and the block is released |
| Breakwatch.Target.FreeAll | swindle/src/bmp_helpers.cpp:301-311 | Every block is released and the list is empty |
| Breakwatch.SetThenClear | swindle/src/bmp_helpers.cpp:652-703 | Setting and clearing the same watch restores the list |
| Breakwatch.RemoveFirstCounts | swindle/src/bmp_helpers.cpp:677-703 | A clear removes one occurrence and nothing else |
| Breakwatch.ManyRounds | swindle/src/bmp_helpers.cpp:652-703 | On the object: any number of set and clear pairs leaves the list as it was, and the arena's use fixed after the first |
| Breakwatch.RoundsCostNothing | swindle/src/bmp_helpers.cpp:652-703 | In the arena, any number of allocations of a node, each released before the next, costs at most the padding of the first |
| Breakwatch.EntriesStayLive | swindle/src/bmp_helpers.cpp:652-703 | After any run of sets, clears, list releases and requests of other arena clients, every entry has a live block of its own |
| Breakwatch.FreeListCounts | swindle/src/bmp_helpers.cpp:301-311 | Releasing the list releases each entry exactly once |
| Breakpoints.LookupIndex | swindle/rs/rs_swindle/src/sw_breakpoints.rs:52-58 | The first entry for the address, or none |
| Breakpoints.OpcodeBytes | swindle/rs/rs_swindle/src/sw_breakpoints.rs:25-26 | The planted bytes are 00 be on ARM and 02 90 on RISC-V |
| FlashBreakpoints.AddKeepsInv | swindle/rs/rs_swindle/src/sw_breakpoints.rs:183-246 | Planting keeps flash equal to the image except at listed addresses; a full table or a live breakpoint changes nothing |
| FlashBreakpoints.RemoveKeepsInv | swindle/rs/rs_swindle/src/sw_breakpoints.rs:251-276 | Removing keeps it too and unlists exactly the one address |
| FlashBreakpoints.ReachableFlash | swindle/rs/rs_swindle/src/sw_breakpoints.rs:183-276 | At every reachable state flash is the image with the opcode at exactly the listed addresses |
| FlashBreakpoints.PlantedAtAddress | swindle/rs/rs_swindle/src/sw_breakpoints.rs:215-232 | A newly planted breakpoint is at its address byte for byte, its entry holds what was there, and no other byte of flash has changed |
| FlashBreakpoints.AddAnswersIff | swindle/rs/rs_swindle/src/sw_breakpoints.rs:183-246 | The answer to an insertion for every outcome of its accesses and a table of sixteen entries |
| FlashBreakpoints.RemoveAnswersIff | swindle/rs/rs_swindle/src/sw_breakpoints.rs:251-276 | A removal fails only if the page cannot be read, and then changes nothing |
| FlashBreakpoints.RemoveAllRestores | swindle/rs/rs_swindle/src/sw_breakpoints.rs:251-276 | Removing everything, in whatever order, restores the image |
| FlashBreakpoints.SuccessMeansPlanted | swindle/rs/rs_swindle/src/sw_breakpoints.rs:183-246 | Success means the opcode is in flash and the address in the table, whatever accesses failed before |
| FlashBreakpoints.AddKeepsInvIff | swindle/rs/rs_swindle/src/sw_breakpoints.rs:183-246 | For every outcome of every access, planting keeps the invariant if and only if the image held the opcode anyway, a live breakpoint could be verified, or no full table met a failed undo |
| FlashBreakpoints.RemoveKeepsInvIff | swindle/rs/rs_swindle/src/sw_breakpoints.rs:251-276 | For every outcome of every access, removing keeps the invariant if and only if the image held the opcode anyway or no restoring write failed |
| FlashBreakpoints.FailedRestoreIff | swindle/rs/rs_swindle/src/sw_breakpoints.rs:270-274 | A failed restoring write is forgotten; the invariant survives if and only if there was nothing to restore |
| FlashBreakpoints.FailedVerifyIff | swindle/rs/rs_swindle/src/sw_breakpoints.rs:183-246 | After a failed verifying read the saved bytes are the opcode; they are true if and only if the original bytes were |
| FlashBreakpoints.Patcher.AddBreakpoint | swindle/rs/rs_swindle/src/sw_breakpoints.rs:183-246 | The page read, patched in the buffer and overwritten changes just two bytes of flash, for every outcome of every access |
| FlashBreakpoints.Patcher.RemoveBreakpoint | swindle/rs/rs_swindle/src/sw_breakpoints.rs:251-276 | The same for the restoring page write |
| RamBreakpoints.PlantedAtAddress | swindle/rs/rs_swindle/src/sw_breakpoints.rs:134-147 | In byte addresses: the halfword at an even address is the opcode, and no other byte of memory has changed |
| RamBreakpoints.AddAnswersIff | swindle/rs/rs_swindle/src/sw_breakpoints.rs:124-157 | The answer to an insertion for every outcome of its accesses and a table of sixteen entries |
| RamBreakpoints.RemoveUndoesAdd | swindle/rs/rs_swindle/src/sw_breakpoints.rs:124-177 | Whatever is planted already, planting and removing one more is the identity |
| RamBreakpoints.ReverseOrderRestores | swindle/rs/rs_swindle/src/sw_breakpoints.rs:124-177 | Removing in the opposite order restores memory even when breakpoints share words |
| RamBreakpoints.AnyOrderRestoresIff | swindle/rs/rs_swindle/src/sw_breakpoints.rs:124-177 | For any distinct addresses planted in a fresh table and any order of removal: memory is restored if and only if, in each word, every address planted before the one removed last held the opcode anyway |
| RamBreakpoints.AnyOrderRestores | swindle/rs/rs_swindle/src/sw_breakpoints.rs:124-177 | From any state of the invariant, removing addresses that cover the table restores memory and empties the table in any order |
| RamBreakpoints.PlantingsKeepInv | swindle/rs/rs_swindle/src/sw_breakpoints.rs:124-157 | Planting addresses of different words in a fresh table reaches the invariant and lists exactly them |
| RamBreakpoints.PlantThenRemove | swindle/rs/rs_swindle/src/sw_breakpoints.rs:124-177 | End to end: breakpoints in different words, planted and removed in any order, leave memory as it was |
| RamBreakpoints.SameWordFifoIff | swindle/rs/rs_swindle/src/sw_breakpoints.rs:124-177 | Two breakpoints of one word removed first to last restore memory if and only if the first address held the opcode anyway |
| RamBreakpoints.AddIdempotent | swindle/rs/rs_swindle/src/sw_breakpoints.rs:124-132 | A second insertion does nothing and succeeds |
| RamBreakpoints.AddKeepsInv | swindle/rs/rs_swindle/src/sw_breakpoints.rs:124-157 | With no live breakpoint in the same word, planting keeps every saved word true |
| RamBreakpoints.RemoveKeepsInv | swindle/rs/rs_swindle/src/sw_breakpoints.rs:161-177 | Removing keeps it too |
| RamBreakpoints.RemoveKeepsInvIff | swindle/rs/rs_swindle/src/sw_breakpoints.rs:161-177 | A failed restoring write is forgotten; the invariant survives if and only if there was nothing to restore |
| RamBreakpoints.AddKeepsInvIff | swindle/rs/rs_swindle/src/sw_breakpoints.rs:124-157 | For every outcome of its accesses, planting breaks the invariant only by a failed undo of a full table, and then if and only if the word did not hold the opcode |
| RamBreakpoints.Patcher.AddBreakpoint | swindle/rs/rs_swindle/src/sw_breakpoints.rs:124-157 | The command equals its specification for every outcome of its accesses, undo included |
| RamBreakpoints.Patcher.RemoveBreakpoint | swindle/rs/rs_swindle/src/sw_breakpoints.rs:161-177 | The remove loop terminates with no entry left for the address, for every outcome of each of its writes |
| Cache.ChunkIsCurrent | swindle/rs/rs_swindle/src/mem_cache.rs:56-119 | A chunk served from an agreeing line or memory is current memory, and the line still agrees |
| Cache.ReadIsCurrent | swindle/rs/rs_swindle/src/commands/memory.rs:24-74 | The whole reply is current memory of exactly the requested range, even where the rest of a line cannot be read |
| Cache.ReplyRightIff | swindle/rs/rs_swindle/src/commands/memory.rs:24-74 | With any line, stale or not, the reply is current memory if and only if the last chunk is no hit, or hits bytes that are current |
| Cache.CacheInvisibleIff | swindle/rs/rs_swindle/src/commands/memory.rs:24-74 | Over any run of reads, invalidating steps and silent changes: the cache is invisible if and only if no read hits bytes that changed since its line was filled |
| Cache.CacheInvisible | swindle/rs/rs_swindle/src/commands/memory.rs:24-74 | Over any run in which every change drops the line, the replies are those of a stub without a cache |
| Cache.LineServes | swindle/rs/rs_swindle/src/mem_cache.rs:86-119 | After a small read fetched its line, every small read inside it shows the fetched bytes without the target, even when nothing can be read any more |
| Cache.CacheableIffMapped | swindle/rs/rs_swindle/src/mem_cache.rs:56-74 | A range may be cached if and only if it lies in one of the first eight blocks of the RAM or the flash map |
| Cache.ValidLineIsMapped | swindle/rs/rs_swindle/src/mem_cache.rs:56-119 | A valid line that agrees covers sixteen aligned, mapped bytes and equals memory there |
| Cache.UnreadableShowsBuffer | swindle/rs/rs_swindle/src/commands/memory.rs:28-66 | A chunk that cannot be read is answered with what the buffer held, zeros at the start of a command |
| Cache.SilentWriteIff | swindle/rs/rs_swindle/src/bmp.rs:794-801 | After a change that does not invalidate, the line agrees if and only if it was not valid or its bytes did not change |
| Cache.StaleReplyIff | swindle/rs/rs_swindle/src/bmp.rs:482-492 | A whole command after a change that does not drop the line is answered right if and only if its last chunk is no hit in the line or its bytes did not change |
| MemoryCommand.Reader.MemWrite | swindle/rs/rs_swindle/src/bmp.rs:380-388 | The line is dropped whatever becomes of the write, so cache and memory agree |
| MemoryCommand.Reader.TryReadInto | swindle/rs/rs_swindle/src/mem_cache.rs:86-104 | A hit copies the bytes and nothing else; a miss leaves the output alone |
| MemoryCommand.Reader.Fill | swindle/rs/rs_swindle/src/mem_cache.rs:110-119 | Sixteen bytes make the line valid at its aligned base; data of another length is ignored |
| MemoryCommand.Reader.IsCacheable | swindle/rs/rs_swindle/src/mem_cache.rs:56-74 | True exactly when one of the first eight blocks of a map contains the whole range |
| MemoryCommand.Reader.FetchChunk | swindle/rs/rs_swindle/src/commands/memory.rs:34-66 | One round obtains the specified bytes and leaves the specified line |
| MemoryCommand.Reader.ReadMemoryCommand | swindle/rs/rs_swindle/src/commands/memory.rs:19-74 | One frame with the hex of what the chunked loop obtained, or an error frame when nothing is attached |
| Crc.TableIsByteStep | swindle/rs/rs_swindle/src/crc.rs:26-63 | A table step of the digest is eight shifts with the byte in the top lane |
| Crc.CrcBytesIsBits | swindle/rs/rs_swindle/src/crc.rs:26-63 | The byte-wise digest is the bit-serial CRC of the bytes, most significant bit first |
| Crc.WordIsFourBytes | blackmagic_addon/flashstub/gd32_crc32.c:35-53 | A byte-swapped word through the 32-bit engine is four byte steps |
| Crc.WordsAreBytes | blackmagic_addon/flashstub/gd32_crc32.c:35-53 | On every word-aligned region the word path and the byte digest agree |
| Crc.PathsAgree | swindle/rs/rs_swindle/src/crc.rs:66-84 | Word engine, byte digest and bit-serial definition give one value |
| Crc.StubCrc | blackmagic_addon/flashstub/gd32_crc32.c:35-53 | The unrolled loop computes the word CRC, and the loads it makes are every word once, in order |
| Crc.LocalCrc | swindle/rs/rs_swindle/src/crc.rs:43-63 | The chunk loop gives the digest of the region, fails exactly when a byte cannot be read, and reads nothing when the end address wraps |
| Crc.Update | swindle/rs/rs_swindle/src/crc.rs:26-63 | The table-driven loop equals the byte-wise digest |
| Crc.CustomCrc | swindle/rs/rs_swindle/src/crc.rs:66-77 | An accepting driver that runs the stub over the region returns its bit-serial CRC |
| Crc.AbstractCrc | swindle/rs/rs_swindle/src/crc.rs:74-84 | The answer is the engine's CRC, the digest of a readable region, failure, or the initial value with success for a region whose end wraps on 32 bits; engine and digest give the bit-serial CRC |
| Crc.AnswersIff | swindle/rs/rs_swindle/src/crc.rs:43-84 | A success is answered if and only if the engine takes the region, every byte can be read, or the end wraps |
| Crc.AnswerRightIff | swindle/rs/rs_swindle/src/crc.rs:43-84 | The CRC answered for a region of memory is right if and only if the engine computed it, the end does not wrap, or it happens to be the initial value |
| Crc.LastByteWrong | swindle/rs/rs_swindle/src/crc.rs:50-62 | The last byte of the address space, holding zero, is answered with success and the wrong value |
| Serialiser.ExchangeObserved | swindle/src/platform/ln/bmp_rvTap_ln.cpp:83-166 | A bus monitor that refuses samples while the probe drives, bits after it let go, and a missing start or stop accepts every exchange with exactly its bits and samples |
| Serialiser.ShiftingSends | swindle/src/platform/esp32_fastgpio/bmp_rvTap_fesp.cpp:151-179 | Aligning a word to the top and shifting it out sends its low bits, most significant first |
| Serialiser.HalvesJoin | swindle/src/platform/ln/bmp_rvTap_ln.cpp:94-132 | The bits of the two halves are the bits of the word, for every count up to 64 |
| Serialiser.Tap.SendHalf | swindle/src/platform/ln/bmp_rvTap_ln.cpp:94-132 | The masked loop sends the low bits of a half, most significant first |
| Serialiser.Tap.SendTop | swindle/src/platform/esp32_fastgpio/bmp_rvTap_fesp.cpp:152-166 | The shifting loop sends the top bits of its register |
| Serialiser.Tap.Receive | swindle/src/platform/esp32_fastgpio/bmp_rvTap_fesp.cpp:168-179 | The sampled levels, most significant first, are rebuilt without losing one |
| Serialiser.Tap.WriteThenReadHalves | swindle/src/platform/ln/bmp_rvTap_ln.cpp:94-166 | For all data and all counts up to 64 the two-half form produces an exchange the bus monitor accepts, with the low bits of the data, and the value of the sampled levels |
| Serialiser.Tap.WriteThenReadShifting | swindle/src/platform/esp32_fastgpio/bmp_rvTap_fesp.cpp:151-179 | The 64-bit form produces the same exchange and the same value |
| Rvswd.OddParityIsXor | swindle/private_include/lnbmp_parity.h:18-25 | The folded table lookup is the exclusive or of all 32 bits |
| Rvswd.WriteFrameOnWire | swindle/src/template/rvswd_template.h:148-166 | The 48 bits are address, direction, doubled parity, padding, data and doubled data parity |
| Rvswd.ReadFrameOnWire | swindle/src/template/rvswd_template.h:193-205 | The 14 bits are address, direction, doubled parity and the read padding |
| Rvswd.HeaderReceived | swindle/src/template/rvswd_template.h:148-205 | A receiver recovers seven address bits and the direction; the parity fits if and only if the dropped address bits have even parity |
| Rvswd.HeaderOfRegister | swindle/src/template/rvswd_template.h:148-205 | For every seven-bit address the receiver recovers the request and the parity is right |
| Rvswd.DataReceived | swindle/src/template/rvswd_template.h:148-166 | The data arrives unchanged with correct parity, whatever the address |
| Rvswd.DmWrite | swindle/src/template/rvswd_template.h:148-184 | The monitor accepts the exchange of the 48-bit frame and 16 samples, and the result is the status in the first four of them |
| Rvswd.DmRead | swindle/src/template/rvswd_template.h:193-222 | The monitor accepts the exchange of the 14-bit frame and 38 samples; the output is the first 32 of them, the result the status in the last four |
| Sdi.ClassifyIffWindow | blackmagic_addon/pulseview/ch32_sdi/pd.py:84-96 | A low pulse reads as a given bit if and only if its length is in that bit's window |
| Sdi.StrayPulse | blackmagic_addon/pulseview/ch32_sdi/pd.py:84-96 | A pulse in neither window is marked as an error and adds no bit |
| Sdi.RunFrame | blackmagic_addon/pulseview/ch32_sdi/pd.py:49-96 | A long high level flushes the frame before it, and the pulses after it are collected bit by bit |
| Sdi.WaveformDecodes | blackmagic_addon/pulseview/ch32_sdi/pd.py:49-126 | Any timeline inside the windows decodes to exactly its frames, the last one flushed at the end of the trace, without an error mark |
| Sdi.HangingTrace | blackmagic_addon/pulseview/ch32_sdi/pd.py:50-79 | A trace that stops while the line is low reports its last frame if and only if a long high level came before |
| Sdi.SeenIsSentIff | swindle/src/template/sdi_template.h:99-104 | The addresses survive if and only if all of them have seven bits |
| Sdi.FrameParsed | swindle/src/template/sdi_template.h:99-104 | The 41 bits of a frame parse to its address modulo 128, the direction WRITE and its data |
| Sdi.HeaderParsed | blackmagic_addon/pulseview/ch32_sdi/pd.py:98-127 | The first nine bits are reported as address and direction, READ or WRITE, and what follows as data, as a fragment or not at all, by its length |
| Sdi.ShortFrameIgnored | blackmagic_addon/pulseview/ch32_sdi/pd.py:98-103 | Fewer bits than a header are reported as nothing |
| Sdi.Decoder.ParseFrame | blackmagic_addon/pulseview/ch32_sdi/pd.py:98-127 | The collected bits become header and data fields, and are cleared |
| Sdi.Decoder.DecodeTrace | blackmagic_addon/pulseview/ch32_sdi/pd.py:49-96 | The edge loop equals the specification on any trace, hanging or complete |
| Sdi.Pad.SendCell | swindle/src/platform/ln/bmp_sdiTap_ln.cpp:264-271 | One low pulse of the given length, in a cell no shorter than it |
| Sdi.Pad.SendBits | swindle/src/platform/ln/bmp_sdiTap_ln.cpp:281-292 | The bit loops send a header or a word most significant bit first |
| Sdi.Pad.WriteFrame | swindle/src/platform/ln/bmp_sdiTap_ln.cpp:313-325 | One frame's cells, then the delay that ends it |
| Sdi.Pad.DmWrite | swindle/src/template/sdi_template.h:259-268 | A wide address is refused and nothing is sent; otherwise the frame goes out |
| Sdi.DefaultsFit | swindle/src/platform/ln/bmp_sdiTap_ln.cpp:45-48 | The default cell timings lie inside the decoder's default windows |
| Sdi.SessionTimeline | swindle/src/platform/ln/bmp_sdiTap_ln.cpp:264-325 | Any session of writes, with any idle times between them, is a timeline inside the windows |
| Sdi.TransmitThenDecode | swindle/src/platform/ln/bmp_sdiTap_ln.cpp:264-325 | For any session the decoder reports exactly the accepted writes: address, WRITE and data, in order |
| Xml.SendAllIsWindow | swindle/rs/rs_swindle/src/target_xml.rs:94-116 | However a document is cut into chunks, the bytes streamed are its window clipped to its length |
| Xml.PanicsIff | swindle/rs/rs_swindle/src/target_xml.rs:94-116 | Streaming panics if and only if one chunk holds both ends of a backward window in its inside |
| Xml.LargestLengthPanics | swindle/rs/rs_swindle/src/target_xml.rs:94-116 | A request for offset 2 with the largest length panics on a document of one chunk longer than two bytes |
| Xml.WindowRightIff | swindle/rs/rs_swindle/src/target_xml.rs:396-404 | The bytes streamed are those asked for if and only if the end of the window does not wrap on 32 bits; otherwise nothing is sent or the stub panics |
| Xml.DecimalRoundTrip | swindle/rs/rs_swindle/src/target_xml.rs:119-133 | A number written is read back by the stub's decimal parser and has no leading zero |
| Xml.XmlSink.Write | swindle/rs/rs_swindle/src/target_xml.rs:94-116 | Counting, the total is the length of everything written; streaming, the packet holds exactly the window of it, or the stub has panicked with nothing of it sent |
| Xml.XmlSink.WriteU32 | swindle/rs/rs_swindle/src/target_xml.rs:119-133 | The digits fit the ten-byte buffer and the decimal form of the number is written |
| Xml.QuerySplits | swindle/rs/rs_swindle/src/commands/q.rs:244-253 | A query is accepted if and only if it has exactly one comma, and then gives the two hex numbers around it |
| Xml.QueryExample | swindle/rs/rs_swindle/src/commands/q.rs:244-253 | `1,a` asks for ten bytes from offset one |
| Xml.FeaturesRead | swindle/rs/rs_swindle/src/commands/q.rs:257-293 | For every query one complete frame: an error, an empty last reply, or the window behind `l` or `m`; or a panic after the prefix |
| Xml.ReplyForm | swindle/rs/rs_swindle/src/commands/q.rs:257-293 | In plain bytes: `m` and the window when more follows, `l` and the rest when nothing does, `l` alone past the end, `E01` without a document |
| Xml.AbortedForm | swindle/rs/rs_swindle/src/commands/q.rs:286-292 | A reply that ends in a panic has opened its packet and sent `l` |
| Xml.WholeDocumentIff | swindle/rs/rs_swindle/src/commands/q.rs:257-293 | A reader of consecutive windows gets the whole document if and only if the last window it asks for does not wrap; otherwise the stub panics or the reader gets the part before that window; without a document it gets an error |
| Xml.WholeDocument | swindle/rs/rs_swindle/src/commands/q.rs:257-293 | A reader whose windows do not wrap gets the whole document, whatever their positive sizes |
| MemoryMap.FmtHex8 | swindle/rs/rs_swindle/src/memory_map_xml.rs:32-42 | The buffer holds the eight lower-case digits of the number |
| MemoryMap.Hex8RoundTrip | swindle/rs/rs_swindle/src/memory_map_xml.rs:32-42 | The stub's hex parser reads the eight digits back |
| MemoryMap.DigitsAreLower | swindle/rs/rs_swindle/src/memory_map_xml.rs:29-42 | The digits are decimal or lower-case letters |
| MemoryMap.Generate | swindle/rs/rs_swindle/src/memory_map_xml.rs:45-83 | The document is written element by element through one reused digit buffer; nothing when detached |
| MemoryMap.ChunksText | swindle/rs/rs_swindle/src/memory_map_xml.rs:45-83 | The chunks written make up the document |
| MemoryMap.DocumentForm | swindle/rs/rs_swindle/src/memory_map_xml.rs:23-83 | The document spelt out: all RAM elements, then all flash elements, inside one `memory-map` element |
| MemoryMap.RamForm | swindle/rs/rs_swindle/src/memory_map_xml.rs:56-66 | A RAM element spelt out around its two numbers |
| MemoryMap.FlashForm | swindle/rs/rs_swindle/src/memory_map_xml.rs:68-80 | A flash element spelt out around its three numbers |
| MemoryMap.MemoryMapRead | swindle/rs/rs_swindle/src/commands/q.rs:297-332 | For every query one complete frame with the window of the memory map asked for, or a panic after the prefix |
| MemoryMap.MapRoundTrip | swindle/rs/rs_swindle/src/memory_map_xml.rs:45-83 | Parsing the document gives back the same RAM and flash blocks in the same order, for any numbers of them |
| MemoryMap.PrefixIsNoMap | swindle/rs/rs_swindle/src/memory_map_xml.rs:45-83 | No proper prefix of a printed map parses as a map |
| MemoryMap.MapThroughWindows | swindle/rs/rs_swindle/src/memory_map_xml.rs:86-104 | Parsing what a reader fetched window by window gives back the blocks if and only if its last window does not wrap; otherwise the stub panics or what was fetched is no map |
| MemoryMap.DetachedIsError | swindle/rs/rs_swindle/src/memory_map_xml.rs:45-49 | With nothing attached every request is answered with an error |

## Left out

- What a command or an RPC call does: executions and dispatches are events; the gates in front of `run_parser` (receive state, running target) are not modelled.
- Overflow checks of a development build: only the wrap-around of the release profile is modelled.
- Failing RTT accesses inside the interleavings: the transition system lets accesses succeed and reads a descriptor in one step; `Rtt.UpChannel` covers every outcome of one call.
- RTT down-channels, halting and resuming the target, channel discovery, and the size of the host's buffer, which is the parameter `available`.
- Rtt.UpChannel.ReadChannel: states one call while the target does not run; the interleavings are in the transition system.
- SessionArena.BumpRegion.Alloc: requires that the end of the block fits 32 bits, because past that the code would store outside the region (`Arena.StaysInsideIff`); the text of the fatal messages is left out.
- SessionArena.Allocator.SessionMalloc: requires the same.
- SessionArena.Allocator.SessionTransportAlloc: requires the same.
- SessionArena.Allocator.SessionCalloc: requires the same of products that fit 32 bits.
- Breakwatch.Target.Set: the node size is a parameter because its declaration is not part of this model, and the branch for a failed allocation is the arena's fatal exhaustion.
- FlashBreakpoints.Patcher.AddBreakpoint: requires even addresses and pages of even size that divide flash and fit the 256-byte buffer (a larger page stops the stub); the page mask is written as a remainder, which is the same for the power-of-two pages it is meant for.
- FlashBreakpoints.Patcher.RemoveBreakpoint: requires the same.
- Flash writes from outside the breakpoint table, and the wait loops of flash operations.
- Memory reads with side effects on peripherals, and the binary write command.
- The internals of the CRC crate, which are not in the repository: its update is modelled as the table-driven form of the algorithm's parameters.
- Crc.CustomCrc: the reasons for which a driver declines are one parameter, except that it accepts only whole words in memory; loading and starting the stub on the target are left out.
- Electrical timing, pin directions other than the turnaround, the PIO programs, the other platforms, the response frames of SDI reads and the retry budgets above single accesses.
- Sdi.Decoder.DecodeTrace: times are whole nanoseconds; sample counts and floating-point rounding are not modelled, and the texts and positions of annotations are left out.
- Tick conversion of SDI timings: cell lengths are given in nanoseconds.
- The text of the target description: it is given as the chunks its generator writes, for any chunks.
- Xml.WholeDocumentIff: takes documents shorter than 2^32 bytes, as the count of their bytes is a 32-bit number; so does MemoryMap.MapThroughWindows.
- The lists of memory blocks as the target driver holds them: they are parameters of the generator.
- Monitor commands, settings, logging, FreeRTOS and RISC-V register access, and USB: easy, or pure input and output.
