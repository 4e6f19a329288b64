# Verified model of cpp-DDS

This project models the core of cpp-DDS, a C++ Data Distribution Service, and proves what its parts are for.
Every file verifies with Dafny 4.11: `dafny verify dfyconfig.toml`.

The components, each a file or two:

- **Reliable delivery** (`Bits.dfy`, `Reliable.dfy`, `History.dfy`, `Delivery.dfy`, `Replies.dfy`, `Recovery.dfy`,
  `Stranding.dfy`, `Refinement.dfy`). A writer keeps a bounded history and answers ACKNACKs; a reader keeps a watermark
  and a set of numbers received ahead of it. They run as steps over a network that loses, duplicates and reorders whole
  samples and fragments (OMG DDSI-RTPS 2.3, sections 8.4.9 to 8.4.12). Delivery is at least once and in arrival order.
  `Refinement.dfy` shows that packets and assembler do what the steps say.
- **Fragmentation, wire format and receive path** (`Rtps.dfy`, `Fragment.dfy`, `Reassembly.dfy`, `Wire.dfy`,
  `WireLayout.dfy`, `Packets.dfy`). From a write to the dispatch on the other side, through encapsulation, submessages,
  packets, the walk over a received packet and reassembly.
- **IDL compiler** (`Lexer.dfy`, `Parser.dfy`, `Layout.dfy`, `Refusals.dfy`, `Idl.dfy`, `Codegen.dfy`, `Atoms.dfy`,
  `Decoding.dfy`, `CppTyping.dfy`, `Cdr.dfy`). The lexer and parser; the generator, whose emitted statements have a syntax tree, an
  interpreter and C++'s typing rules; and the CDR runtime the emitted code runs on.
- **Topic patterns** (`GlobSyntax.dfy`, `GlobGrammar.dfy`, `GlobMatcher.dfy`). The greedy matcher of the access policy
  against a declarative meaning of the pattern as it is written.
- **Codes** (`ByteWords.dfy`, `Gf128.dfy`, `Gcm.dfy`, `Sha256.dfy`, `Crc16.dfy`, `E2e.dfy`). GF(2^128), GHASH and GCM;
  streaming SHA-256 and HMAC; CRC-16 and the end-to-end frames.
- **Texts** (`Texts.dfy`, `TypeIdentity.dfy`, `IdentityText.dfy`, `Base64.dfy`, `Base64Layout.dfy`, `Wan.dfy`,
  `JsonLayout.dfy`). Canonical JSON for type identity; the WAN bridge's frames.
- **Bounded channel** (`Channel.dfy`). Critical sections and wake-ups of two condition variables as a state machine.
- `Octets.dfy` holds bytes and little-endian numbers.

Code that changes state is a class or a method with loops, proved equal to a function of the old state; the theorems
are about those functions. Values are unbounded integers with the source's widths written out where they matter:
sequence numbers, 32-bit offsets, 16-bit lengths, counters. Assumptions that the source's callers meet are stated as
`requires`: writes on one writer are serial; sequence numbers stay below 2^64 - 32; live fragment sizes are at most
65503, and where a sample is split not 0 modulo 2^16; a fragment's bytes stay inside the buffer its own header declares;
typedefs are acyclic.

Some laws hold only under a condition, which is then given exactly:

- The watermark can move only while the next sample is within reach (`Stranding.WatermarkCanMove`, both directions,
  under a clock that never goes back), and a lossless round moves it only if that sample is no larger than 16 MiB and no
  live reassembly holds it in another size (`Stranding.RoundMoves`). Retransmissions always use the default size, so a
  TSN bound makes such reassemblies possible.
- A codec is generated exactly when no path of types from the struct's fields is blocked (`Codegen.CodecGenerates`), so
  that two nested structs of one bare name are refused.
- Nothing a channel accepted is lost exactly as long as no send_drop_oldest meets a full open channel
  (`Channels.NothingIsLost`).
- The greedy matcher is right on every name exactly when no chunk between two stars slides, or the pattern can match
  nothing at all (`GlobMatcher.GlobIsExact`).
- The statements of both bodies of a generated codec are well typed, given declared types and legal identifiers, exactly
  when no sequence of booleans occurs (`CppTyping.GeneratedCodecWorks`).
- A submessage survives the wire exactly when its body fits 16 bits; a GAP's bitmapBase is the next number exactly when
  the low word does not carry; damage passes the end-to-end check exactly as `E2e.PassingDamage` says.

The doc comment at include/dds/rtps/fragment.hpp:63-67 says a writer never overrides the fragment size; the code does
(src/rtps/participant.cpp:315-318) and the model follows the code.

## Model

| member | source | states |
|---|---|---|
| Delivery.EveryRunIsSafe | src/rtps/participant.cpp:324-537 | safety over every run: each number from the reader's first-contact base up to its watermark was dispatched with exactly the payload written under it, and the watermark never passes the writer's last number plus one |
| Delivery.WatermarkNeverRetreats | src/rtps/participant.cpp:1170-1253 | along any continuation of any run the log and the writes only grow, the base stays and the watermark never decreases |
| Recovery.RecoveryIsBounded | src/rtps/participant.cpp:1211-1253 | from any reachable state whose watermark is still in an open writer's history, ceil(missing span / 32) lossless rounds HEARTBEAT, ACKNACK, retransmissions in any order bring the watermark to the writer's end, every number dispatched, if no requested sample is too big or obstructed by a reassembly in another size |
| Recovery.RoundAdvances | src/rtps/participant.cpp:487-512 | one such round moves the watermark to at least min(last + 1, watermark + 32) and not past last + 1 |
| Recovery.RoundTakesIn | src/rtps/participant.cpp:487-512 | a number of the 32-wide request window with nothing in its way has been taken in when a lossless round ends, whatever happens to the others |
| Recovery.RoundExists | src/rtps/participant.cpp:487-512 | from every state whose watermark is held such a round exists after a pause in which old reassemblies go stale, if the samples are no larger than 16 MiB |
| Recovery.DeliveredIsTakenIn | src/rtps/participant.cpp:1170-1209 | a sample that comes in one piece at most 8192 past the watermark ends up taken in, whatever else happens |
| Recovery.SampleIsTakenIn | src/rtps/participant.cpp:1143-1163 | so does a sample all of whose missing fragments come, in any order, within the stale age and in the size of its reassembly |
| Recovery.RetransmissionRealises | src/rtps/participant.cpp:498-511 | all fragments of a retransmission, in any order and repeated at will within the stale age, act as the sample in one piece exactly when it is no larger than 16 MiB and no live reassembly of it is in another size; otherwise they do nothing |
| Stranding.WatermarkCanMove | src/rtps/participant.cpp:487-537 | the law of recovery, both ways, under a clock that never goes back: from a reachable state whose reader misses a written sample, some continuation moves the watermark exactly when that sample is in flight in one piece, or is no larger than 16 MiB and retained by an open writer or in flight in all its fragments of one size but those already collected in a reassembly that is not stale |
| Stranding.StrandedForever | src/rtps/participant.cpp:1120-1163 | GAP has no case in the receive path: once the next sample is out of reach the watermark never moves again, whatever happens |
| Stranding.StrandingHappens | src/rtps/participant.cpp:487-537 | it comes about: a history of one, two writes, the first lost after its HEARTBEAT was heard |
| Stranding.RoundMoves | include/dds/rtps/fragment.hpp:165-168 | a lossless round whose next sample comes in fragments moves the watermark exactly when that sample is no larger than 16 MiB and no live reassembly holds it in another size |
| Stranding.SmallerLiveSizeBlocks | src/rtps/participant.cpp:315-318 | that too comes about: live writes below the default size, one fragment arrived |
| Stranding.StandsStill | include/dds/rtps/fragment.hpp:165-168 | no number of steps moves the watermark if they bring the next sample only in another size than its live reassembly, or too big, or not at all |
| Refinement.EveryRunIsRealised | src/rtps/participant.cpp:1104-1253 | over every run of the protocol, other writers' fragments at will in between, a participant that gets the packets alone ends with the protocol's tracker, log and buffers; what it dispatched is what was written, without a gap from its base to its watermark |
| Refinement.ArrivalIsRealised | src/rtps/participant.cpp:1104-1253 | one step: where the buffers match the protocol, the arrival of the bytes of a DATA, DATA_FRAG, HEARTBEAT or GAP in flight takes buffers and reader exactly where the protocol step takes them |
| Refinement.SentAsPackets | src/rtps/participant.cpp:95-120 | what a write or a retransmission sends is packet by packet the bytes of its protocol messages |
| Refinement.OtherFragmentIsRealised | include/dds/rtps/fragment.hpp:138-190 | a fragment of another writer has the effect of the sweep step |
| Delivery.NextKeepsInv | src/rtps/participant.cpp:324-537 | every step of writer, reader or network, loss of messages included, keeps the history a contiguous tail of the writes, the network honest, the reader a refinement of its accepted set, and each reassembly short of a fragment |
| Delivery.RunKeepsInv | src/rtps/participant.cpp:324-537 | the invariant holds in every state of every run |
| Delivery.AnswerPartitionsRequest | src/rtps/participant.cpp:487-537 | each requested number up to the writer's last comes back in exactly the messages that carry it in the default fragment size when retained, and otherwise lies in the one GAP |
| Delivery.AnswerIsHonest | src/rtps/participant.cpp:487-537 | nothing else is ever sent back: only stored writes, and one GAP that covers no retained number |
| Replies.SampleIsAnswered | src/rtps/participant.cpp:1170-1209 | one step, from any reachable state: a DATA that arrives is dispatched, is taken in exactly from the watermark to 8192 past it (or anchors the reader), and an ACKNACK goes out exactly when some number from the new watermark to the sample is not taken in; its base is that watermark and bit i is set exactly when i < 32, base + i is at most the sample and not taken in |
| Replies.FragmentIsAnswered | src/rtps/participant.cpp:1143-1163 | a fragment acts as the sample itself exactly when every other fragment of it is held in its size for at most five seconds and it is no larger than 16 MiB; otherwise nothing is sent or dispatched, and it is collected unless the sample is too big or held in another size; other samples are left alone |
| Replies.HeartbeatIsAnswered | src/rtps/participant.cpp:1211-1253 | a HEARTBEAT anchors the reader on first contact, changes nothing else, and an ACKNACK goes out exactly when some number up to its last is not taken in, with the same base and bits |
| Replies.WriteIsSent | src/rtps/participant.cpp:324-431 | a write to an open writer puts in flight exactly the messages that carry it under the next number in the live fragment size and a HEARTBEAT of the last `depth` numbers; to a closed writer it changes nothing |
| Replies.TickIsSent | src/rtps/participant.cpp:460-480 | the periodic HEARTBEAT of an open writer names exactly the last `depth` numbers, and nothing before the first write |
| Replies.AckNackIsAnswered | src/rtps/participant.cpp:487-537 | an open writer answers an ACKNACK with exactly the messages, in the default size, of each number whose bit is set and that is among its last `depth` writes, and one GAP exactly when the base is older |
| Recovery.MissingIsRequested | src/rtps/participant.cpp:1232-1248 | what the reader misses within 32 of its watermark is asked for in the ACKNACK a HEARTBEAT provokes |
| Recovery.RequestIsResent | src/rtps/participant.cpp:491-512 | what is asked for and retained is sent again, every message of it, with the payload written under it |
| Recovery.AskedIsSent | src/rtps/participant.cpp:1211-1253 | so a HEARTBEAT that arrives puts everything missing in the window on its way |
| Delivery.Writer.Write | src/rtps/participant.cpp:324-431 | closed, expired and oversized writes (the size cast to int) change nothing and report it; any other takes the next number, is stored, is sent in fragments of the live size and, if reliable, announced |
| Delivery.Writer.SendHeartbeat | src/rtps/participant.cpp:460-480 | announces first and last retained number, nothing when history is empty |
| Delivery.Writer.HandleAckNack | src/rtps/participant.cpp:487-537 | the 32-bit loop and the GAP computation send exactly the specified answer; best-effort writers send nothing |
| Delivery.Writer.Close | src/rtps/participant.cpp:433-440 | only closes; in the protocol a closed writer announces and answers nothing |
| Delivery.Reader.OnData | src/rtps/participant.cpp:1170-1209 | records the number, requests the gap below it and dispatches whatever `record` said, as the step function that `Replies.SampleIsAnswered` characterises |
| Delivery.Reader.OnHeartbeat | src/rtps/participant.cpp:1211-1253 | anchors on first contact and requests what is missing up to the announced last number, as the step function that `Replies.HeartbeatIsAnswered` characterises |
| History.StoreKeepsTail | include/dds/rtps/history_cache.hpp:78-82 | history is always the last min(depth, writes) writes, contiguously numbered |
| History.GetIsExact | include/dds/rtps/history_cache.hpp:86-92 | lookup finds exactly the retained numbers, each with what was written under it |
| History.HistoryCache.Store | include/dds/rtps/history_cache.hpp:78-82 | appends and evicts the oldest beyond depth |
| History.HistoryCache.Get | include/dds/rtps/history_cache.hpp:86-92 | the scan returns the first change of that number or none |
| History.HistoryCache.Span | include/dds/rtps/history_cache.hpp:103-107 | first and last number, or two zeros when empty |
| RecvTracking.RunRefinesAccepted | include/dds/rtps/reliable.hpp:93-169 | after any call sequence `expected_` is the least number from the base not accepted, `ahead_` is exactly the accepted numbers above it, all within 8192 of it |
| RecvTracking.RecordRefines | include/dds/rtps/reliable.hpp:111-130 | one `record` adds the number to the accepted set exactly when it is at most 8192 ahead; it answers true exactly for a number not yet accepted |
| RecvTracking.FirstRecordRefines | include/dds/rtps/reliable.hpp:113-116 | first contact through a sample anchors the base there |
| RecvTracking.MissingIsExact | include/dds/rtps/reliable.hpp:137-154 | bit i of the request is set exactly when i < 32, expected + i <= last and that number was not accepted; needAck exactly when not caught up |
| RecvTracking.RecvTracker.InitExpected | include/dds/rtps/reliable.hpp:99-105 | sets the base on first contact only |
| RecvTracking.RecvTracker.Record | include/dds/rtps/reliable.hpp:111-130 | the loop over buffered successors computes the specified tracker and answer |
| RecvTracking.RecvTracker.Missing | include/dds/rtps/reliable.hpp:137-154 | the loop over the window computes the specified base, bitmap and flag |
| Fragments.SplitCovers | include/dds/rtps/fragment.hpp:275-307 | the fragments' payloads put end to end are the sample, for any size |
| Fragments.SplitIsGrid | include/dds/rtps/fragment.hpp:287-305 | fragment i is the i-th stretch of `size` bytes, numbered i + 1 |
| Fragments.SplitLength | include/dds/rtps/fragment.hpp:280-287 | there are ceil(total / size) fragments |
| Fragments.SplitIntoFragments | include/dds/rtps/fragment.hpp:275-307 | the offset loop produces the specified fragments for the size narrowed to 16 bits |
| Fragments.TotalIsCeiling | include/dds/rtps/fragment.hpp:135-136 | the fragment count is (size + fs - 1) / fs |
| Fragments.Absorb | include/dds/rtps/fragment.hpp:199-221 | whatever well-placed fragments arrive, `received` stays the number of marked indices and the geometry is kept |
| Fragments.CountMarked | include/dds/rtps/fragment.hpp:217-220 | marking an index raises the count exactly when it was not marked |
| Fragments.FragmentAssembler.Sweep | include/dds/rtps/fragment.hpp:146-152 | evicts exactly the reassemblies older than the stale age |
| Fragments.FragmentAssembler.ReceiveFragment | include/dds/rtps/fragment.hpp:132-229 | rejections, sweep, geometry check, copy and completion compute the specified buffers and result |
| Fragments.FragmentAssembler.CopyIn | include/dds/rtps/fragment.hpp:199-221 | the copy loop with its break, 32-bit wrap-around included |
| Rtps.SeqNumRoundTrip | include/dds/rtps/reliable.hpp:72-80 | the two words and the 64-bit number determine each other |
| Reassembly.EveryRunReassembles | include/dds/rtps/fragment.hpp:132-229 | over any run (loss, duplicates, any order, other samples between, mixed fragment sizes, any times) the sample comes out exactly when the index-set automaton says so, and is exactly the sample |
| Reassembly.AnyOrderReassembles | include/dds/rtps/fragment.hpp:132-229 | inside the stale age, nothing comes out until the last distinct index arrives, then exactly the sample |
| Reassembly.OwnArrives | include/dds/rtps/fragment.hpp:132-229 | one arrival: the buffer always equals the sample on the received indices and zero elsewhere, its count is their number, and completion hands over the sample |
| Reassembly.ForeignArrives | include/dds/rtps/fragment.hpp:138-190 | a fragment of another writer or number only lets time pass |
| Reassembly.OtherSizesAreIgnored | include/dds/rtps/fragment.hpp:165-168 | fragments of a retransmission cut in another size never advance a reassembly in progress |
| Reassembly.CountOf | include/dds/rtps/fragment.hpp:223-227 | the received count reaches the total exactly when every index is marked |
| Wire.DataRoundTrip | src/rtps/types.cpp:157-202 | a DATA submessage decodes to itself exactly when its body length fits octetsToNextHeader |
| Wire.FragRoundTrip | src/rtps/types.cpp:318-369 | the same for DATA_FRAG |
| Wire.HeartbeatRoundTrip | src/rtps/types.cpp:206-246 | a HEARTBEAT decodes to itself |
| Wire.AckNackRoundTrip | src/rtps/types.cpp:250-290 | an ACKNACK decodes to itself |
| Wire.HeaderRoundTrip | src/rtps/types.cpp:101-121 | a message header decodes to itself whatever follows |
| Wire.GapBaseIsNext | src/rtps/types.cpp:301-303 | the GAP's bitmapBase is the number after the gap exactly when the low word does not carry |
| WireLayout.DataLayout | src/rtps/types.cpp:157-180 | byte by byte at literal offsets: id 0x15, flags 0x05, length, octetsToInlineQos 16, reader, writer, number, payload |
| WireLayout.FragLayout | src/rtps/types.cpp:318-345 | id 0x16, flags 0x01, first fragment, count, fragment size and sample size, payload from byte 36 |
| WireLayout.HeartbeatLayout | src/rtps/types.cpp:206-225 | id 0x07, 28 bytes: first and last number, count |
| WireLayout.AckNackLayout | src/rtps/types.cpp:250-269 | id 0x06, 28 bytes: base, 32 bits, bitmap, count |
| WireLayout.GapLayout | src/rtps/types.cpp:294-314 | id 0x08, 28 bytes: start, a list whose base is the high word and the low word of the end plus one, and no bits |
| WireLayout.HeaderLayout | src/rtps/types.cpp:101-107 | RTPS, version, vendor and participant prefix |
| WireLayout.PacketLayout | src/rtps/spdp.cpp:191-204 | a packet is a header of version 2.3 and vendor cp, and the submessages from byte 20 |
| WireLayout.EncapsulationLayout | src/rtps/cdr.cpp:155-169 | a payload is wrapped behind 01 00 00 00; exactly schemes 1 and 3 are unwrapped, from byte 4 |
| WireLayout.DataIsDecoded | src/rtps/types.cpp:182-202 | on any bytes: a DATA is decoded exactly when its id is 0x15 and its declared body is there and has 20 bytes, with the fields at literal offsets and the payload only under flag 0x04 |
| WireLayout.FragIsDecoded | src/rtps/types.cpp:347-369 | the same for DATA_FRAG: id 0x16 and a body of 32 bytes, the fields at literal offsets and the rest as payload |
| WireLayout.RepliesAreDecoded | src/rtps/types.cpp:227-290 | the same for HEARTBEAT and ACKNACK: ids 0x07 and 0x06, a body of 28 bytes, and the numbers, bitmap and count where they stand |
| Wire.ByteVector.EncodeHeader | src/rtps/types.cpp:101-107 | appends magic, version, vendor and prefix |
| Wire.ByteVector.EncodeData | src/rtps/types.cpp:157-180 | appends the DATA layout |
| Wire.ByteVector.EncodeHeartbeat | src/rtps/types.cpp:206-225 | appends the HEARTBEAT layout |
| Wire.ByteVector.EncodeAckNack | src/rtps/types.cpp:250-269 | appends the ACKNACK layout |
| Wire.ByteVector.EncodeGap | src/rtps/types.cpp:294-314 | appends the GAP layout, low word plus one without carry |
| Wire.ByteVector.EncodeFrag | src/rtps/types.cpp:318-345 | appends the DATA_FRAG layout |
| Wire.ByteVector.PutU16 | src/rtps/types.cpp:32-35 | two bytes, low first |
| Wire.ByteVector.PutU32 | src/rtps/types.cpp:37-42 | four bytes, low first |
| Packets.WireIdentity | src/rtps/participant.cpp:95-120 | a fragmented write over a network that loses, repeats, reorders and mixes its packets with any others: nothing is dispatched until the last missing fragment arrives, then exactly the payload under its writer and number |
| Packets.WholeSampleArrives | src/rtps/participant.cpp:1104-1133 | a write that needs no fragments is one packet, and each arrival dispatches its payload under its number |
| Packets.HeartbeatArrives | src/rtps/participant.cpp:1134-1139 | a HEARTBEAT packet reports the numbers it was built from |
| Packets.AckNackArrives | src/rtps/participant.cpp:1140-1142 | an ACKNACK packet reports base and bitmap |
| Packets.GapIsIgnored | src/rtps/participant.cpp:1120-1163 | a GAP packet is heard and has no effect |
| Packets.PacketIsHeard | src/rtps/participant.cpp:1104-1166 | submessages concatenated in one packet are heard one by one, by everyone but their sender |
| Packets.WalkFindsAll | src/rtps/participant.cpp:1110-1118 | the walk finds exactly the well-framed submessages of a concatenation |
| Packets.WrapRoundTrip | src/rtps/cdr.cpp:155-169 | unwrapping a wrapped payload gives the payload |
| Packets.OtherSubmessages | src/rtps/participant.cpp:1104-1166 | packets that carry no fragment of a sample leave its reassembly as it is |
| Packets.MineArrives | src/rtps/participant.cpp:1143-1163 | packet i of a fragmented write reaches the assembler as fragment i |
| Packets.BuildDataMessages | src/rtps/participant.cpp:95-120 | one DATA or one DATA_FRAG packet per fragment, as specified |
| Packets.WrapInRtpsMessage | src/rtps/spdp.cpp:191-204 | header, then the submessages |
| Packets.Participant.HandleDataPacket | src/rtps/participant.cpp:1104-1166 | for every byte string whose fragments stay inside the buffer they declare, the loop ends, having handled exactly the submessages the walk finds |
| Packets.Participant.HandleSubmessage | src/rtps/participant.cpp:1120-1163 | the dispatch on the submessage id, decode failures and empty payloads included |
| CppTyping.GeneratedCodecWorks | src/idl/gen.cpp:235-375 | compiler correctness: for every module with acyclic typedefs on which generation succeeds, the statements of both bodies of a struct's codec are well typed, given declared types and legal identifiers, exactly when the struct holds no sequence of booleans (std::vector<bool> has no references to bind); and then unmarshal run on the bytes of marshal returns the value and consumes exactly those bytes, from any initial object |
| CppTyping.EncodeWellTyped | src/idl/gen.cpp:235-297 | the emitted encode statements are always well typed |
| CppTyping.DecodeWellTyped | src/idl/gen.cpp:299-375 | the emitted decode statements are well typed exactly when no sequence of booleans occurs, however nested |
| Codegen.CodecRoundTrip | src/idl/gen.cpp:235-375 | the same round trip for the statements as such, a loop over a vector of booleans read as one over its elements; whether they are well typed is `CppTyping.GeneratedCodecWorks` |
| Codegen.MarshalIsEncoding | src/idl/gen.cpp:235-297 | the emitted encode statements, loops included, write the reference encoding of the value |
| Codegen.UnmarshalInverts | src/idl/gen.cpp:299-375 | the emitted decode statements, as statements, read any value back from its reference encoding, touching nothing else |
| Codegen.SameSuccess | src/idl/gen.cpp:235-367 | encode and decode generation succeed on the same types |
| Codegen.CodecGenerates | src/idl/gen.cpp:235-367 | generation of a struct's codec succeeds exactly when no path of types from its fields, to the element of a sequence or array, through a typedef or into the fields of a struct, ends in a sequence or array without element or in a name of neither enum nor struct, or comes back to the bare name of a struct it went through |
| Codegen.TypeGenerates | src/idl/gen.cpp:235-297 | the same for one type, with the names visited so far |
| Codegen.FieldsGenerate | src/idl/gen.cpp:288-293 | and for a list of fields |
| Atoms.MarshalWritesAtoms | src/idl/gen.cpp:235-297 | what marshal leaves is the header 01 00 00 00 and then the value's primitives in the order of its fields, one after another: a sequence as its count and its elements, octets like any other, an array as its elements, an enum as a long |
| Atoms.EncIsAtoms | src/idl/gen.cpp:235-297 | the reference encoding of a value of any type is that flat list, written one by one |
| Decoding.UnmarshalAnswers | src/idl/gen.cpp:299-375 | on any bytes, also malformed ones, the emitted unmarshal returns the value a plain decoder reads from them, or nullopt where there is none, and never looks at a value that is not there |
| Decoding.TypeAnswers | src/idl/gen.cpp:299-367 | the emitted decode statements of any type that generates store in their place what the plain decoder reads, stop where it does and touch nothing else, or return nullopt |
| Decoding.TruncatedIsRefused | src/idl/gen.cpp:299-375 | what marshal wrote, cut short by any number of bytes, is refused |
| Codegen.EncodingIsInjective | src/idl/gen.cpp:235-375 | different values of a struct never share an encoding |
| Codegen.DefaultsExist | src/idl/gen.cpp:324-324 | every type has an object for resize to fill in |
| Codegen.Generator.AppendEncode | src/idl/gen.cpp:235-297 | the recursive emitter, visited set and name counter included, produces the specified statements or fails, exactly as `Codegen.TypeGenerates` says; it ends by unvisited structs, typedef depth and type size |
| Codegen.Generator.AppendEncodeStruct | src/idl/gen.cpp:284-293 | a struct's fields, its name marked as visited meanwhile |
| Codegen.Generator.AppendEncodeFields | src/idl/gen.cpp:288-293 | the field loop |
| Codegen.Generator.AppendDecode | src/idl/gen.cpp:299-367 | the same for decoding, which fails on the same types (`Codegen.SameSuccess`) |
| Codegen.Generator.AppendDecodeStruct | src/idl/gen.cpp:354-363 | a struct's fields, its name marked as visited meanwhile |
| Codegen.Generator.AppendDecodeFields | src/idl/gen.cpp:358-363 | the field loop |
| Codegen.Generator.AppendPrimitiveDecode | src/idl/gen.cpp:369-375 | read, check, assign |
| Codegen.Generator.EmitCodec | src/idl/gen.cpp:423-447 | both bodies of a struct's codec, or failure, which comes exactly when some path of types from its fields is blocked |
| Codegen.Generator.NextTmp | src/idl/gen.cpp:233-233 | a fresh temporary |
| Idl.ElementIsSmaller | src/idl/gen.cpp:178-187 | what makes generation end: an element is fewer typedefs deep, or as deep and smaller |
| Idl.ClearStep | src/idl/gen.cpp:235-297 | no path from a type is blocked exactly when the type itself is no dead end, its struct was not visited, and no path from what it leads to is blocked with its struct visited |
| Idl.BareNameFindsFirst | src/idl/gen.cpp:96-169 | a name without "::" finds the first declaration of that name and kind in the tree, a module's own before those of its submodules, and fails only if there is none |
| Idl.QualifiedNameIsFollowed | src/idl/gen.cpp:96-169 | a::rest looks for rest in the first submodule called a, and nowhere else |
| Idl.BareIsLastPart | src/idl/gen.cpp:83-89 | the bare name is what follows the last "::" |
| Idl.SearchStaysInTree | src/idl/gen.cpp:96-169 | lookup by bare or qualified name only finds declarations of the tree |
| Idl.StructStaysInTree | src/idl/gen.cpp:280-290 | the fields of a struct that lookup finds mention only types of the tree |
| Cdr.PrimRoundTrip | src/cdr/cdr.cpp:51-237 | each aligned write is undone by its read, at any position, for every primitive and string |
| Cdr.BytesRoundTrip | src/cdr/cdr.cpp:108-112 | the same for byte sequences |
| Cdr.AlignedIsMultiple | src/cdr/cdr.cpp:46-49 | alignment pads with zeros to the next multiple, by less than the width |
| Cdr.PrimLayout | src/cdr/cdr.cpp:51-106 | every primitive in its place: a byte, or two, four or eight at a multiple of that in two's complement, lowest first; a string as its length with the closing zero, then its bytes and the zero |
| Cdr.BytesLayout | src/cdr/cdr.cpp:108-112 | a byte sequence is its count in four aligned bytes, then its bytes |
| Cdr.PrimIsRead | src/cdr/cdr.cpp:140-236 | every read on any bytes: a truth value is one byte, zero or not; a number the two's complement bytes at the next multiple of its width; a string a count and that many bytes, less the last if it is zero; none unless all of it is there |
| Cdr.BytesAreRead | src/cdr/cdr.cpp:238-246 | a byte sequence is a count and that many bytes, none unless they are all there |
| Cdr.Encoder.Align | src/cdr/cdr.cpp:46-49 | pads with zeros to the next multiple |
| Cdr.Encoder.WritePrim | src/cdr/cdr.cpp:51-106 | appends what the format says |
| Cdr.Encoder.WriteBytes | src/cdr/cdr.cpp:108-112 | length, then bytes |
| Cdr.Decoder.Create | src/cdr/cdr.cpp:116-127 | accepts exactly the two plain CDR headers |
| Cdr.Decoder.ReadPrim | src/cdr/cdr.cpp:140-237 | value and position as specified, or none when the data ends |
| Cdr.Decoder.ReadBytes | src/cdr/cdr.cpp:239-246 | value and position as specified, or none when the data ends |
| Parsing.ParseInvertsRender | src/idl/parser.cpp:427-436 | parsing the canonical text of any module in the supported subset gives that module |
| Layouts.AnyLayoutParses | src/idl/parser.cpp:427-436 | however a module's tokens are laid out, with any white space, closed block comments, line comments, stray characters and line ends between them, the text parses to the module; only words and numbers that would run together need something between them |
| Layouts.LayoutLexes | src/idl/parser.cpp:57-144 | such a text lexes to its tokens, each with line 1 plus the line ends before it |
| Layouts.GapIsPassed | src/idl/parser.cpp:115-144 | white space, both comment forms and stray characters are passed over, and only their line ends are noticed |
| Layouts.LoneMarksArePassed | src/idl/parser.cpp:79-141 | a colon or slash by itself is passed over, an unclosed comment up to its last character |
| Layouts.OnlyTokensMatter | src/idl/parser.cpp:427-436 | two texts with the same tokens on whatever lines give the same module, or both an error |
| Layouts.ModuleFlat | src/idl/parser.cpp:163-203 | the parser answers the same whatever lines the tokens stand on |
| Parsing.AnnotatedFieldReads | src/idl/parser.cpp:257-276 | a field is a key exactly when one of its annotations is `@key`; the others mean nothing |
| Parsing.AnnotationBracesArePassed | src/idl/parser.cpp:267-274 | what stands in braces behind an annotation is passed over |
| Parsing.TypeBoundsArePassed | src/idl/parser.cpp:354-398 | the bounds of strings and sequences are passed over, whatever they are |
| Parsing.LastCommaIsOptional | src/idl/parser.cpp:316-328 | the last value of an enum needs no comma |
| Parsing.LastSemicolonIsOptional | src/idl/parser.cpp:235-245 | the brace of a module needs no semicolon |
| Parsing.UnknownIsPassed | src/idl/parser.cpp:186-199 | an unknown declaration is passed over up to its semicolon and no further |
| Refusals.TypeIsRefused | src/idl/parser.cpp:344-413 | a type that is no word, a sequence without its angles, unsigned without a width it knows and "::" without a name are refused, with line and message |
| Refusals.FieldIsRefused | src/idl/parser.cpp:277-300 | so is a field without type, name or semicolon |
| Refusals.BoundIsRefused | src/idl/parser.cpp:279-293 | an array bound that is no number, is not closed or does not fit an int |
| Refusals.StructIsRefused | src/idl/parser.cpp:247-309 | a struct without name, braces or semicolon |
| Refusals.EnumIsRefused | src/idl/parser.cpp:311-332 | an enum without name, opening brace or semicolon |
| Refusals.TypedefIsRefused | src/idl/parser.cpp:334-342 | a typedef without type, alias or semicolon |
| Refusals.ModuleIsRefused | src/idl/parser.cpp:235-245 | a module without name or braces |
| Refusals.FieldErrorIsFinal | src/idl/parser.cpp:252-305 | the first refused field is the error of its struct, whatever fields came before |
| Refusals.FirstErrorIsFinal | src/idl/parser.cpp:163-203 | and the first refused declaration that of the whole text |
| Parsing.ModuleReads | src/idl/parser.cpp:163-203 | written declarations of all four kinds are read back in order at any nesting depth, with whatever follows left over |
| Parsing.TypeReads | src/idl/parser.cpp:344-418 | a written type is read back as itself up to where it ends |
| Parsing.FieldReads | src/idl/parser.cpp:252-305 | a written field, annotation and array bound included, is read back |
| Parsing.StructReads | src/idl/parser.cpp:247-309 | a written struct is read back |
| Parsing.EnumReads | src/idl/parser.cpp:311-332 | a written enum is read back |
| Parsing.TypedefReads | src/idl/parser.cpp:334-342 | a written typedef is read back |
| Parsing.ModuleOk | src/idl/parser.cpp:57-105 | the canonical rendering is made of well-formed tokens |
| Lexing.TextLexes | src/idl/parser.cpp:57-144 | text written token by token lexes back to its tokens |
| Lexing.Lexer.Next | src/idl/parser.cpp:57-105 | the next token, unknown characters skipped; ends on every input |
| Lexing.Lexer.SkipBlanks | src/idl/parser.cpp:115-144 | white space and both comment forms, line count included, as the function that `Layouts.GapIsPassed` characterises |
| Lexing.Lexer.SkipBlock | src/idl/parser.cpp:128-141 | an unclosed block comment leaves its last character behind |
| Parsing.Parser.ReadType | src/idl/parser.cpp:344-418 | every branch and error of the type grammar; ends on every input |
| Parsing.Parser.ReadField | src/idl/parser.cpp:257-304 | annotations, type, name, bound and semicolon, with their errors |
| Parsing.Parser.ReadBound | src/idl/parser.cpp:278-298 | array bounds above the range of int are an error |
| Parsing.Parser.ReadStruct | src/idl/parser.cpp:247-309 | as specified, errors included |
| Parsing.Parser.ReadEnum | src/idl/parser.cpp:311-332 | every token advances, only identifiers become values |
| Parsing.Parser.ReadTypedef | src/idl/parser.cpp:334-342 | as specified, errors included |
| Parsing.Parser.ReadModule | src/idl/parser.cpp:163-203 | the declaration loop, unknown declarations skipped; ends on every input |
| Parsing.Parser.ReadNamedModule | src/idl/parser.cpp:235-245 | as specified, the final semicolon optional |
| Parsing.Parser.PeekTok | src/idl/parser.cpp:206-212 | looking ahead changes nothing that is still to come |
| Parsing.ParseString | src/idl/parser.cpp:427-436 | the module, or the first error with its line and message |
| GlobMatcher.GlobIsExact | src/security/access.cpp:165-213 | the matcher gives the pattern's meaning (some decomposition of the name over the stars, malformed when the pattern does not parse) on every name if and only if the pattern does not parse, has an empty class, or has no chunk between two stars that slides |
| GlobGrammar.ParsesAsWritten | src/security/access.cpp:31-154 | a pattern parses exactly when it is written in stars, question marks, letters and classes in their literal characters, with a backslash where one is needed, and then to what they say |
| GlobGrammar.ReadAsWritten | src/security/access.cpp:89-154 | every pattern so written is read as it is written: stars, question marks, letters with or without backslash, classes with ranges and caret |
| GlobGrammar.ShownReadsBack | src/security/access.cpp:89-154 | any sequence of stars, question marks, letters and classes, none of them empty, can be written, and is read back from its text |
| GlobGrammar.MeaningIsCut | include/dds/security/access.hpp:14-20 | the meaning of a pattern is a cut of the topic into one stretch a piece: any without slash for a star, one character but the slash for a question mark, the letter itself, and for a class one character inside, or with the caret outside, the ends of its ranges |
| GlobGrammar.MatcherFollowsThePattern | src/security/access.cpp:165-213 | a match is always such a cut, and where greed is harmless every such topic matches |
| GlobGrammar.ClassMeansItsRanges | src/security/access.cpp:117-126 | a class alone matches exactly the characters between the ends of one of its ranges, or with the caret the others |
| GlobMatcher.MatchIsSound | src/security/access.cpp:165-213 | for all patterns, matched implies a decomposition |
| GlobMatcher.MatchIsComplete | src/security/access.cpp:184-199 | without sliding chunks the greedy choice of the first place loses no match |
| GlobMatcher.GreedMisses | src/security/access.cpp:184-199 | with one, the matcher rejects a name built from it... |
| GlobMatcher.MissedIsMeant | src/security/access.cpp:184-199 | ...that the pattern means to match |
| GlobMatcher.SlidesItemByItem | src/security/access.cpp:89-154 | whether a chunk slides can be told item by item for shifts up to its length |
| GlobMatcher.SlashlessClassesStay | src/security/access.cpp:109-126 | a chunk whose classes exclude '/' never slides |
| GlobMatcher.SlashAloneStays | src/security/access.cpp:109-126 | nor does `[/]` alone, which matches nothing else |
| GlobMatcher.MalformedIsThePatterns | src/security/access.cpp:201-209 | malformed depends on the pattern alone, not on the name |
| GlobMatcher.SlashInClassIsMissed | src/security/access.cpp:110-126 | a class may take a slash where star and question mark may not, so greed can lose a match: `*[^x]*z` misses `a/z` |
| GlobMatcher.EarlierPlaceIsEnough | src/security/access.cpp:184-197 | for a chunk that does not slide, if a later place leads to a match so does the first one, since the next star absorbs the shift |
| GlobSyntax.SplitAgreesWithParse | src/security/access.cpp:31-62 | cutting the pattern at stars outside brackets agrees with reading it item by item |
| GlobSyntax.ChunkIsMalformed | src/security/access.cpp:89-154 | an item that does not parse makes the whole chunk malformed |
| GlobMatcher.ScanChunk | src/security/access.cpp:31-62 | star flag, chunk and rest |
| GlobMatcher.FindChunkEnd | src/security/access.cpp:40-60 | the first star outside brackets |
| GlobMatcher.GetEscape | src/security/access.cpp:69-78 | one possibly escaped character, never the last of the chunk |
| GlobMatcher.ReadClass | src/security/access.cpp:109-126 | membership in the ranges of a class, and where it ends; what the ranges are is `GlobGrammar.ReadAsWritten` |
| GlobMatcher.MatchChunk | src/security/access.cpp:89-154 | the chunk loop with its sticky failure: failing never stops the syntax check |
| GlobMatcher.GlobMatch | src/security/access.cpp:165-213 | the outer loop computes the specified outcome |
| GlobMatcher.RetryChunk | src/security/access.cpp:184-198 | the first later place before a slash where the chunk fits |
| GlobMatcher.AnyChunkMalformed | src/security/access.cpp:203-209 | the check of the remaining pattern |
| GlobMatcher.Allows | src/security/access.cpp:217-226 | the first matching well-formed rule decides by the permission bits it shares with those asked for; none denies |
| Gf128.MulIsProductModP | src/security/crypto/gcm.cpp:20-41 | the bit-serial multiplication is polynomial multiplication followed by long division by x^128 + x^7 + x^2 + x + 1 (NIST SP 800-38D section 6.3) |
| Gf128.MulBilinear | src/security/crypto/gcm.cpp:20-41 | linear in both factors |
| Gf128.MulCommutes | src/security/crypto/gcm.cpp:20-41 | commutative |
| Gf128.MulAssociates | src/security/crypto/gcm.cpp:20-41 | associative |
| Gf128.MulUnit | src/security/crypto/gcm.cpp:20-41 | the block 1000... is the unit |
| Gf128.PowersOfX | src/security/crypto/gcm.cpp:31-38 | x^128 has exactly the bits 0, 1, 2 and 7, and lower powers are single bits |
| Gf128.RemainderIsResidue | src/security/crypto/gcm.cpp:31-38 | shifting and adding R is reduction by long division |
| Gf128.GhashIsHorner | src/security/crypto/gcm.cpp:45-52 | repeated updates equal one polynomial evaluation of all blocks in H |
| Gf128.GhashFromZero | src/security/crypto/gcm.cpp:80-102 | GHASH of NIST SP 800-38D section 6.4 |
| Gf128.GhashSplits | src/security/crypto/gcm.cpp:84-102 | any split of the blocks over several updates gives the same value |
| Gf128.GhashSumLinear | src/security/crypto/gcm.cpp:45-52 | linear in the data |
| Gcm.Gf128Mul | src/security/crypto/gcm.cpp:20-41 | the nested loops over 16-byte arrays compute the field product |
| Gcm.MulLoop | src/security/crypto/gcm.cpp:25-39 | the outer loop over 128 bits |
| Gcm.TimesXInPlace | src/security/crypto/gcm.cpp:31-38 | the shift across bytes with the 0xE1 correction is multiplication by x |
| Gcm.GhashUpdate | src/security/crypto/gcm.cpp:45-52 | folds whole blocks |
| Gcm.GhashPadded | src/security/crypto/gcm.cpp:84-93 | whole blocks, then the zero-padded rest |
| Gcm.Inc32Counts | src/security/crypto/gcm.cpp:55-59 | inc32 adds one modulo 2^32 to the last word and keeps the rest |
| Gcm.Inc32InPlace | src/security/crypto/gcm.cpp:55-59 | the carry loop |
| Gcm.CounterBlocksRepeat | src/security/crypto/gcm.cpp:55-75 | two counter blocks of one nonce are equal exactly when a multiple of 2^32 apart |
| Gcm.MasksAreDistinct | src/security/crypto/gcm.cpp:116-127 | J0 and the counter blocks of up to 2^32 - 1 data blocks are pairwise distinct; one more repeats J0 |
| Gcm.GctrIsItsOwnInverse | src/security/crypto/gcm.cpp:63-75 | applying gctr twice gives the data back, for every length and cipher |
| Gcm.GctrAt | src/security/crypto/gcm.cpp:63-75 | byte j of block b is masked with byte j of the cipher of counter block b |
| Gcm.GctrInto | src/security/crypto/gcm.cpp:63-75 | the chunk loop |
| Gcm.ComputeTag | src/security/crypto/gcm.cpp:80-108 | GHASH over padded ciphertext and length block, masked with the cipher of J0 |
| Gcm.TagIsUnique | src/security/crypto/gcm.cpp:80-108 | key, nonce and ciphertext determine the tag |
| Gcm.SealedByte | src/security/crypto/gcm.cpp:116-127 | byte j of data block b is masked with byte j of the cipher of the nonce followed by b + 2 in four bytes, highest first |
| Gcm.LengthCountsBits | src/security/crypto/gcm.cpp:94-101 | the length block is eight zero bytes and the number of bits of the ciphertext, highest byte first |
| Gcm.EmptyTag | src/security/crypto/gcm.cpp:80-108 | the tag of the empty message is the cipher of the nonce followed by 1 |
| Gcm.Seal | src/security/crypto/gcm.cpp:112-134 | ciphertext and tag as specified |
| Gcm.Open | src/security/crypto/gcm.cpp:136-165 | accepts exactly the right tag, then decrypts |
| Gcm.SealedOpens | src/security/crypto/gcm.cpp:112-165 | whatever Seal returned, Open accepts with exactly one tag and then answers the plaintext |
| Crc16.CorruptionChangesCrc | src/safety/e2e.cpp:66-79 | at any length, a difference of an odd number of bits or within 16 consecutive bits changes the CRC |
| Crc16.CollisionIsZeroSyndrome | src/safety/e2e.cpp:66-79 | two messages of one length collide exactly when their difference leaves the zero register at zero |
| Crc16.CrcParity | src/safety/e2e.cpp:72-75 | the register's parity follows the data's: the polynomial is divisible by x + 1 |
| Crc16.BurstLeavesNonzero | src/safety/e2e.cpp:72-75 | a burst of at most 16 bits never leaves zero |
| Crc16.CrcIsBitwise | src/safety/e2e.cpp:69-77 | taking whole bytes equals taking the bits one by one |
| Crc16.ComputeCrc | src/safety/e2e.cpp:66-79 | the register loop |
| E2e.GeneratorIs1021 | src/safety/e2e.cpp:66-79 | the CRC register of x^16 is 0x1021 and that of no data 0xffff |
| E2e.FrameRoundTrip | src/safety/e2e.cpp:95-133 | every frame made parses to its counter, timestamp and payload |
| E2e.FrameLayout | src/safety/e2e.cpp:118-133 | byte by byte: data id, source id, counter, timestamp in two's complement, the CRC of everything else at 16, payload from 18 |
| E2e.CorruptionIsSeen | src/safety/e2e.cpp:95-109 | an odd number of flipped bits anywhere in a frame, slot included, covered bits within 16 consecutive ones, or bits of the slot alone fail the check |
| E2e.PassingDamage | src/safety/e2e.cpp:95-109 | any other damage, exactly: it passes if and only if the change of the slot is the CRC remainder of the change of the covered bits |
| E2e.PassingIsEven | src/safety/e2e.cpp:95-109 | every frame that passes has an even number of set bits |
| E2e.SlotDamageIsSeen | src/safety/e2e.cpp:99-106 | damage to the CRC slot alone fails it too |
| E2e.CorruptedFrameIsRejected | src/safety/e2e.cpp:174-190 | a corrupted frame is reported, not delivered, and leaves the subscriber unchanged |
| E2e.FrameIsDelivered | src/safety/e2e.cpp:192-221 | an intact frame older than a positive maximum age is reported as stale, not delivered, and leaves the subscriber unchanged; any other is delivered |
| E2e.OnlyWholeFramesPass | src/safety/e2e.cpp:174-190 | of any bytes, fewer than 18 are reported as too short, nothing is delivered whose CRC does not fit, and what is not delivered is reported and leaves no trace |
| E2e.GapsAreExact | src/safety/e2e.cpp:205-219 | whatever frames arrive in whatever order, each is delivered and a gap is reported exactly where a counter does not follow the one before it |
| E2e.LosslessRunIsClean | src/safety/e2e.cpp:139-146 | a publisher's writes in order and without loss raise no error, also across the counter's wrap-around |
| E2e.Publisher.Write | src/safety/e2e.cpp:118-146 | the frame of the next counter |
| E2e.Subscriber.Process | src/safety/e2e.cpp:174-222 | all four rejections and the delivery, channels bounded at 64 and 32 |
| TypeIdentity.CanonicalJsonIsIdentity | src/xtypes/xtypes.cpp:169-180 | with names unique in each parent, two descriptors have the same canonical text exactly when they are equal up to reordering fields at every level |
| IdentityText.PlainFieldText | src/xtypes/xtypes.cpp:134-161 | the text of a plain field in full |
| IdentityText.NestedFieldText | src/xtypes/xtypes.cpp:134-161 | the text of a field with an element and two fields: element, fields by name, then the rest |
| IdentityText.TwoFieldText | src/xtypes/xtypes.cpp:169-180 | the text of a type of two fields in full, in whatever order they are declared |
| TypeIdentity.JsonDecodes | src/xtypes/xtypes.cpp:169-180 | even without unique names, only types whose fields can be paired one to one at every level are written alike |
| TypeIdentity.FieldDecodes | src/xtypes/xtypes.cpp:134-161 | a field's text says where it ends and which field it is |
| TypeIdentity.SameIsWrittenAlike | src/xtypes/xtypes.cpp:109-161 | fields equal up to order are written alike |
| TypeIdentity.SortedAscends | src/xtypes/xtypes.cpp:109-116 | sorting distinct names gives strictly ascending names |
| TypeIdentity.KindTextTells | src/xtypes/xtypes.cpp:50-66 | kind names, the numeric fallback included, are distinct |
| Texts.QuotedDecodes | src/xtypes/xtypes.cpp:82-105 | escaping is injective and a quoted string ends at its closing quote |
| Texts.EscapeDecodes | src/xtypes/xtypes.cpp:84-103 | each escape tells its character |
| Texts.DecimalDecodes | src/xtypes/xtypes.cpp:177-177 | a decimal number tells its value and where it ends |
| TypeIdentity.JsonWriter.AppendString | src/xtypes/xtypes.cpp:82-105 | the escape loop |
| TypeIdentity.JsonWriter.AppendField | src/xtypes/xtypes.cpp:134-161 | keys in order, commas only between them |
| TypeIdentity.JsonWriter.AppendFieldArray | src/xtypes/xtypes.cpp:120-128 | the sorted fields with commas between |
| TypeIdentity.JsonWriter.WriteCanonicalJson | src/xtypes/xtypes.cpp:169-180 | fields, name and version |
| Channels.EveryRunIsSafe | include/dds/channel.hpp:45-112 | under every interleaving, spurious wake-ups and deadlines included: never above capacity; received then buffered is what was accepted, in order, less the dropped-oldest items; no wake-up is lost; receivers rest only on an empty and senders only on a full open channel, never both |
| Channels.NextLosesNoWakeUp | include/dds/channel.hpp:45-112 | while someone sleeps on an open channel, buffered items (free slots) are at most the woken receivers (senders) not yet run |
| Channels.NextKeepsOrder | include/dds/channel.hpp:45-105 | the buffer is always the tail of the accepted items after those that left, in order |
| Channels.NextKeepsInv | include/dds/channel.hpp:45-112 | every critical section and wake-up keeps the whole invariant |
| Channels.NothingIsLost | include/dds/channel.hpp:45-105 | received then buffered is exactly what was accepted, if and only if no send_drop_oldest met a full open channel |
| Channels.DropsAreCounted | include/dds/channel.hpp:66-73 | over every run, items are dropped for each send_drop_oldest that meets a full open channel, one each, and for nothing else |
| Channels.NextMovesItems | include/dds/channel.hpp:45-105 | every step: on an open channel an item comes in exactly when there is room or send_drop_oldest makes it; the oldest item leaves, to a receiver that finds it or dropped by a send_drop_oldest on a full channel, and never otherwise |
| Channels.WaitsWhileItMust | include/dds/channel.hpp:45-105 | a thread waits after its turn exactly when the channel is open and full for a sender, open and empty before its deadline for a receiver; other turns do not change that |
| Channels.SleeperKeepsItem | include/dds/channel.hpp:45-52 | a sender that sleeps brings the item it slept with |
| Channels.ClosedReleases | include/dds/channel.hpp:107-112 | after close nothing is accepted, nobody starts to wait, nobody sleeps, and each waiting thread leaves at its next turn |
| Channels.Channel.StartPush | include/dds/channel.hpp:45-52 | accept, refuse or go to sleep |
| Channels.Channel.ResumePushing | include/dds/channel.hpp:47-51 | the predicate is checked again after every wake-up |
| Channels.Channel.TrySending | include/dds/channel.hpp:57-64 | Closed, Full or Ok |
| Channels.Channel.SendDroppingOldest | include/dds/channel.hpp:66-73 | appends to an open channel, dropping the oldest exactly when it was full; a closed one is left alone |
| Channels.Channel.StartRecv | include/dds/channel.hpp:75-83 | the oldest item, none when closed and empty, or sleep |
| Channels.Channel.ResumeReceiving | include/dds/channel.hpp:96-105 | the same after a wake-up, or none after the deadline |
| Channels.Channel.TryReceiving | include/dds/channel.hpp:85-92 | the oldest item or none |
| Channels.Channel.CloseDown | include/dds/channel.hpp:107-112 | closes and wakes everyone |
| Sha256.Hasher.Finish | src/security/crypto/sha256.cpp:105-130 | the digest of everything given to update, however it was cut: the fold of the compression function over the padded message; the pad loop ends |
| Sha256.Hasher.Update | src/security/crypto/sha256.cpp:84-103 | between calls fewer than 64 bytes are held and all others have been compressed in order |
| Sha256.Hasher.Pad | src/security/crypto/sha256.cpp:106-112 | 0x80 and then exactly the zeros that bring the buffer to 56 |
| Sha256.PaddingFills | src/security/crypto/sha256.cpp:106-120 | the padding fills whole blocks with the fewest zeros (FIPS 180-4 section 5.1.1) |
| Sha256.PaddingIsInjective | src/security/crypto/sha256.cpp:106-120 | no two messages below 2^61 bytes have the same padded form |
| Sha256.PaddedLayout | src/security/crypto/sha256.cpp:105-120 | the padded message byte by byte: message, 0x80, zeros, and the number of bits in eight bytes, highest first; whole blocks |
| Sha256.DigestLayout | src/security/crypto/sha256.cpp:122-129 | the digest is the eight words of the last chaining value, highest byte first |
| Sha256.HmacIsNested | src/security/crypto/sha256.cpp:138-170 | HMAC is the digest of the key with the bits of 0x5c flipped in each byte and the digest of the key with those of 0x36 flipped and the message |
| Sha256.FoldSplits | src/security/crypto/sha256.cpp:96-99 | folding over a concatenation is folding over its parts |
| Sha256.Hash | src/security/crypto/sha256.cpp:132-136 | the one-shot digest |
| Sha256.HmacSha256 | src/security/crypto/sha256.cpp:138-170 | the RFC 2104 section 2 construction, long keys hashed first |
| Sha256.ShortKeys | src/security/crypto/sha256.cpp:143-152 | two keys of at most a block give the same key block exactly when they are equal up to trailing zeros, and then the same HMAC of every message |
| Wan.StreamRoundTrip | src/bridge/wan/wan.cpp:368-388 | any list of frames that fit, written one after another, is read back |
| Wan.FrameRoundTrip | src/bridge/wan/wan.cpp:368-388 | a frame is read back from the front of a stream exactly when its text fits 16 MiB; otherwise the reader says too large |
| Wan.JsonRoundTrip | src/bridge/wan/wan.cpp:331-346 | any topic and any payload bytes survive the JSON text |
| JsonLayouts.FrameReadsAnyhow | src/bridge/wan/wan.cpp:331-346 | however a frame's object is written, with white space, escapes, nested values and other members in any order, topic and payload are the strings of the last "t" and "p"; absent and null are empty, other values fail |
| JsonLayouts.ObjectReadsAnyhow | src/bridge/wan/wan.cpp:186-207 | every such object is read to its members, the last of each name |
| JsonLayouts.StringReads | src/bridge/wan/wan.cpp:209-257 | a string of bare characters, short escapes and \u escapes reads as what they stand for |
| JsonLayouts.EscapeIsLetter | src/bridge/wan/wan.cpp:79-105 | the writer's escapes: short for quote, backslash and line and tab marks, \u for other control characters and for less, greater and ampersand, the rest bare |
| JsonLayouts.Utf8Tells | src/bridge/wan/wan.cpp:229-244 | a code point below 2^16 as one, two or three bytes of UTF-8 |
| Wan.FrameLayout | src/bridge/wan/wan.cpp:355-375 | four length bytes, highest first, then the text in full |
| Wan.QuotedReads | src/bridge/wan/wan.cpp:209-257 | a quoted string reads back and its raw slice is the quoted string |
| Wan.EscapeReads | src/bridge/wan/wan.cpp:215-251 | each escape reads back as its character |
| Wan.LengthTells | src/bridge/wan/wan.cpp:355-364 | the four length bytes tell the length |
| Base64.RoundTrip | src/bridge/wan/wan.cpp:107-176 | decoding undoes encoding for all byte strings (RFC 4648 section 4) |
| Base64Layout.EncodeLayout | src/bridge/wan/wan.cpp:107-134 | letter by letter: six bits each from three bytes, in the alphabet of RFC 4648, with = behind the last byte |
| Base64Layout.DecodesExactly | src/bridge/wan/wan.cpp:145-176 | without its white space a text is decoded exactly when it is whole blocks of four letters or = |
| Base64Layout.BlankIsDropped | src/bridge/wan/wan.cpp:148-151 | a blank anywhere changes nothing |
| Base64.EncodePads | src/bridge/wan/wan.cpp:120-132 | the number of padding letters |
| Base64.EncodeBytes | src/bridge/wan/wan.cpp:107-134 | the loop of threes and the padded rest |
| Base64.DecodeText | src/bridge/wan/wan.cpp:145-176 | white space dropped, bad lengths and letters refused, blocks decoded |
| Wan.Pipe.Send | src/bridge/wan/wan.cpp:368-375 | length, then text |
| Wan.Pipe.Receive | src/bridge/wan/wan.cpp:377-388 | short, too large and invalid input are told apart |
| Wan.JsonReader.ReadBody | src/bridge/wan/wan.cpp:209-257 | the string loop with all escapes, code points as UTF-8 bytes |
| Wan.JsonReader.ReadRaw | src/bridge/wan/wan.cpp:270-304 | the slice of one value: string, nested or bare |
| Wan.JsonReader.SkipNested | src/bridge/wan/wan.cpp:277-295 | nested brackets with strings skipped |
| Wan.JsonReader.ReadMembers | src/bridge/wan/wan.cpp:186-207 | the member loop, a later member replacing an earlier one |
| Wan.JsonReader.ReadObject | src/bridge/wan/wan.cpp:340-346 | absent and null members are empty, other failures fail |

## Left out

- Sockets, threads' scheduling, clocks and locators: the network is a set of messages, each clock reading a parameter, and the mutex the atomicity of a step.
- Several readers of one writer: one reader is followed exactly, the others appear as ACKNACKs with any base and bitmap.
- HEARTBEAT and ACKNACK counts inside `Delivery.dfy`: nothing reads them; the wire model carries them.
- Delivery.Writer.Close: waiting for the HEARTBEAT thread to end; that a closed writer is gone for ACKNACKs is in `Delivery.Next`.
- Delivery.Reader: the reassemblies belong to the participant's assembler, so its methods take them as a ghost argument.
- Refinement.ArrivalIsRealised: samples of 4 GiB and more, whose size field is truncated on the wire.
- SEDP matching, topic filters, durability, persistence and metrics around `write` and `dispatch`.
- TSN transmit times; of a TSN stream only the fragment size is modelled.
- Decoding.UnmarshalAnswers: running out of memory when a count in the bytes, whose elements are not there, resizes a vector.
- Packets.Participant.HandleDataPacket: one time for all fragments of a packet, where the source reads the clock once per fragment.
- RecvTracking.RecvTracker.Record: the number 2^64 - 1, after which the watermark wraps around.
- RecvTracking.RecvTracker.Missing: watermarks from 2^64 - 32 on, where the window's end wraps around.
- Fragments.SplitIntoFragments: sizes that are 0 modulo 2^16 for a sample that is not empty, with which the loop does not end.
- Fragments whose declared position would leave their own buffer: the model requires they do not, as the splitter's never do.
- GUID and Locator encodings, SPDP and SEDP parameter lists: fixed layouts of the same kind as those modelled.
- The characters of generated C++ (indentation, comments, includes, type aliases): statements are modelled as trees. Reference and temporary names are structured values, so that a field name cannot collide with a temporary.
- Struct members with the same name, which C++ rejects, and cyclic typedefs, on which the source does not end.
- Floating-point values: 32- and 64-bit patterns in CDR.
- Parsing.ParseInvertsRender: the rendering has no comments, no bounds of strings and sequences and no annotation but `@key`, since the module tree does not keep them; `Layouts.AnyLayoutParses` and the lemmas of the parser about bounds, annotations and unknown declarations say how they are read.
- Two structs of one bare name in different modules: the generated C++ types name both by the bare name (src/idl/gen.cpp:218-220), which `CppTyping.dfy` does not follow.
- Whether a whole generated header compiles: names that are C++ keywords (src/idl/gen.cpp:18-26), clashes of declared names, and the order of declarations (typedefs, enums, structs, then submodules, src/idl/gen.cpp:386-401), by which a type can be used before it is declared. `CppTyping.dfy` types the statements of the bodies alone.
- Characters are compared as unsigned bytes in `GlobMatcher.dfy`; class ranges over bytes from 128 depend on the platform's char in the source.
- AES rounds and the SHA-256 compression function: parameters of fixed width. Timing of the tag comparison.
- E2e.Check: ages are exact integers, without the overflow of a 64-bit nanosecond difference.
- Channels: fairness of the scheduler, so that a woken thread is able to run but not forced to.
- DynamicData and its JSON reader (src/xtypes/xtypes.cpp:203-520), which type identity does not use.
- Authentication frames of the WAN bridge, REST and gRPC servers, YAML configuration, replay guard: small tables and codecs of kinds already covered.
