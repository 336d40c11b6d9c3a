# A verified model of the QUIC relay

The relay is a UDP proxy for QUIC. It reads the server name out of the first packets of a connection, hands the
connection to a chain of handlers, and from then on routes every packet of that connection to its session. This
project models the parts where that goes through state, and proves what they keep.

| files | what they model |
|---|---|
| `Bytes`, `QuicVarInt` | big-endian fields; QUIC integers (section 16 of RFC 9000) |
| `FrameScan`, `FrameCodec` | scanning CRYPTO frames out of a decrypted Initial payload; the encoder it undoes |
| `ClientHello`, `HelloCodec` | reading SNI and ALPN; the message layout (section 4.1.2 of RFC 8446) it undoes |
| `Assembler`, `Reassembly` | the 8192-byte buffer with its bitset; independence of order, repetition and overlap |
| `HeaderProtection` | removing header protection, rebuilding packet number and nonce (section 5 of RFC 9001) |
| `InitialPacket` | the walk over an Initial header (section 17.2.2 of RFC 9000), and the way from the datagram to its frames |
| `EndToEnd` | from sealed datagrams to server name and protocols |
| `SessionTable` | the session table as a value: five indexes, the counter, the reference-counted chains, whole runs |
| `Routing` | which session a packet belongs to, and what a packet does to the table |
| `SessionHeap`, `Proxy` | the eviction heap; the proxy object whose methods refine the table's steps |
| `CappedMap`, `SessionSlots` | the lock-free counters, one atomic operation a step, any number of threads |
| `WorkerPool` | the sharded queues, one channel operation a step |
| `Shutdown` | the read loop, the workers and Stop together, and when a panic can end the program |
| `HytaleVarInt`, `Framing` | the 7-bit integers and strings; length-prefixed packets, writer and buffering reader |

Functions say what a step means. The methods carry the loops, arrays and fields of the program and are proved equal to
those functions; lemmas then say what holds over every input, every interleaving and every run.

Some promises do not hold as one would like. The model follows the code; each has its exact condition, and an input or
a run that fails where that says more than the condition:

- The first host name of a `server_name` extension is reported only when it leads the list
  (`FirstHostNameIsReportedExactlyWhen`, `HostNameBehindAnotherEntry`).
- A CRYPTO frame that is cut off does not end the scan, so frames can be read out of its bytes
  (`CutOffFramesAddNothingExactlyWhen`, `FrameOutOfCutOffFrame`).
- A packet number is never expanded, so the nonce is right exactly when the number fits the bytes sent
  (`NonceMatchesExactlyWhenNumberFits`, `NumberThatDoesNotFit`).
- The walk over an Initial header leaves the packet, and panics the program, unless the source connection id and the token
  end within it (`WalkStaysInRangeExactlyWhen`, `WalkOutOfRange`).
- The session counter is exact at rest exactly when no connection reserved twice and no session was stored over a live
  one (`SessionSlots.CounterIsExactExactlyWhen`); a chain with two limiters can lose a slot (`TwoLimitersLoseASlot`).
- Stop does not wait for the read loop, and submitting to a closed queue panics, as does handling a packet that the walk
  leaves (`CrashesExactlyWhen`). While the program runs, `CanCrashExactlyWhen` says when either can still happen; once the
  socket is closed that is when the loop holds a packet or such a packet is due (`PacketReadBeforeStop`).
- A stream that reports its end together with the last bytes makes the packet reader report the end once too early, when
  the read that brings them completes the header or the frame (`ReadPacket`, `EofOverUnread`, `FrameWithEof`). Nothing is
  lost, and the next call is right.

## Model

The main results come first, then what they are built from.

| member | source | states |
|---|---|---|
| FrameCodec.ExtractUndoesEncode | internal/proxy/parser.go:550-654 | For any sequence of PADDING, PING, ACK, ACK-ECN and CRYPTO frames at any field widths, exactly its CRYPTO frames come out, in order |
| FrameCodec.FramesAreDisjointSlices | internal/proxy/parser.go:550-654 | On any input the frames are disjoint slices of it in increasing order |
| FrameCodec.ScanGoesOnInsideCutOffFrame | internal/proxy/parser.go:619-637 | On any input the scan finds the frames in front of the first CRYPTO frame that is cut off, and then whatever it reads out of that frame's bytes |
| FrameCodec.CutOffFramesAddNothingExactlyWhen | internal/proxy/parser.go:619-637 | Only frames sent whole are reported, exactly when no CRYPTO frame is cut off or nothing behind its fields reads as a whole one |
| FrameCodec.FrameOutOfCutOffFrame | internal/proxy/parser.go:634-637 | A payload that is one cut-off CRYPTO frame, out of which another frame is read |
| HelloCodec.ClientHelloRoundTrip | internal/proxy/parser.go:692-842 | With distinct extension types in any order: the leading host name and the full ALPN list, or nothing where the extension is absent; the first host name exactly when it leads |
| HelloCodec.FirstHostNameIsReportedExactlyWhen | internal/proxy/parser.go:796-819 | The parser reports the first host name of a list exactly when it leads the list, is empty or is missing |
| HelloCodec.HostNameBehindAnotherEntry | internal/proxy/parser.go:804-807 | A list whose first host name is missed |
| Reassembly.ClientHelloEndToEnd | internal/proxy/proxy.go:118-188 | From frame bytes to SNI and ALPN: whatever the fragmentation, order, duplication and overlap, nothing is parsed exactly until the message is covered, then exactly the message |
| Reassembly.AnsweredAtEveryCover | internal/proxy/proxy.go:464-508 | As long as there is no session, a payload is answered exactly when the payloads since the last answer cover the message and those before it do not |
| EndToEnd.DatagramsToClientHello | internal/proxy/parser.go:287-361 | From the wire: a ClientHello spread in any way over sealed and protected Initial datagrams with any headers comes back, exactly from the datagram on that completes its cover |
| Reassembly.HelloComesExactlyOnce | internal/proxy/proxy.go:464-508 | If the chain accepts the connection, exactly the first payload that completes the cover is answered |
| Reassembly.HelloInStream | internal/proxy/proxy.go:149-188 | For any stream the parse waits for exactly the message and then reads exactly its bytes; one longer than the buffer is never parsed |
| Reassembly.IncrementalEqualsBatch | internal/proxy/parser.go:657-689 | For any frames, conflicting or with gaps, frame-by-frame and batch reassembly agree on the common part |
| Reassembly.OrderAndRepetitionDoNotMatter | internal/proxy/proxy.go:118-145 | Frames that agree on overlaps give one state in any order and with any repetition |
| InitialPacket.SentPacketIsExtracted | internal/proxy/parser.go:287-361 | From the datagram on: of an Initial packet built, sealed and protected from any frames exactly its CRYPTO frames are extracted, provided the packet number fits the bytes sent |
| InitialPacket.WalkStaysInRangeExactlyWhen | internal/proxy/parser.go:304-346 | The walk stays within the packet exactly when it is refused early or source connection id and token end within the packet |
| InitialPacket.WalkOutOfRange | internal/proxy/parser.go:324-337 | Two packets that it leaves: by the source connection id and by the token |
| HeaderProtection.UnprotectUndoesProtect | internal/proxy/parser.go:471-497 | The sample lies outside the masked bytes, and unmasking restores the packet for every packet number length that its first byte announces |
| HeaderProtection.DecryptUndoesSeal | internal/proxy/parser.go:464-522 | Decrypting gives back what was sealed, for any AEAD whose opener undoes its sealer |
| HeaderProtection.NonceMatchesExactlyWhenNumberFits | internal/proxy/parser.go:499-510 | The nonce is the sender's exactly when the number fits the bytes sent |
| HeaderProtection.NumberThatDoesNotFit | internal/proxy/parser.go:499-510 | A packet number for which it is not |
| SessionTable.RunKeepsInv | internal/proxy/proxy.go:252-277 | Every run of connects, rejections, learned ids, migrations, deletions and reloads keeps indexes, references and bound; the counter exceeds the sessions by exactly what was lost |
| SessionTable.ChainsLiveExactlyAsLongAsNeeded | internal/proxy/proxy.go:938-985 | After any run an installed chain has been shut down once if it is neither current nor used by a live session, and otherwise never |
| SessionTable.StopEndsEverything | internal/proxy/proxy.go:715-741 | Stopping after any run leaves no session, alias or client entry, only lost slots in the counter, and every chain shut down exactly once |
| SessionTable.CounterIsExactExactlyWhen | internal/proxy/proxy.go:873-927 | After any run the counter is the number of live sessions exactly when no connection reserved twice |
| Routing.ShortHeaderGoesToLongestLiveId | internal/proxy/proxy.go:575-620 | A short header goes to the owner of the longest live id it starts with, else to the address's session |
| Routing.LongHeaderGoesToOwner | internal/proxy/proxy.go:622-664 | A long header goes to the owner of its id, else to the address's session |
| Proxy.Proxy.FindSession | internal/proxy/proxy.go:574-664 | The lookup over registered lengths, aliases and addresses is the naive search |
| Proxy.Proxy.HandlePacket | internal/proxy/proxy.go:395-567 | Case by case: a packet of a session moves that session and its client entry if migration is allowed and the address is another one, and else does nothing; one that completes the ClientHello of a new connection lets it join, the longest idle evicted, or leaves at most the slots reserved beyond the first; any other does nothing; the walk panics exactly on a packet of a new connection that it leaves |
| Proxy.Proxy.CleanupOldestSessions | internal/proxy/proxy.go:1163-1208 | Removes exactly min(n, live) sessions, and no survivor was idle longer than a removed one |
| Proxy.Proxy.SweepIdle | internal/proxy/proxy.go:753-767 | Exactly the sessions idle for longer than the timeout go |
| Proxy.Proxy.Stop | internal/proxy/proxy.go:715-741 | No session, alias or client entry is left, and every installed chain has been shut down exactly once |
| CappedMap.CapHolds | internal/proxy/proxy.go:805-846 | At every interleaving the map never exceeds its cap and the counter is exact at rest |
| CappedMap.ProxyCaps | internal/proxy/proxy.go:1100-1126 | Assemblers and pending buffers each stay at or below 50000 |
| CappedMap.RefusalsAreJustified | internal/proxy/proxy.go:823-827 | A store is refused only when entries and operations in flight fill the cap |
| SessionSlots.SlotsAreConserved | internal/proxy/proxy.go:873-927 | At every interleaving sessions and reservations never exceed the counter |
| SessionSlots.LimitHolds | internal/handler/ratelimit_global.go:49-57 | With a limiter of at most L on every chain, sessions and reservations never exceed L |
| SessionSlots.RefusedExactlyAtTheLimit | internal/handler/ratelimit_global.go:49-53 | The limiter refuses exactly when sessions, reservations, owed decrements and lost units have reached its limit |
| SessionSlots.CounterIsExactExactlyWhen | internal/proxy/proxy.go:873-927 | At rest the counter is the number of sessions exactly when no such step occurred |
| SessionSlots.OneLimiterLosesNothing | internal/handler/ratelimit_global.go:49-57 | One limiter a chain and distinct keys exclude such steps |
| SessionSlots.TwoLimitersLoseASlot | internal/handler/ratelimit_global.go:49-57 | Two limiters and a drop leave a slot counted for ever |
| WorkerPool.ClientsAreServedInOrder | internal/proxy/pool.go:77-92 | A client's handled packets are a prefix, in submission order, of those accepted from it; queues stay bounded |
| WorkerPool.OtherShardsServeOthers | internal/proxy/pool.go:77-92 | No other worker ever handles a packet of that client |
| WorkerPool.RefusedExactlyWhenFull | internal/proxy/pool.go:80-93 | In every reachable state an open shard refuses a packet exactly when as many accepted packets wait there as its queue holds, and else accepts it |
| WorkerPool.FewPacketsAreAllAccepted | internal/proxy/pool.go:80-93 | A shard to which no more than that were ever submitted has dropped none |
| WorkerPool.PacketsAreConserved | internal/proxy/pool.go:77-119 | Submitted = handled + in progress + queued + dropped, per shard |
| WorkerPool.BuffersAreReturnedOnce | internal/proxy/pool.go:83-119 | Every buffer goes back exactly once, by the worker or by the submitter that dropped it |
| WorkerPool.StopDrainsTheQueues | internal/proxy/pool.go:67-73 | When a worker ends, every accepted packet of its shard was handled and its buffer returned |
| WorkerPool.ClosedShardsRunDry | internal/proxy/pool.go:67-119 | After closing, a worker that has not ended can always go on and gets nearer to its end, and nobody puts it off short of a panic |
| WorkerPool.CrashesExactlyWhen | internal/proxy/pool.go:67-119 | A run panics exactly when it submits a packet to a shard after closing it, or handles a packet of a new connection whose header walk leaves the packet |
| Shutdown.CanCrashExactlyWhen | internal/proxy/proxy.go:359-390 | In every reachable state of a running program a panic is still possible exactly when the read loop holds a packet or can come to hold one, or when a packet whose header walk leaves it is being handled or queued |
| Shutdown.PacketReadBeforeStop | internal/proxy/proxy.go:715-726 | A run in which Stop closes the socket while the loop holds a packet |
| HytaleVarInt.ReadUndoesWrite | pkg/protohytale/encoding.go:20-78 | Reading undoes writing inside any longer input and consumes VarIntSize bytes |
| HytaleVarInt.WriteIsShortest | pkg/protohytale/encoding.go:44-62 | No shorter input decodes to the value |
| HytaleVarInt.EncodingsArePrefixFree | pkg/protohytale/encoding.go:44-62 | No encoding is a proper prefix of another |
| HytaleVarInt.StringRoundTrip | pkg/protohytale/encoding.go:82-107 | Strings of at most 256 bytes come back inside any longer buffer; longer ones are refused |
| HytaleVarInt.ReadFailsExactlyWhen | pkg/protohytale/encoding.go:20-40 | Reading fails exactly when five bytes, or all there are and fewer, say that another one follows |
| HytaleVarInt.CutOffString | pkg/protohytale/encoding.go:82-98 | A written string that is cut off anywhere is an unexpected end |
| Framing.FramingRoundTrip | pkg/protohytale/reader.go:51-198 | Any list of written packets comes back in order, then EOF between frames, ErrUnexpectedEOF inside one |
| Framing.PacketReader.ReadPacket | pkg/protohytale/reader.go:51-84 | The next packet of the plain parse of everything unread, for any buffer size and chunking, exactly unless the read that brings EOF completes the header or the frame, which buffer size, buffered bytes and final chunk decide beforehand; then no byte is lost and the next call agrees |
| Framing.PacketReader.ReadPacketNoCopy | pkg/protohytale/reader.go:89-111 | The same value, as a slice of the buffer |
| Framing.FrameWithEof | pkg/protohytale/reader.go:140-150 | A frame that arrives together with EOF: the first call reports EOF, the second returns the packet |
| Framing.ReadAll | pkg/protohytale/reader.go:51-153 | Packets read and packets left are the packets of the stream; a reader that reports EOF on its own is read to the end |
| QuicVarInt.ReadUndoesEncode | internal/proxy/parser.go:845-874 | Reading gives back value and width for every value at every legal width, whatever follows |
| QuicVarInt.EncodeUndoesRead | internal/proxy/parser.go:845-874 | Whatever is read is the encoding of the result at the width consumed |
| QuicVarInt.ReadFailsExactlyWhen | internal/proxy/parser.go:845-855 | Reading fails exactly when there are fewer bytes than the first one says |
| QuicVarInt.SampleValues | internal/proxy/parser.go:857-871 | The sample values of section A.1 of RFC 9000 |
| FrameScan.ExtractCryptoFrames | internal/proxy/parser.go:550-654 | The loop terminates on every input and collects the frames of the scan, in order of appearance |
| FrameScan.ReadFrame | internal/proxy/parser.go:555-650 | The switch stops, or yields a frame and the next offset, exactly as one turn of the scan |
| FrameScan.ReadCrypto | internal/proxy/parser.go:619-646 | A whole CRYPTO frame is copied out; one that is cut off leaves only the switch |
| FrameScan.AckEnd | internal/proxy/parser.go:569-618 | An ACK frame is skipped with all its ranges and ECN counts, or its truncation noticed |
| FrameCodec.PaddingAt | internal/proxy/parser.go:562-566 | Swallowing a run of PADDING at once finds what reading it byte by byte would |
| FrameCodec.CutOffIsDropped | internal/proxy/parser.go:619-646 | A CRYPTO frame yields something exactly when it is whole, and never stops the scan |
| FrameCodec.ScanStopsExactlyWhen | internal/proxy/parser.go:555-650 | The scan stops exactly at a type that cannot be read or is unknown, and at an ACK frame that is cut off |
| FrameCodec.NothingBehindTheEnd | internal/proxy/parser.go:550-654 | The well-formed frames in front of that point are all extracted, and nothing else |
| ClientHello.ParseALPN | internal/proxy/parser.go:822-842 | The loop collects the protocols up to the first one that is cut off |
| ClientHello.ParseTLSClientHello | internal/proxy/parser.go:692-793 | No input indexes out of range; the result is what the extensions, read one after the other, make of the names |
| HelloCodec.SniUndoesEncode | internal/proxy/parser.go:796-819 | For any list of names the leading entry is reported, if it is a host name |
| HelloCodec.CutOffName | internal/proxy/parser.go:796-819 | A name that is cut off is not reported |
| HelloCodec.AlpnUndoesEncode | internal/proxy/parser.go:822-842 | Protocols come back in order wherever they stand |
| HelloCodec.CutOffProtocol | internal/proxy/parser.go:831-839 | A protocol that is cut off ends the list, the ones before it are reported |
| HelloCodec.CutOffExtension | internal/proxy/parser.go:767-790 | An extension that is cut off ends the walk, the ones before it count |
| HelloCodec.LastExtensionCounts | internal/proxy/parser.go:780-787 | Of several extensions of one type the last one counts |
| HelloCodec.ExtensionNumbers | internal/proxy/parser.go:780-787 | server_name is 0, ALPN is 16 |
| HelloCodec.ParseUndoesEncode | internal/proxy/parser.go:692-793 | Any message laid out as in section 4.1.2 of RFC 8446 parses to what its extensions say, whatever follows it |
| Reassembly.CutOffHelloIsRefused | internal/proxy/parser.go:715-719 | A message that is cut off anywhere is refused |
| Assembler.SetBitIn | internal/proxy/proxy.go:106-114 | Setting a bit of the bitset marks that byte and no other |
| Assembler.CryptoAssembler.AddFrame | internal/proxy/proxy.go:118-145 | The part of the frame that fits enters the map of received bytes; refused exactly when it starts behind the buffer |
| Assembler.CryptoAssembler.TryParse | internal/proxy/proxy.go:149-188 | The parse of bytes that were all really received, the length header included; otherwise nothing |
| Assembler.CryptoAssembler.HandlePayload | internal/proxy/proxy.go:481-503 | A payload's frames are added and the parse tried, unless the message is complete already |
| Assembler.ReassembleCryptoData | internal/proxy/parser.go:657-689 | Up to 16384 bytes, each from the last frame that covers it, zero in gaps |
| Assembler.MaxEndIsReached | internal/proxy/parser.go:662-669 | The extent of a list of frames is the end of the one that reaches furthest |
| Reassembly.CollectAt | internal/proxy/proxy.go:118-145 | A byte is present exactly when an accepted frame covered it, with the value of the last such frame |
| Reassembly.StateIsDetermined | internal/proxy/proxy.go:106-145 | Bitset and buffer are determined by the map of received bytes |
| Reassembly.AfterPayloadsCollects | internal/proxy/proxy.go:486-495 | Collecting payload after payload is as if all frames had come at once |
| Reassembly.HandlePayloads | internal/proxy/proxy.go:464-508 | Over all payloads of one connection id: an answer deletes the assembler, an accepted connection ends the answers, any other starts again |
| InitialPacket.WalkUndoesEncode | internal/proxy/parser.go:304-346 | For any packet laid out as in section 17.2.2 of RFC 9000, at any field widths, the walk finds connection id and payload, whatever follows |
| InitialPacket.WalkFindsOnlyLayouts | internal/proxy/parser.go:287-346 | Whatever the walk locates is laid out as in section 17.2.2 of RFC 9000, version 1 |
| InitialPacket.ProtectedLayout | internal/proxy/parser.go:287-346 | Header protection changes nothing that the walk reads |
| HeaderProtection.Decrypt | internal/proxy/parser.go:464-522 | Opens with the clear header as associated data and leaves the packet unchanged; too short a payload is refused |
| HeaderProtection.PnLengthIsAnnounced | internal/proxy/parser.go:489-490 | The two low bits of the first byte say one less than the number of bytes, as in sections 17.2 and 17.3.1 of RFC 9000 |
| HeaderProtection.MaskedBits | internal/proxy/parser.go:482-487 | Four low bits of a long header's first byte, five of a short one's, as in section 5.4.1 of RFC 9001 |
| HeaderProtection.SampleHeader | internal/proxy/parser.go:482-497 | The header of section A.2 of RFC 9001 is unmasked to what it was |
| HeaderProtection.NonceDiffersByNumber | internal/proxy/parser.go:505-510 | iv and nonce differ by the packet number in network order, as in section 5.3 of RFC 9001 |
| HeaderProtection.TruncatedIsLowBytes | internal/proxy/parser.go:499-503 | The packet number read is the sent one modulo 256 to the number of bytes |
| HeaderProtection.OpenedOfSent | internal/proxy/parser.go:464-522 | Of a packet whose first byte announces n packet number bytes exactly body, clear header and truncated number are opened, whatever follows in the datagram |
| SessionTable.Index.InsertKeepsInv | internal/proxy/proxy.go:539-554 | A new session keeps the five indexes consistent |
| SessionTable.Index.RemoveKeepsInv | internal/proxy/proxy.go:896-909 | Deleting keeps them consistent and leaves no alias of the session |
| SessionTable.Index.LearnAllKeepsInv | internal/proxy/proxy.go:680-712 | Learning connection ids keeps aliases and their owners exact inverses |
| SessionTable.LearnAllLearns | internal/proxy/proxy.go:680-712 | Exactly the listed ids that are new become aliases of the session, with their lengths; earlier aliases keep their owners |
| SessionTable.Index.MigrateKeepsInv | internal/proxy/proxy.go:412-430 | Moving a session to another address keeps the indexes consistent, even over another session's address |
| SessionTable.Chains.RetainKeepsInv | internal/proxy/proxy.go:929-936 | References stay the number of live sessions of each chain |
| SessionTable.Chains.ReleaseKeepsInv | internal/proxy/proxy.go:938-964 | Releasing shuts a retired chain down with its last session, and no other |
| SessionTable.Chains.ReloadKeepsInv | internal/proxy/proxy.go:316-329 | A fresh chain replaces the current one, which goes at once if unused and else lives on as retired |
| SessionTable.ReloadInstalls | internal/proxy/proxy.go:316-329 | The new chain is current and nothing but the chains changes |
| SessionTable.Chains.ShutdownAllIsComplete | internal/proxy/proxy.go:737-741 | With no session left, every installed chain has then been shut down exactly once |
| SessionTable.Table.ForgetAllKeepsLinked | internal/proxy/proxy.go:896-909 | Deleting any list of sessions removes exactly those and counts each once |
| SessionTable.ForgetAllRemains | internal/proxy/proxy.go:896-909 | Deleting sessions removes exactly their aliases and the client entries at their addresses; every other entry stays |
| SessionTable.Table.ConnectKeepsInv | internal/proxy/proxy.go:539-554 | A connection keeps indexes and references exact and the table below the cleanup mark, however many slots its chain reserved |
| SessionTable.MigrateMoves | internal/proxy/proxy.go:412-430 | Only that session's address and its two client entries change |
| SessionTable.ConnectJoins | internal/proxy/proxy.go:539-554 | Session, client entry and length are there, the victims and all of theirs are gone, nothing else changed |
| SessionTable.DeletionsAreARun | internal/proxy/proxy.go:757-767 | Sweeps and evictions are runs of deletions |
| SessionTable.SurplusIsATenth | internal/proxy/proxy.go:921-924 | From 90000 counted sessions on a tenth of the count must go |
| Routing.SkipUnregistered | internal/proxy/proxy.go:576-586 | Trying the registered lengths only misses nothing |
| Routing.TypeOfFirstByte | internal/proxy/parser.go:55-82 | Form bit and type bits decide the packet type, the others do not matter |
| Routing.DcidOfHeader | internal/proxy/parser.go:88-115 | The id behind its length in a long header, of the given length in a short one |
| Routing.NoDcidExactlyWhen | internal/proxy/parser.go:88-115 | There is none exactly when the packet ends before it |
| Routing.NothingFound | internal/proxy/proxy.go:440-462 | An Initial of no session carries an id nobody owns, from an address nobody uses |
| Routing.PacketIsAnEvent | internal/proxy/proxy.go:395-567 | A packet changes nothing or is one migration or one connection of a run |
| Routing.PacketEffect | internal/proxy/proxy.go:395-567 | The same cases for the table step, entry by entry |
| SessionHeap.RootIsMin | internal/proxy/proxy.go:1141-1147 | The root of the heap is the smallest idle time |
| SessionHeap.Heap.Push | internal/proxy/proxy.go:1149-1151 | Adds one element and keeps the heap |
| SessionHeap.Heap.Pop | internal/proxy/proxy.go:1153-1159 | Removes the root, nothing else, and keeps the heap |
| Proxy.Proxy.ReleaseChain | internal/proxy/proxy.go:938-964 | One reference less, and the shutdown of a retired chain that has none left |
| Proxy.Proxy.RetireChain | internal/proxy/proxy.go:966-985 | Shut down if unused, else kept as retired |
| Proxy.Proxy.ReloadChain | internal/proxy/proxy.go:316-329 | The new chain is current; with a fresh chain the invariant is kept |
| Proxy.Proxy.LearnServerScid | internal/proxy/proxy.go:680-712 | Every listed id that is new is an alias of the session and routes to it, its length registered; a known alias keeps its owner; nothing else changes |
| Proxy.Proxy.DeleteSessionAliases | internal/proxy/proxy.go:1024-1039 | Exactly the aliases that still point to the session go |
| Proxy.Proxy.DeleteSession | internal/proxy/proxy.go:896-909 | The session and what belongs to it go, every other entry stays; deleting twice changes nothing more |
| Proxy.Proxy.SelectOldest | internal/proxy/proxy.go:1168-1192 | For any visiting order the heap ends with n sessions, or all, none of them younger than one left out |
| Proxy.Proxy.StoreSession | internal/proxy/proxy.go:913-927 | Counts unless the slot was reserved, evicts a tenth from the cleanup mark on, stores |
| Proxy.Proxy.MigrateSession | internal/proxy/proxy.go:412-430 | The table's migration step |
| Proxy.Proxy.Connect | internal/proxy/proxy.go:529-567 | The table's connection step if handled; otherwise one of the reserved slots is given back |
| Proxy.Proxy.ShutdownRetiredChains | internal/proxy/proxy.go:987-1000 | Every retired chain is shut down once and forgotten |
| CappedMap.StepKeepsInv | internal/proxy/proxy.go:822-846 | Every atomic operation keeps counter = entries + reservations + owed decrements, at most the cap |
| CappedMap.UndisturbedStoreSucceeds | internal/proxy/proxy.go:822-838 | Below the cap a store that is not disturbed enters its key |
| CappedMap.EntriesChangeAsAsked | internal/proxy/proxy.go:822-846 | Stores and deletes touch their own key only |
| SessionSlots.StepConserves | internal/proxy/proxy.go:873-927 | Every atomic operation conserves counter = sessions + reservations + owed decrements + lost units |
| SessionSlots.UndisturbedReservationSucceeds | internal/proxy/proxy.go:873-883 | Below the limit a thread that is not disturbed gets its slot |
| SessionSlots.StoredAndDeleted | internal/proxy/proxy.go:896-927 | A stored session is there, a deleted one is gone, no other is touched |
| SessionSlots.LostOnlyGrows | internal/proxy/proxy.go:873-927 | A run loses a unit exactly at a second reservation or an overwritten session |
| WorkerPool.HashAddr | internal/proxy/pool.go:122-133 | FNV-1a over address and port in 32-bit arithmetic |
| WorkerPool.HashIsFnv1a | internal/proxy/pool.go:122-133 | The published FNV-1a values |
| WorkerPool.ShardByExample | internal/proxy/pool.go:81-81 | Hash and shard of a whole address |
| WorkerPool.RunKeepsInv | internal/proxy/pool.go:62-119 | Every interleaving of submitters, workers and closing, up to a panic if there is one, keeps each shard and submitter accountable for its part of the log |
| Shutdown.PoolRunIsARun | internal/proxy/proxy.go:359-390 | Every run of read loop and stop is a run of the pool |
| HytaleVarInt.ReadVarInt | pkg/protohytale/encoding.go:20-40 | The loop computes the groups of seven bits, cut to 32 bits, with both errors |
| HytaleVarInt.WriteVarInt | pkg/protohytale/encoding.go:44-62 | The loop writes the groups, lowest first |
| HytaleVarInt.Integers | pkg/protohytale/encoding.go:20-62 | The layout by example |
| HytaleVarInt.WriteString | pkg/protohytale/encoding.go:101-107 | Length, as a 32-bit word, then the bytes |
| Framing.NextUndoesFrame | pkg/protohytale/reader.go:51-84 | A written packet comes back exactly when its payload is within MaxPacketSize |
| Framing.FrameAllSnoc | pkg/protohytale/reader.go:185-198 | Each write appends one frame, so a writer's output is the frames of its packets |
| Framing.FrameLayout | pkg/protohytale/reader.go:185-198 | The layout by example |
| Framing.PacketWriter.Write | pkg/protohytale/reader.go:185-198 | Exactly the packet's frame is appended to the stream |
| Framing.PacketReader.Compact | pkg/protohytale/reader.go:122-127 | The unread bytes move to the front unchanged |
| Framing.PacketReader.Grow | pkg/protohytale/reader.go:129-138 | The buffer at least doubles to hold n bytes, within the larger of the initial size and twice a maximal frame |
| Framing.PacketReader.Fill | pkg/protohytale/reader.go:140-150 | Whatever the chunks, no unread byte is lost and every read gets a non-empty slice; the error is that of the stream's end, or EOF exactly when the final chunk completes the request and fits the buffer |
| Framing.PacketReader.EnsureBytes | pkg/protohytale/reader.go:115-153 | n bytes available with the unread bytes unchanged, or the same errors |

## Left out

- Sockets, deadlines, logging, configuration, signals, TLS termination and compression: input and output or foreign code.
- Clocks: idle times and the visiting order of a map are inputs of an eviction or sweep; the expiry of assemblers and pending buffers is not modelled.
- HKDF, AES and GCM: uninterpreted functions. The caching of keys in an assembler is not modelled.
- ExtractAllSCIDs: learning takes an arbitrary list of connection ids, since the walk is incomplete for Initial packets (internal/proxy/parser.go:247-262).
- Finer interleavings of the session table: a packet, a learned datagram, a sweep, a reload and a stop are one step each. A reload during a connection, two concurrent connections with one id, a learned id racing a deletion, and a stale DropSession call are not covered.
- Proxy.HandlePacket: whether a packet completes a ClientHello, what the handler chain answers and how many slots its limiters reserved are inputs; assembler and limiters are modelled in modules of their own. Forwarding to handlers and the packets buffered before a session exists are not modelled.
- Proxy.ReloadChain: the invariant is kept for a chain that was never installed before, which is what the program always passes.
- SessionSlots.OneLimiterLosesNothing: assumes at most one limiter a chain and keys that are not live; without that the counter may be inexact, and CounterIsExactExactlyWhen says when.
- Addresses: one value each; the program compares IP addresses up to representation and keys its map by their text.
- Sessions: a map value per session; the program shares a mutable object between the table and the handlers.
- Framing.Stream.Read: a read brings at least one byte or reports the end, and the chunk that comes with the end is split only where it does not fit. Other read errors and write errors are not modelled.
- WorkerPool: a run ends where the program panics. Panics inside handlers of the chain are not modelled; nor is whether the table and the assemblers lead a handler to the header walk, which is an input of the step and decided in Proxy.HandlePacket.
- ClientHello.ParseTLSClientHello: the returned raw bytes alias the buffer in the program, though its test expects a detached copy (internal/proxy/parser_test.go:128-159).
- HytaleVarInt.ReadVarInt: groups of bits that do not overlap are or-ed in the program and added here.
- Fixed-width little-endian reads, half-precision floats, packet names: finite or immediate.
