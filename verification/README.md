# Verified models of the proxy core

A Dafny 4.11 model of the hardest parts of a rule-based proxy client written in Rust, and proofs of
what those parts promise. `dafny verify dfyconfig.toml` checks everything.

| part | modules | main results |
|---|---|---|
| Route journal of the TUN device | `RouteJournal` | crash consistency over whole runs: any crash, any failing step, any number of recoveries |
| IPv6 fragments (section 4.5 of RFC 8200, section 4 of RFC 5722) | `Ipv6Wire`, `Assembler`, `Reassembly`, `ReassemblyRefinement`, `ReassemblyRuns`, `ExtensionChains`, `Fragmentation`, `FragmentationRoundTrip` | the reassembly buffer refines an ordered list of fragments over every run; extension headers survive it; reassembly undoes fragmentation |
| XTLS Vision | `TlsHello`, `Hellos`, `VisionFrames`, `Vision`, `RecordBounded` | chunk independence of the sniffer, and the commands it leads to over every run; unpadding undoes padding across the one-way switches; record-bounded reads |
| XUDP multiplexer | `XudpWire`, `XudpFrames`, `XudpSend`, `XudpRegistry` | frames never mix in any interleaving; the reader undoes the writer; no registration after a failure |
| Rules and groups | `IpSets`, `Domains`, `Rules`, `Groups`, `Selections` | exact three-valued evaluation; lazy DNS is eager DNS; the cycle check accepts exactly what `leaf` can walk |
| Fake-IP allocator | `FakeIp` | two inverse maps and their counters over every run, and the saved form that rebuilds them |
| gRPC pool | `GrpcPool` | exact load and both limits over every interleaving |

`Prelude` holds bytes and options, `Addresses` IP networks as numbers.

## How to read the model

* Code that changes things step by step is a class or a method with the loops of the source, proved
  against a specification function; the specification is then related to an independent reference.
* Concurrent code (`XudpSend`, `XudpRegistry`, `GrpcPool`) is a state machine: one action for each
  locked section, each await point and each way to fail, and results for every sequence of actions.
* The environment is nondeterministic. Transports may stall, fail, end or return any non-empty part;
  `add`, `delete` and `save` may fail with or without effect; clocks, random padding, probe results
  and the resolver's answer are parameters.
* Regular expressions, external IP matchers, host-name syntax and textual IP syntax are parameters.
  The run list of the external assembler is modelled as sorted disjoint runs with a cap as a
  parameter, so the results hold for every cap.

## What turned out not to hold

Each with a failing case and its exact condition.

* `apply` cannot always be undone. A specification with an unspecified gateway (0.0.0.0 or ::) does
  not match its own route, and after a failed save a route is added whose entry is in memory only
  (`RouteJournal.ApplyAfterFailedSaveLeaks`). `SafeAdds` is the condition, a check on the table, the
  two journals and the desired list before the call; the contract of `Apply` proves it exact.
* Lazy lookups differ from eager ones under no-resolve on an IP condition
  (`Rules.NoResolveIsNotEager`, `Rules.LazyIsEagerIff`).
* `max-streams` is ignored when `max-connections` is set, for every value of it
  (`GrpcPool.MaxStreamsHoldsIff`).
* The IPv6 counter of the fake-IP pool runs over if and only if the pool is ::/0
  (`FakeIp.NeverOverflowsIff`, `FakeIp.OverflowsOnWholeSpace`). The model wraps it as a release build
  does; a debug build stops there.

## Model

| member | source | states |
|---|---|---|
| `RouteJournal.MatchesItsOwnRoute` | crates/platform/src/desktop.rs:249-276 | a specification matches the route it creates if and only if its gateway is not an unspecified address |
| `RouteJournal.MatchesIff` | crates/platform/src/desktop.rs:249-276 | for every specification and every route: it matches if and only if its gateway is not unspecified and the route, its host bits cleared, is the one it asks for in everything but the table and, on macOS, the metric |
| `RouteJournal.MatchersAgree` | crates/platform/src/desktop.rs:249-276 | two specifications that match one route ask for the same network, interface and gateway |
| `RouteJournal.AddIsUndoneIff` | crates/platform/src/desktop.rs:365-377 | adding a route leaves the outcome of a restore unchanged if and only if the route was there or the journal owns it |
| `RouteJournal.DeleteIsHarmlessIff` | crates/platform/src/desktop.rs:392-397 | deleting a route leaves the outcome of a restore unchanged if and only if the journal owns it |
| `RouteJournal.GrowthIsHarmlessIff` | crates/platform/src/desktop.rs:369-373 | an entry may be added to the journal without changing what a restore leaves if and only if it matches only routes the journal owns already |
| `RouteJournal.JournalMayForget` | crates/platform/src/desktop.rs:385-389 | when an entry may leave the saved journal without changing what a restore leaves |
| `RouteJournal.UnspecifiedGatewaySafeIff` | crates/platform/src/desktop.rs:266-275 | with an unspecified gateway a call of apply can be undone if and only if the route is there or another entry owns it |
| `RouteJournal.ApplyAfterFailedSaveLeaks` | crates/platform/src/desktop.rs:369-377 | the failing run: after a save that failed and left the file as it was, a second apply is not safe and its route survives a crash, for every table |
| `RouteJournal.SyncedIsSafe` | crates/platform/src/desktop.rs:363-377 | with no entry in memory only and no unspecified gateway every call of apply is safe |
| `RouteJournal.Transaction.Save` | crates/platform/src/desktop.rs:347-362 | after a save that fails the file is the old or the new journal; either way no state becomes unrecoverable that was not |
| `RouteJournal.Transaction.Remove` | crates/platform/src/desktop.rs:392-397 | deletes exactly the routes the specification matches; a failure part way keeps every other route |
| `RouteJournal.Transaction.Retire` | crates/platform/src/desktop.rs:385-389 | routes first, journal entry afterwards: recoverable at each step, and both gone on success |
| `RouteJournal.Transaction.Restore` | crates/platform/src/desktop.rs:398-408 | recoverable at every step; on success the table is the original one and the journal is empty |
| `RouteJournal.Transaction.AddOne` | crates/platform/src/desktop.rs:369-376 | journal, save and add one route: recoverable throughout if and only if the condition on that route holds, for a call that succeeds |
| `RouteJournal.Transaction.AddMissing` | crates/platform/src/desktop.rs:364-377 | the first loop of apply: the whole new table and journal on success; recoverable whatever fails if the call is safe, and not if it is not and succeeds |
| `RouteJournal.Transaction.RetireObsolete` | crates/platform/src/desktop.rs:378-389 | the second loop of apply: exactly the undesired entries and their routes go |
| `RouteJournal.Transaction.Apply` | crates/platform/src/desktop.rs:363-391 | for every desired list and every journal: the whole new table and journal on success; a call that succeeds is recoverable from each of its instants if and only if it is safe, and a safe one is so whatever step fails |
| `RouteJournal.ExitMoves` | crates/platform/src/desktop.rs:363-391 | what apply leaves when the exit interface changes: the route on the new interface and not the one on the old |
| `RouteJournal.Transaction.MoveExit` | crates/platform/src/desktop.rs:363-391 | the same as a call: recoverable throughout, and on success exactly the new route and its entry |
| `RouteJournal.Transaction.Crash` | crates/platform/src/desktop.rs:307-346 | the process dies at any durable state and the journal is opened again from the file |
| `RouteJournal.Transaction.RunThenRecover` | crates/platform/src/desktop.rs:363-408 | any run of safe applies, restores and crashes from an empty journal: from every instant a restore in this process or the next leaves the table of the start, and a final restore that completes leaves exactly it |
| `Ipv6Wire.WalkHeaders` | crates/core/src/packet_ipv6.rs:43-57 | the loop over at most eight extension headers computes the recursive walk, errors included |
| `Ipv6Wire.ParseFragment` | crates/core/src/packet_ipv6.rs:61-78 | a fragment that parses is well formed: its header is inside the packet and can be rebuilt |
| `Ipv6Wire.RebuiltStatesItsLength` | crates/core/src/packet_ipv6.rs:135-139 | the cast of the rebuilt length to 16 bits loses nothing within the packet limit |
| `ExtensionChains.ChainIsWalked` | crates/core/src/packet_ipv6.rs:43-57 | the walk over any chain of at most eight extension headers ends behind it and remembers the byte that names what follows |
| `ExtensionChains.FragmentIsRead` | crates/core/src/packet_ipv6.rs:43-78 | every encoded fragment, behind any chain and with trailing bytes, parses to its key, offset, flag and payload, and to the place that names its header |
| `ExtensionChains.ChainIsRebuilt` | crates/core/src/packet_ipv6.rs:135-139 | the rebuilt packet is the original one: the same chain with the fragment header taken out, renamed at its last link, and the exact length |
| `ExtensionChains.AtomicFragmentIsUnwrapped` | crates/core/src/packet_ipv6.rs:37-94 | a single-fragment datagram behind any chain is handed on as the packet without its fragment header, whatever the table holds |
| `ExtensionChains.WholePacketIsHandedOn` | crates/core/src/packet_ipv6.rs:37-60 | a packet without a fragment header, behind any chain, is handed on with its trailing bytes cut and leaves the table alone |
| `ExtensionChains.CompletedChain` | crates/core/src/packet_ipv6.rs:37-140 | in every run a completed datagram whose fragments carry a chain is the packet with that chain and the joined payloads |
| `Assembler.AddRunAdds` | crates/core/src/packet_ipv6.rs:112-117 | adding a run to the sorted list of disjoint runs covers exactly the old positions and the new ones |
| `Assembler.CanonicalIsUnique` | crates/core/src/packet_ipv6.rs:112-117 | a set of positions has one list of runs, so the number of runs is a fact about the received bytes |
| `Assembler.FrontIsWholePrefix` | crates/core/src/packet_ipv6.rs:130-133 | the front run reaches the total if and only if every position below it was received |
| `Reassembly.Queue.Accept` | crates/core/src/packet_ipv6.rs:37-140 | the whole of accept computes the specification function, table and answer |
| `Reassembly.Queue.AcceptFragment` | crates/core/src/packet_ipv6.rs:79-140 | the table part of accept computes one step of the specification |
| `ReassemblyRefinement.InvalidIffMisfit` | crates/core/src/packet_ipv6.rs:103-116 | the nine-part validity test is exactly whether the fragment agrees with, and does not overlap, every stored one |
| `ReassemblyRefinement.CompleteIffTiled` | crates/core/src/packet_ipv6.rs:127-139 | a datagram is complete if and only if its pieces tile it, and then the packet is their concatenation |
| `ReassemblyRefinement.EntryRefines` | crates/core/src/packet_ipv6.rs:99-139 | one fragment at one entry: buffer, runs and total answer like the ordered list of pieces |
| `ReassemblyRefinement.StepRefinesReference` | crates/core/src/packet_ipv6.rs:79-140 | one fragment at the table: the same answer as the reference, and related tables afterwards |
| `ReassemblyRuns.After` | crates/core/src/packet_ipv6.rs:33-140 | after every run the table holds at most 64 entries, all of them well formed |
| `ReassemblyRuns.RunsAgree` | crates/core/src/packet_ipv6.rs:33-140 | code and reference stay related over every run of accept and expire and answer every fragment alike |
| `ReassemblyRuns.CompletedDatagram` | crates/core/src/packet_ipv6.rs:37-140 | every datagram completed in any run is the concatenation of disjoint fragments of one key that arrived in that run within 30 seconds of the first and tile it; its 16-bit length is exact |
| `ReassemblyRuns.RejectsIffRefused` | crates/core/src/packet_ipv6.rs:79-122 | a fragment that finds a place leaves a rejected datagram if and only if it is malformed, overlaps or contradicts a stored one, makes too many runs or met a rejected one |
| `ReassemblyRuns.RefusedSilences` | crates/core/src/packet_ipv6.rs:99-122 | after such a fragment nothing is handed on for its key in any run until the entry expires |
| `ReassemblyRuns.ExpireIsInvisible` | crates/core/src/packet_ipv6.rs:33-36 | a call of expire anywhere in a run changes no answer: an entry that is due takes part in nothing |
| `ReassemblyRuns.RejectedUntilExpiry` | crates/core/src/packet_ipv6.rs:99-122 | a rejected datagram hands nothing on, whatever arrives, until its entry expires |
| `Fragmentation.Fragmented` | crates/core/src/packet_ipv6.rs:143-179 | when fragment returns the packet itself, when it fails, and otherwise the frames |
| `Fragmentation.FrameLoop` | crates/core/src/packet_ipv6.rs:159-178 | the loop over the chunks builds the frames of the specification |
| `Fragmentation.FramesFollowOffsets` | crates/core/src/packet_ipv6.rs:162-177 | there is one frame for each multiple of the step, carrying the fragment at that offset |
| `Fragmentation.OffsetsAreSpaced` | crates/core/src/packet_ipv6.rs:159-162 | the offsets are a step apart and their chunks reach every byte of the payload |
| `Fragmentation.FrameParses` | crates/core/src/packet_ipv6.rs:163-176 | every frame fits the MTU and parses back to its fragment |
| `FragmentationRoundTrip.TiledIffAllFed` | crates/core/src/packet_ipv6.rs:143-179 | the stored pieces tile the datagram if and only if every frame has arrived |
| `FragmentationRoundTrip.FramesAreOwnParts` | crates/core/src/packet_ipv6.rs:143-179 | the frames of fragment are the fragments that a delivery is made of |
| `FragmentationRoundTrip.InOrderArrivalReassembles` | crates/core/src/packet_ipv6.rs:37-179 | frames in their own order need one run: nothing until the last one, and then the original bytes, for every packet and MTU |
| `FragmentationRoundTrip.ReassemblyUndoesFragmentation` | crates/core/src/packet_ipv6.rs:37-179 | frames in any order within the run cap, mixed with any other input: nothing until the last one, and then the original bytes |
| `TlsHello.Sniffer.Observe` | crates/protocol/src/vision.rs:51-102 | the loop over records consumes a chunk as its bytes one after the other would be |
| `TlsHello.FeedAllSplits` | crates/protocol/src/vision.rs:51-102 | observing a and then b leaves the state and gives the verdict of observing a + b |
| `TlsHello.VerdictEnds` | crates/protocol/src/vision.rs:51-102 | a verdict ends the observation |
| `TlsHello.BytesAgreeWithOneShot` | crates/protocol/src/vision.rs:51-150 | the incremental parser agrees with one that joins record bodies and then reads the ServerHello |
| `TlsHello.ChunkingDoesNotMatter` | crates/protocol/src/vision.rs:51-102 | however a stream is cut into calls there is at most one verdict, and it is the one-shot verdict |
| `TlsHello.ReadExtensions` | crates/protocol/src/vision.rs:129-149 | the cursor loop over the extensions computes the recursive reading, errors included |
| `TlsHello.ExtensionsReadBack` | crates/protocol/src/vision.rs:129-149 | an encoded extension list is judged by its version extensions alone |
| `TlsHello.ServerHelloReadBack` | crates/protocol/src/vision.rs:105-150 | every encoded ServerHello is judged TLS 1.3 exactly by its one version extension and its suite; two version extensions are malformed |
| `TlsHello.RecordsAreJudged` | crates/protocol/src/vision.rs:51-102 | a ServerHello message cut into any records, with anything behind it, is judged by its body |
| `TlsHello.OtherMessageIsNone` | crates/protocol/src/vision.rs:82-88 | a handshake that begins with another message never gets a verdict, however it is cut |
| `TlsHello.HelloIsRecognised` | crates/protocol/src/vision.rs:51-150 | from the wire: a ServerHello in any records is found TLS 1.3 exactly by its one version extension and its suite |
| `Hellos.OfferIsJudged` | crates/protocol/src/vision.rs:105-150 | every lawful ServerHello, with extensions or without, gets the verdict it states |
| `Hellos.JudgedIsOffer` | crates/protocol/src/vision.rs:105-150 | what gets a verdict is the encoding of a lawful ServerHello, to the byte |
| `Hellos.JudgesExactlyTheLawful` | crates/protocol/src/vision.rs:105-150 | a message gets a verdict if and only if it is the encoding of a lawful ServerHello that states it |
| `VisionFrames.FramesReadBack` | crates/protocol/src/vision.rs:313-361 | a one-shot reading of any sequence of frames, behind the user id, gives their contents and then the plain bytes, from the stream the last command names |
| `VisionFrames.SwitchAfterFrames` | crates/protocol/src/vision.rs:296-312 | behind frames of which the last has command 2 the reading leaves the outer TLS stream with all that follows still in it, whatever follows |
| `VisionFrames.LeftOfPrefix` | crates/protocol/src/vision.rs:254-363 | of a stream that is cut short a reader delivers a prefix, and switches at the same place if it switches |
| `Vision.VisionStream.FlushFrame` | crates/protocol/src/vision.rs:199-216 | partial writes and stalled flushes keep the write invariant; done means all written and flushed, and only then the switch |
| `Vision.VisionStream.PollWrite` | crates/protocol/src/vision.rs:366-411 | what is accepted is what was there before and the bytes reported; before the switch a non-empty write queues exactly one frame of up to 8171 bytes, with the command and padding that both streams call for; a write that is not ready changes neither |
| `Vision.WatchesServer` | crates/protocol/src/vision.rs:20-30 | the sniffer after any delivered chunk is a function of the two streams: TLS 1.3 exactly if their one-shot reading says so, and the budget that is left |
| `Vision.WatchesClient` | crates/protocol/src/vision.rs:20-43 | the same after any framed chunk: TLS exactly if a ClientHello was sent or a ServerHello delivered |
| `Vision.FrameIsFitted` | crates/protocol/src/vision.rs:381-394 | within the budget a frame has command 2 if and only if it begins with application data and TLS 1.3 was read, command 1 if and only if it begins with other TLS application data or eight bytes showed no TLS; beyond the budget it ends the framing; and how much padding |
| `Vision.VisionStream.QueueFrame` | crates/protocol/src/vision.rs:395-409 | the queued bytes are the encoded frame, with the user id in front of the first one |
| `Vision.VisionStream.WriteSwitchIsExact` | crates/protocol/src/vision.rs:199-216 | a byte on the wire is raw if and only if it follows the only command-2 frame, and write-direct is on only after that frame is written and flushed |
| `Vision.VisionStream.PollResponse` | crates/protocol/src/vless.rs:250-283 | the response header and its addons are skipped over any number of polls, and a wrong version is final |
| `Vision.VisionStream.InnerRead` | crates/protocol/src/vless.rs:245-285 | a read below the frames: the next bytes behind the response header, from TLS or raw |
| `Vision.VisionStream.PollContent` | crates/protocol/src/vision.rs:282-295 | content is handed out up to the length the frame states |
| `Vision.VisionStream.SkipPadding` | crates/protocol/src/vision.rs:296-305 | padding is consumed without loss of what follows |
| `Vision.VisionStream.FillHeader` | crates/protocol/src/vision.rs:313-329 | a frame header is collected over any number of polls |
| `Vision.VisionStream.TakeHeader` | crates/protocol/src/vision.rs:330-356 | a whole header is a frame, plain data without the user id, or an error |
| `Vision.VisionStream.PollPlain` | crates/protocol/src/vision.rs:273-281 | after the switch everything passes through, buffered bytes first |
| `Vision.VisionStream.NextFrame` | crates/protocol/src/vision.rs:296-356 | between two frames nothing is lost; read-direct turns on only behind a frame of command 2 whose content and padding are consumed |
| `Vision.VisionStream.PollRead` | crates/protocol/src/vision.rs:254-363 | what a poll returns and what is left are together what was left before; an empty read means a clean end; no raw byte is touched before the switch |
| `Vision.VisionStream.DirectIsSwitched` | crates/protocol/src/vision.rs:306-312 | a direct reader stands exactly where the one-shot reading leaves the outer TLS stream, behind a command-2 frame |
| `Vision.UnpaddingUndoesPadding` | crates/protocol/src/vision.rs:199-411 | a reader of everything that any writer has put on the wire, behind any version-0 response, has exactly the accepted bytes to deliver |
| `Vision.WireReadsAsPrefix` | crates/protocol/src/vision.rs:199-411 | at any moment, with a frame half written: a reader of the wire so far delivers a prefix of what was accepted, and switches only at the end of a whole command-2 frame |
| `Vision.ReadAll` | crates/protocol/src/vision.rs:254-363 | any reads: received and left bytes add up, and a direct reader has left in the outer TLS stream exactly what the one-shot reading leaves there |
| `Vision.ReadsUpToTheSwitch` | crates/protocol/src/vision.rs:254-363 | against any peer, a reader that goes direct leaves exactly what follows the command-2 frame unread |
| `Vision.Exchange` | crates/protocol/src/vision.rs:254-411 | any traffic of one side keeps both halves of its state and its sniffer, accepts exactly what it reports, and has heard exactly the content received before plain data |
| `Vision.CommandsFollowTheStreams` | crates/protocol/src/vision.rs:254-411 | over every run of one stream, each frame has the command and padding that the content delivered before it and the content framed so far call for |
| `Vision.EndToEnd` | crates/protocol/src/vision.rs:199-411 | any writes, reads and flushes of one side and any reads of the other: what is received is a prefix of what was accepted, all of it at the end of a flushed stream, and a direct reader has read exactly the response header and the frames, the last of command 2 |
| `RecordBounded.NoEdgeInside` | crates/protocol/src/record.rs:62-97 | the only places inside a stream of records that a read may not cross are header ends and record ends |
| `RecordBounded.RecordStream.PollRead` | crates/protocol/src/record.rs:49-98 | a poll is transparent, crosses no edge, and takes the first byte of a record after exactly one own Pending |
| `RecordBounded.RecordStream.TakeHeader` | crates/protocol/src/record.rs:78-89 | a header is collected in its buffer, and a whole one gives the length of the body |
| `RecordBounded.RecordStream.ReadBody` | crates/protocol/src/record.rs:90-96 | the body is read up to its end and no further |
| `RecordBounded.RecordStream.PollReadRaw` | crates/protocol/src/record.rs:38-45 | a raw read is transparent and clears the pending yield |
| `RecordBounded.RecordStream.PollAll` | crates/protocol/src/record.rs:16-99 | every run of polls with any buffers satisfies the independent description of a bounded reading |
| `RecordBounded.OutputIsPrefix` | crates/protocol/src/record.rs:48-99 | put together, the answers of a run are a prefix of the inner stream |
| `XudpWire.AddressReadBack` | crates/protocol/src/vless.rs:171-218 | an encoded address decodes to itself and its length, whatever follows |
| `XudpWire.TruncatedAddressFails` | crates/protocol/src/vless.rs:191-218 | every proper prefix of an encoded address is an error |
| `XudpWire.PacketReadsBack` | crates/protocol/src/xudp.rs:338-358 | every frame states its two lengths, and at the places they give stand the id, the status, the target, the global id of a first frame and the payload |
| `XudpWire.FrameReadBack` | crates/protocol/src/xudp.rs:189-242 | a data, keepalive or end frame is read back as its event and its length, whatever follows |
| `XudpWire.Demultiplexer.ReadAll` | crates/protocol/src/xudp.rs:223-263 | the reader loop computes the specification, up to the first malformed frame: the table, and the channels of the sessions that were ended |
| `XudpWire.StreamIsEvents` | crates/protocol/src/xudp.rs:223-263 | reading a concatenation of frames is applying their events in order |
| `XudpWire.SessionsReceiveTheirs` | crates/protocol/src/xudp.rs:249-263 | for every stream of events a session stays in the table if and only if its end does not come; its channel gets exactly its own packets before that, in order, and then the notice, as far as it has room |
| `XudpWire.ReaderUndoesPacket` | crates/protocol/src/xudp.rs:189-358 | the same from bytes, ends included: the reader undoes packet and close frames for every id in the table |
| `XudpWire.ReceivedInOrder` | crates/protocol/src/xudp.rs:249-305 | with receives in between, before the end and after it, nothing is lost or reordered while the channel has room |
| `XudpWire.StrangersReceiveNothing` | crates/protocol/src/xudp.rs:249-263 | an id that is not in the table stays out of it and its channel unchanged, whatever the peer sends |
| `XudpFrames.LawfulIsRead` | crates/protocol/src/xudp.rs:189-242 | every frame of the grammar is read as what it says and its length, whatever follows |
| `XudpFrames.ReadIsLawful` | crates/protocol/src/xudp.rs:189-242 | what the reader takes is a frame of the grammar, to the byte |
| `XudpFrames.ReadsExactlyTheLawful` | crates/protocol/src/xudp.rs:189-242 | the reader goes on if and only if a frame of the grammar is in front of it: NEW frames, unknown flags, keepalives with data and trailing metadata end it |
| `XudpSend.StepKeepsInv` | crates/protocol/src/xudp.rs:277-334 | every step of sends, failures, cancellations and close frames keeps the invariant of the writer |
| `XudpSend.StepKeepsBuilt` | crates/protocol/src/xudp.rs:282-283 | every frame that waits or was started is the packet of its own session |
| `XudpSend.FramesNeverMix` | crates/protocol/src/xudp.rs:159-180 | in every interleaving the output is a row of frames, no data frame starts behind a truncated one, and each session emits its own packets: one NEW and then only KEEPs |
| `XudpSend.CommitMeansWritten` | crates/protocol/src/xudp.rs:286-295 | a send about to return Ok has its whole frame on the wire behind whole frames only |
| `XudpSend.UsableWhileAlive` | crates/protocol/src/xudp.rs:277-296 | in every run, on a live multiplexer, a session between two sends can send again unless a send of it was cancelled |
| `XudpSend.StuckForGood` | crates/protocol/src/xudp.rs:281-283 | a session whose send was cut off never sends again, in any continuation |
| `XudpSend.SendsAgain` | crates/protocol/src/xudp.rs:292-294 | after a commit the session and the writer are free, and the next packet goes out as a KEEP |
| `XudpSend.NoFrameAfterFailure` | crates/protocol/src/xudp.rs:164-180 | once the multiplexer has failed no data frame is begun, whatever the sessions still try |
| `XudpSend.CloseFrameEnds` | crates/protocol/src/xudp.rs:249-250 | a close frame is read by the other side as the end of its session |
| `XudpRegistry.FoundIff` | crates/protocol/src/xudp.rs:110-115 | an id is found if and only if fewer than 65536 are taken, for every start of the counter, and it is free |
| `XudpRegistry.Registry.Register` | crates/protocol/src/xudp.rs:108-122 | the loop of wrapping increments registers under the first free id and changes nothing else |
| `XudpRegistry.StepKeepsInv` | crates/protocol/src/xudp.rs:101-180 | every step of registrations, removals, reads and the failure keeps the invariant of the table |
| `XudpRegistry.AllReceiversClosed` | crates/protocol/src/xudp.rs:172-180 | once the table was swept and the reader has let go, no session has a sender left, in every run |
| `XudpRegistry.SweepCloses` | crates/protocol/src/xudp.rs:172-180 | after a failure the sweep is possible as soon as the table is not locked, and leaves no sender but the one the reader holds |
| `XudpRegistry.LateCallIsRefused` | crates/protocol/src/xudp.rs:106-109 | a call that comes after the failure is refused at its first look, whatever the others do |
| `XudpRegistry.FreedIdRests` | crates/protocol/src/xudp.rs:110-122 | an id that was given out and freed is given again next if and only if every other one is taken |
| `XudpRegistry.NothingAfterSweep` | crates/protocol/src/xudp.rs:101-135 | after the sweep no interleaving adds a route, returns a session or opens a receiver |
| `XudpRegistry.RoutesOnlyLeaveByRemoval` | crates/protocol/src/xudp.rs:108-122 | registering never replaces a route; only a removal or the sweep takes one away |
| `XudpRegistry.LiveIdsDiffer` | crates/protocol/src/xudp.rs:101-135 | two sessions that are registered at the same time have different ids, in every run |
| `IpSets.SortingSorts` | crates/config/src/rule.rs:85-85 | the sorted ranges are a permutation in the order of pairs |
| `IpSets.Merged` | crates/config/src/rule.rs:86-95 | the merge loop yields ranges that do not touch and have the same members |
| `IpSets.RangeIsValid` | crates/config/src/rule.rs:73-83 | network and broadcast address of every network form a range inside the address space |
| `IpSets.NewIpSet` | crates/config/src/rule.rs:68-99 | the index built from any list of networks answers for every address like a scan of the list |
| `IpSets.PartitionPoint` | crates/config/src/rule.rs:105-105 | the bisection finds the number of ranges that start at or below the address |
| `IpSets.OnlyTheLastCanHold` | crates/config/src/rule.rs:105-106 | only the last of those ranges can hold the address |
| `IpSets.Matches` | crates/config/src/rule.rs:100-107 | the search answers like membership in some range, xor inverse |
| `IpSets.IndexAgreesWithScan` | crates/config/src/rule.rs:67-107 | for every list, address and value of inverse: some network contains it, xor inverse |
| `Domains.UnderIsABoundary` | crates/config/src/rule.rs:265-265 | lying under a domain is ending in it at a label boundary, both ways |
| `Domains.UnderMeans` | crates/config/src/rule.rs:265-265 | lying under a domain is being it, or a name, a dot and the domain |
| `Domains.NormalisedIs` | crates/core/src/lib.rs:424-424 | the normal form is the host without the dots at its end, letter by letter the same up to case, and none in upper case |
| `Domains.Matches` | crates/config/src/rule.rs:43-59 | the walk over the labels finds exactly what the exact, suffix, keyword and regex members describe one by one |
| `Domains.NormalisedTwice` | crates/core/src/lib.rs:424-424 | normalising a normalised host changes nothing |
| `Rules.PlainMeans` | crates/config/src/rule.rs:262-285 | what a suffix, a keyword and a list of port ranges mean, by the parts of the host and by the ranges |
| `Rules.EvaluatePlain` | crates/config/src/rule.rs:262-289 | each condition without an address computes its meaning |
| `Rules.Evaluate` | crates/config/src/rule.rs:255-307 | the verdict is given if and only if it is the only value the condition can still take, with every resolvable IP condition free |
| `Rules.EvaluateNodes` | crates/config/src/rule.rs:290-304 | the loop with its unknown flag is exact for both and and or |
| `Rules.SettledIsTwoValued` | crates/config/src/rule.rs:255-307 | when nothing can be resolved, evaluation is the two-valued meaning |
| `Rules.EveryOutcomeIsPossible` | crates/config/src/rule.rs:255-307 | whatever the address turns out to be, the two-valued meaning is among the possible values |
| `Rules.EarlyVerdictIsFinal` | crates/config/src/rule.rs:254-307 | a verdict given before the lookup is the meaning after any lookup |
| `Rules.RuleMatches` | crates/core/src/lib.rs:426-444 | one round of the loop: asks exactly when the rule needs the address, and decides by its meaning on what is then known |
| `Rules.LazyIsEager` | crates/core/src/lib.rs:422-454 | for every rule list without no-resolve on an IP condition and every lookup outcome, the lazy choice is that of a reference which resolves first |
| `Rules.LazyIsEagerIff` | crates/core/src/lib.rs:422-454 | for every list, query and lookup outcome the lazy choice is the eager one if and only if every rule reachable before the lookup means the same with the address; a rule that does not has an IP condition under no-resolve |
| `Rules.NoResolveIsNotEager` | crates/core/src/lib.rs:426-444 | that condition fails for no-resolve on a network, for every network and address in it |
| `Rules.RuleLoop` | crates/core/src/lib.rs:422-454 | the loop on a normalised query chooses the first rule that holds on what is known by then, and asks the resolver at most once |
| `Rules.ChooseRule` | crates/core/src/lib.rs:422-460 | the rule loop: which rule every list chooses, when that is the eager choice, and that it looks up at most once, exactly when a rule needs it before the decision |
| `Groups.Visitor.Visit` | crates/config/src/lib.rs:580-598 | accepts a name if and only if every walk from it has known names only, meets no group of the path and nothing twice; leaves the path as it was |
| `Groups.InsertNames` | crates/config/src/lib.rs:566-571 | accepts names if and only if none is empty, reserved or repeated |
| `Groups.ValidateGroups` | crates/config/src/lib.rs:566-601 | accepts a configuration if and only if names are fresh, groups are not empty and every walk is good |
| `Selections.AcyclicReachesNode` | crates/core/src/lib.rs:465-485 | without a cycle every selection leads every name to a node within the bound |
| `Selections.AcyclicIffLeafEnds` | crates/core/src/lib.rs:477-484 | the bounded walk finds a node for every name under every selection if and only if the groups have no cycle |
| `Selections.AcceptedIffLeafEnds` | crates/config/src/lib.rs:575-601 | given usable names and known members, the check accepts if and only if no choice of selections can make leaf report a cycle |
| `Selections.FlatGroups` | crates/config/src/lib.rs:566-601 | groups without groups in them are accepted if and only if each member is DIRECT, REJECT or a node; GLOBAL is no member |
| `Selections.Policy.GlobalLeads` | crates/core/src/lib.rs:465-485 | GLOBAL leads where the first group leads, else to the first node, else to DIRECT; a name that is no group leads to itself |
| `Selections.Policy.constructor` | crates/core/src/lib.rs:175-178 | selects the first member of every group |
| `Selections.Policy.Choose` | crates/core/src/lib.rs:486-504 | changes the selection if and only if the group has the member |
| `Selections.Policy.Retest` | crates/core/src/lib.rs:342-366 | the delays afterwards are the old ones with the last successful probe of each target; picks the first of the fastest probes and switches exactly when it beats the delay now known of the selected member by the tolerance; the selected member is then within the tolerance of the best, if that was the last probe of its target |
| `Selections.RoundCompares` | crates/core/src/lib.rs:355-364 | a round compares the best probe with the last measurement of the selected member in that round, or with what was known before if none succeeded |
| `Selections.MeasuredNext` | crates/core/src/lib.rs:990-994 | one more successful probe changes the delay of its target and of nothing else |
| `Selections.Policy.Restore` | crates/core/src/profile.rs:27-39 | takes from a saved profile exactly what still exists |
| `Selections.Policy.Leaf` | crates/core/src/lib.rs:465-485 | always ends in groups + 1 rounds, at a node that exists |
| `Selections.Policy.LeafAfter` | crates/core/src/lib.rs:354-504 | after every sequence of selections, url tests and profiles, leaf ends at a node |
| `FakeIp.FakeMap.FakeAddress` | crates/core/src/dns.rs:673-708 | fails exactly when the pool or the capacity is exhausted; an old address stays; a new one is the next of its pool and was in no map; the state stays valid if and only if the 128-bit counter does not run over |
| `FakeIp.FakeMap.Export` | crates/core/src/dns.rs:175-183 | lists every entry once, in any order |
| `FakeIp.FakeMap.Import` | crates/core/src/dns.rs:184-224 | all or nothing: succeeds if and only if no entry is bad or repeated, and then the maps hold exactly the entries and the counters fit |
| `FakeIp.InverseIsUnique` | crates/core/src/dns.rs:216-220 | the map by address determines the map by name |
| `FakeIp.CountedIsUnique` | crates/core/src/dns.rs:202-213 | the map by address determines the counters |
| `FakeIp.ExportThenImport` | crates/core/src/dns.rs:175-224 | importing an export rebuilds the same maps and counters |
| `FakeIp.NeverOverflowsIff` | crates/core/src/dns.rs:683-691 | the IPv6 counter has a successor in every valid state if and only if the pool has at least one prefix bit |
| `FakeIp.OverflowsOnWholeSpace` | crates/core/src/dns.rs:184-224 | the failing run on ::/0: one saved address and one request run the counter over |
| `FakeIp.Serve` | crates/core/src/dns.rs:172-174 | over every run of requests, up to one that runs the counter over on ::/0, an answer still belongs to its request, so two answers are equal if and only if their requests are |
| `GrpcPool.Least` | crates/protocol/src/grpc.rs:103-106 | the chosen connection is in the pool and none there has a smaller load |
| `GrpcPool.DialsIff` | crates/protocol/src/grpc.rs:88-108 | a call dials if and only if the pool is empty, or there is room for a connection and each has at least one stream and min-streams, or only max-streams is set and each is full; with no limits it always reuses |
| `GrpcPool.StepKeepsInv` | crates/protocol/src/grpc.rs:88-274 | every step of connects, cancellations, stream drops and losses keeps the invariant of the pool |
| `GrpcPool.ActiveIsExact` | crates/protocol/src/grpc.rs:123-146 | in every run the load of a connection is its leases not handed over and its open streams |
| `GrpcPool.NoUnderflow` | crates/protocol/src/grpc.rs:140-146 | in every run whoever is about to drop a use finds the load above zero |
| `GrpcPool.NoLeaseLeaks` | crates/protocol/src/grpc.rs:123-274 | in every run a call that fails, is cancelled or finds its connection dead gives back its lease, and the guard where it ends, and nothing else; a sent call keeps its lease until its stream is dropped |
| `GrpcPool.LostStaysLost` | crates/protocol/src/grpc.rs:110-121 | a connection that is out of the pool never comes back, in any run |
| `GrpcPool.DroppedIsNeverReused` | crates/protocol/src/grpc.rs:110-176 | a connection that was lost or found dead is never given to a call again, whatever came before and comes after |
| `GrpcPool.PoolIsBounded` | crates/protocol/src/grpc.rs:156-220 | in every run the pool holds at most max-connections |
| `GrpcPool.LoadIsBounded` | crates/protocol/src/grpc.rs:88-108 | in every run with only max-streams no connection carries more |
| `GrpcPool.LoadIsUnbounded` | crates/protocol/src/grpc.rs:92-93 | with any limit on the connections some run loads one of them above any bound |
| `GrpcPool.MaxStreamsHoldsIff` | crates/protocol/src/grpc.rs:92-96 | max-streams limits the load in every run if and only if max-connections is not set |

## Left out

- Update in place across threads: `XudpSend`, `XudpRegistry` and `GrpcPool` work on values, one state per step; atomics are sequentially consistent there.
- Close frames of XUDP take part in `XudpSend` but the no-data-behind-a-truncated-frame result is about data frames; a close task dropped with its runtime is not modelled.
- That dropping an XUDP session removes only its own route: after a peer END and a full turn of the ids the drop acts on a reused id.
- The XUDP and UDP sessions that do not share a connection, and the socket side of `recv`.
- FrameIsFitted: beyond the byte budget of `InnerTls` a frame of a TLS 1.3 connection has command 2 only if it could have it within the budget, or ends the framing with command 1, or has command 0; which one depends on how the bytes were cut into calls.
- `poll_shutdown` and the write side of `RecordBoundedStream`, which pass everything through.
- TLS itself, REALITY and the outer record layer: the two byte streams above and below the switch are given.
- The lock, the size limit and the parsing of the journal file, the filter on live interfaces at recovery, and the DNS servers in the journal.
- That every desired route is present after `apply`: `matches` ignores the interface name, so a rename alone can retire a shared route; `Apply` states the table it does leave.
- The parts of `validate` that are not about groups, including the positive interval of a group.
- Parsing of rules and of the configuration, binding of references to loaded resources, and the modes that bypass the rules.
- The DNS exchange and its cache, resource downloads, listeners, the controller interface and the packet loop.
- Several gRPC pools under one hashed guard, and pools whose callers disagree on the limits.
- Framing of gRPC messages, WebSocket frames, Hysteria and traffic counters.
- RunThenRecover: issues an `apply` only when it is safe; what an unsafe one does is in the contract of `Apply`.
- ExportThenImport: requires normal names that pass the syntax check; the query path stores names in normal form.
- Retest: takes the results of the probes as given and does not model that probes of several groups overlap in time.
