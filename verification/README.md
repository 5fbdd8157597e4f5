# A verified model of msomeip

msomeip is a C++17 stack for SOME/IP: messages and their octets, segmentation of large messages
(SOME/IP-TP), Service Discovery, UDP and TCP transports, request bookkeeping, and a shared-memory
registry. This project models that behaviour in Dafny and proves what holds over every input, every
order of arrival and every run. `dafny verify dfyconfig.toml` checks all of it.

## What is proved

* **Large messages come through, exactly when.** `TpRuns.RoundTripExactly`: the segments of a message may
  arrive in any order, any number of times, between deliveries for other request ids, attempts to take
  messages, and sweeps within the timeout. At the delivery that completes the set, taking the message
  gives back the sender's message if and only if (1) the last segment starts below 2^24, (2) the size of
  the last piece is still right after the piece was moved away, and (3) the protocol version is 1.
  `TpRuns.TransferCompletes` says the segment is reported complete at that delivery and at none before;
  `TpRuns.TransferFails` says that otherwise no run of any length gives the message back;
  `TpRuns.ConcurrentTransfers` covers any number of transfers at once.
* **The same on the wire.** `EndToEnd.SegmentedEndToEnd` and `EndToEnd.WholeEndToEnd` compose segmenter,
  codec, receive path and reassembler. Over a whole sequence of arrivals a transfer hands on exactly one
  message, the sender's, at the arrival that completes it (`EndToEnd.HandedOnOnce`), and over any arrivals
  one for each completed set (`EndToEnd.HandedOnPerSet`). From the sending call on: once all that it put on
  the wire has arrived, the message was handed on (`EndToEnd.SentIsHandedOn`, `EndToEnd.SentWhole`).
* **Completeness of a buffer is exact** for arbitrary stored pieces (`TpReassembly.IsCompleteBuffer`), and
  request ids do not interfere (`TpTransfer.NonInterference`).
* **TCP framing does not depend on chunks** (`TcpFraming.ReceiveAll`), decodes what was framed up to the
  first frame over 4096 octets (`TcpFraming.FramingExactly`), and so the reliable path carries a message
  if and only if its payload has at most 4080 octets (`TcpFraming.ReliableExactly`).
* **Service Discovery.** The parser inverts the message layout (`SdMessages.ParseLayout`). The discovered
  services, the availability notices, the subscribers and the pending subscriptions are functions of the
  events so far (`DiscoveryHistory`), also after whole messages (`DiscoveryHistory.MessageExtendsHistory`), and
  what an offer stores and what a subscription needs is stated field by field (`SdRegistry.OfferExactly`,
  `SdRegistry.SubscribeExactly`).
* **Shared memory.** The ring is a FIFO queue over all interleavings (`ShmRing.RingIsFifo`); the registry
  scan returns the endpoints of the first matching record (`RegistryScan.LookupExactly`), and in an area
  that ends anywhere, even inside a record, what of them lies in it (`RegistryScan.LookupWithin`,
  `RegistryScan.LookupTruncated`).
* **Bookkeeping.** The table of pending requests and the promises that were set are functions of the events
  (`PendingHistory.PendingRefinesHistory`), a promise is set twice in exactly the runs that
  `PendingHistory.SetTwiceExactly` describes, and entries and promises stay in step exactly when no send
  fails (`PendingRequests.InStepExactly`). A response with the client and session of a waiting request resolves
  it (`PendingHistory.ResponseResolves`). The endpoint index never selects a connection of another endpoint
  before 2^32 ids were drawn (`ConnectionIndex.IndexAgrees`), and what it holds is a function of the events
  (`ConnectionIndex.IndexRefinesHistory`).
* **Typed payloads** read back as they were appended in any mix of byte orders: `Payloads.AppendThenRead`
  on the object, by `Payloads.ItemsRoundTrip` on the octets.

## Where the code does not do what it is for

The model keeps the code as it is. These are properties the code has only under a condition, each with
the condition and an example.

* `src/tp/tp_reassembler.cpp:55` moves the last piece into the table and line 59 then reads its size. C++
  leaves that size unspecified, so the model passes it through a parameter, `residue`, from the size before
  the move to the size read after it. Condition (2) above is that `residue` keeps the size of the last
  piece. With the usual libraries, where a vector that was moved from is empty, it never does:
  `TpRuns.EmptiedNeverCompletes`, `TpRuns.EmptiedExample`.
* The offset field has 24 bits and wraps: condition (1). On the unreliable path 2^24 + 1392 octets never
  come through (`TpRuns.WrapExample`).
* A full segment of the reliable path has 4095 + 4 + 16 octets, more than the 4096 its receiver accepts:
  `TcpFraming.ReliableExactly`. So 4081 octets are sent, and lost (`TcpFraming.ReliableExample`).
* A send that reaches no endpoint sets its promise but leaves the entry. The promise is set again exactly
  when the same request is also claimed, before the failure or after it, while no later request took its id:
  by a response, by a sweep that finds it overdue, or by a stop (`PendingHistory.SetTwiceExactly`). Both
  orders happen (`PendingHistory.FailedSendExample`, `PendingHistory.ClaimedSendExample`); a failed send
  alone does no harm (`PendingHistory.FailedAloneExample`).
* Closing a connection removes the index entry of its endpoint, whoever owns it. Removing an entry is
  harmless exactly when the endpoint selects no connection at that moment (`ConnectionIndex.UnindexExactly`);
  a close without a step in between keeps all other connections selected exactly when the entry is not that
  of another live connection (`ConnectionIndex.PromptClose`). Over a run, an endpoint is indexed exactly when
  its latest entry was not withdrawn since (`ConnectionIndex.IndexRefinesHistory`). Both a late and a prompt
  close can hide a live connection (`ConnectionIndex.LateUnindexExample`, `ConnectionIndex.PromptCloseExample`).
* A payload over 256 octets is cut in its ring slot, and the draining side reads on behind the slot: what
  comes out is the payload exactly when it fits or what follows happens to continue it (`ShmRing.SlotReadsOn`,
  `ShmRing.SlotExample`).
* The registry scan makes sure of 16 octets of a record's head and reads 18. It reads behind its area exactly
  when the area ends 16 or 17 octets into a head that it comes to (`RegistryScan.OverrunsExactly`,
  `RegistryScan.OverrunExample`). As long as memory goes on there, the result does not depend on what was read
  (`RegistryScan.ScanAgrees`); if memory ends with the area, the scan stays in memory exactly when it does not
  overrun (`RegistryScan.MappedExactly`).
* Both IPv4 options declare 9 octets where 10 follow the length field. An option is therefore taken exactly
  when 11 octets of the declared area are left, one less than it has (`ServiceEntries.DecodeEncodeOption`);
  in an area of 11 octets the low octet of its port is whatever follows (`ServiceEntries.ShortAreaExample`).

Where the code differs from PRS "SOME/IP Protocol Specification", sections 4.1.2 and 4.2.1.4, the model follows
the code: the length field of a message counts the payload only, and the TP word is a byte offset of 24 bits
with the more flag in bit 0.

## Layout

`Bytes`, `Arithmetic`, `Ordered` and `Clock` are shared. Each other module follows one part of the program:
`Messages`, `TpTypes`, `TpSegmenter`, `TpReassembly`, `MessageRuntime`, `TcpFraming`, `ServiceEntries`,
`SdMessages`, `SdRegistry`, `ShmRing`, `RegistryScan`, `PendingRequests`, `ConnectionIndex`, `Payloads`.
`TpTransfer`, `TpRuns`, `EndToEnd`, `DiscoveryHistory` and `PendingHistory` hold the theorems over runs. Objects
the program changes in place are classes whose methods are proved against functions of the old state; the
theorems are about those functions.

## Model

| member | source | states |
|---|---|---|
| `Messages.Serialize` | src/message/message.cpp:142-180 | serializing pushes the 16 header octets, then the payload |
| `Messages.EncodedOctets` | src/message/message.cpp:142-180 | the octets of a message one by one, as shifts and masks of its fields |
| `Messages.WireExactly` | src/message/message.cpp:66-114 | what a receiver can know of a message: every header field and the payload, and nothing else |
| `Messages.SameRequestId` | src/message/message.cpp:129-131 | two messages share a request id iff they share client and session |
| `Messages.Deserialize` | src/message/message.cpp:66-114 | parsing rejects short input, another version and a truncated payload, and otherwise reads every field |
| `Messages.DecodeEncode` | src/message/message.cpp:66-180 | a message comes back from its octets iff its version is 1 and its payload is below 2^32 octets |
| `Messages.EncodeDecode` | src/message/message.cpp:66-180 | which octet strings parse, and that an exact-length one comes back from the parse result |
| `Bytes.BigByShifts` | src/message/message.cpp:152-157 | the octets of a word are its shifts by 24, 16, 8 and 0, each cut to eight bits |
| `TpTypes.FromToNetwork` | include/msomeip/tp/tp_types.h:27-39 | a TP header comes back from its word, whatever follows it |
| `TpTypes.ToFromNetwork` | include/msomeip/tp/tp_types.h:27-39 | every word of four octets comes back from the header it parses to |
| `TpTypes.HeaderOctets` | include/msomeip/tp/tp_types.h:24-30 | the four octets of a header: 24 bits of offset, seven zero bits, the more flag |
| `TpSegmenter.TpTypeExactly` | src/tp/tp_segmenter.cpp:58-79 | which types are segmented, and as which TP type each travels |
| `TpSegmenter.CeilingCounts` | src/tp/tp_segmenter.cpp:14-17 | the segment count is the number of pieces taken off one by one |
| `TpSegmenter.Segment` | src/tp/tp_segmenter.cpp:19-122 | the loop yields segment i for each i; a small message travels whole; a large one of another type gives nothing |
| `TpSegmenter.WholeSame` | src/tp/tp_segmenter.cpp:19-56 | a message that travels whole is the same on the wire |
| `TpSegmenter.SegmenterPartition` | src/tp/tp_segmenter.cpp:81-119 | ceil(n/max) pieces starting at i*max, all but the last full, the last not empty, only the last without the more flag, data concatenating to the payload, each serialized piece at most max + 20 octets, all other fields those of the message |
| `TpReassembly.IsCompleteBuffer` | src/tp/tp_reassembler.cpp:72-93 | the walk returns true iff the last piece was seen and the pieces tile [0, total) |
| `TpReassembly.JoinSegments` | src/tp/tp_reassembler.cpp:128-134 | octet k of the joined payload comes from the one piece that covers k |
| `TpReassembly.TpReassembler.AddSegment` | src/tp/tp_reassembler.cpp:14-65 | the new table, and that completion is reported iff the buffer is complete |
| `TpReassembly.RefusedExactly` | src/tp/tp_reassembler.cpp:14-22 | everything but a TP message with at least four octets leaves all buffers alone |
| `TpReassembly.SingleSegment` | src/tp/tp_reassembler.cpp:14-153 | a single last segment at offset 0, with or without data, completes at once as a message whose every field is given |
| `TpReassembly.FirstSegmentDecides` | src/tp/tp_reassembler.cpp:38-50 | later segments change nothing but the pieces and the recorded end |
| `TpReassembly.TpReassembler.IsComplete` | src/tp/tp_reassembler.cpp:67-93 | the query answers whether the id has a complete buffer |
| `TpReassembly.TpReassembler.Reassemble` | src/tp/tp_reassembler.cpp:95-153 | a complete buffer is rebuilt to a message and erased; otherwise nothing happens |
| `TpReassembly.TpReassembler.CleanupExpired` | src/tp/tp_reassembler.cpp:155-168 | the sweep removes the expired buffers and keeps all others as they were |
| `TpReassembly.SweepExactly` | src/tp/tp_reassembler.cpp:155-168 | a buffer survives iff less than timeout + 1 ms passed since its first segment |
| `TpTransfer.RunProjects` | src/tp/tp_reassembler.cpp:33-64 | seen from one request id, a run is the run of one buffer over the events that concern the id |
| `TpTransfer.NonInterference` | src/tp/tp_reassembler.cpp:33-168 | two runs that agree on an id and on its events end with the same buffer and the same message for it |
| `TpTransfer.ProgressStored` | src/tp/tp_reassembler.cpp:52-61 | storing a segment of a transfer keeps the buffer at exactly the segments that arrived, under their true offsets |
| `TpTransfer.ProgressComplete` | src/tp/tp_reassembler.cpp:72-93 | during a transfer the buffer is complete iff all segments are there and the last size was read right |
| `TpRuns.TransferCompletes` | src/tp/tp_reassembler.cpp:14-153 | completion is reported exactly when the set is complete, and the message taken is the sender's |
| `TpRuns.TransferFails` | src/tp/tp_reassembler.cpp:14-153 | when a condition fails, no run gives the sender's message back |
| `TpRuns.RoundTripExactly` | src/tp/tp_reassembler.cpp:14-153 | the round trip holds iff the offsets fit 24 bits, the last size is kept and the version is 1 |
| `TpRuns.ConcurrentTransfers` | src/tp/tp_reassembler.cpp:33-64 | transfers, no two of the same client and session, come through side by side, between unrelated deliveries, attempts to take and in-time sweeps |
| `TpRuns.EmptiedNeverCompletes` | src/tp/tp_reassembler.cpp:55-61 | if a moved-from vector is empty, no segmented message completes |
| `TpRuns.EmptiedExample` | src/tp/tp_reassembler.cpp:55-61 | three octets in two segments: all arrive, nothing completes |
| `TpRuns.WrapExample` | include/msomeip/tp/tp_types.h:17-25 | 2^24 + 1392 octets on the unreliable path: no allowed run gives the message back |
| `MessageRuntime.SendMessage` | src/runtime.cpp:145-184 | the units put on the wire, up to the first failure, and when the call reports success: then the whole message, or every segment of a large one in order, was sent |
| `MessageRuntime.DatagramsFit` | src/runtime.cpp:151-176 | every unit of the unreliable path has at most 1412 octets |
| `MessageRuntime.Runtime.OnMessageReceived` | src/runtime.cpp:196-210 | a TP message is stored and, if complete, replaced by the rebuilt one; others are handed on |
| `MessageRuntime.Runtime.ReceiveDatagram` | src/transport/udp_transport.cpp:148-155 | a datagram that parses is received as its message, others are dropped |
| `MessageRuntime.SegmentsStay` | src/runtime.cpp:196-210 | a TP message is never handed on as such, and one without a header changes nothing |
| `MessageRuntime.NothingFrom` | src/transport/udp_transport.cpp:148-155 | octets that do not parse hand nothing on and change nothing |
| `MessageRuntime.LowerRuns` | src/runtime.cpp:196-210 | the receive path is a run of the reassembler: each accepted segment is added, then taken |
| `EndToEnd.SegmentedEndToEnd` | src/runtime.cpp:145-210 | an own arrival hands on the sender's message iff it completes the set and the transfer meets its conditions; nothing is handed on earlier; the buffer is closed |
| `EndToEnd.SentUnits` | src/runtime.cpp:159-175 | what is sent for a large message are its units, all of them, nothing else, in order |
| `EndToEnd.SentIsHandedOn` | src/runtime.cpp:145-210 | once everything sent for a large message has arrived, it was handed on, at one arrival and at none before |
| `EndToEnd.SentWhole` | src/runtime.cpp:178-210 | for a small message one datagram is sent, and receiving it hands on the message |
| `EndToEnd.HandedOnOnce` | src/runtime.cpp:145-210 | over all arrivals up to the completing one the transfer hands on exactly one message, the sender's, at the end |
| `EndToEnd.HandedOnPerSet` | src/runtime.cpp:196-210 | over any arrivals, late repeats and further rounds included, the transfer hands on one message for each completed set of units |
| `EndToEnd.HandedOnFaithfully` | src/runtime.cpp:196-210 | each of these messages is the sender's |
| `EndToEnd.WholeEndToEnd` | src/runtime.cpp:178-210 | the single datagram of a small message hands it on at once iff the version is 1 and the type is not a TP type; of a type that is not, it touches no buffer |
| `TcpFraming.Socket.RecvAll` | src/transport/tcp_transport.cpp:293-298 | reading with MSG_WAITALL takes all octets asked for unless the stream ends |
| `TcpFraming.ReceiveBody` | src/transport/tcp_transport.cpp:305-317 | the partial-read loop ends and fills the buffer with exactly the announced octets, or meets the end of the stream |
| `TcpFraming.ReceiveAll` | src/transport/tcp_transport.cpp:280-325 | what is delivered is a function of the octets alone, for every chunking |
| `TcpFraming.FrameOctets` | src/transport/tcp_transport.cpp:187-204 | a frame is the length in four octets and the octets |
| `TcpFraming.FramingRoundTrip` | src/transport/tcp_transport.cpp:187-204 | decoding the framed stream gives the frames before the first oversized one |
| `TcpFraming.FramingExactly` | src/transport/tcp_transport.cpp:187-325 | the decoded messages are a prefix of those sent, all of them iff every serialization has at most 4096 octets |
| `TcpFraming.ReliableExactly` | include/msomeip/transport/tcp_transport.h:92 | the reliable path carries a message iff its payload has at most 4080 octets |
| `TcpFraming.ReliableExample` | include/msomeip/transport/tcp_transport.h:92 | 4081 octets go out whole in a frame of 4097 octets and are not heard |
| `ServiceEntries.DecodeEncodeEntry` | src/sd/service_entry.cpp:83-151 | an entry comes back iff its option counts are below 16 and its ttl below 2^24 |
| `ServiceEntries.EncodeDecodeEntry` | src/sd/service_entry.cpp:83-151 | every 16 octets come back from the entry they parse to |
| `ServiceEntries.EventgroupOctets` | src/sd/service_entry.cpp:153-155 | the event group of an entry is the number in its last two octets |
| `ServiceEntries.OptionOctets` | src/sd/service_entry.cpp:182-279 | the twelve octets of either option |
| `ServiceEntries.OptionExactly` | src/sd/service_entry.cpp:281-323 | which octets are taken for an option, and what is read off them; any other type is refused |
| `ServiceEntries.DecodeEncodeOption` | src/sd/service_entry.cpp:182-323 | an IPv4 endpoint or multicast option comes back from its octets iff at least 11 octets of the declared area are left |
| `ServiceEntries.ShortAreaExample` | src/sd/service_entry.cpp:281-323 | in an area of 11 octets the option is taken with the octet behind the area as the low octet of its port |
| `SdMessages.ParseEntries` | src/sd/service_discovery.cpp:222-232 | the entry loop yields one entry for each 16 octets of the entries array within the payload |
| `SdMessages.ParseOptions` | src/sd/service_discovery.cpp:244-254 | the option loop yields options until one does not parse or the array ends |
| `SdMessages.ParseSdMessage` | src/sd/service_discovery.cpp:205-254 | the parser, with the payloads it ignores as a whole |
| `SdMessages.ParseExactly` | src/sd/service_discovery.cpp:205-236 | which payloads are parsed at all |
| `SdMessages.ParsedEntries` | src/sd/service_discovery.cpp:222-232 | of any payload: an entry for every 16 octets of the entries array |
| `SdMessages.ParsedOptions` | src/sd/service_discovery.cpp:244-254 | of any payload: options 12 octets apart, up to the first that is none or the end of the area |
| `SdMessages.LayoutLaidOut` | include/msomeip/sd/service_discovery.h:22-37 | the encoded layout has each array behind its length |
| `SdMessages.ParseLayout` | src/sd/service_discovery.cpp:205-254 | every list of entries and options comes back, in order, from its layout |
| `SdRegistry.PeersAreEndpoints` | src/sd/service_discovery.cpp:298-307 | the endpoint options, and only they, become endpoints |
| `SdRegistry.PeersInOrder` | src/sd/service_discovery.cpp:299-307 | the endpoints stand in the order of their options, with repeats |
| `SdRegistry.LocalInfoExactly` | src/sd/service_discovery.cpp:46-61 | the registered service field by field: which port goes with which protocol |
| `SdRegistry.OfferExactly` | src/sd/service_discovery.cpp:287-314 | what an offer stores, field by field, and when it is announced |
| `SdRegistry.SubscribeExactly` | src/sd/service_discovery.cpp:316-372 | a subscription is taken iff its service is local and the handler, if any, accepts what it asks for; then every endpoint option of its message subscribes, otherwise nothing changes |
| `SdRegistry.OthersExactly` | src/sd/service_discovery.cpp:257-273 | an ACK or NACK takes the pending subscriptions of its group; other entry types change nothing |
| `SdRegistry.SweepInKeyOrder` | src/sd/service_discovery.cpp:509-517 | the sweep announces by service, then by instance |
| `SdRegistry.ServiceDiscovery.GetServiceEndpoints` | src/sd/service_discovery.cpp:183-191 | the endpoints cached for a service, or none |
| `SdRegistry.ServiceDiscovery.OfferLocal` | src/sd/service_discovery.cpp:43-63 | the registered service, with an endpoint for each transport in use |
| `SdRegistry.ServiceDiscovery.UnsubscribeGroup` | src/sd/service_discovery.cpp:119-132 | all pending subscriptions of the group go, the others keep their order |
| `SdRegistry.ServiceDiscovery.GetSubscribers` | src/sd/service_discovery.cpp:193-203 | the subscribers of the group, or none |
| `SdRegistry.ServiceDiscovery.HandleOffer` | src/sd/service_discovery.cpp:287-314 | the offer replaces the cached service and is announced if its ttl is positive |
| `SdRegistry.ServiceDiscovery.HandleSubscribe` | src/sd/service_discovery.cpp:316-372 | an accepted subscription to a local service adds its endpoints once each |
| `SdRegistry.ServiceDiscovery.HandleSubscribeAck` | src/sd/service_discovery.cpp:374-385 | an ACK or NACK removes the pending subscriptions of its group |
| `SdRegistry.ServiceDiscovery.ProcessSdMessage` | src/sd/service_discovery.cpp:205-273 | a message that parses is handled entry by entry, in order; another changes nothing |
| `SdRegistry.ServiceDiscovery.CheckTtlExpiration` | src/sd/service_discovery.cpp:505-521 | the sweep removes the expired services and announces them in key order |
| `DiscoveryHistory.CacheRefinesHistory` | src/sd/service_discovery.cpp:287-314 | a service is cached iff its latest offer outlived every sweep since; that offer is what is stored |
| `DiscoveryHistory.LatestSweepDecides` | src/sd/service_discovery.cpp:505-521 | under a non-decreasing clock only the latest sweep after the offer matters |
| `DiscoveryHistory.CachedExactly` | src/sd/service_discovery.cpp:287-314 | under a non-decreasing clock a service is cached iff it was offered and the latest sweep, if after its latest offer, was in time; that offer is what is stored |
| `DiscoveryHistory.OfferedFields` | src/sd/service_discovery.cpp:287-308 | what is cached for a service, field by field, read off its live offer |
| `DiscoveryHistory.InTimeExactly` | src/sd/service_discovery.cpp:510-512 | a sweep is in time until ttl + 1 seconds have passed |
| `DiscoveryHistory.NoticesCount` | src/sd/service_discovery.cpp:505-521 | over every run each removal is announced exactly once, and so is each positive offer |
| `DiscoveryHistory.FirstOccurrencesMeaning` | src/sd/service_discovery.cpp:354-364 | what the duplicate check amounts to: same elements, none twice, in order of first occurrence |
| `DiscoveryHistory.SubscribersRefineHistory` | src/sd/service_discovery.cpp:316-372 | the subscribers of a group are the endpoints that arrived since its last offer or stop, first occurrences only |
| `DiscoveryHistory.GroupKeepsEndpoints` | src/sd/service_discovery.cpp:134-154 | an event group keeps the endpoints it was last offered with |
| `DiscoveryHistory.GroupKeepsVersion` | src/sd/service_discovery.cpp:344-351 | its major version is that of the last subscription it took since it was offered or stopped |
| `DiscoveryHistory.LocalInfoIsLast` | src/sd/service_discovery.cpp:43-85 | a local service is registered as it was last offered |
| `DiscoveryHistory.PendingRefinesHistory` | src/sd/service_discovery.cpp:102-132 | the pending list is the subscriptions not resolved since, in the order they were made |
| `DiscoveryHistory.PendingMultiplicity` | src/sd/service_discovery.cpp:374-385 | a group is pending once for each subscription since it was last resolved |
| `DiscoveryHistory.MessageExtendsHistory` | src/sd/service_discovery.cpp:205-273 | a laid-out message extends the history by its entries, in order |
| `DiscoveryHistory.MessageOffers` | src/sd/service_discovery.cpp:256-314 | the last offer of a service in a message decides what is cached, with every endpoint option of the message |
| `ShmRing.SlotExactly` | src/shm_agent.cpp:100-120 | a command survives its slot if its payload has at most 256 octets; that a longer one does not is about the cut at 256 that this model makes |
| `ShmRing.WrittenOctets` | src/shm_agent.cpp:100-120 | writing a slot replaces its octets as far as the command reaches and keeps the others |
| `ShmRing.SlotReadsOn` | src/shm_agent.cpp:476-487 | reading the declared length from the slot on gives the payload iff it has at most 256 octets or the octets behind the slot continue it |
| `ShmRing.SlotExample` | src/shm_agent.cpp:476-487 | 257 zeros come out as they went in iff the octet behind the slot is zero |
| `ShmRing.EnqueueRefines` | src/shm_agent.cpp:91-123 | the new command is the youngest; no live slot changes |
| `ShmRing.DequeueRefines` | src/shm_agent.cpp:471-490 | the oldest command comes out; the rest stay as they were |
| `ShmRing.StepFifo` | src/shm_agent.cpp:91-123 | every step keeps the queue, and a send changes nothing iff the ring is full |
| `ShmRing.RingIsFifo` | src/shm_agent.cpp:91-123 | over all interleavings what came out and what is still in make up what was accepted, in order; write = (read + count) mod capacity |
| `ShmRing.SharedRing.SendCommand` | src/shm_agent.cpp:69-129 | sending fails iff the ring is full, and otherwise enqueues with the next sequence number |
| `ShmRing.SharedRing.ProcessAll` | src/shm_agent.cpp:471-490 | draining returns the whole queue and leaves it empty |
| `RegistryScan.ReadEndpoints` | src/shm_agent.cpp:314-336 | the read branch on any octets, with the places where it gives up |
| `RegistryScan.SkipEndpoints` | src/shm_agent.cpp:337-343 | the skip branch on any octets |
| `RegistryScan.SkipMeetsRead` | src/shm_agent.cpp:314-343 | on encoded endpoints within the area the read branch returns them all, and both branches end behind them |
| `RegistryScan.LookupServiceEndpoints` | src/shm_agent.cpp:284-344 | the scan on any octets |
| `RegistryScan.LookupWithin` | src/shm_agent.cpp:284-344 | over records in memory, wherever the area ends, the scan stays in memory and returns the endpoints of the first matching record that lie wholly in the area; the count may exceed the records the area holds |
| `RegistryScan.LookupExactly` | src/shm_agent.cpp:284-344 | for every encoded list of records the scan returns the endpoints of the first matching record, or none |
| `RegistryScan.LookupTruncated` | src/shm_agent.cpp:284-344 | when memory ends with an area that cuts the records, the scan stays in memory iff no head it comes to is cut behind 16 or 17 octets, and then returns the first match within the area |
| `RegistryScan.MappedExactly` | src/shm_agent.cpp:290-312 | on any octets: a scan that does not overrun needs no memory behind the area, one that does needs some, and two octets are enough |
| `RegistryScan.OverrunsExactly` | src/shm_agent.cpp:284-312 | over records in memory the scan reads behind the area iff the area ends 16 or 17 octets into a head that it comes to |
| `RegistryScan.OverrunExample` | src/shm_agent.cpp:290-312 | one record in an area of 16 octets: the scan reads behind it |
| `RegistryScan.ScanAgrees` | src/shm_agent.cpp:284-344 | the result depends on the octets of the area alone |
| `RegistryScan.FirstMatchMeaning` | src/shm_agent.cpp:314-336 | the first match by position |
| `RegistryScan.NoMatch` | src/shm_agent.cpp:284-344 | without a match there are no endpoints |
| `PendingRequests.ResponseId` | src/message/message.cpp:129-131 | the id a request is entered under is the one its response carries |
| `PendingRequests.OverdueExactly` | src/application.cpp:334-336 | a request is overdue once the millisecond after its timeout is full |
| `PendingRequests.StepKeeps` | src/application.cpp:28-90 | every step keeps promises and entries in step unless it ends a failed send: that sets a promise twice if its entry is gone and leaves the entry behind if not |
| `PendingRequests.ResolveOnce` | src/application.cpp:298-345 | if no send fails no promise is set twice; each is set, waiting or abandoned, and only one of these |
| `PendingRequests.InStepExactly` | src/application.cpp:61-90 | throughout a run no promise of an entry was set and none was set twice, iff no send fails |
| `PendingRequests.NoOverwrite` | src/application.cpp:53-65 | while live entries are younger than 65,536 draws, a send overwrites none |
| `PendingRequests.NothingLost` | src/application.cpp:41-90 | if no send fails and entries are that young, every promise is either set or waiting, and none is lost |
| `PendingRequests.Application.TrySend` | src/application.cpp:75-86 | the endpoint loop succeeds iff some endpoint of the right protocol takes the message |
| `PendingRequests.Application.EnterRequest` | src/application.cpp:49-64 | the session the request carries and the new state after it was entered, before anything is sent |
| `PendingRequests.Application.FinishSend` | src/application.cpp:66-90 | the new state after its send, which sets the promise again if another step set it meanwhile |
| `PendingRequests.Application.HandleResponse` | src/application.cpp:299-306 | a response resolves and removes its entry |
| `PendingRequests.Application.CleanupExpiredRequests` | src/application.cpp:329-345 | the sweep resolves and removes the overdue entries |
| `PendingRequests.Application.BeginStop` | src/application.cpp:28-29 | only a stop that finds the application running goes on |
| `PendingRequests.Application.ClearPending` | src/application.cpp:31-39 | stopping resolves and removes all entries |
| `PendingHistory.SetTwiceExactly` | src/application.cpp:61-90 | a promise is set twice iff some request failed to be sent and was claimed while its id was its own, in either order |
| `PendingHistory.PendingRefinesHistory` | src/application.cpp:298-345 | until then the table holds exactly the requests not claimed and not replaced, and the promises set are exactly those of failed or claimed requests |
| `PendingHistory.ResponseResolves` | src/application.cpp:299-306 | a response with the client and session of a waiting request sets its promise and removes its entry, and no other, unless its send failed already |
| `PendingHistory.FailedSendExample` | src/application.cpp:88-89 | a failed send, then a response: the promise is set a second time |
| `PendingHistory.ClaimedSendExample` | src/application.cpp:61-73 | a sweep between entering a request and its failure: the promise is set a second time |
| `PendingHistory.FailedAloneExample` | src/application.cpp:70-73 | a failed send alone sets its promise once |
| `ConnectionIndex.IndexAgrees` | src/transport/tcp_transport.cpp:77-141 | a live indexed id is connected to the indexed endpoint; what a check selects is live for the endpoint asked for |
| `ConnectionIndex.FreshIds` | src/transport/tcp_transport.cpp:113 | an id is never drawn twice, nor 0, before 2^32 - 1 draws |
| `ConnectionIndex.NextId` | src/transport/tcp_transport.cpp:113 | the id counter is the number of draws plus one, modulo 2^32 |
| `ConnectionIndex.LateUnindexExample` | src/transport/tcp_transport.cpp:334-363 | a late close takes a newer, live connection out of the index |
| `ConnectionIndex.UnindexExactly` | src/transport/tcp_transport.cpp:358-362 | removing the entry of an endpoint changes no selection iff the endpoint selects nothing |
| `ConnectionIndex.PromptClose` | src/transport/tcp_transport.cpp:334-363 | an uninterrupted close keeps all other connections selected iff the entry it removes is not that of another live connection |
| `ConnectionIndex.PromptCloseExample` | src/transport/tcp_transport.cpp:334-363 | two connections opened side by side: an uninterrupted close of the first hides the second |
| `ConnectionIndex.IndexRefinesHistory` | src/transport/tcp_transport.cpp:77-141 | an endpoint is indexed iff its latest entry was not withdrawn since, under the connection then entered; it selects one iff that connection is live; all read off the events |
| `ConnectionIndex.ConnectedFromEvents` | src/transport/tcp_transport.cpp:334-356 | which connection is live, and to whom, as a function of the events |
| `ConnectionIndex.ClosingFromEvents` | src/transport/tcp_transport.cpp:334-363 | how many closes still have to reach the index, as a function of the events |
| `ConnectionIndex.ConnectionTable.CheckExisting` | src/transport/tcp_transport.cpp:79-93 | the check returns a live indexed id, or drops a stale mapping |
| `ConnectionIndex.ConnectionTable.RemoveConnection` | src/transport/tcp_transport.cpp:339-356 | removal returns the endpoint of a live connection and takes it out of the table |
| `Payloads.Payload.AppendUint16` | src/message/payload.cpp:29-37 | two octets in the chosen byte order |
| `Payloads.Payload.AppendWide` | src/message/payload.cpp:53-63 | the shifting loop appends the octets in the chosen byte order |
| `Payloads.Payload.GetWide` | src/message/payload.cpp:107-121 | the accumulating loop reads the word, or fails with the cursor unmoved |
| `Payloads.Payload.GetString` | src/message/payload.cpp:130-137 | a string is read behind its length; a missing body fails with the cursor behind the length |
| `Payloads.ItemsRoundTrip` | src/message/payload.cpp:17-137 | the octets of any list of words, blocks and strings read back as that list, in any mix of byte orders |
| `Payloads.TextOctets` | src/message/payload.cpp:130-137 | a string stands behind its length in four octets |
| `Payloads.AppendItems` | src/message/payload.cpp:17-63 | appending a list of values, each by the method for its type, puts their octets behind the data |
| `Payloads.ReadEach` | src/message/payload.cpp:71-137 | reading a list of shapes, each by the method for its type, gives what the octets at the cursor say, up to the first failure |
| `Payloads.AppendThenRead` | src/message/payload.cpp:17-137 | on the object: any list appended and read back is the same list, the cursor ends at the size and stays there when a further word is asked for |
| `Payloads.NothingBeyond` | src/message/payload.cpp:65-137 | after that the cursor is at the end and no further word can be read |

## Left out

- Sockets, multicast, threads, mutexes and condition variables: receives are datagrams or chunks, each
  locked section and each access to an atomic flag is one step, and the clock is an argument in nanoseconds.
- Handler routing after a message is handed on, including the hand-over of Service Discovery messages: the
  instance id is not on the wire, so the model stops at the message produced.
- Sending by Service Discovery (`send_*`, periodic offers, retries, random delays): those messages carry a
  bare entry without the message header, and the retry count never changes.
- `find_service` requests: they only record a time.
- The subscription handler is a function of the request; a handler with state of its own is not modelled.
- The availability handler and the message callbacks are taken as installed; the recorded notices and the
  delivered messages are their calls. A stop that ends a receiving thread from outside is not modelled.
- Octets past the end of a payload: an option that would need them does not parse in the model.
- Reading past a ring slot when a declared length exceeds 256: the model cuts the payload there.
- The byte offsets of ring and registry inside shared memory, and the different slot sizes of the command
  and the response queue: one ring of record slots stands for both.
- `lookup_subscribers`: nothing fills the queue it waits on.
- What happens after a promise was set twice: the exception ends the modelled run.
- `inet_pton` and `inet_ntop`: an IPv4 address is its four octets.
- Sizes are unbounded: overflow of `size_t` is not modelled.
- The 32-bit append and read of `Payload`, and reading arrays of elements: the same octets as the 64-bit
  loops; the element reader copies memory in host order.
- Factories, setters, `to_string`, `ServiceSkeleton`, `ServiceProxy` and the `Runtime` singleton: they would
  only add easy members.
